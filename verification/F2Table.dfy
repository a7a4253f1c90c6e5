/** One `f2` table as a value: an index of 64-bit words over a fixed record arena.
    The classes in F2Engine change tables in place; the protocol in F2Protocol runs
    readers against them. Both are stated through the functions of this module. */
module F2Table {
  import opened Arith
  import opened Bits
  import opened Records
  import opened Store
  import opened Probing

  // ---- the index word: 1 tombstone bit | 15-bit tag | 48-bit offset + 1 ----

  type Word = nat

  const OFF_LIMIT: nat := 0x1_0000_0000_0000
  const TAG_LIMIT: nat := 0x8000
  const TOMB: Word := 0x8000_0000_0000_0000

  /** Fifteen middle bits of the hash. */
  function TagOf(h: nat): (r: nat)
    ensures r < TAG_LIMIT
  {
    h / 0x100_0000 % TAG_LIMIT
  }

  /** Tag and offset share no bit while off+1 < 2^48, so `|` is addition. */
  function Pack(tag: nat, off: nat): Word
    requires tag < TAG_LIMIT && off + 1 < OFF_LIMIT
  {
    tag * OFF_LIMIT + (off + 1)
  }

  /** Bits 48 to 62. */
  function TagField(e: Word): nat
  {
    e / OFF_LIMIT % TAG_LIMIT
  }

  /** Bits 0 to 47, less one. */
  function OffField(e: Word): int
  {
    e % OFF_LIMIT - 1
  }

  predicate IsEntry(e: Word)
  {
    e != 0 && e != TOMB
  }

  /** A packed word is an entry and gives back its tag and offset. */
  lemma PackRoundTrip(tag: nat, off: nat)
    requires tag < TAG_LIMIT && off + 1 < OFF_LIMIT
    ensures IsEntry(Pack(tag, off)) && Pack(tag, off) < TOMB
    ensures TagField(Pack(tag, off)) == tag && OffField(Pack(tag, off)) == off
  {
  }

  /** The code's own expressions: the packing with a shift and an or, the two fields by
      mask, and the tag of a hash by shift and mask, are the functions above. */
  lemma WordBits(tag: nat, off: nat, e: Word, h: nat)
    requires tag < TAG_LIMIT && off + 1 < OFF_LIMIT
    ensures Or(Shl(tag, 48), off + 1) == Pack(tag, off)
    ensures And(e, OFF_LIMIT - 1) - 1 == OffField(e)
    ensures And(e, Shl(TAG_LIMIT - 1, 48)) == Shl(tag, 48) <==> TagField(e) == tag
    ensures And(Shr(h, 24), TAG_LIMIT - 1) == TagOf(h)
  {
    hide Pow2, Shl, Shr, And, Or;
    Pow2Values();
    PowerIsPow2(48);
    PowerIsPow2(15);
    OrBelow(tag, off + 1, 48);
    ShlIsMul(tag, 48);
    MaskIsMod(e, OFF_LIMIT);
    AndShifted(e, TAG_LIMIT - 1, 48);
    ShrIsDiv(e, 48);
    MaskIsMod(Shr(e, 48), TAG_LIMIT);
    ShlIsMul(TagField(e), 48);
    ShrIsDiv(h, 24);
    MaskIsMod(Shr(h, 24), TAG_LIMIT);
  }

  /** The offset survives the packing exactly when it fits its 48 bits. */
  lemma OffsetSurvivesIff(tag: nat, off: nat)
    ensures And(Or(Shl(tag, 48), off + 1), OFF_LIMIT - 1) - 1 == off <==> off + 1 < OFF_LIMIT
  {
    hide Pow2, Shl, And, Or;
    Pow2Values();
    PowerIsPow2(48);
    OrBelow(tag, off + 1, 48);
    MaskIsMod(Or(Shl(tag, 48), off + 1), OFF_LIMIT);
  }

  // ---- tables ----

  datatype Tab = Tab(slots: seq<Word>, buf: Bytes, tail: nat, live: nat, used: nat)

  predicate NeedsGrow(t: Tab, key: Bytes, val: Bytes)
  {
    t.tail + |Record(key, val)| > |t.buf| || Overloaded(t.used, |t.slots|)
  }

  /** An entry points at a whole record below the tail, tagged by its key's hash. */
  ghost predicate WordOk(e: Word, buf: Bytes, tail: nat, hash: Hash)
  {
    IsEntry(e) ==>
      && OffField(e) >= 0
      && RecordAt(buf, OffField(e)).Some?
      && var (k, v) := RecordAt(buf, OffField(e)).value;
      && HasRecord(buf, tail, OffField(e), k, v)
      && TagField(e) == TagOf(hash(k))
  }

  ghost function CellOf(e: Word, buf: Bytes): Cell
  {
    if e == 0 then Empty
    else if e == TOMB || OffField(e) < 0 then Tomb
    else match RecordAt(buf, OffField(e))
      case Some((k, v)) => Full(k, v)
      case None => Tomb
  }

  ghost function Cells(t: Tab): (cells: seq<Cell>)
    ensures |cells| == |t.slots|
    ensures forall i | 0 <= i < |t.slots| :: cells[i] == CellOf(t.slots[i], t.buf)
  {
    seq(|t.slots|, i requires 0 <= i < |t.slots| => CellOf(t.slots[i], t.buf))
  }

  ghost function Size(c: Cell): nat
  {
    if c.Full? then |Record(c.key, c.val)| else 0
  }

  ghost function End(t: Tab, i: nat): int
    requires i < |t.slots|
  {
    OffField(t.slots[i]) + Size(Cells(t)[i])
  }

  /** Live slots point at disjoint records. */
  ghost predicate Disjoint(t: Tab)
  {
    forall i, j | 0 <= i < |t.slots| && 0 <= j < |t.slots| && i != j && IsEntry(t.slots[i]) && IsEntry(t.slots[j]) ::
      End(t, i) <= OffField(t.slots[j]) || End(t, j) <= OffField(t.slots[i])
  }

  ghost predicate WordsOk(t: Tab, hash: Hash)
  {
    forall i | 0 <= i < |t.slots| :: WordOk(t.slots[i], t.buf, t.tail, hash)
  }

  /** What every table keeps at every step, whatever its load. */
  ghost predicate Sound(t: Tab, hash: Hash)
  {
    && |t.slots| > 0 && t.tail <= |t.buf|
    && WordsOk(t, hash)
    && Disjoint(t)
    && Reachable(Cells(t), hash) && Unique(Cells(t))
    && t.live == Fulls(Cells(t)) && t.used == Used(Cells(t))
  }

  ghost predicate ValidTab(t: Tab, hash: Hash)
  {
    Sound(t, hash) && |t.slots| >= 2 && IsPow2(|t.slots|) && 10 * t.used <= 7 * |t.slots|
  }

  ghost function TabView(t: Tab): Contents
  {
    View(Cells(t))
  }

  /** An empty slot always remains, so every probe of a valid table ends. */
  lemma TabProbes(t: Tab, hash: Hash)
    requires ValidTab(t, hash)
    ensures ValidTable(Cells(t), hash)
  {
    CountBounds(Cells(t));
  }

  lemma LiveIsSize(t: Tab, hash: Hash)
    requires Sound(t, hash)
    ensures t.live == |TabView(t)|
  {
    FullsIsSize(Cells(t));
  }

  // ---- the writer's three updates ----

  /** Write a record at the tail and advance it. */
  function Appended(t: Tab, key: Bytes, val: Bytes): Tab
    requires t.tail + |Record(key, val)| <= |t.buf|
  {
    var rec := Record(key, val);
    t.(buf := t.buf[..t.tail] + rec + t.buf[t.tail + |rec|..], tail := t.tail + |rec|)
  }

  /** Repoint slot p to the record at off. */
  function Installed(t: Tab, p: nat, tag: nat, off: nat): Tab
    requires p < |t.slots| && tag < TAG_LIMIT && off + 1 < OFF_LIMIT
  {
    var e := t.slots[p];
    t.(slots := t.slots[p := Pack(tag, off)],
       live := if IsEntry(e) then t.live else t.live + 1,
       used := if e == 0 then t.used + 1 else t.used)
  }

  /** Turn slot p into a tombstone. */
  function Buried(t: Tab, p: nat): Tab
    requires p < |t.slots| && t.live > 0
  {
    t.(slots := t.slots[p := TOMB], live := t.live - 1)
  }

  /** The slot a put of key stores. */
  ghost predicate PutTarget(t: Tab, hash: Hash, key: Bytes, p: nat)
    requires |t.slots| > 0
  {
    p < |t.slots| && Target(Cells(t), hash, key, p)
  }

  /** Bytes at and above the tail may change and the tail may move up without any
      published record changing. */
  lemma SameBelowTail(t: Tab, t': Tab, hash: Hash)
    requires WordsOk(t, hash) && t.tail <= t'.tail <= |t'.buf| && t.tail <= |t.buf|
    requires t'.slots == t.slots && t'.buf[..t.tail] == t.buf[..t.tail]
    ensures Cells(t') == Cells(t) && WordsOk(t', hash)
  {
    forall i | 0 <= i < |t.slots|
      ensures WordOk(t'.slots[i], t'.buf, t'.tail, hash) && CellOf(t'.slots[i], t'.buf) == CellOf(t.slots[i], t.buf)
    {
      if IsEntry(t.slots[i]) {
        var (k, v) := RecordAt(t.buf, OffField(t.slots[i])).value;
        RecordStable(t.buf, t'.buf, t.tail, t'.tail, OffField(t.slots[i]), k, v);
      }
    }
  }

  lemma CellKind(t: Tab, hash: Hash, i: nat)
    requires WordsOk(t, hash) && i < |t.slots|
    ensures Cells(t)[i].Full? <==> IsEntry(t.slots[i])
    ensures Cells(t)[i].Empty? <==> t.slots[i] == 0
  {
  }

  lemma EndBelowTail(t: Tab, hash: Hash, i: nat)
    requires WordsOk(t, hash) && i < |t.slots| && IsEntry(t.slots[i])
    ensures 0 <= OffField(t.slots[i]) < End(t, i) <= t.tail && Cells(t)[i].Full?
  {
  }

  lemma AppendedRecord(t: Tab, key: Bytes, val: Bytes)
    requires t.tail + |Record(key, val)| <= |t.buf|
    ensures var t' := Appended(t, key, val); |t'.buf| == |t.buf| && HasRecord(t'.buf, t'.tail, t.tail, key, val)
  {
  }

  lemma AppendSound(t: Tab, hash: Hash, key: Bytes, val: Bytes)
    requires Sound(t, hash) && t.tail + |Record(key, val)| <= |t.buf|
    ensures var t' := Appended(t, key, val);
            && Sound(t', hash) && Cells(t') == Cells(t)
            && HasRecord(t'.buf, t'.tail, t.tail, key, val)
            && AllBefore(t', t.tail)
  {
    hide Record, RecordAt, HasRecord, Reachable, View, Unique, Fulls, Used, CellOf, WordOk;
    var t', rec := Appended(t, key, val), Record(key, val);
    AppendedRecord(t, key, val);
    assert t'.buf[..t.tail] == t.buf[..t.tail];
    SameBelowTail(t, t', hash);
    forall i, j | 0 <= i < |t'.slots| && 0 <= j < |t'.slots| && i != j && IsEntry(t'.slots[i]) && IsEntry(t'.slots[j])
      ensures End(t', i) <= OffField(t'.slots[j]) || End(t', j) <= OffField(t'.slots[i])
    {
      assert End(t', i) == End(t, i) && End(t', j) == End(t, j);
    }
    forall i | 0 <= i < |t'.slots| && IsEntry(t'.slots[i])
      ensures End(t', i) <= t.tail
    {
      EndBelowTail(t, hash, i);
    }
  }

  /** Every live record ends at or before off. */
  ghost predicate AllBefore(t: Tab, off: nat)
  {
    forall i | 0 <= i < |t.slots| && IsEntry(t.slots[i]) :: End(t, i) <= off
  }

  /** Repointing a target slot at a record past all live ones updates one key. */
  lemma InstallSound(t: Tab, hash: Hash, p: nat, off: nat, key: Bytes, val: Bytes)
    requires Sound(t, hash) && PutTarget(t, hash, key, p)
    requires HasRecord(t.buf, t.tail, off, key, val) && AllBefore(t, off) && off + 1 < OFF_LIMIT
    ensures var t' := Installed(t, p, TagOf(hash(key)), off);
            && Sound(t', hash)
            && Cells(t') == Cells(t)[p := Full(key, val)]
            && TabView(t') == TabView(t)[key := val]
  {
    var t', cells := Installed(t, p, TagOf(hash(key)), off), Cells(t);
    InstallCells(t, hash, p, off, key, val);
    assert WordOk(t.slots[p], t.buf, t.tail, hash);
    Fill(cells, hash, p, key, val);
    InstallDisjoint(t, t', hash, p, off);
  }

  lemma InstallCells(t: Tab, hash: Hash, p: nat, off: nat, key: Bytes, val: Bytes)
    requires WordsOk(t, hash) && p < |t.slots|
    requires HasRecord(t.buf, t.tail, off, key, val) && off + 1 < OFF_LIMIT
    ensures var t' := Installed(t, p, TagOf(hash(key)), off);
            && WordsOk(t', hash) && Cells(t') == Cells(t)[p := Full(key, val)]
            && IsEntry(t'.slots[p]) && OffField(t'.slots[p]) == off
  {
    PackRoundTrip(TagOf(hash(key)), off);
    RecordRoundTrip(t.buf, t.tail, off, key, val);
  }

  lemma InstallDisjoint(t: Tab, t': Tab, hash: Hash, p: nat, off: nat)
    requires Sound(t, hash) && p < |t.slots| && |t'.slots| == |t.slots|
    requires forall i | 0 <= i < |t.slots| && i != p :: t'.slots[i] == t.slots[i] && Cells(t')[i] == Cells(t)[i]
    requires OffField(t'.slots[p]) == off && AllBefore(t, off)
    ensures Disjoint(t')
  {
  }

  /** Burying a full slot removes its key and no other. */
  lemma BurySound(t: Tab, hash: Hash, p: nat)
    requires Sound(t, hash) && p < |t.slots| && Cells(t)[p].Full?
    ensures t.live > 0
    ensures var t' := Buried(t, p);
            && Sound(t', hash)
            && Cells(t') == Cells(t)[p := Tomb]
            && TabView(t') == TabView(t) - {Cells(t)[p].key}
  {
    hide View, Reachable, Record, RecordAt, HasRecord;
    var cells := Cells(t);
    CountUpdate(cells, p, Tomb);
    var t' := Buried(t, p);
    assert Cells(t') == cells[p := Tomb];
    Remove(cells, hash, p);
    forall i | 0 <= i < |t.slots| && i != p && IsEntry(t.slots[i])
      ensures End(t', i) == End(t, i)
    {
    }
    assert Disjoint(t');
  }

  /** Append then install: the key takes the value and the table stays valid,
      because the load check left a slot to spare. */
  lemma PutKeepsValid(t: Tab, hash: Hash, key: Bytes, val: Bytes, p: nat)
    requires ValidTab(t, hash) && PutTarget(t, hash, key, p)
    requires t.tail + |Record(key, val)| <= |t.buf| && t.tail + 1 < OFF_LIMIT
    requires !Overloaded(t.used, |t.slots|)
    ensures var t' := Installed(Appended(t, key, val), p, TagOf(hash(key)), t.tail);
            ValidTab(t', hash) && TabView(t') == TabView(t)[key := val]
  {
    AppendSound(t, hash, key, val);
    InstallSound(Appended(t, key, val), hash, p, t.tail, key, val);
  }

  /** What an entry's offset reads back, and that its tag is its key's. */
  lemma EntryReads(t: Tab, hash: Hash, i: nat)
    requires WordsOk(t, hash) && i < |t.slots|
    ensures IsEntry(t.slots[i]) <==> Cells(t)[i].Full?
    ensures IsEntry(t.slots[i]) ==>
              var c := Cells(t)[i];
              && OffField(t.slots[i]) >= 0
              && RecordAt(t.buf, OffField(t.slots[i])) == Some((c.key, c.val))
              && TagField(t.slots[i]) == TagOf(hash(c.key))
  {
  }

  // ---- the live records fit below the tail ----

  ghost function LiveBytes(cells: seq<Cell>): nat
  {
    if cells == [] then 0 else LiveBytes(cells[..|cells| - 1]) + Size(cells[|cells| - 1])
  }

  ghost function Range(a: int, b: int): (r: set<int>)
    ensures forall x :: x in r <==> a <= x < b
    decreases b - a
  {
    if a < b then Range(a, b - 1) + {b - 1} else {}
  }

  lemma {:induction false} RangeSize(a: int, b: int)
    requires a <= b
    ensures |Range(a, b)| == b - a
    decreases b - a
  {
    if a < b {
      RangeSize(a, b - 1);
      assert b - 1 !in Range(a, b - 1);
    }
  }

  /** The byte positions taken by the records of the first n slots. */
  ghost function Covered(t: Tab, n: nat): set<int>
    requires n <= |t.slots|
  {
    if n == 0 then {} else
    Covered(t, n - 1) + if IsEntry(t.slots[n - 1]) then Range(OffField(t.slots[n - 1]), End(t, n - 1)) else {}
  }

  /** Every covered position belongs to one slot's record. */
  lemma {:induction false} Owner(t: Tab, n: nat, x: int) returns (i: nat)
    requires n <= |t.slots| && x in Covered(t, n)
    ensures i < n && IsEntry(t.slots[i]) && OffField(t.slots[i]) <= x < End(t, i)
  {
    hide End, OffField, IsEntry, Cells;
    if IsEntry(t.slots[n - 1]) && x in Range(OffField(t.slots[n - 1]), End(t, n - 1)) {
      i := n - 1;
    } else {
      i := Owner(t, n - 1, x);
    }
  }

  lemma {:induction false} CoveredSize(t: Tab, hash: Hash, n: nat)
    requires WordsOk(t, hash) && Disjoint(t) && n <= |t.slots|
    ensures |Covered(t, n)| == LiveBytes(Cells(t)[..n])
  {
    hide Record, RecordAt, HasRecord, WordOk, CellOf, End, WordsOk;
    if n > 0 {
      var w := t.slots[n - 1];
      CoveredSize(t, hash, n - 1);
      assert Cells(t)[..n][..n - 1] == Cells(t)[..n - 1];
      CellKind(t, hash, n - 1);
      if IsEntry(w) {
        EndBelowTail(t, hash, n - 1);
        RangeSize(OffField(w), End(t, n - 1));
        EndIs(t, n - 1);
        var prev, next := Covered(t, n - 1), Range(OffField(w), End(t, n - 1));
        forall x | x in prev
          ensures x !in next
        {
          var i := Owner(t, n - 1, x);
        }
      }
    }
  }

  lemma EndIs(t: Tab, i: nat)
    requires i < |t.slots|
    ensures End(t, i) - OffField(t.slots[i]) == Size(Cells(t)[i])
  {
  }

  lemma {:induction false} LiveBytesMonotone(cells: seq<Cell>, n: nat)
    requires n <= |cells|
    ensures LiveBytes(cells[..n]) <= LiveBytes(cells)
  {
    if n == |cells| {
      assert cells[..n] == cells;
    } else {
      LiveBytesMonotone(cells[..|cells| - 1], n);
      assert cells[..|cells| - 1][..n] == cells[..n];
    }
  }

  /** Compaction never needs more room than the old tail: the live records are
      disjoint and lie below it. */
  lemma LiveBytesFit(t: Tab, hash: Hash, n: nat)
    requires WordsOk(t, hash) && Disjoint(t) && n < |t.slots|
    ensures LiveBytes(Cells(t)[..n + 1]) == LiveBytes(Cells(t)[..n]) + Size(Cells(t)[n])
    ensures LiveBytes(Cells(t)[..n + 1]) <= LiveBytes(Cells(t)) <= t.tail
  {
    var cells := Cells(t);
    assert cells[..n + 1][..n] == cells[..n];
    LiveBytesMonotone(cells, n + 1);
    assert cells[..|cells|] == cells;
    CoveredSize(t, hash, |cells|);
    RangeSize(0, t.tail);
    forall x | x in Covered(t, |cells|)
      ensures x in Range(0, t.tail)
    {
      var i := Owner(t, |cells|, x);
      EndBelowTail(t, hash, i);
    }
    SubsetSize(Covered(t, |cells|), Range(0, t.tail));
  }

  lemma {:induction false} SubsetSize(a: set<int>, b: set<int>)
    requires a <= b
    ensures |a| <= |b|
  {
    assert b == a + (b - a);
  }

  /** The largest buffer the Go runtime allocates: its heap addresses have 48 bits, and
      a larger `make` panics. */
  const MAX_ALLOC: nat := 0x1_0000_0000_0000

  /** The index length of a grow: doubled until the live keys and one more fit under
      the load limit. */
  function IndexFor(live: nat, len: nat): (n: nat)
    requires len > 0
    ensures n >= len && !Overloaded(live, n)
    decreases 10 * (live + 1) - 7 * len
  {
    if Overloaded(live, len) then IndexFor(live, len * 2) else len
  }

  /** Both buffers of the grown table can be allocated; an index word takes 8 bytes. */
  predicate CanGrow(t: Tab, need: nat)
    requires |t.slots| > 0
  {
    8 * IndexFor(t.live, |t.slots|) <= MAX_ALLOC && t.tail * 2 + need + 0x1000 <= MAX_ALLOC
  }

  /** What a grow publishes: the same map, compacted, with no tombstone, with an
      index light enough and an arena roomy enough for the pending put. */
  ghost predicate GrownFrom(prev: Tab, need: nat, t: Tab, hash: Hash)
  {
    && ValidTab(t, hash)
    && TabView(t) == TabView(prev)
    && (forall i | 0 <= i < |t.slots| :: t.slots[i] != TOMB)
    && t.used == t.live == prev.live
    && !Overloaded(t.used, |t.slots|)
    && |t.buf| == prev.tail * 2 + need + 0x1000
    && t.tail == LiveBytes(Cells(prev)) <= prev.tail
    && t.tail + need <= |t.buf|
  }

  lemma EmptyTab(t: Tab, hash: Hash)
    requires |t.slots| > 0 && t.tail == t.live == t.used == 0
    requires forall i | 0 <= i < |t.slots| :: t.slots[i] == 0
    ensures Sound(t, hash) && TabView(t) == map[]
  {
    CountEmpty(Cells(t));
  }

  // ---- replaying the live records of an old table ----

  /** t holds exactly the live records of the first j slots of prev, in its own arena. */
  ghost predicate Replayed(prev: Tab, j: nat, t: Tab, hash: Hash)
    requires j <= |prev.slots|
  {
    var was := Cells(prev)[..j];
    && Sound(t, hash) && |t.slots| >= 2 && IsPow2(|t.slots|)
    && (forall i | 0 <= i < |t.slots| :: t.slots[i] != TOMB)
    && TabView(t) == View(was)
    && t.used == t.live == Fulls(was)
    && t.tail == LiveBytes(was)
    && prev.tail <= |t.buf|
    && !Overloaded(prev.live, |t.slots|)
  }

  lemma ReplayStart(prev: Tab, t: Tab, hash: Hash)
    requires |t.slots| >= 2 && IsPow2(|t.slots|) && !Overloaded(prev.live, |t.slots|)
    requires t.tail == t.live == t.used == 0 && prev.tail <= |t.buf|
    requires forall i | 0 <= i < |t.slots| :: t.slots[i] == 0
    ensures Replayed(prev, 0, t, hash)
  {
    EmptyTab(t, hash);
    assert View(Cells(prev)[..0]) == map[];
  }

  /** Before slot j is replayed, its record fits, its key is new and a slot is free. */
  lemma ReplayReady(prev: Tab, j: nat, t: Tab, hash: Hash)
    requires Sound(prev, hash) && prev.tail <= OFF_LIMIT && j < |prev.slots| && Replayed(prev, j, t, hash)
    ensures !Cells(prev)[j].Full? ==> Replayed(prev, j + 1, t, hash)
    ensures var c := Cells(prev)[j];
            c.Full? ==>
              && t.tail + |Record(c.key, c.val)| <= prev.tail <= |t.buf|
              && c.key !in TabView(t) && t.used < |t.slots|
    ensures Sound(t, hash) && forall i | 0 <= i < |t.slots| :: t.slots[i] != TOMB
  {
    hide Record, RecordAt, HasRecord, Reachable, View, Disjoint, Unique, WordsOk;
    var was := Cells(prev);
    ViewExtend(was, j);
    FullsPrefix(was, j);
    LiveBytesFit(prev, hash, j);
  }

  lemma ReplayStep(prev: Tab, j: nat, t: Tab, hash: Hash, p: nat)
    requires Sound(prev, hash) && prev.tail <= OFF_LIMIT && j < |prev.slots| && Replayed(prev, j, t, hash)
    requires Cells(prev)[j].Full? && t.tail + |Record(Cells(prev)[j].key, Cells(prev)[j].val)| <= prev.tail
    requires PutTarget(t, hash, Cells(prev)[j].key, p) && t.slots[p] == 0
    ensures var c := Cells(prev)[j];
            Replayed(prev, j + 1, Installed(Appended(t, c.key, c.val), p, TagOf(hash(c.key)), t.tail), hash)
  {
    hide Record, RecordAt, HasRecord, Reachable, View, Disjoint, WordsOk, Cells, CellOf, Fulls, Used, LiveBytes, IsPow2;
    var was := Cells(prev);
    var c := was[j];
    ViewExtend(was, j);
    FullsPrefix(was, j);
    LiveBytesFit(prev, hash, j);
    AppendSound(t, hash, c.key, c.val);
    InstallSound(Appended(t, c.key, c.val), hash, p, t.tail, c.key, c.val);
    PackRoundTrip(TagOf(hash(c.key)), t.tail);
  }

  lemma ReplayDone(prev: Tab, need: nat, t: Tab, hash: Hash)
    requires Sound(prev, hash) && Replayed(prev, |prev.slots|, t, hash)
    requires |t.buf| == prev.tail * 2 + need + 0x1000
    ensures GrownFrom(prev, need, t, hash) && ValidTab(t, hash)
  {
    hide Record, RecordAt, HasRecord, Reachable, View, Disjoint, Unique;
    assert Cells(prev)[..|prev.slots|] == Cells(prev);
    LiveBytesFit(prev, hash, |prev.slots| - 1);
  }
}
