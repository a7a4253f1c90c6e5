/** The `f2` engine: 256 shards, each one table that its writer changes in place and
    replaces when it grows. */
module F2Engine {
  import opened Arith
  import opened Bits
  import opened Records
  import opened Store
  import opened Probing
  import opened F2Table

  // ---- writing bytes in place ----

  ghost function Splice(b: Bytes, off: nat, s: Bytes): Bytes
    requires off + |s| <= |b|
  {
    b[..off] + s + b[off + |s|..]
  }

  lemma SpliceTwice(b: Bytes, off: nat, s: Bytes, u: Bytes)
    requires off + |s| + |u| <= |b|
    ensures Splice(Splice(b, off, s), off + |s|, u) == Splice(b, off, s + u)
  {
  }

  lemma SpliceNone(b: Bytes, off: nat)
    requires off <= |b|
    ensures Splice(b, off, []) == b
  {
  }

  method Copy(buf: array<byte>, off: nat, s: Bytes)
    requires off + |s| <= buf.Length
    modifies buf
    ensures buf[..] == Splice(old(buf[..]), off, s)
  {
    forall j | 0 <= j < |s| {
      buf[off + j] := s[j];
    }
  }

  method PutByte(buf: array<byte>, off: nat, b: byte)
    requires off < buf.Length
    modifies buf
    ensures buf[..] == Splice(old(buf[..]), off, [b])
  {
    buf[off] := b;
  }

  /** binary.PutUvarint: emit seven bits at a time while more than seven remain. */
  method PutUvarintAt(buf: array<byte>, off: nat, x: nat) returns (n: nat)
    requires off + |PutUvarint(x)| <= buf.Length
    modifies buf
    ensures n == |PutUvarint(x)| && buf[..] == Splice(old(buf[..]), off, PutUvarint(x))
  {
    hide Splice;
    var y := x;
    n := 0;
    ghost var was, done: Bytes := buf[..], [];
    SpliceNone(was, off);
    while y >= 0x80
      invariant |done| == n && done + PutUvarint(y) == PutUvarint(x)
      invariant buf[..] == Splice(was, off, done)
    {
      PutByte(buf, off + n, y % 0x80 + 0x80);
      SpliceTwice(was, off, done, [y % 0x80 + 0x80]);
      done := done + [y % 0x80 + 0x80];
      y, n := y / 0x80, n + 1;
    }
    PutByte(buf, off + n, y);
    SpliceTwice(was, off, done, [y]);
    n := n + 1;
  }

  // ---- a table in memory ----

  class F2Tab {
    const slots: array<Word>
    const buf: array<byte>
    var tail: nat
    var live: nat
    var used: nat

    ghost function Value(): Tab
      reads this, slots, buf
    {
      Tab(slots[..], buf[..], tail, live, used)
    }

    ghost function Repr(): set<object>
    {
      {this, slots, buf}
    }

    ghost predicate Separate()
    {
      slots as object != buf
    }

    constructor (nslots: nat, bufcap: nat)
      ensures fresh(slots) && fresh(buf) && Separate()
      ensures slots.Length == nslots && buf.Length == bufcap
      ensures tail == live == used == 0 && forall i | 0 <= i < nslots :: slots[i] == 0
    {
      slots := new Word[nslots](_ => 0);
      buf := new byte[bufcap](_ => 0);
      tail, live, used := 0, 0, 0;
    }

    method AppendRecord(off: nat, key: Bytes, val: Bytes) returns (n: nat)
      requires off + |Record(key, val)| <= buf.Length
      modifies buf
      ensures n == |Record(key, val)|
      ensures buf[..] == Splice(old(buf[..]), off, Record(key, val))
    {
      hide Splice, PutUvarint;
      ghost var was, kn, vn := buf[..], PutUvarint(|key|), PutUvarint(|val|);
      n := PutUvarintAt(buf, off, |key|);
      SpliceTwice(was, off, kn, key);
      Copy(buf, off + n, key);
      n := n + |key|;
      var m := PutUvarintAt(buf, off + n, |val|);
      SpliceTwice(was, off, kn + key, vn);
      n := n + m;
      Copy(buf, off + n, val);
      SpliceTwice(was, off, kn + key + vn, val);
      n := n + |val|;
    }

    /** The read path: load one word, compare tags, and only then look at the record. */
    method Lookup(hash: Hash, key: Bytes) returns (r: Option<Bytes>)
      requires ValidTab(Value(), hash)
      ensures r == if key in TabView(Value()) then Some(TabView(Value())[key]) else None
    {
      hide View, Reachable, Unique, Fulls, Used, IsPow2, RecordAt, HasRecord, Disjoint;
      ghost var t := Value();
      var h, len := hash(key), slots.Length;
      var i := h % len;
      ghost var cells, n := Cells(t), 0;
      TabProbes(t, hash);
      while true
        invariant 0 <= n < len && i == Slot(h % len, n, len) && Clear(cells, h % len, key, n)
        decreases len - n
      {
        var e := slots[i];
        assert e == t.slots[i] && WordOk(e, t.buf, t.tail, hash) && cells[i] == CellOf(e, t.buf);
        if e == 0 {
          Miss(cells, hash, key, n);
          return None;
        }
        if e != TOMB && TagField(e) == TagOf(h) {
          var (k, v) := RecordAt(buf[..], OffField(e)).value;
          if k == key {
            ViewAt(cells, i);
            return Some(v);
          }
        }
        ClearStep(cells, h % len, key, n);
        i, n := Next(i, len), n + 1;
      }
    }
  }

  // ---- a shard ----

  class F2Shard {
    const hash: Hash
    var tab: F2Tab

    ghost predicate Valid()
      reads this, tab, tab.slots, tab.buf
    {
      tab.Separate() && ValidTab(tab.Value(), hash) && tab.buf.Length <= MAX_ALLOC
    }

    /** The put finds room, or can make it. */
    ghost predicate CanPut(key: Bytes, val: Bytes)
      reads this, tab, tab.slots, tab.buf
    {
      tab.slots.Length > 0 && (NeedsGrow(tab.Value(), key, val) ==> CanGrow(tab.Value(), |Record(key, val)|))
    }

    ghost function Contents(): Contents
      reads this, tab, tab.slots, tab.buf
    {
      TabView(tab.Value())
    }

    constructor (hash: Hash)
      ensures Valid() && fresh(tab.Repr()) && Contents() == map[] && this.hash == hash
      ensures tab.slots.Length == 512 && tab.buf.Length == 65536
    {
      this.hash := hash;
      tab := new F2Tab(0x200, 0x10000);
      new;
      EmptyTab(tab.Value(), hash);
      assert IsPow2(0x200);
    }

    /** Double the index until the live keys and one more fit under the load limit. */
    method IndexSize(live: nat, len: nat) returns (n: nat)
      requires len >= 2 && IsPow2(len)
      ensures n == IndexFor(live, len) && n >= len && IsPow2(n) && !Overloaded(live, n)
      ensures n == len || Overloaded(live, n / 2)
    {
      hide IsPow2;
      n := len;
      while Overloaded(live, n)
        invariant n >= len && IsPow2(n) && IndexFor(live, n) == IndexFor(live, len)
        invariant n == len || Overloaded(live, n / 2)
        decreases 10 * (live + 1) - 7 * n
      {
        Pow2Doubles(n);
        n := n * 2;
      }
    }

    /** Replay the live records of prev into a table with room for need more bytes.
        Not ok means that an allocation panicked, before anything was changed. */
    method Grow(prev: F2Tab, need: nat) returns (ok: bool, nt: F2Tab)
      requires Valid() && prev == tab
      modifies this
      ensures Valid() && nt == tab && ok == CanGrow(prev.Value(), need)
      ensures if ok then fresh(nt.Repr()) && GrownFrom(prev.Value(), need, nt.Value(), hash) else tab == old(tab)
    {
      hide Overloaded, IsPow2, IndexFor, Sound, GrownFrom, View, Cells;
      ghost var was := prev.Value();
      var nslots := IndexSize(prev.live, prev.slots.Length);
      if 8 * nslots > MAX_ALLOC || prev.tail * 2 + need + 0x1000 > MAX_ALLOC {
        return false, prev;
      }
      nt := new F2Tab(nslots, prev.tail * 2 + need + 0x1000);
      ReplayStart(was, nt.Value(), hash);
      Replay(prev, nt);
      ReplayDone(was, need, nt.Value(), hash);
      tab := nt;
      return true, nt;
    }

    /** The loop of Grow over the old index. */
    method Replay(prev: F2Tab, nt: F2Tab)
      requires Sound(prev.Value(), hash) && prev.tail <= OFF_LIMIT && nt.Separate() && nt.Repr() !! prev.Repr()
      requires Replayed(prev.Value(), 0, nt.Value(), hash)
      modifies nt, nt.slots, nt.buf
      ensures Replayed(prev.Value(), |prev.Value().slots|, nt.Value(), hash)
    {
      hide WordsOk, Cells, Replayed, View, Record, RecordAt, Disjoint, Reachable, Unique, Fulls, Used;
      ghost var was := prev.Value();
      var j := 0;
      while j < prev.slots.Length
        invariant 0 <= j <= |was.slots| && prev.Value() == was && Replayed(was, j, nt.Value(), hash)
      {
        var e := prev.slots[j];
        ReplayReady(was, j, nt.Value(), hash);
        EntryReads(was, hash, j);
        if e != 0 && e != TOMB {
          var (k, v) := RecordAt(prev.buf[..], OffField(e)).value;
          ghost var before := nt.Value();
          ghost var p := Refile(nt, k, v);
          ReplayStep(was, j, before, hash, p);
        }
        j := j + 1;
      }
    }

    /** The body of the replay loop: append the record, walk to the first empty slot,
        store the word. */
    method Refile(t: F2Tab, key: Bytes, val: Bytes) returns (ghost p: nat)
      requires t.Separate() && Sound(t.Value(), hash) && forall i | 0 <= i < t.slots.Length :: t.slots[i] != TOMB
      requires t.tail + |Record(key, val)| <= t.buf.Length && t.tail + 1 < OFF_LIMIT
      requires key !in TabView(t.Value()) && t.used < t.slots.Length
      modifies t, t.slots, t.buf
      ensures PutTarget(old(t.Value()), hash, key, p) && old(t.slots[p]) == 0
      ensures t.Value() == Installed(Appended(old(t.Value()), key, val), p, TagOf(hash(key)), old(t.tail))
    {
      hide View, Reachable, Unique, Fulls, Used, RecordAt, HasRecord, Disjoint, Record;
      ghost var v0 := t.Value();
      var off := t.tail;
      var h, len := hash(key), t.slots.Length;
      ghost var cells, n := Cells(v0), 0;
      CountBounds(cells);
      var i := h % len;
      var m := t.AppendRecord(off, key, val);
      t.tail := t.tail + m;
      while t.slots[i] != 0
        modifies {}
        invariant 0 <= n < len && i == Slot(h % len, n, len) && Clear(cells, h % len, key, n)
        invariant forall m | 0 <= m < n :: cells[Slot(h % len, m, len)].Full?
        decreases len - n
      {
        assert t.slots[i] == v0.slots[i] && WordOk(v0.slots[i], v0.buf, v0.tail, hash);
        ViewAt(cells, i);
        ClearStep(cells, h % len, key, n);
        i, n := Next(i, len), n + 1;
      }
      p := i;
      assert v0.slots[i] == 0;
      t.slots[i] := Pack(TagOf(h), off);
      t.used, t.live := t.used + 1, t.live + 1;
      assert t.slots[..] == v0.slots[i := Pack(TagOf(h), off)];
    }

    /** A put grows first if the arena or the index is full, then appends, then
        publishes the record with one slot store. `mid` is the table it stored into,
        as it was before the append, and `p` the slot it stored. Without room that can be
        allocated it panics, and the shard is as before. */
    method PutLocked(h: nat, key: Bytes, val: Bytes) returns (ok: bool, ghost mid: Tab, ghost p: nat)
      requires Valid() && h == hash(key)
      modifies this, tab, tab.slots, tab.buf
      ensures Valid() && (tab == old(tab) || fresh(tab.Repr()))
      ensures ok == old(CanPut(key, val))
      ensures tab != old(tab) || !ok ==> old(tab).Value() == old(tab.Value())
      ensures !ok ==> tab == old(tab) && !CanPut(key, val)
      ensures ok ==>
                if NeedsGrow(old(tab.Value()), key, val)
                then GrownFrom(old(tab.Value()), |Record(key, val)|, mid, hash)
                else mid == old(tab.Value())
      ensures ok ==> mid.tail + |Record(key, val)| <= |mid.buf| && !Overloaded(mid.used, |mid.slots|)
      ensures ok ==> mid.tail + 1 < OFF_LIMIT && |mid.slots| > 0 && PutTarget(mid, hash, key, p)
      ensures ok ==> tab.Value() == Installed(Appended(mid, key, val), p, TagOf(h), mid.tail)
      ensures Contents() == if ok then old(Contents())[key := val] else old(Contents())
    {
      hide Sound, Cells, View, Disjoint, Record, RecordAt, IsPow2;
      var t := tab;
      ok, mid, p := true, t.Value(), 0;
      var need := RecordSize(key, val);
      if t.tail + need > t.buf.Length || Overloaded(t.used, t.slots.Length) {
        ok, t := Grow(t, need);
        if !ok {
          return;
        }
      }
      mid := t.Value();
      p := Place(t, key, val);
      PutKeepsValid(mid, hash, key, val, p);
    }

    /** PutLocked between Lock and Unlock, as the engine's Put sees it. */
    method Put(h: nat, key: Bytes, val: Bytes) returns (ok: bool)
      requires Valid() && h == hash(key)
      modifies this, tab, tab.slots, tab.buf
      ensures Valid() && (tab == old(tab) || fresh(tab.Repr()))
      ensures ok == old(CanPut(key, val)) && (!ok ==> !CanPut(key, val))
      ensures Contents() == if ok then old(Contents())[key := val] else old(Contents())
    {
      ghost var mid, p;
      ok, mid, p := PutLocked(h, key, val);
    }

    /** The rest of PutLocked: append, probe, then one store. */
    method Place(t: F2Tab, key: Bytes, val: Bytes) returns (ghost p: nat)
      requires t.Separate() && ValidTab(t.Value(), hash)
      requires t.tail + |Record(key, val)| <= t.buf.Length && t.tail + 1 < OFF_LIMIT
      modifies t, t.slots, t.buf
      ensures PutTarget(old(t.Value()), hash, key, p)
      ensures t.Value() == Installed(Appended(old(t.Value()), key, val), p, TagOf(hash(key)), old(t.tail))
    {
      hide View, Sound, Record, IsPow2, Cells, ValidTable;
      ghost var v0 := t.Value();
      AppendSound(v0, hash, key, val);
      var off := t.tail;
      var m := t.AppendRecord(off, key, val);
      t.tail := t.tail + m;
      ghost var v1 := t.Value();
      assert v1 == Appended(v0, key, val);
      var i := PutSlot(t, key);
      p := i;
      var e := t.slots[i];
      t.slots[i] := Pack(TagOf(hash(key)), off);
      if e == 0 {
        t.used := t.used + 1;
      }
      if e == 0 || e == TOMB {
        t.live := t.live + 1;
      }
      assert t.slots[..] == v1.slots[i := Pack(TagOf(hash(key)), off)];
    }

    /** The probe of a put: the slot that holds the key, or else the first tombstone
        of the walk, or else the empty slot that ends it. */
    method PutSlot(t: F2Tab, key: Bytes) returns (p: nat)
      requires ValidTab(t.Value(), hash)
      ensures PutTarget(t.Value(), hash, key, p)
    {
      hide View, Reachable, Unique, Fulls, Used, RecordAt, HasRecord, Disjoint, IsPow2;
      hide Cells, CellOf, WordOk, WordsOk, ValidTable;
      ghost var v := t.Value();
      TabProbes(v, hash);
      var h, len := hash(key), t.slots.Length;
      var i := h % len;
      var firstTomb := -1;
      ghost var cells, n, tombAt := Cells(v), 0, 0;
      while true
        invariant 0 <= n < len && i == Slot(h % len, n, len) && Clear(cells, h % len, key, n)
        invariant 0 <= tombAt <= n && (firstTomb == -1 ==> tombAt == n)
        invariant forall m | 0 <= m < tombAt :: cells[Slot(h % len, m, len)].Full?
        invariant firstTomb == -1
                  || (tombAt < n && firstTomb == Slot(h % len, tombAt, len) && t.slots[firstTomb] == TOMB)
        decreases len - n
      {
        var e := t.slots[i];
        assert e == v.slots[i];
        EntryReads(v, hash, i);
        CellKind(v, hash, i);
        if e == 0 {
          Miss(cells, hash, key, n);
          if firstTomb >= 0 {
            EntryReads(v, hash, firstTomb);
            return firstTomb;
          }
          return i;
        } else if e == TOMB {
          if firstTomb < 0 {
            firstTomb, tombAt := i, n;
          }
        } else if TagField(e) == TagOf(h) {
          var (k, _) := RecordAt(t.buf[..], OffField(e)).value;
          if k == key {
            return i;
          }
        }
        ClearStep(cells, h % len, key, n);
        i, n := Next(i, len), n + 1;
        tombAt := if firstTomb < 0 then n else tombAt;
      }
    }

    /** A delete stores one tombstone over the slot that holds the key. */
    method DeleteLocked(h: nat, key: Bytes) returns (ghost p: nat)
      requires Valid() && h == hash(key)
      modifies tab, tab.slots
      ensures Valid()
      ensures key in old(Contents()) ==>
                && p < |old(tab.Value()).slots| && old(tab.live) > 0 && tab.Value() == Buried(old(tab.Value()), p)
                && Cells(old(tab.Value()))[p].Full? && Cells(old(tab.Value()))[p].key == key
      ensures key !in old(Contents()) ==> tab.Value() == old(tab.Value())
      ensures Contents() == old(Contents()) - {key}
    {
      hide View, Reachable, Unique, Fulls, Used, RecordAt, HasRecord, Disjoint, Record, IsPow2;
      var t := tab;
      ghost var v0 := t.Value();
      TabProbes(v0, hash);
      var len := t.slots.Length;
      var i := h % len;
      ghost var cells, n := Cells(v0), 0;
      p := 0;
      while true
        modifies {}
        invariant 0 <= n < len && i == Slot(h % len, n, len) && Clear(cells, h % len, key, n)
        decreases len - n
      {
        var e := t.slots[i];
        assert e == v0.slots[i] && WordOk(e, v0.buf, v0.tail, hash) && cells[i] == CellOf(e, v0.buf);
        if e == 0 {
          Miss(cells, hash, key, n);
          assert Contents() - {key} == Contents();
          return;
        }
        if e != TOMB && TagField(e) == TagOf(h) {
          var (k, _) := RecordAt(t.buf[..], OffField(e)).value;
          if k == key {
            break;
          }
        }
        ClearStep(cells, h % len, key, n);
        i, n := Next(i, len), n + 1;
      }
      p := i;
      ViewAt(cells, i);
      BurySound(v0, hash, i);
      t.slots[i] := TOMB;
      t.live := t.live - 1;
      assert t.slots[..] == v0.slots[i := TOMB];
    }
  }

  // ---- the engine ----

  const SHARDS: nat := 256

  /** The top eight bits of the hash. */
  function ShardOf(h: nat): (r: nat)
    ensures r < SHARDS
  {
    h / 0x100_0000_0000_0000 % SHARDS
  }

  /** Some hash has this shard, this tag and this home slot. */
  ghost predicate Occurs(shard: nat, tag: nat, slot: nat, len: nat)
    requires len > 0
  {
    exists h: nat :: h < U64 && ShardOf(h) == shard && TagOf(h) == tag && h % len == slot
  }

  /** The shard, the tag and the home slot come from different bits of the hash, so that
      every combination of the three occurs, exactly for an index of up to 2^24 slots. */
  lemma HashBitsIff(len: nat)
    requires IsPow2(len)
    ensures (forall shard, tag, slot | 0 <= shard < SHARDS && 0 <= tag < TAG_LIMIT && 0 <= slot < len ::
               Occurs(shard, tag, slot, len))
            <==> len <= 0x100_0000
  {
    if len <= 0x100_0000 {
      forall shard, tag, slot | 0 <= shard < SHARDS && 0 <= tag < TAG_LIMIT && 0 <= slot < len
        ensures Occurs(shard, tag, slot, len)
      {
        Combines(shard, tag, slot, len);
      }
    } else {
      SharedBit(len);
    }
  }

  lemma Combines(shard: nat, tag: nat, slot: nat, len: nat)
    requires IsPow2(len) && len <= 0x100_0000 && shard < SHARDS && tag < TAG_LIMIT && slot < len
    ensures Occurs(shard, tag, slot, len)
  {
    hide Pow2, IsPow2;
    var k := Exponent(len);
    Pow2Values();
    if k > 24 {
      Doubling(24);
      Pow2Monotone(25, k);
    }
    var c, high := Pow2(24 - k), shard * 0x1_0000_0000 + tag;
    Pow2Sum(k, 24 - k);
    var h := high * 0x100_0000 + slot;
    assert high * (len * c) == len * (high * c);
    ResidueIs(len, h, high * c, slot);
    FieldsOf(shard, tag, slot);
  }

  lemma FieldsOf(shard: nat, tag: nat, low: nat)
    requires shard < SHARDS && tag < TAG_LIMIT && low < 0x100_0000
    ensures var h := (shard * 0x1_0000_0000 + tag) * 0x100_0000 + low;
            h < U64 && ShardOf(h) == shard && TagOf(h) == tag
  {
    var h := (shard * 0x1_0000_0000 + tag) * 0x100_0000 + low;
    TagAt(shard * 0x2_0000, tag, low);
    assert h == shard * 0x100_0000_0000_0000 + (tag * 0x100_0000 + low);
  }

  lemma TagAt(high: nat, tag: nat, low: nat)
    requires tag < TAG_LIMIT && low < 0x100_0000
    ensures TagOf((high * TAG_LIMIT + tag) * 0x100_0000 + low) == tag
  {
    assert ((high * TAG_LIMIT + tag) * 0x100_0000 + low) / 0x100_0000 == high * TAG_LIMIT + tag;
  }

  /** In a larger index the lowest tag bit is bit 24 of the slot. */
  lemma SharedBit(len: nat)
    requires IsPow2(len) && len > 0x100_0000
    ensures !Occurs(0, 0, 0x100_0000, len)
  {
    hide Pow2, IsPow2;
    var k := Exponent(len);
    Pow2Values();
    Doubling(24);
    if k <= 24 {
      Pow2Monotone(k, 24);
    }
    Pow2Sum(25, k - 25);
    var c := Pow2(k - 25);
    forall h: nat | h % len == 0x100_0000
      ensures TagOf(h) != 0
    {
      var q := h / len;
      assert h == len * q + 0x100_0000;
      assert len * q == 0x200_0000 * (c * q);
      OddTag(h, c * q);
    }
  }

  lemma OddTag(h: nat, m: nat)
    requires h == 0x200_0000 * m + 0x100_0000
    ensures TagOf(h) % 2 == 1
  {
  }

  /** The code's own expression for the shard. */
  lemma ShardBits(h: nat)
    ensures And(Shr(h, 56), SHARDS - 1) == ShardOf(h)
  {
    hide Pow2, Shr, And;
    Pow2Values();
    PowerIsPow2(8);
    ShrIsDiv(h, 56);
    MaskIsMod(Shr(h, 56), SHARDS);
  }

  /** Each key sits in the shard its hash names. */
  ghost predicate Homed(maps: seq<Contents>, hash: Hash)
  {
    forall i, k | 0 <= i < |maps| && k in maps[i] :: ShardOf(hash(k)) == i
  }

  /** The shards together as one map. */
  ghost function Union(maps: seq<Contents>, hash: Hash): (m: Contents)
    ensures |maps| == SHARDS && Homed(maps, hash) ==>
              forall k :: (k in m <==> k in maps[ShardOf(hash(k))]) && (k in m ==> m[k] == maps[ShardOf(hash(k))][k])
  {
    map i, k | 0 <= i < |maps| && k in maps[i] && ShardOf(hash(k)) == i :: k := maps[i][k]
  }

  lemma UnionPut(maps: seq<Contents>, hash: Hash, key: Bytes, val: Bytes)
    requires |maps| == SHARDS && Homed(maps, hash)
    ensures var i := ShardOf(hash(key));
            var maps' := maps[i := maps[i][key := val]];
            Homed(maps', hash) && Union(maps', hash) == Union(maps, hash)[key := val]
  {
  }

  lemma UnionEmpty(maps: seq<Contents>, hash: Hash)
    requires |maps| == SHARDS && forall i | 0 <= i < SHARDS :: maps[i] == map[]
    ensures Homed(maps, hash) && Union(maps, hash) == map[]
  {
  }

  lemma UnionDelete(maps: seq<Contents>, hash: Hash, key: Bytes)
    requires |maps| == SHARDS && Homed(maps, hash)
    ensures var i := ShardOf(hash(key));
            var maps' := maps[i := maps[i] - {key}];
            Homed(maps', hash) && Union(maps', hash) == Union(maps, hash) - {key}
  {
  }

  class F2 {
    const hash: Hash
    const shards: seq<F2Shard>
    ghost var maps: seq<Contents>
    ghost var repr: set<object>

    ghost function Footprint(i: nat): set<object>
      requires i < |shards|
      reads shards[i]
    {
      {shards[i]} + shards[i].tab.Repr()
    }

    /** Shard i is a valid shard that stands for maps[i]. */
    ghost predicate ShardOk(i: nat)
      requires i < |shards|
      reads this, shards[i], shards[i].tab, shards[i].tab.slots, shards[i].tab.buf
    {
      && i < |maps| && Footprint(i) <= repr
      && shards[i].hash == hash && shards[i].Valid() && shards[i].Contents() == maps[i]
    }

    ghost predicate Valid()
      reads this, shards, set s | s in shards :: s.tab
      reads set s | s in shards :: s.tab.slots, set s | s in shards :: s.tab.buf
    {
      && |shards| == |maps| == SHARDS && Homed(maps, hash) && this !in repr
      && (forall i | 0 <= i < SHARDS :: ShardOk(i))
      && (forall i, j | 0 <= i < j < SHARDS :: Footprint(i) !! Footprint(j))
    }

    ghost function Contents(): Contents
      reads this
    {
      Union(maps, hash)
    }

    constructor (hash: Hash)
      ensures Valid() && Contents() == map[] && this.hash == hash
      ensures fresh(repr)
    {
      hide F2Shard.Valid, F2Shard.Contents, F2Tab.Repr, Homed, Union;
      var made: seq<F2Shard> := [];
      ghost var all: set<object> := {};
      while |made| < SHARDS
        invariant |made| <= SHARDS && fresh(all)
        invariant forall i | 0 <= i < |made| :: {made[i]} + made[i].tab.Repr() <= all
        invariant forall i, j | 0 <= i < j < |made| :: {made[i]} + made[i].tab.Repr() !! {made[j]} + made[j].tab.Repr()
        invariant forall i | 0 <= i < |made| ::
                    made[i].hash == hash && made[i].Valid() && made[i].Contents() == map[]
      {
        var s := new F2Shard(hash);
        made := made + [s];
        all := all + {s} + s.tab.Repr();
      }
      this.hash := hash;
      shards := made;
      ghost var empty: seq<Contents> := seq(SHARDS, _ => map[]);
      UnionEmpty(empty, hash);
      maps := empty;
      repr := all;
    }

    method Get(key: Bytes) returns (r: Option<Bytes>)
      requires Valid()
      ensures r == if key in Contents() then Some(Contents()[key]) else None
    {
      hide Union, Homed, F2Tab.Value, TabView;
      var h := hash(key);
      assert ShardOk(ShardOf(h));
      r := shards[ShardOf(h)].tab.Lookup(hash, key);
    }

    /** A shard none of whose objects changed is still valid and stands for the same map. */
    twostate lemma ShardKept(i: nat)
      requires |shards| == |old(maps)| == |maps| == SHARDS && i < SHARDS && old(ShardOk(i))
      requires unchanged(shards[i]) && unchanged(shards[i].tab, shards[i].tab.slots, shards[i].tab.buf)
      requires maps[i] == old(maps[i]) && old(repr) <= repr
      ensures ShardOk(i)
    {
    }

    method Put(key: Bytes, val: Bytes) returns (ok: bool)
      requires Valid()
      modifies this`maps, this`repr, Footprint(ShardOf(hash(key)))
      ensures Valid() && fresh(repr - old(repr))
      ensures ok == old(shards[ShardOf(hash(key))].CanPut(key, val))
      ensures !ok ==> !shards[ShardOf(hash(key))].CanPut(key, val)
      ensures Contents() == if ok then old(Contents())[key := val] else old(Contents())
    {
      hide F2Shard.Valid, F2Shard.Contents, F2Shard.CanPut, Union, Homed, Record, ShardOf;
      var h := hash(key);
      UnionPut(maps, hash, key, val);
      var s := shards[ShardOf(h)];
      ghost var b := ShardOf(h);
      assert ShardOk(b);
      ok := s.Put(h, key, val);
      maps := if ok then maps[b := maps[b][key := val]] else maps;
      repr := repr + Footprint(b);
      forall i | 0 <= i < SHARDS && i != b
        ensures unchanged(shards[i]) && unchanged(shards[i].tab, shards[i].tab.slots, shards[i].tab.buf)
      {
        assert old(ShardOk(i)) && old(Footprint(i) !! Footprint(b));
      }
      Rejoin(b);
    }

    /** After a change confined to shard b's objects, the engine is whole again. */
    twostate lemma Rejoin(b: nat)
      requires old(Valid()) && b < SHARDS && |maps| == SHARDS && Homed(maps, hash)
      requires forall i | 0 <= i < SHARDS && i != b :: maps[i] == old(maps[i])
      requires shards[b].hash == hash && shards[b].Valid() && shards[b].Contents() == maps[b]
      requires repr == old(repr) + Footprint(b)
      requires shards[b].tab == old(shards[b].tab) || forall o | o in shards[b].tab.Repr() :: !old(allocated(o))
      requires forall i | 0 <= i < SHARDS && i != b ::
                 unchanged(shards[i]) && unchanged(shards[i].tab, shards[i].tab.slots, shards[i].tab.buf)
      ensures Valid()
    {
      hide F2Shard.Valid, F2Shard.Contents, Homed;
      forall i | 0 <= i < SHARDS && i != b
        ensures ShardOk(i)
      {
        assert old(ShardOk(i));
        ShardKept(i);
      }
      assert old(ShardOk(b));
      assert ShardOk(b);
    }

    method Delete(key: Bytes)
      requires Valid()
      modifies this`maps, this`repr, Footprint(ShardOf(hash(key)))
      ensures Valid() && fresh(repr - old(repr))
      ensures Contents() == old(Contents()) - {key}
    {
      hide F2Shard.Valid, F2Shard.Contents, Union, Homed, Record, F2Tab.Value, ShardOf, Buried, Cells;
      var h := hash(key);
      UnionDelete(maps, hash, key);
      var s := shards[ShardOf(h)];
      ghost var b := ShardOf(h);
      assert ShardOk(b);
      ghost var p := s.DeleteLocked(h, key);
      maps := maps[b := maps[b] - {key}];
      repr := repr + Footprint(b);
      forall i | 0 <= i < SHARDS && i != b
        ensures unchanged(shards[i]) && unchanged(shards[i].tab, shards[i].tab.slots, shards[i].tab.buf)
      {
        assert old(ShardOk(i)) && old(Footprint(i) !! Footprint(b));
      }
      Rejoin(b);
    }

    lemma Within(i: nat)
      requires Valid() && i < SHARDS
      ensures |shards| == SHARDS && this !in repr && Footprint(i) <= repr
    {
      assert ShardOk(i);
    }

    /** The lock is taken once per operation, so other clients may run between two
        operations of a batch; alone, the batch is the fold of its operations, up to a
        put that panics. */
    method ApplyBatch(ops: seq<Op>) returns (n: nat)
      requires Valid()
      modifies this`maps, this`repr, repr
      ensures Valid() && fresh(repr - old(repr))
      ensures n <= |ops| && Contents() == ApplyAll(old(Contents()), ops[..n])
      ensures n < |ops| ==>
                ops[n].Put? && !shards[ShardOf(hash(ops[n].key))].CanPut(ops[n].key, ops[n].val)
    {
      hide Contents, Record, ShardOf, Valid, Footprint, ShardOk, F2Shard.Valid, F2Shard.CanPut;
      n := 0;
      while n < |ops|
        invariant 0 <= n <= |ops| && Valid() && fresh(repr - old(repr))
        invariant Contents() == ApplyAll(old(Contents()), ops[..n])
      {
        assert ops[..n + 1][..n] == ops[..n];
        Within(ShardOf(hash(ops[n].key)));
        match ops[n] {
          case Delete(k) => Delete(k);
          case Put(k, v) =>
            var ok := Put(k, v);
            if !ok {
              return;
            }
        }
        n := n + 1;
      }
    }
  }
}
