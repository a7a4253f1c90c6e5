/** Lock-free readers against the writer of one `f2` shard, as a transition system.

    Every atomic load and store of the code is a step of its own: a reader loads the
    table pointer, loads one index word per step, and reads the record behind a
    matching word in a further step; the writer, alone under its mutex, publishes a
    grown table, appends a record and stores one index word in three separate steps.
    Steps of readers and the writer interleave freely, and readers may finish on a
    table that has been superseded.

    `hist` is the abstract history: the shard's map after each committed write. */
module F2Protocol {
  import opened Arith
  import opened Records
  import opened Store
  import opened Probing
  import opened F2Table

  datatype Writer =
    | WIdle
    | WPut(key: Bytes, val: Bytes)                  // lock held, table loaded
    | WRoomy(key: Bytes, val: Bytes)                // the arena and the index have room
    | WAppended(key: Bytes, val: Bytes, off: nat)   // record written, not yet published
    | WDelete(key: Bytes)                           // lock held, table loaded

  datatype Reader =
    | RIdle
    // about to load slot i, the n-th of the walk
    | RProbe(key: Bytes, tab: nat, i: nat, n: nat, start: nat)
    // word has the key's tag; its record is not yet read
    | RLoaded(key: Bytes, tab: nat, i: nat, n: nat, start: nat, word: Word)
    | RDone(key: Bytes, start: nat, end: nat, result: Option<Bytes>)

  /** tabs holds every table ever published, the last one current; ends[t] is the
      length of hist, less one, at the moment table t was superseded. */
  datatype Shard = Shard(tabs: seq<Tab>, ends: seq<nat>, hist: seq<Contents>, writer: Writer, readers: map<nat, Reader>)

  datatype Step =
    | ReadBegin(r: nat, key: Bytes) | ReadLoad(r: nat) | ReadRecord(r: nat)
    | WriteBegin(op: Op) | WriteGrow(next: Tab) | WriteRoomy | WriteAppend | WriteStore(p: nat) | WriteBury(p: nat)
    | Elsewhere   // a step on another shard

  ghost function Current(s: Shard): Tab
    requires |s.tabs| > 0
  {
    s.tabs[|s.tabs| - 1]
  }

  ghost function Now(s: Shard): nat
    requires |s.hist| > 0
  {
    |s.hist| - 1
  }

  ghost function WithCurrent(s: Shard, t: Tab): Shard
    requires |s.tabs| > 0
  {
    s.(tabs := s.tabs[|s.tabs| - 1 := t])
  }

  // ---- steps ----

  ghost predicate WellFormed(s: Shard)
  {
    && |s.tabs| > 0 && |s.hist| > 0
    && (forall t | 0 <= t < |s.tabs| :: |s.tabs[t].slots| > 0)
    && (forall r | r in s.readers && (s.readers[r].RProbe? || s.readers[r].RLoaded?) ::
          s.readers[r].tab < |s.tabs| && s.readers[r].i < |s.tabs[s.readers[r].tab].slots|)
  }

  /** The reader's next state after walking past slot i. */
  ghost function Past(rd: Reader, t: Tab): Reader
    requires (rd.RProbe? || rd.RLoaded?) && rd.i < |t.slots|
  {
    RProbe(rd.key, rd.tab, Next(rd.i, |t.slots|), rd.n + 1, rd.start)
  }

  ghost predicate ReaderCan(s: Shard, step: Step)
    requires WellFormed(s) && (step.ReadBegin? || step.ReadLoad? || step.ReadRecord?)
  {
    match step
    case ReadBegin(r, _) => r in s.readers ==> s.readers[r].RIdle? || s.readers[r].RDone?
    case ReadLoad(r) => r in s.readers && s.readers[r].RProbe?
    case ReadRecord(r) =>
      && r in s.readers && s.readers[r].RLoaded?
      && OffField(s.readers[r].word) >= 0
      && RecordAt(s.tabs[s.readers[r].tab].buf, OffField(s.readers[r].word)).Some?
  }

  ghost function ReaderAfter(s: Shard, step: Step, hash: Hash): Reader
    requires WellFormed(s) && (step.ReadBegin? || step.ReadLoad? || step.ReadRecord?) && ReaderCan(s, step)
  {
    match step
    case ReadBegin(r, key) =>
      RProbe(key, |s.tabs| - 1, Home(hash, key, |Current(s).slots|), 0, Now(s))
    case ReadLoad(r) =>
      var q, t := s.readers[r], s.tabs[s.readers[r].tab];
      var e := t.slots[q.i];
      if e == 0 then RDone(q.key, q.start, Now(s), None)
      else if e == TOMB || TagField(e) != TagOf(hash(q.key)) then Past(q, t)
      else RLoaded(q.key, q.tab, q.i, q.n, q.start, e)
    case ReadRecord(r) =>
      var q, t := s.readers[r], s.tabs[s.readers[r].tab];
      var (k, v) := RecordAt(t.buf, OffField(q.word)).value;
      if k == q.key then RDone(q.key, q.start, Now(s), Some(v)) else Past(q, t)
  }

  ghost predicate WriterNext(s: Shard, step: Step, s': Shard, hash: Hash)
    requires WellFormed(s) && !(step.ReadBegin? || step.ReadLoad? || step.ReadRecord?)
  {
    var t, w := Current(s), s.writer;
    match step
    case WriteBegin(op) =>
      w.WIdle? && s' == s.(writer := match op case Put(k, v) => WPut(k, v) case Delete(k) => WDelete(k))
    case WriteGrow(next) =>
      && w.WPut? && NeedsGrow(t, w.key, w.val)
      && GrownFrom(t, |Record(w.key, w.val)|, next, hash)
      && s' == s.(tabs := s.tabs + [next], ends := s.ends + [Now(s)], writer := WRoomy(w.key, w.val))
    case WriteRoomy =>
      w.WPut? && !NeedsGrow(t, w.key, w.val) && s' == s.(writer := WRoomy(w.key, w.val))
    case WriteAppend =>
      && w.WRoomy? && t.tail + |Record(w.key, w.val)| <= |t.buf|
      && s' == WithCurrent(s, Appended(t, w.key, w.val)).(writer := WAppended(w.key, w.val, t.tail))
    case WriteStore(p) =>
      && w.WAppended? && w.off + 1 < OFF_LIMIT && PutTarget(t, hash, w.key, p)
      && s' == WithCurrent(s, Installed(t, p, TagOf(hash(w.key)), w.off))
               .(writer := WIdle, hist := s.hist + [s.hist[Now(s)][w.key := w.val]])
    case WriteBury(p) =>
      && w.WDelete?
      && if w.key in TabView(t) then
           && p < |t.slots| && t.live > 0 && Cells(t)[p].Full? && Cells(t)[p].key == w.key
           && s' == WithCurrent(s, Buried(t, p)).(writer := WIdle, hist := s.hist + [s.hist[Now(s)] - {w.key}])
         else
           s' == s.(writer := WIdle)
    case Elsewhere => s' == s
  }

  ghost predicate NextState(s: Shard, step: Step, s': Shard, hash: Hash)
  {
    && WellFormed(s)
    && if step.ReadBegin? || step.ReadLoad? || step.ReadRecord? then
         ReaderCan(s, step) && s' == s.(readers := s.readers[step.r := ReaderAfter(s, step, hash)])
       else WriterNext(s, step, s', hash)
  }

  ghost predicate Init(s: Shard, hash: Hash)
  {
    && |s.tabs| == 1 && ValidTab(s.tabs[0], hash) && TabView(s.tabs[0]) == map[]
    && s.ends == [] && s.hist == [map[]] && s.writer.WIdle? && s.readers == map[]
  }

  /** Any interleaving: a sequence of states joined by steps. */
  ghost predicate Run(states: seq<Shard>, steps: seq<Step>, hash: Hash)
  {
    && |states| == |steps| + 1 && Init(states[0], hash)
    && forall i | 0 <= i < |steps| :: NextState(states[i], steps[i], states[i + 1], hash)
  }

  // ---- the invariant ----

  /** The key was absent at some moment from start to end. */
  ghost predicate AbsentIn(hist: seq<Contents>, key: Bytes, start: nat, end: nat)
  {
    exists j :: start <= j <= end < |hist| && key !in hist[j]
  }

  /** The key held val at some moment from start to end. */
  ghost predicate HeldIn(hist: seq<Contents>, key: Bytes, val: Bytes, start: nat, end: nat)
  {
    exists j :: start <= j <= end < |hist| && key in hist[j] && hist[j][key] == val
  }

  /** The key sits at least n steps into its walk. */
  ghost predicate Ahead(t: Tab, hash: Hash, key: Bytes, n: nat)
  {
    exists p :: && 0 <= p < |t.slots| && Cells(t)[p].Full? && Cells(t)[p].key == key
                && Dist(Home(hash, key, |t.slots|), p, |t.slots|) >= n
  }

  /** The first n slots of the walk are not empty. */
  ghost predicate Walked(t: Tab, home: nat, n: nat)
    requires home < |t.slots|
  {
    forall m | 0 <= m < n < |t.slots| + 1 :: t.slots[Slot(home, m, |t.slots|)] != 0
  }

  /** The last moment at which table t was current. */
  ghost function LastMoment(s: Shard, t: nat): nat
    requires t < |s.tabs| <= |s.ends| + 1 && |s.hist| > 0
  {
    if t < |s.ends| then s.ends[t] else Now(s)
  }

  ghost predicate OnWalk(s: Shard, hash: Hash, rd: Reader)
    requires |s.hist| > 0 && |s.tabs| == |s.ends| + 1 && (rd.RProbe? || rd.RLoaded?)
  {
    && rd.tab < |s.tabs|
    && var t := s.tabs[rd.tab];
    && 0 < |t.slots| && rd.n < |t.slots|
    && rd.i == Slot(Home(hash, rd.key, |t.slots|), rd.n, |t.slots|)
    && Walked(t, Home(hash, rd.key, |t.slots|), rd.n)
    && rd.start <= LastMoment(s, rd.tab)
    && (AbsentIn(s.hist, rd.key, rd.start, Now(s)) || Ahead(t, hash, rd.key, rd.n))
  }

  /** A loaded word still names an immutable record; if it is the key's, the value
      was the key's at some moment of this read. */
  ghost predicate Witnessed(s: Shard, hash: Hash, rd: Reader)
    requires rd.RLoaded? && OnWalk.requires(s, hash, rd) && OnWalk(s, hash, rd)
  {
    var t := s.tabs[rd.tab];
    && t.slots[rd.i] != 0
    && OffField(rd.word) >= 0 && RecordAt(t.buf, OffField(rd.word)).Some?
    && var (k, v) := RecordAt(t.buf, OffField(rd.word)).value;
    && HasRecord(t.buf, t.tail, OffField(rd.word), k, v)
    && (k == rd.key ==> HeldIn(s.hist, rd.key, v, rd.start, Now(s)))
    && (k != rd.key ==> AbsentIn(s.hist, rd.key, rd.start, Now(s)) || Ahead(t, hash, rd.key, rd.n + 1))
  }

  /** What a finished read promises: its answer was right at one moment inside it. */
  ghost predicate Linearized(hist: seq<Contents>, rd: Reader)
    requires rd.RDone?
  {
    && rd.start <= rd.end < |hist|
    && match rd.result
       case Some(v) => HeldIn(hist, rd.key, v, rd.start, rd.end)
       case None => AbsentIn(hist, rd.key, rd.start, rd.end)
  }

  ghost predicate ReaderOk(s: Shard, hash: Hash, rd: Reader)
    requires |s.hist| > 0 && |s.tabs| == |s.ends| + 1
  {
    match rd
    case RIdle => true
    case RProbe(_, _, _, _, _) => OnWalk(s, hash, rd)
    case RLoaded(_, _, _, _, _, _) => OnWalk(s, hash, rd) && Witnessed(s, hash, rd)
    case RDone(_, _, _, _) => Linearized(s.hist, rd)
  }

  ghost predicate WriterOk(s: Shard)
    requires |s.tabs| > 0
  {
    var t := Current(s);
    match s.writer
    case WIdle => true
    case WPut(_, _) => true
    case WDelete(_) => true
    case WRoomy(k, v) => t.tail + |Record(k, v)| <= |t.buf| && !Overloaded(t.used, |t.slots|)
    case WAppended(k, v, off) =>
      HasRecord(t.buf, t.tail, off, k, v) && AllBefore(t, off) && !Overloaded(t.used, |t.slots|)
  }

  /** Tables: each is valid, the current one stands for the newest map and each
      superseded one for the map of its last moment. */
  ghost predicate TablesOk(s: Shard, hash: Hash)
  {
    && |s.hist| > 0 && |s.tabs| == |s.ends| + 1
    && (forall t | 0 <= t < |s.tabs| :: ValidTab(s.tabs[t], hash))
    && TabView(Current(s)) == s.hist[Now(s)]
    && (forall t | 0 <= t < |s.ends| :: s.ends[t] < |s.hist| && TabView(s.tabs[t]) == s.hist[s.ends[t]])
  }

  ghost predicate Inv(s: Shard, hash: Hash)
  {
    && TablesOk(s, hash) && WriterOk(s)
    && forall r | r in s.readers :: ReaderOk(s, hash, s.readers[r])
  }

  // ---- reader steps ----

  lemma Shift(t: Tab, hash: Hash, key: Bytes, n: nat)
    requires ValidTab(t, hash) && n < |t.slots|
    requires Walked(t, Home(hash, key, |t.slots|), n + 1)
    ensures n + 1 < |t.slots|
    ensures var home, len := Home(hash, key, |t.slots|), |t.slots|;
            Next(Slot(home, n, len), len) == Slot(home, n + 1, len)
  {
    TabProbes(t, hash);
    var e :| 0 <= e < |t.slots| && Cells(t)[e].Empty?;
    CellKind(t, hash, e);
    assert forall m | 0 <= m <= n :: Slot(Home(hash, key, |t.slots|), m, |t.slots|) != e;
    assert Dist(Home(hash, key, |t.slots|), e, |t.slots|) > n;
  }

  /** An empty slot n steps in means the key is not further along. */
  lemma EmptyEndsWalk(t: Tab, hash: Hash, key: Bytes, n: nat)
    requires ValidTab(t, hash) && n < |t.slots|
    requires t.slots[Slot(Home(hash, key, |t.slots|), n, |t.slots|)] == 0
    ensures !Ahead(t, hash, key, n)
  {
  }

  /** A slot n steps in that does not hold the key leaves it further along. */
  lemma NotHere(t: Tab, hash: Hash, key: Bytes, n: nat)
    requires n < |t.slots| && Ahead(t, hash, key, n)
    requires var c := Cells(t)[Slot(Home(hash, key, |t.slots|), n, |t.slots|)]; c.Full? ==> c.key != key
    ensures Ahead(t, hash, key, n + 1)
  {
    hide Cells, CellOf, RecordAt, Home, Slot, Dist;
    var home := Home(hash, key, |t.slots|);
    var p :| && 0 <= p < |t.slots| && Cells(t)[p].Full? && Cells(t)[p].key == key
             && Dist(home, p, |t.slots|) >= n;
    assert Slot(home, Dist(home, p, |t.slots|), |t.slots|) == p;
  }

  /** A full slot of any published table holds a value its key had at the table's
      last moment. */
  lemma SlotWasTrue(s: Shard, hash: Hash, t: nat, i: nat, start: nat)
    requires TablesOk(s, hash) && t < |s.tabs| && i < |s.tabs[t].slots| && Cells(s.tabs[t])[i].Full?
    requires start <= LastMoment(s, t)
    ensures var c := Cells(s.tabs[t])[i]; HeldIn(s.hist, c.key, c.val, start, Now(s))
  {
    hide View, Cells, Reachable, Fulls, Used, Disjoint, WordsOk, IsPow2, Record, HasRecord, Home;
    ViewAt(Cells(s.tabs[t]), i);
    assert s.hist[LastMoment(s, t)] == TabView(s.tabs[t]);
  }

  lemma LoadKeeps(s: Shard, hash: Hash, q: Reader)
    requires TablesOk(s, hash) && q.RProbe? && ReaderOk(s, hash, q)
    ensures var t := s.tabs[q.tab];
            var e := t.slots[q.i];
            && (e == 0 ==> ReaderOk(s, hash, RDone(q.key, q.start, Now(s), None)))
            && (IsEntry(e) && TagField(e) == TagOf(hash(q.key)) ==>
                  ReaderOk(s, hash, RLoaded(q.key, q.tab, q.i, q.n, q.start, e)))
            && (e != 0 && (e == TOMB || TagField(e) != TagOf(hash(q.key))) ==> ReaderOk(s, hash, Past(q, t)))
  {
    hide View, RecordAt, HasRecord, Record, ValidTable, AbsentIn, HeldIn;
    var t := s.tabs[q.tab];
    var e := t.slots[q.i];
    EntryReads(t, hash, q.i);
    if e == 0 {
      EmptyEndsWalk(t, hash, q.key, q.n);
    } else {
      Shift(t, hash, q.key, q.n);
      if IsEntry(e) {
        SlotWasTrue(s, hash, q.tab, q.i, q.start);
        assert WordOk(e, t.buf, t.tail, hash);
      }
      if Ahead(t, hash, q.key, q.n) && (Cells(t)[q.i].Full? ==> Cells(t)[q.i].key != q.key) {
        NotHere(t, hash, q.key, q.n);
      }
    }
  }

  lemma RecordKeeps(s: Shard, hash: Hash, q: Reader)
    requires TablesOk(s, hash) && q.RLoaded? && ReaderOk(s, hash, q)
    ensures var t := s.tabs[q.tab];
            var (k, v) := RecordAt(t.buf, OffField(q.word)).value;
            && (k == q.key ==> ReaderOk(s, hash, RDone(q.key, q.start, Now(s), Some(v))))
            && (k != q.key ==> ReaderOk(s, hash, Past(q, t)))
  {
    hide View, RecordAt, HasRecord, Record, ValidTable, AbsentIn, HeldIn;
    Shift(s.tabs[q.tab], hash, q.key, q.n);
  }

  lemma BeginKeeps(s: Shard, hash: Hash, key: Bytes)
    requires TablesOk(s, hash)
    ensures ReaderOk(s, hash, RProbe(key, |s.tabs| - 1, Home(hash, key, |Current(s).slots|), 0, Now(s)))
  {
  }

  // ---- writer steps, as readers see them ----

  /** What a writer step may do to the table readers are on: no slot becomes empty,
      no published byte changes, and a key leaves its slot only by being deleted. */
  ghost predicate Evolves(t: Tab, t': Tab, newest: Contents)
  {
    && |t'.slots| == |t.slots| && t.tail <= t'.tail <= |t'.buf| && t.tail <= |t.buf|
    && t'.buf[..t.tail] == t.buf[..t.tail]
    && (forall i | 0 <= i < |t.slots| && t.slots[i] != 0 :: t'.slots[i] != 0)
    && (forall i | 0 <= i < |t.slots| && Cells(t)[i].Full? ::
          (Cells(t')[i].Full? && Cells(t')[i].key == Cells(t)[i].key) || Cells(t)[i].key !in newest)
  }

  ghost predicate ShardEvolves(s: Shard, s': Shard)
  {
    && |s.hist| > 0 && |s.tabs| == |s.ends| + 1 && |s'.tabs| == |s'.ends| + 1
    && s.hist <= s'.hist && s.ends <= s'.ends && s'.readers == s.readers
    && (forall t | 0 <= t < |s.ends| :: s'.tabs[t] == s.tabs[t])
    && Evolves(Current(s), s'.tabs[|s.ends|], s'.hist[Now(s')])
    && (|s'.ends| > |s.ends| ==> s'.ends[|s.ends|] >= Now(s))
  }

  /** Readers keep their invariant whatever the writer does. */
  lemma ReaderStable(s: Shard, s': Shard, hash: Hash, rd: Reader)
    requires ShardEvolves(s, s') && ReaderOk(s, hash, rd)
    ensures ReaderOk(s', hash, rd)
  {
    hide View, RecordAt, HasRecord, Record, Cells;
    match rd
    case RIdle =>
    case RDone(key, start, end, result) =>
      HistoryGrows(s.hist, s'.hist, key, start, end);
    case RProbe(key, tab, i, n, start) =>
      WalkStable(s, s', hash, rd);
    case RLoaded(key, tab, i, n, start, word) =>
      WalkStable(s, s', hash, rd);
      HistoryGrows(s.hist, s'.hist, key, start, Now(s));
      var t, t' := s.tabs[tab], s'.tabs[tab];
      var (k, v) := RecordAt(t.buf, OffField(word)).value;
      if tab == |s.ends| {
        RecordStable(t.buf, t'.buf, t.tail, t'.tail, OffField(word), k, v);
        if Ahead(t, hash, key, n + 1) {
          AheadStable(s, s', hash, key, n + 1, start);
        }
      }
  }

  lemma HistoryGrows(hist: seq<Contents>, hist': seq<Contents>, key: Bytes, start: nat, end: nat)
    requires hist <= hist' && end < |hist|
    ensures AbsentIn(hist, key, start, end) ==>
              AbsentIn(hist', key, start, end) && AbsentIn(hist', key, start, |hist'| - 1)
    ensures forall v :: HeldIn(hist, key, v, start, end) ==>
                          HeldIn(hist', key, v, start, end) && HeldIn(hist', key, v, start, |hist'| - 1)
  {
  }

  lemma AheadStable(s: Shard, s': Shard, hash: Hash, key: Bytes, n: nat, start: nat)
    requires ShardEvolves(s, s') && start <= Now(s) && Ahead(Current(s), hash, key, n)
    ensures Ahead(s'.tabs[|s.ends|], hash, key, n) || AbsentIn(s'.hist, key, start, Now(s'))
  {
    var t, t' := Current(s), s'.tabs[|s.ends|];
    var p :| && 0 <= p < |t.slots| && Cells(t)[p].Full? && Cells(t)[p].key == key
             && Dist(Home(hash, key, |t.slots|), p, |t.slots|) >= n;
    assert Now(s) <= Now(s');
    if key !in s'.hist[Now(s')] {
      assert AbsentIn(s'.hist, key, start, Now(s'));
    } else {
      assert Cells(t')[p].Full? && Cells(t')[p].key == key;
    }
  }

  lemma WalkStable(s: Shard, s': Shard, hash: Hash, rd: Reader)
    requires ShardEvolves(s, s') && (rd.RProbe? || rd.RLoaded?) && OnWalk(s, hash, rd)
    ensures OnWalk(s', hash, rd)
  {
    hide View, RecordAt, HasRecord, Record, Cells, AbsentIn, Ahead, HeldIn;
    HistoryGrows(s.hist, s'.hist, rd.key, rd.start, Now(s));
    if rd.tab == |s.ends| && Ahead(s.tabs[rd.tab], hash, rd.key, rd.n) {
      AheadStable(s, s', hash, rd.key, rd.n, rd.start);
    }
  }

  // ---- writer steps keep the tables ----

  lemma SameTable(t: Tab, newest: Contents)
    requires t.tail <= |t.buf|
    ensures Evolves(t, t, newest)
  {
  }

  lemma GrowKeeps(s: Shard, s': Shard, hash: Hash, next: Tab)
    requires Inv(s, hash) && WellFormed(s) && WriterNext(s, WriteGrow(next), s', hash)
    ensures TablesOk(s', hash) && WriterOk(s') && ShardEvolves(s, s')
  {
    hide View, Cells, Sound, Record, IsPow2, LiveBytes;
    assert Sound(Current(s), hash);
    TailFits(Current(s), hash);
    SameTable(Current(s), s'.hist[Now(s')]);
  }

  lemma TailFits(t: Tab, hash: Hash)
    requires ValidTab(t, hash)
    ensures t.tail <= |t.buf| && |t.slots| > 0
  {
  }

  /** Replacing the current table by one that evolves from it, with or without a
      commit, keeps the tables in order. */
  lemma TableUpdated(s: Shard, s': Shard, hash: Hash)
    requires TablesOk(s, hash) && s'.readers == s.readers && s'.ends == s.ends
    requires s.hist <= s'.hist && |s'.tabs| == |s.tabs| && s'.tabs[..|s.ends|] == s.tabs[..|s.ends|]
    requires ValidTab(Current(s'), hash) && TabView(Current(s')) == s'.hist[Now(s')]
    requires Evolves(Current(s), Current(s'), s'.hist[Now(s')])
    ensures TablesOk(s', hash) && ShardEvolves(s, s')
  {
    hide ValidTab, TabView, Evolves;
    assert forall t | 0 <= t < |s.ends| :: s'.tabs[t] == s'.tabs[..|s.ends|][t] == s.tabs[t];
  }

  lemma AppendKeeps(s: Shard, s': Shard, hash: Hash)
    requires Inv(s, hash) && WellFormed(s) && WriterNext(s, WriteAppend, s', hash)
    ensures TablesOk(s', hash) && WriterOk(s') && ShardEvolves(s, s')
  {
    hide View, Cells, Sound, Record, IsPow2, HasRecord;
    var t, w := Current(s), s.writer;
    TailFits(t, hash);
    AppendSound(t, hash, w.key, w.val);
    assert Appended(t, w.key, w.val).buf[..t.tail] == t.buf[..t.tail];
    TableUpdated(s, s', hash);
  }

  lemma StoreKeeps(s: Shard, s': Shard, hash: Hash, p: nat)
    requires Inv(s, hash) && WellFormed(s) && WriterNext(s, WriteStore(p), s', hash)
    ensures TablesOk(s', hash) && WriterOk(s') && ShardEvolves(s, s')
  {
    hide TabView, Cells, Sound, Record, IsPow2, HasRecord, Evolves, ShardEvolves;
    var t, w := Current(s), s.writer;
    InstallSound(t, hash, p, w.off, w.key, w.val);
    InstallEvolves(t, hash, p, w.off, w.key, w.val, s'.hist[Now(s')]);
    var t' := Installed(t, p, TagOf(hash(w.key)), w.off);
    assert Current(s') == t' && t'.used <= t.used + 1;
    TableUpdated(s, s', hash);
  }

  lemma InstallEvolves(t: Tab, hash: Hash, p: nat, off: nat, key: Bytes, val: Bytes, newest: Contents)
    requires Sound(t, hash) && PutTarget(t, hash, key, p)
    requires HasRecord(t.buf, t.tail, off, key, val) && AllBefore(t, off) && off + 1 < OFF_LIMIT
    ensures Evolves(t, Installed(t, p, TagOf(hash(key)), off), newest)
  {
    hide View, Cells, Record, HasRecord, Reachable, Unique, Fulls, Used;
    InstallSound(t, hash, p, off, key, val);
    PackRoundTrip(TagOf(hash(key)), off);
  }

  lemma BuryKeeps(s: Shard, s': Shard, hash: Hash, p: nat)
    requires Inv(s, hash) && WellFormed(s) && WriterNext(s, WriteBury(p), s', hash)
    requires s.writer.key in TabView(Current(s))
    ensures TablesOk(s', hash) && WriterOk(s') && ShardEvolves(s, s')
  {
    hide TabView, Cells, Sound, Record, IsPow2, HasRecord, Evolves, ShardEvolves;
    var t := Current(s);
    BurySound(t, hash, p);
    BuryEvolves(t, hash, p, s'.hist[Now(s')]);
    assert Current(s') == Buried(t, p);
    TableUpdated(s, s', hash);
  }

  lemma BuryEvolves(t: Tab, hash: Hash, p: nat, newest: Contents)
    requires Sound(t, hash) && p < |t.slots| && t.live > 0 && Cells(t)[p].Full? && Cells(t)[p].key !in newest
    ensures Evolves(t, Buried(t, p), newest)
  {
    hide View, Cells, Record, HasRecord, Reachable, Unique, Fulls, Used;
    BurySound(t, hash, p);
  }

  lemma WriterKeeps(s: Shard, step: Step, s': Shard, hash: Hash)
    requires Inv(s, hash) && WellFormed(s)
    requires !(step.ReadBegin? || step.ReadLoad? || step.ReadRecord?) && WriterNext(s, step, s', hash)
    ensures TablesOk(s', hash) && WriterOk(s') && ShardEvolves(s, s')
  {
    hide TablesOk, WriterOk, ShardEvolves, Inv, TabView, GrownFrom, Installed, Appended;
    match step
    case WriteGrow(next) => GrowKeeps(s, s', hash, next);
    case WriteAppend => AppendKeeps(s, s', hash);
    case WriteStore(p) => StoreKeeps(s, s', hash, p);
    case WriteBury(p) =>
      if s.writer.key in TabView(Current(s)) {
        BuryKeeps(s, s', hash, p);
      } else {
        PassiveKeeps(s, step, s', hash);
      }
    case WriteBegin(_) => PassiveKeeps(s, step, s', hash);
    case WriteRoomy => PassiveKeeps(s, step, s', hash);
    case Elsewhere => PassiveKeeps(s, step, s', hash);
  }

  lemma PassiveKeeps(s: Shard, step: Step, s': Shard, hash: Hash)
    requires Inv(s, hash) && WellFormed(s)
    requires step.WriteBegin? || step.WriteRoomy? || step.WriteBury? || step.Elsewhere?
    requires WriterNext(s, step, s', hash) && s'.tabs == s.tabs
    ensures TablesOk(s', hash) && WriterOk(s') && ShardEvolves(s, s')
  {
    hide TabView, Sound, Record, IsPow2;
    TailFits(Current(s), hash);
    SameTable(Current(s), s.hist[Now(s)]);
  }

  // ---- whole runs ----

  lemma InvNext(s: Shard, step: Step, s': Shard, hash: Hash)
    requires Inv(s, hash) && NextState(s, step, s', hash)
    ensures Inv(s', hash)
  {
    hide ValidTab, TabView, ReaderOk, WriterOk, WriterNext, Evolves, WellFormed;
    if step.ReadBegin? || step.ReadLoad? || step.ReadRecord? {
      var rd := ReaderAfter(s, step, hash);
      assert ReaderOk(s, hash, rd) by {
        match step
        case ReadBegin(r, key) => BeginKeeps(s, hash, key);
        case ReadLoad(r) => LoadKeeps(s, hash, s.readers[r]);
        case ReadRecord(r) => RecordKeeps(s, hash, s.readers[r]);
      }
      TablesLocal(s, s', hash);
      forall r | r in s'.readers
        ensures ReaderOk(s', hash, s'.readers[r])
      {
        ReaderLocal(s, s', hash, s'.readers[r]);
      }
    } else {
      WriterKeeps(s, step, s', hash);
      forall r | r in s'.readers
        ensures ReaderOk(s', hash, s'.readers[r])
      {
        ReaderStable(s, s', hash, s.readers[r]);
      }
    }
  }

  lemma TablesLocal(s: Shard, s': Shard, hash: Hash)
    requires TablesOk(s, hash) && WriterOk(s) && s' == s.(readers := s'.readers)
    ensures TablesOk(s', hash) && WriterOk(s')
  {
    hide ValidTab, TabView, HasRecord, AllBefore, Record;
  }

  /** A reader's invariant speaks of the tables and the history only. */
  lemma ReaderLocal(s: Shard, s': Shard, hash: Hash, rd: Reader)
    requires |s.hist| > 0 && |s.tabs| == |s.ends| + 1
    requires s'.tabs == s.tabs && s'.ends == s.ends && s'.hist == s.hist
    ensures ReaderOk(s', hash, rd) == ReaderOk(s, hash, rd)
  {
  }

  lemma {:induction false} RunInv(states: seq<Shard>, steps: seq<Step>, hash: Hash, i: nat)
    requires Run(states, steps, hash) && i < |states|
    ensures Inv(states[i], hash)
  {
    hide NextState, ReaderOk, ValidTab, TabView;
    if i > 0 {
      RunInv(states, steps, hash, i - 1);
      InvNext(states[i - 1], steps[i - 1], states[i], hash);
    }
  }

  /** What the invariant says of a finished read. */
  lemma FinishedIsRight(states: seq<Shard>, steps: seq<Step>, hash: Hash, i: nat, r: nat)
    requires Run(states, steps, hash) && i < |states|
    requires r in states[i].readers && states[i].readers[r].RDone?
    ensures Linearized(states[i].hist, states[i].readers[r])
  {
    hide NextState, TablesOk, WriterOk;
    RunInv(states, steps, hash, i);
  }

  lemma InvWellFormed(s: Shard, hash: Hash)
    requires Inv(s, hash)
    ensures WellFormed(s)
  {
  }

  /** In every interleaving, the next step of an unfinished Get is possible: its next
      load is in range, and its pending record read never leaves the arena. */
  lemma ReaderCanStep(states: seq<Shard>, steps: seq<Step>, hash: Hash, i: nat, r: nat)
    requires Run(states, steps, hash) && i < |states| && r in states[i].readers
    requires states[i].readers[r].RProbe? || states[i].readers[r].RLoaded?
    ensures WellFormed(states[i])
    ensures states[i].readers[r].RProbe? ==> ReaderCan(states[i], ReadLoad(r))
    ensures states[i].readers[r].RLoaded? ==> ReaderCan(states[i], ReadRecord(r))
  {
    RunInv(states, steps, hash, i);
    InvWellFormed(states[i], hash);
  }

  /** In every interleaving, a superseded table is never written again, and history
      is only extended. */
  lemma {:induction false} Frozen(states: seq<Shard>, steps: seq<Step>, hash: Hash, i: nat, j: nat)
    requires Run(states, steps, hash) && i <= j < |states|
    ensures states[i].ends <= states[j].ends && states[i].hist <= states[j].hist
    ensures |states[i].tabs| == |states[i].ends| + 1 && |states[j].tabs| == |states[j].ends| + 1
    ensures forall t | 0 <= t < |states[i].ends| :: states[j].tabs[t] == states[i].tabs[t]
    decreases j
  {
    hide ValidTab, TabView, WriterNext, WriterOk, ReaderOk, Evolves;
    RunInv(states, steps, hash, i);
    if i < j {
      Frozen(states, steps, hash, i, j - 1);
      RunInv(states, steps, hash, j - 1);
      var s, step := states[j - 1], steps[j - 1];
      if !(step.ReadBegin? || step.ReadLoad? || step.ReadRecord?) {
        WriterKeeps(s, step, states[j], hash);
      }
    }
  }

  // ---- a Get, from its first step to its last ----

  predicate IsReadStep(step: Step, r: nat)
  {
    (step.ReadBegin? || step.ReadLoad? || step.ReadRecord?) && step.r == r
  }

  /** Reader r begins a Get of key at step a, and begins no other before step b. */
  ghost predicate GetSpan(steps: seq<Step>, r: nat, key: Bytes, a: nat, b: nat)
  {
    && a < b <= |steps| && steps[a] == ReadBegin(r, key)
    && forall i | a < i < b && IsReadStep(steps[i], r) :: !steps[i].ReadBegin?
  }

  /** The Get has returned by state b. */
  ghost predicate Finished(states: seq<Shard>, r: nat, b: nat)
    requires b < |states|
  {
    r in states[b].readers && states[b].readers[r].RDone?
  }

  /** How many steps of one kind reader r takes from step lo up to step hi. */
  ghost function Taken(steps: seq<Step>, r: nat, loads: bool, lo: nat, hi: nat): nat
    requires lo <= hi <= |steps|
  {
    if lo == hi then 0 else
    var last := steps[hi - 1];
    Taken(steps, r, loads, lo, hi - 1)
    + if IsReadStep(last, r) && (if loads then last.ReadLoad? else last.ReadRecord?) then 1 else 0
  }

  /** What a reader's state says of its Get, which began at moment start on table tab
      with that many slots and has made so many loads and record reads by moment now. */
  ghost predicate Follows(rd: Reader, key: Bytes, start: int, tab: int, slots: nat, loads: nat, records: nat, now: int)
  {
    match rd
    case RIdle => false
    case RProbe(k, t, _, n, st) => k == key && t == tab && st == start && loads == n && records <= loads
    case RLoaded(k, t, _, n, st, _) => k == key && t == tab && st == start && loads == n + 1 && records < loads
    case RDone(k, st, end, _) => k == key && st == start && end <= now && records <= loads <= slots
  }

  lemma FollowBegin(s: Shard, r: nat, key: Bytes, s': Shard, hash: Hash, slots: nat)
    requires NextState(s, ReadBegin(r, key), s', hash)
    ensures r in s'.readers && Follows(s'.readers[r], key, |s.hist| - 1, |s.tabs| - 1, slots, 0, 0, |s'.hist| - 1)
  {
  }

  lemma FollowRead(s: Shard, step: Step, s': Shard, hash: Hash, r: nat, key: Bytes, start: int, tab: int,
                   slots: nat, loads: nat, records: nat)
    requires NextState(s, step, s', hash) && IsReadStep(step, r) && !step.ReadBegin?
    requires r in s.readers && Follows(s.readers[r], key, start, tab, slots, loads, records, |s.hist| - 1)
    requires s.readers[r].RProbe? || s.readers[r].RLoaded? ==> s.readers[r].n < slots
    ensures r in s'.readers
    ensures Follows(s'.readers[r], key, start, tab, slots, if step.ReadLoad? then loads + 1 else loads,
                    if step.ReadRecord? then records + 1 else records, |s'.hist| - 1)
    ensures s.readers[r].RProbe? || s.readers[r].RLoaded?
    ensures s'.readers[r].RDone? ==> s'.readers[r].end == |s.hist| - 1
  {
  }

  lemma FollowOther(s: Shard, step: Step, s': Shard, hash: Hash, r: nat)
    requires NextState(s, step, s', hash) && !IsReadStep(step, r) && r in s.readers
    ensures r in s'.readers && s'.readers[r] == s.readers[r] && |s'.hist| >= |s.hist|
  {
  }

  /** A table never changes its number of slots. */
  lemma {:induction false} SlotsFixed(states: seq<Shard>, steps: seq<Step>, hash: Hash, i: nat, j: nat, t: nat)
    requires Run(states, steps, hash) && i <= j < |states| && t < |states[i].tabs|
    ensures t < |states[j].tabs| && |states[j].tabs[t].slots| == |states[i].tabs[t].slots|
    decreases j
  {
    hide ValidTab, TabView, WriterNext, WriterOk, ReaderOk, Cells;
    if i < j {
      SlotsFixed(states, steps, hash, i, j - 1, t);
      RunInv(states, steps, hash, j - 1);
      var s, step := states[j - 1], steps[j - 1];
      if !(step.ReadBegin? || step.ReadLoad? || step.ReadRecord?) {
        WriterKeeps(s, step, states[j], hash);
      }
    }
  }

  /** What the states know of a Get agrees with the run: the reader still looks for the
      key of its first step, on the table current then, and has counted its loads. */
  ghost predicate Tracks(states: seq<Shard>, steps: seq<Step>, r: nat, key: Bytes, a: nat, i: nat)
    requires a < i < |states| == |steps| + 1 && |states[a].tabs| > 0
  {
    && r in states[i].readers
    && Follows(states[i].readers[r], key, |states[a].hist| - 1, |states[a].tabs| - 1, |Current(states[a]).slots|,
               Taken(steps, r, true, a + 1, i), Taken(steps, r, false, a + 1, i), |states[i].hist| - 1)
  }

  lemma {:induction false} GetTracked(states: seq<Shard>, steps: seq<Step>, hash: Hash,
                                      r: nat, key: Bytes, a: nat, i: nat)
    requires Run(states, steps, hash) && i < |states| && GetSpan(steps, r, key, a, i)
    ensures |states[a].tabs| > 0 && Tracks(states, steps, r, key, a, i)
    decreases i
  {
    hide NextState, Follows, Taken;
    HasTable(states, steps, hash, a);
    if a + 1 == i {
      TakenNone(steps, r, i);
      FollowBegin(states[a], r, key, states[i], hash, |Current(states[a]).slots|);
    } else {
      GetTracked(states, steps, hash, r, key, a, i - 1);
      WalkBounded(states, steps, hash, r, key, a, i - 1);
      TrackNext(states, steps, hash, r, key, a, i - 1);
    }
  }

  lemma TakenNone(steps: seq<Step>, r: nat, i: nat)
    requires i <= |steps|
    ensures Taken(steps, r, true, i, i) == 0 && Taken(steps, r, false, i, i) == 0
  {
  }

  lemma TrackNext(states: seq<Shard>, steps: seq<Step>, hash: Hash, r: nat, key: Bytes, a: nat, i: nat)
    requires a < i < |steps| && |states| == |steps| + 1 && |states[a].tabs| > 0
    requires NextState(states[i], steps[i], states[i + 1], hash) && Tracks(states, steps, r, key, a, i)
    requires IsReadStep(steps[i], r) ==> !steps[i].ReadBegin?
    requires var rd := states[i].readers[r]; rd.RProbe? || rd.RLoaded? ==> rd.n < |Current(states[a]).slots|
    ensures Tracks(states, steps, r, key, a, i + 1)
  {
    hide NextState, Follows;
    var s, s', step := states[i], states[i + 1], steps[i];
    var start, tab, slots := |states[a].hist| - 1, |states[a].tabs| - 1, |Current(states[a]).slots|;
    var loads, records := Taken(steps, r, true, a + 1, i), Taken(steps, r, false, a + 1, i);
    if IsReadStep(step, r) {
      FollowRead(s, step, s', hash, r, key, start, tab, slots, loads, records);
    } else {
      FollowOther(s, step, s', hash, r);
      FollowsLater(s.readers[r], key, start, tab, slots, loads, records, |s.hist| - 1, |s'.hist| - 1);
    }
  }

  lemma FollowsLater(rd: Reader, key: Bytes, start: int, tab: int, slots: nat, loads: nat, records: nat,
                     now: int, later: int)
    requires Follows(rd, key, start, tab, slots, loads, records, now) && now <= later
    ensures Follows(rd, key, start, tab, slots, loads, records, later)
  {
  }

  lemma HasTable(states: seq<Shard>, steps: seq<Step>, hash: Hash, a: nat)
    requires Run(states, steps, hash) && a < |states|
    ensures |states[a].tabs| > 0 && |states[a].hist| > 0
  {
    hide NextState, ReaderOk, WriterOk, ValidTab, TabView;
    RunInv(states, steps, hash, a);
  }

  /** The reader's place on its walk is a slot of the table it started on. */
  lemma WalkBounded(states: seq<Shard>, steps: seq<Step>, hash: Hash, r: nat, key: Bytes, a: nat, i: nat)
    requires Run(states, steps, hash) && a < i < |states| && |states[a].tabs| > 0
    requires Tracks(states, steps, r, key, a, i)
    ensures var rd := states[i].readers[r]; rd.RProbe? || rd.RLoaded? ==> rd.n < |Current(states[a]).slots|
  {
    hide NextState, ValidTab, TabView, WriterOk, Witnessed, Taken, AbsentIn, Ahead, Walked;
    RunInv(states, steps, hash, i);
    SlotsFixed(states, steps, hash, a, i, |states[a].tabs| - 1);
  }

  /** In every interleaving a Get is linearizable: when a Get of key that began at step a
      returns at step b, its answer is what the shard's map said of the key at some
      moment between the two. A hit is the value the key had then, a miss means that
      it was absent then. */
  lemma Linearizable(states: seq<Shard>, steps: seq<Step>, hash: Hash, r: nat, key: Bytes, a: nat, b: nat)
      returns (j: nat)
    requires Run(states, steps, hash) && b < |steps| && GetSpan(steps, r, key, a, b + 1)
    requires a < b && !Finished(states, r, b) && Finished(states, r, b + 1)
    ensures |states[a].hist| - 1 <= j <= |states[b].hist| - 1 && states[b].hist <= states[b + 1].hist
    ensures states[b + 1].readers[r].result ==
            if key in states[b].hist[j] then Some(states[b].hist[j][key]) else None
  {
    assert NextState(states[b], steps[b], states[b + 1], hash);
    hide NextState, Taken, Run, Follows, HeldIn, AbsentIn;
    GetTracked(states, steps, hash, r, key, a, b);
    GetTracked(states, steps, hash, r, key, a, b + 1);
    FinishedIsRight(states, steps, hash, b + 1, r);
    Frozen(states, steps, hash, b, b + 1);
    WalkBounded(states, steps, hash, r, key, a, b);
    EndsNow(states[b], steps[b], states[b + 1], hash, r);
    j := RightMoment(states[b + 1].hist, states[b + 1].readers[r]);
  }

  /** A read finishes at the moment of its last step. */
  lemma EndsNow(s: Shard, step: Step, s': Shard, hash: Hash, r: nat)
    requires NextState(s, step, s', hash) && r in s.readers && !s.readers[r].RDone?
    requires r in s'.readers && s'.readers[r].RDone?
    ensures s'.readers[r].end == |s.hist| - 1
  {
  }

  lemma RightMoment(hist: seq<Contents>, rd: Reader) returns (j: nat)
    requires rd.RDone? && Linearized(hist, rd)
    ensures rd.start <= j <= rd.end < |hist|
    ensures rd.result == if rd.key in hist[j] then Some(hist[j][rd.key]) else None
  {
    match rd.result {
      case Some(v) =>
        j :| rd.start <= j <= rd.end < |hist| && rd.key in hist[j] && hist[j][rd.key] == v;
      case None =>
        j :| rd.start <= j <= rd.end < |hist| && rd.key !in hist[j];
    }
  }

  // ---- the history is the writes of the run ----

  /** The operations whose writers have taken the lock before step i, in order. */
  ghost function Begun(steps: seq<Step>, i: nat): seq<Op>
    requires i <= |steps|
  {
    if i == 0 then [] else Begun(steps, i - 1) + if steps[i - 1].WriteBegin? then [steps[i - 1].op] else []
  }

  /** Those that have taken effect: all but the one that holds the lock. */
  ghost function Effective(ops: seq<Op>, idle: bool): seq<Op>
  {
    if idle || ops == [] then ops else ops[..|ops| - 1]
  }

  ghost function Committed(states: seq<Shard>, steps: seq<Step>, i: nat): seq<Op>
    requires i <= |steps| < |states|
  {
    Effective(Begun(steps, i), states[i].writer.WIdle?)
  }

  ghost predicate WriterHas(w: Writer, op: Op)
  {
    match w
    case WIdle => true
    case WPut(k, v) => op == Put(k, v)
    case WRoomy(k, v) => op == Put(k, v)
    case WAppended(k, v, _) => op == Put(k, v)
    case WDelete(k) => op == Delete(k)
  }

  /** One step's effect on the newest map. */
  lemma StepCommits(s: Shard, step: Step, s': Shard, hash: Hash, op: Op)
    requires Inv(s, hash) && NextState(s, step, s', hash) && WriterHas(s.writer, op) && |s'.hist| > 0
    ensures step.WriteBegin? ==>
              s.writer.WIdle? && !s'.writer.WIdle? && WriterHas(s'.writer, step.op) && s'.hist == s.hist
    ensures !step.WriteBegin? ==>
              && WriterHas(s'.writer, op) && (s.writer.WIdle? ==> s'.writer.WIdle?)
              && s'.hist[Now(s')] == if s.writer.WIdle? || !s'.writer.WIdle? then s.hist[Now(s)]
                                     else Apply(s.hist[Now(s)], op)
  {
    hide ReaderOk, WriterOk, ValidTab, ReaderAfter, ReaderCan, GrownFrom, PutTarget, Cells, Appended, Installed, Buried;
    hide TabView;
  }

  /** The newest map is the effective operations, and the writer has the last one. */
  ghost predicate AtOps(s: Shard, ops: seq<Op>)
  {
    && |s.hist| > 0 && s.hist[Now(s)] == ApplyAll(map[], Effective(ops, s.writer.WIdle?))
    && (!s.writer.WIdle? ==> ops != [] && WriterHas(s.writer, ops[|ops| - 1]))
  }

  lemma AtOpsNext(s: Shard, step: Step, s': Shard, hash: Hash, ops: seq<Op>)
    requires Inv(s, hash) && NextState(s, step, s', hash) && AtOps(s, ops) && |s'.hist| > 0
    ensures AtOps(s', if step.WriteBegin? then ops + [step.op] else ops)
  {
    hide NextState, Inv, Apply;
    var op := if ops == [] then Delete([]) else ops[|ops| - 1];
    StepCommits(s, step, s', hash, op);
    if step.WriteBegin? {
      assert (ops + [step.op])[..|ops|] == ops;
    }
  }

  /** In every interleaving the newest map is all the writes that have taken effect, in
      the order in which they took the lock. */
  lemma {:induction false} MapIsOps(states: seq<Shard>, steps: seq<Step>, hash: Hash, i: nat)
    requires Run(states, steps, hash) && i < |states|
    ensures AtOps(states[i], Begun(steps, i))
    ensures states[i].hist[Now(states[i])] == ApplyAll(map[], Committed(states, steps, i))
  {
    hide NextState, Inv, AtOps, Init, ApplyAll;
    HasTable(states, steps, hash, i);
    if i == 0 {
      StartsEmpty(states[0], hash);
    } else {
      MapIsOps(states, steps, hash, i - 1);
      RunInv(states, steps, hash, i - 1);
      AtOpsNext(states[i - 1], steps[i - 1], states[i], hash, Begun(steps, i - 1));
      assert Begun(steps, i - 1) + [] == Begun(steps, i - 1);
    }
    MapAtOps(states[i], Begun(steps, i));
  }

  lemma StartsEmpty(s: Shard, hash: Hash)
    requires Init(s, hash)
    ensures AtOps(s, [])
  {
    hide ValidTab, TabView;
  }

  lemma MapAtOps(s: Shard, ops: seq<Op>)
    requires AtOps(s, ops)
    ensures |s.hist| > 0 && s.hist[Now(s)] == ApplyAll(map[], Effective(ops, s.writer.WIdle?))
  {
  }

  /** Every entry of the history was the newest map in some state. */
  lemma {:induction false} MomentState(states: seq<Shard>, steps: seq<Step>, hash: Hash, a: nat, b: nat, j: nat)
      returns (i: nat)
    requires Run(states, steps, hash) && a <= b < |states|
    requires |states[a].hist| - 1 <= j <= |states[b].hist| - 1
    ensures a <= i <= b && |states[i].hist| == j + 1 && states[i].hist <= states[b].hist
    decreases b
  {
    hide NextState, Inv;
    Frozen(states, steps, hash, a, b);
    if j == |states[b].hist| - 1 {
      i := b;
    } else {
      RunInv(states, steps, hash, b - 1);
      HistGrows(states[b - 1], steps[b - 1], states[b], hash);
      i := MomentState(states, steps, hash, a, b - 1, j);
    }
  }

  lemma HistGrows(s: Shard, step: Step, s': Shard, hash: Hash)
    requires Inv(s, hash) && NextState(s, step, s', hash)
    ensures s.hist <= s'.hist && |s'.hist| <= |s.hist| + 1
  {
    hide ReaderOk, WriterOk, ValidTab, ReaderAfter, ReaderCan, GrownFrom, PutTarget, Cells, Appended, Installed, Buried;
  }

  /** In every interleaving, in the run's own terms: a Get that begins at step a and
      returns at step b answers what the writes that had taken effect in some state
      between the two make of its key. */
  lemma GetSeesWrites(states: seq<Shard>, steps: seq<Step>, hash: Hash, r: nat, key: Bytes, a: nat, b: nat)
      returns (i: nat)
    requires Run(states, steps, hash) && b < |steps| && GetSpan(steps, r, key, a, b + 1)
    requires a < b && !Finished(states, r, b) && Finished(states, r, b + 1)
    ensures a <= i <= b
    ensures var m := ApplyAll(map[], Committed(states, steps, i));
            states[b + 1].readers[r].result == if key in m then Some(m[key]) else None
  {
    hide NextState, Inv, Committed;
    var j := Linearizable(states, steps, hash, r, key, a, b);
    i := MomentState(states, steps, hash, a, b, j);
    MapIsOps(states, steps, hash, i);
    assert states[i].hist[Now(states[i])] == states[b].hist[j];
  }

  /** In every interleaving a Get is wait-free: whatever the writer does, it takes at
      most as many loads as the table current at its first step has slots, and no more
      record reads than loads. */
  lemma WaitFree(states: seq<Shard>, steps: seq<Step>, hash: Hash, r: nat, key: Bytes, a: nat, i: nat)
    requires Run(states, steps, hash) && i < |states| && GetSpan(steps, r, key, a, i)
    ensures |states[a].tabs| > 0
    ensures Taken(steps, r, true, a + 1, i) <= |Current(states[a]).slots|
    ensures Taken(steps, r, false, a + 1, i) <= Taken(steps, r, true, a + 1, i)
  {
    hide Taken, NextState;
    GetTracked(states, steps, hash, r, key, a, i);
    WalkBounded(states, steps, hash, r, key, a, i);
  }

  /** In every interleaving, a record once below the tail of any table, current or
      superseded, keeps its bytes and its reading for the rest of the run. */
  lemma {:induction false} RecordForever(states: seq<Shard>, steps: seq<Step>, hash: Hash, i: nat, j: nat,
                                         t: nat, off: nat, key: Bytes, val: Bytes)
    requires Run(states, steps, hash) && i <= j < |states| && t < |states[i].tabs|
    requires HasRecord(states[i].tabs[t].buf, states[i].tabs[t].tail, off, key, val)
    ensures t < |states[j].tabs| && HasRecord(states[j].tabs[t].buf, states[j].tabs[t].tail, off, key, val)
    ensures RecordAt(states[j].tabs[t].buf, off) == Some((key, val))
    decreases j
  {
    hide ValidTab, TabView, WriterNext, WriterOk, ReaderOk, HasRecord, RecordAt, Cells;
    if i == j {
      RecordRoundTrip(states[i].tabs[t].buf, states[i].tabs[t].tail, off, key, val);
    } else {
      RecordForever(states, steps, hash, i, j - 1, t, off, key, val);
      RunInv(states, steps, hash, j - 1);
      var s, step := states[j - 1], steps[j - 1];
      if !(step.ReadBegin? || step.ReadLoad? || step.ReadRecord?) {
        WriterKeeps(s, step, states[j], hash);
        if t == |s.ends| {
          var a, b := s.tabs[t], states[j].tabs[t];
          RecordStable(a.buf, b.buf, a.tail, b.tail, off, key, val);
        }
      }
    }
  }

  /** So the view a Get hands out without a copy stays what it was: the record behind
      any word ever published reads the same in every later state. */
  lemma PublishedForever(states: seq<Shard>, steps: seq<Step>, hash: Hash, i: nat, j: nat, t: nat, p: nat)
    requires Run(states, steps, hash) && i <= j < |states| && t < |states[i].tabs|
    requires p < |states[i].tabs[t].slots| && IsEntry(states[i].tabs[t].slots[p])
    ensures var off, c := OffField(states[i].tabs[t].slots[p]), Cells(states[i].tabs[t])[p];
            && off >= 0 && t < |states[j].tabs| && c.Full?
            && RecordAt(states[j].tabs[t].buf, off) == RecordAt(states[i].tabs[t].buf, off) == Some((c.key, c.val))
  {
    hide View, Reachable, Unique, Fulls, Used, Disjoint, HasRecord, ReaderOk, WriterOk, NextState;
    RunInv(states, steps, hash, i);
    var tab := states[i].tabs[t];
    EntryReads(tab, hash, p);
    assert WordOk(tab.slots[p], tab.buf, tab.tail, hash);
    var c := Cells(tab)[p];
    RecordForever(states, steps, hash, i, j, t, OffField(tab.slots[p]), c.key, c.val);
  }

  // ---- the code's put and delete are runs of writer steps ----

  /** The steps one put takes: lock, make room, append, publish. */
  ghost function PutSteps(key: Bytes, val: Bytes, grew: bool, mid: Tab, p: nat): seq<Step>
  {
    [WriteBegin(Put(key, val)), if grew then WriteGrow(mid) else WriteRoomy, WriteAppend, WriteStore(p)]
  }

  /** What PutLocked's contract says of the table before, between and after is
      exactly a sequence of writer steps here. */
  lemma PutIsSteps(s: Shard, hash: Hash, key: Bytes, val: Bytes, mid: Tab, p: nat) returns (states: seq<Shard>)
    requires Inv(s, hash) && WellFormed(s) && s.writer.WIdle?
    requires var prev := Current(s);
             if NeedsGrow(prev, key, val) then GrownFrom(prev, |Record(key, val)|, mid, hash) else mid == prev
    requires mid.tail + |Record(key, val)| <= |mid.buf| && mid.tail + 1 < OFF_LIMIT
    requires |mid.slots| > 0 && PutTarget(mid, hash, key, p)
    ensures var steps := PutSteps(key, val, NeedsGrow(Current(s), key, val), mid, p);
            && |states| == |steps| + 1 && states[0] == s
            && forall i | 0 <= i < |steps| :: NextState(states[i], steps[i], states[i + 1], hash)
    ensures |states[4].tabs| > 0
    ensures Current(states[4]) == Installed(Appended(mid, key, val), p, TagOf(hash(key)), mid.tail)
    ensures states[4].writer.WIdle? && states[4].hist == s.hist + [s.hist[Now(s)][key := val]]
  {
    hide TabView, Sound, Record, IsPow2, GrownFrom, Cells, WellFormed, NeedsGrow, ValidTab, PutTarget, ReaderOk;
    var steps := PutSteps(key, val, NeedsGrow(Current(s), key, val), mid, p);
    var s1 := s.(writer := WPut(key, val));
    InvStep(s, steps[0], s1, hash);
    var s2 := if NeedsGrow(Current(s), key, val)
              then s1.(tabs := s.tabs + [mid], ends := s.ends + [Now(s)], writer := WRoomy(key, val))
              else s1.(writer := WRoomy(key, val));
    InvStep(s1, steps[1], s2, hash);
    TargetKept(mid, hash, key, val, p);
    assert Current(s2) == mid;
    var rest := FromRoomy(s2, hash, key, val, p);
    states := [s, s1] + rest;
  }

  /** So is what DeleteLocked's contract says of the table. */
  lemma DeleteIsSteps(s: Shard, hash: Hash, key: Bytes, after: Tab, p: nat) returns (states: seq<Shard>)
    requires Inv(s, hash) && WellFormed(s) && s.writer.WIdle?
    requires var prev := Current(s);
             if key in TabView(prev) then
               && p < |prev.slots| && prev.live > 0 && after == Buried(prev, p)
               && Cells(prev)[p].Full? && Cells(prev)[p].key == key
             else after == prev
    ensures |states| == 3 && states[0] == s
    ensures NextState(s, WriteBegin(Delete(key)), states[1], hash)
    ensures NextState(states[1], WriteBury(p), states[2], hash)
    ensures |states[2].tabs| > 0 && Current(states[2]) == after && states[2].writer.WIdle?
    ensures states[2].hist == if key in s.hist[Now(s)] then s.hist + [s.hist[Now(s)] - {key}] else s.hist
  {
    hide TabView, Sound, Cells, WellFormed, ValidTab, ReaderOk;
    var s1 := s.(writer := WDelete(key));
    InvStep(s, WriteBegin(Delete(key)), s1, hash);
    assert Current(s1) == Current(s);
    var s2 := if key in TabView(Current(s)) then
                WithCurrent(s1, after).(writer := WIdle, hist := s.hist + [s.hist[Now(s)] - {key}])
              else s1.(writer := WIdle);
    states := [s, s1, s2];
  }

  lemma FromRoomy(s: Shard, hash: Hash, key: Bytes, val: Bytes, p: nat) returns (states: seq<Shard>)
    requires Inv(s, hash) && WellFormed(s) && s.writer == WRoomy(key, val)
    requires Current(s).tail + |Record(key, val)| <= |Current(s).buf| && Current(s).tail + 1 < OFF_LIMIT
    requires p < |Current(s).slots| && PutTarget(Appended(Current(s), key, val), hash, key, p)
    ensures |states| == 3 && states[0] == s
    ensures NextState(s, WriteAppend, states[1], hash) && NextState(states[1], WriteStore(p), states[2], hash)
    ensures |states[2].tabs| > 0
    ensures var t := Current(s); Current(states[2]) == Installed(Appended(t, key, val), p, TagOf(hash(key)), t.tail)
    ensures states[2].writer.WIdle? && states[2].hist == s.hist + [s.hist[Now(s)][key := val]]
  {
    hide TabView, Sound, Record, IsPow2, Cells, WellFormed, ValidTab, PutTarget, ReaderOk;
    var mid := Current(s);
    var s1 := WithCurrent(s, Appended(mid, key, val)).(writer := WAppended(key, val, mid.tail));
    InvStep(s, WriteAppend, s1, hash);
    assert Current(s1) == Appended(mid, key, val);
    var s2 := WithCurrent(s1, Installed(Current(s1), p, TagOf(hash(key)), mid.tail))
              .(writer := WIdle, hist := s.hist + [s.hist[Now(s)][key := val]]);
    states := [s, s1, s2];
  }

  lemma InvStep(s: Shard, step: Step, s': Shard, hash: Hash)
    requires Inv(s, hash) && NextState(s, step, s', hash)
    ensures Inv(s', hash) && WellFormed(s')
  {
    InvNext(s, step, s', hash);
    InvWellFormed(s', hash);
  }

  lemma TargetKept(mid: Tab, hash: Hash, key: Bytes, val: Bytes, p: nat)
    requires ValidTab(mid, hash)
    requires mid.tail + |Record(key, val)| <= |mid.buf| && |mid.slots| > 0 && PutTarget(mid, hash, key, p)
    ensures p < |mid.slots| && PutTarget(Appended(mid, key, val), hash, key, p)
  {
    hide View, Record, Cells, LiveBytes;
    AppendSound(mid, hash, key, val);
  }
}
