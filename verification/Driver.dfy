/** The harness around an engine: loading the keyspace, and counting the operations
    of concurrent clients. */
module Driver {
  import opened Arith
  import opened Records
  import opened Store
  import opened Workload
  import opened Hdr

  // ---- loading ----

  const BATCH_SIZE: nat := 1000

  /** The writes of a load: key i with the generator's i-th value. */
  function LoadOps(card: nat, value: nat -> Bytes): (ops: seq<Op>)
    ensures |ops| == card && forall i | 0 <= i < card :: ops[i] == Put(EncodeKey(i), value(i))
  {
    seq(card, (i: nat) => Put(EncodeKey(i), value(i)))
  }

  function Flatten(batches: seq<seq<Op>>): seq<Op>
  {
    if batches == [] then [] else Flatten(batches[..|batches| - 1]) + batches[|batches| - 1]
  }

  /** loadDataset: fill a batch, commit it at 1000, commit what is left. */
  method LoadDataset(card: nat, value: nat -> Bytes) returns (m: Contents, commits: seq<seq<Op>>)
    requires card <= U64
    ensures Flatten(commits) == LoadOps(card, value) && m == ApplyAll(map[], LoadOps(card, value))
    ensures forall i | 0 <= i < |commits| :: 1 <= |commits[i]| <= BATCH_SIZE
    ensures forall i | 0 <= i < |commits| - 1 :: |commits[i]| == BATCH_SIZE
  {
    hide EncodeKey, Flatten, ApplyAll, LoadOps;
    m, commits := map[], [];
    NothingYet();
    var batch: seq<Op> := [];
    ghost var all := LoadOps(card, value);
    var i := 0;
    while i < card
      invariant 0 <= i <= card && |batch| < BATCH_SIZE
      invariant Flatten(commits) + batch == all[..i] && m == ApplyAll(map[], Flatten(commits))
      invariant forall j | 0 <= j < |commits| :: |commits[j]| == BATCH_SIZE
    {
      assert all[..i + 1] == all[..i] + [all[i]];
      batch := batch + [Put(EncodeKey(i), value(i))];
      if |batch| >= BATCH_SIZE {
        CommitBatch(commits, batch);
        m := ApplyAll(m, batch);
        commits := commits + [batch];
        batch := [];
      }
      i := i + 1;
    }
    assert all[..card] == all;
    if |batch| > 0 {
      CommitBatch(commits, batch);
      m := ApplyAll(m, batch);
      commits := commits + [batch];
    } else {
      assert Flatten(commits) + batch == Flatten(commits);
    }
  }

  lemma NothingYet()
    ensures Flatten([]) == [] && ApplyAll(map[], []) == map[]
  {
  }

  lemma CommitBatch(batches: seq<seq<Op>>, b: seq<Op>)
    ensures Flatten(batches + [b]) == Flatten(batches) + b
    ensures ApplyAll(map[], Flatten(batches + [b])) == ApplyAll(ApplyAll(map[], Flatten(batches)), b)
  {
    assert (batches + [b])[..|batches|] == batches;
    ApplyAllConcat(map[], Flatten(batches), b);
  }

  /** The loaded store holds exactly the keys 0 to card - 1, each with its value. */
  lemma {:induction false} LoadedStore(card: nat, value: nat -> Bytes)
    requires card <= U64
    ensures var m := ApplyAll(map[], LoadOps(card, value));
            && (forall i | 0 <= i < card :: EncodeKey(i) in m && m[EncodeKey(i)] == value(i))
            && (forall k | k in m :: exists i :: 0 <= i < card && k == EncodeKey(i))
  {
    hide EncodeKey;
    if card > 0 {
      LoadedStore(card - 1, value);
      var ops := LoadOps(card, value);
      assert ops[..card - 1] == LoadOps(card - 1, value);
      forall i | 0 <= i < card - 1
        ensures EncodeKey(i) != EncodeKey(card - 1)
      {
        EncodeKeyOrder(i, card - 1);
      }
    }
  }

  /** Every key a read, update, scan or random insert can choose has been loaded:
      uniformly, by recency, and by the Zipf tests however they come out. */
  lemma ChosenKeysLoaded(card: nat, value: nat -> Bytes, draw: nat, pow: nat -> real, u: real, half: real, idx: nat)
    requires 0 < card < U64 && draw < U64 && 0.0 <= u < 1.0 && pow(1) == 1.0
    ensures var m := ApplyAll(map[], LoadOps(card, value));
            && EncodeKey(draw % card) in m
            && LatestNext(card, draw) >= 0 && EncodeKey(LatestNext(card, draw)) in m
            && EncodeKey(ZipfNext(card, RollOf(u, ZetaStatic(card, pow), half, idx))) in m
  {
    hide EncodeKey, ZipfNext, LatestNext, RollOf, ZetaStatic;
    LoadedStore(card, value);
    LatestInRange(card, draw);
    ZipfInRange(card, pow, u, half, idx);
  }

  // ---- measured clients ----

  datatype Kind = Read | Update | Insert | Scan | ReadModifyWrite | Delete

  predicate Reads(kind: Kind)
  {
    kind.Read? || kind.Scan? || kind.ReadModifyWrite?
  }

  predicate Writes(kind: Kind)
  {
    kind.Update? || kind.Insert? || kind.Delete? || kind.ReadModifyWrite?
  }

  /** Between taking an operation and recording it, a client adds to the shared
      counters, once, or twice for a read-modify-write. */
  datatype Progress = Ready | Half | Counted(kind: Kind)

  /** samples are what the client's own histogram has recorded; done is history, the
      kinds of those operations. */
  datatype Client = Client(done: seq<Kind>, samples: seq<nat>, at: Progress)

  datatype State = State(readOps: nat, writeOps: nat, clients: seq<Client>)

  datatype Step = Begin(c: nat, kind: Kind) | SecondAdd(c: nat) | Record(c: nat, ns: nat)

  /** The operations each client runs: an equal share, at least one. */
  function PerClient(operations: nat, clients: nat): (share: nat)
    requires clients > 0
    ensures share >= 1
    ensures operations >= clients ==> share * clients <= operations < (share + 1) * clients
    ensures operations < clients ==> share == 1
  {
    DivAtLeast(operations, clients, 1);
    Remainder(operations, clients);
    if operations / clients == 0 then 1 else operations / clients
  }

  ghost predicate Next(s: State, step: Step, s': State, quota: nat)
  {
    && step.c < |s.clients|
    && var k := s.clients[step.c];
    match step
    case Begin(c, kind) =>
      && k.at.Ready? && |k.done| < quota
      && s' == State(if Reads(kind) then s.readOps + 1 else s.readOps,
                     if Reads(kind) then s.writeOps else s.writeOps + 1,
                     s.clients[c := k.(at := if kind.ReadModifyWrite? then Half else Counted(kind))])
    case SecondAdd(c) =>
      && k.at.Half?
      && s' == s.(writeOps := s.writeOps + 1, clients := s.clients[c := k.(at := Counted(ReadModifyWrite))])
    case Record(c, ns) =>
      && k.at.Counted?
      && s' == s.(clients := s.clients[c := Client(k.done + [k.at.kind], k.samples + [ns], Ready)])
  }

  ghost predicate Run(states: seq<State>, steps: seq<Step>, clients: nat, quota: nat)
  {
    && |states| == |steps| + 1
    && states[0] == State(0, 0, seq(clients, _ => Client([], [], Ready)))
    && forall i | 0 <= i < |steps| :: Next(states[i], steps[i], states[i + 1], quota)
  }

  // ---- counting by kind ----

  /** What is counted: the additions to one of the two counters, or the operations of
      one kind. */
  datatype Tally = ReadAdds | WriteAdds | OfKind(kind: Kind)

  ghost function Recorded(done: seq<Kind>, tally: Tally): nat
  {
    var ops := multiset(done);
    match tally
    case ReadAdds => ops[Read] + ops[Scan] + ops[ReadModifyWrite]
    case WriteAdds => ops[Update] + ops[Insert] + ops[Kind.Delete] + ops[ReadModifyWrite]
    case OfKind(kind) => ops[kind]
  }

  /** What one client has added so far. */
  ghost function Added(k: Client, tally: Tally): nat
  {
    Recorded(k.done, tally) +
      match k.at
      case Ready => 0
      case Half => if tally.ReadAdds? || tally == OfKind(ReadModifyWrite) then 1 else 0
      case Counted(kind) => Recorded([kind], tally)
  }

  ghost function TotalAdded(clients: seq<Client>, tally: Tally): nat
  {
    if clients == [] then 0 else TotalAdded(clients[..|clients| - 1], tally) + Added(clients[|clients| - 1], tally)
  }

  /** The operations of one kind that have begun before step i, by any client. */
  ghost function Begun(steps: seq<Step>, kind: Kind, i: nat): nat
    requires i <= |steps|
  {
    if i == 0 then 0 else
    Begun(steps, kind, i - 1) + if steps[i - 1].Begin? && steps[i - 1].kind == kind then 1 else 0
  }

  lemma {:induction false} TotalUpdate(clients: seq<Client>, c: nat, k: Client, tally: Tally)
    requires c < |clients|
    ensures TotalAdded(clients[c := k], tally) ==
            TotalAdded(clients, tally) - Added(clients[c], tally) + Added(k, tally)
  {
    hide Added;
    var n := |clients| - 1;
    if c == n {
      assert clients[c := k][..n] == clients[..n];
    } else {
      TotalUpdate(clients[..n], c, k, tally);
      assert clients[c := k][..n] == clients[..n][c := k];
    }
  }

  ghost predicate Inv(s: State, clients: nat, quota: nat)
  {
    && |s.clients| == clients
    && s.readOps == TotalAdded(s.clients, ReadAdds) && s.writeOps == TotalAdded(s.clients, WriteAdds)
    && forall c | 0 <= c < clients ::
         && |s.clients[c].samples| == |s.clients[c].done| <= quota
         && (!s.clients[c].at.Ready? ==> |s.clients[c].done| < quota)
  }

  /** One step's effect on what its client has added. */
  lemma ClientAdds(s: State, step: Step, s': State, quota: nat, tally: Tally)
    requires Next(s, step, s', quota)
    ensures s'.clients == s.clients[step.c := s'.clients[step.c]]
    ensures var gain := Added(s'.clients[step.c], tally) - Added(s.clients[step.c], tally);
            match tally
            case ReadAdds => gain == s'.readOps - s.readOps
            case WriteAdds => gain == s'.writeOps - s.writeOps
            case OfKind(kind) => gain == if step.Begin? && step.kind == kind then 1 else 0
  {
    var k, k' := s.clients[step.c], s'.clients[step.c];
    if step.Record? {
      assert multiset(k'.done) == multiset(k.done) + multiset([k.at.kind]);
    }
  }

  lemma {:induction false} RunInv(states: seq<State>, steps: seq<Step>, clients: nat, quota: nat, i: nat)
    requires Run(states, steps, clients, quota) && i < |states|
    ensures Inv(states[i], clients, quota)
    ensures forall kind :: Begun(steps, kind, i) == TotalAdded(states[i].clients, OfKind(kind))
  {
    hide Added;
    if i == 0 {
      forall tally: Tally
        ensures TotalAdded(states[0].clients, tally) == 0
      {
        NoneAdded(states[0].clients, tally);
      }
    } else {
      RunInv(states, steps, clients, quota, i - 1);
      var s, s', step := states[i - 1], states[i], steps[i - 1];
      assert Next(s, step, s', quota);
      forall tally: Tally
        ensures TotalAdded(s'.clients, tally) ==
                TotalAdded(s.clients, tally) - Added(s.clients[step.c], tally) + Added(s'.clients[step.c], tally)
      {
        ClientAdds(s, step, s', quota, tally);
        TotalUpdate(s.clients, step.c, s'.clients[step.c], tally);
      }
      ClientAdds(s, step, s', quota, ReadAdds);
      ClientAdds(s, step, s', quota, WriteAdds);
      forall kind
        ensures Begun(steps, kind, i) == TotalAdded(s'.clients, OfKind(kind))
      {
        ClientAdds(s, step, s', quota, OfKind(kind));
      }
    }
  }

  lemma {:induction false} NoneAdded(clients: seq<Client>, tally: Tally)
    requires forall c | 0 <= c < |clients| :: clients[c] == Client([], [], Ready)
    ensures TotalAdded(clients, tally) == 0
  {
    if clients != [] {
      NoneAdded(clients[..|clients| - 1], tally);
    }
  }

  ghost predicate Finished(s: State, quota: nat)
  {
    forall c | 0 <= c < |s.clients| :: s.clients[c].at.Ready? && |s.clients[c].done| == quota
  }

  /** When no client is between two additions, the counters are sums over kinds, and the
      kinds together are all recorded operations. */
  lemma {:induction false} ByKind(clients: seq<Client>)
    requires forall c | 0 <= c < |clients| :: clients[c].at.Ready?
    ensures TotalAdded(clients, ReadAdds) ==
            TotalAdded(clients, OfKind(Read)) + TotalAdded(clients, OfKind(Scan))
            + TotalAdded(clients, OfKind(ReadModifyWrite))
    ensures TotalAdded(clients, WriteAdds) ==
            TotalAdded(clients, OfKind(Update)) + TotalAdded(clients, OfKind(Insert))
            + TotalAdded(clients, OfKind(Kind.Delete)) + TotalAdded(clients, OfKind(ReadModifyWrite))
    ensures TotalAdded(clients, ReadAdds) + TotalAdded(clients, WriteAdds) ==
            TotalDone(clients) + TotalAdded(clients, OfKind(ReadModifyWrite))
  {
    hide Added;
    if clients != [] {
      var n := |clients| - 1;
      ByKind(clients[..n]);
      ClientByKind(clients[n]);
    }
  }

  ghost function TotalDone(clients: seq<Client>): nat
  {
    if clients == [] then 0 else TotalDone(clients[..|clients| - 1]) + |clients[|clients| - 1].done|
  }

  lemma ClientByKind(k: Client)
    requires k.at.Ready?
    ensures Added(k, ReadAdds) ==
            Added(k, OfKind(Read)) + Added(k, OfKind(Scan)) + Added(k, OfKind(ReadModifyWrite))
    ensures Added(k, WriteAdds) ==
            Added(k, OfKind(Update)) + Added(k, OfKind(Insert)) + Added(k, OfKind(Kind.Delete))
            + Added(k, OfKind(ReadModifyWrite))
    ensures Added(k, ReadAdds) + Added(k, WriteAdds) == |k.done| + Added(k, OfKind(ReadModifyWrite))
  {
    EveryKind(k.done);
  }

  /** There are six kinds. */
  lemma {:induction false} EveryKind(done: seq<Kind>)
    ensures var ops := multiset(done);
            |done| == ops[Read] + ops[Update] + ops[Insert] + ops[Scan] + ops[ReadModifyWrite] + ops[Kind.Delete]
  {
    if done != [] {
      var n := |done| - 1;
      EveryKind(done[..n]);
      assert done == done[..n] + [done[n]];
      assert forall kind :: multiset(done)[kind] == multiset(done[..n])[kind] + if kind == done[n] then 1 else 0;
      match done[n]
      case Read =>
      case Update =>
      case Insert =>
      case Scan =>
      case ReadModifyWrite =>
      case Delete =>
    }
  }

  // ---- clients finish ----

  /** The steps one client still has to take, at most. */
  ghost function Left(k: Client, quota: nat): int
  {
    3 * (quota - |k.done|) - match k.at case Ready => 0 case Half => 1 case Counted(_) => 2
  }

  ghost function TotalLeft(clients: seq<Client>, quota: nat): int
  {
    if clients == [] then 0 else TotalLeft(clients[..|clients| - 1], quota) + Left(clients[|clients| - 1], quota)
  }

  lemma {:induction false} LeftUpdate(clients: seq<Client>, c: nat, k: Client, quota: nat)
    requires c < |clients|
    ensures TotalLeft(clients[c := k], quota) == TotalLeft(clients, quota) - Left(clients[c], quota) + Left(k, quota)
  {
    hide Left;
    var n := |clients| - 1;
    if c == n {
      assert clients[c := k][..n] == clients[..n];
    } else {
      LeftUpdate(clients[..n], c, k, quota);
      assert clients[c := k][..n] == clients[..n][c := k];
    }
  }

  lemma {:induction false} LeftBounds(clients: seq<Client>, quota: nat)
    requires forall c | 0 <= c < |clients| ::
               |clients[c].done| <= quota && (!clients[c].at.Ready? ==> |clients[c].done| < quota)
    ensures 0 <= TotalLeft(clients, quota) <= 3 * (|clients| * quota)
  {
    if clients != [] {
      var n := |clients| - 1;
      LeftBounds(clients[..n], quota);
      assert (n + 1) * quota == n * quota + quota;
    }
  }

  /** In any interleaving the clients take at most three steps per operation, and unless
      all have finished one of them can take a step. */
  lemma ClientsFinish(states: seq<State>, steps: seq<Step>, clients: nat, quota: nat, i: nat)
    requires Run(states, steps, clients, quota) && i < |states|
    ensures i <= 3 * (clients * quota)
    ensures Finished(states[i], quota) || exists step, s' :: Next(states[i], step, s', quota)
  {
    hide Next, TotalLeft;
    StepsCounted(states, steps, clients, quota, i);
    RunInv(states, steps, clients, quota, i);
    LeftBounds(states[i].clients, quota);
    RunInv(states, steps, clients, quota, 0);
    LeftBounds(states[0].clients, quota);
    if !Finished(states[i], quota) {
      var s := states[i];
      var c :| 0 <= c < |s.clients| && !(s.clients[c].at.Ready? && |s.clients[c].done| == quota);
      var step, s' := NextOf(s, c, quota);
    }
  }

  lemma NextOf(s: State, c: nat, quota: nat) returns (step: Step, s': State)
    requires c < |s.clients| && |s.clients[c].done| <= quota
    requires !(s.clients[c].at.Ready? && |s.clients[c].done| == quota)
    ensures Next(s, step, s', quota)
  {
    var k := s.clients[c];
    match k.at {
      case Ready =>
        step := Begin(c, Read);
        s' := State(s.readOps + 1, s.writeOps, s.clients[c := k.(at := Counted(Read))]);
      case Half =>
        step := SecondAdd(c);
        s' := s.(writeOps := s.writeOps + 1, clients := s.clients[c := k.(at := Counted(ReadModifyWrite))]);
      case Counted(kind) =>
        step := Record(c, 0);
        s' := s.(clients := s.clients[c := Client(k.done + [kind], k.samples + [0], Ready)]);
    }
  }

  lemma {:induction false} StepsCounted(states: seq<State>, steps: seq<Step>, clients: nat, quota: nat, i: nat)
    requires Run(states, steps, clients, quota) && i < |states|
    ensures TotalLeft(states[i].clients, quota) <= TotalLeft(states[0].clients, quota) - i
  {
    if i > 0 {
      StepsCounted(states, steps, clients, quota, i - 1);
      var s, s', c := states[i - 1], states[i], steps[i - 1].c;
      assert Next(s, steps[i - 1], s', quota);
      LeftUpdate(s.clients, c, s'.clients[c], quota);
      assert s'.clients == s.clients[c := s'.clients[c]];
    }
  }

  // ---- merging the clients' histograms ----

  function Concat(parts: seq<seq<nat>>): seq<nat>
  {
    if parts == [] then [] else Concat(parts[..|parts| - 1]) + parts[|parts| - 1]
  }

  /** The merge loop at the end of runMeasured: the merged histogram is the histogram
      of all clients' samples. */
  method MergeAll(hists: seq<Histogram>, ghost parts: seq<seq<nat>>) returns (merged: Histogram)
    requires |parts| == |hists|
    requires forall i | 0 <= i < |hists| :: hists[i].Valid() && hists[i].samples == parts[i]
    ensures merged.Valid() && fresh(merged) && merged.samples == Concat(parts)
  {
    hide Histogram.Valid;
    merged := new Histogram();
    var i := 0;
    while i < |hists|
      invariant 0 <= i <= |hists| && merged.Valid() && fresh(merged) && fresh(merged.counts)
      invariant forall j | 0 <= j < |hists| :: hists[j].Valid() && hists[j].samples == parts[j]
      invariant merged.samples == Concat(parts[..i])
    {
      assert parts[..i + 1][..i] == parts[..i];
      merged.Merge(hists[i]);
      i := i + 1;
    }
    assert parts[..i] == parts;
  }

  lemma {:induction false} ConcatAppend(a: seq<seq<nat>>, b: seq<seq<nat>>)
    ensures Concat(a + b) == Concat(a) + Concat(b)
  {
    if b == [] {
      assert a + b == a;
    } else {
      ConcatAppend(a, b[..|b| - 1]);
      assert (a + b)[..|a + b| - 1] == a + b[..|b| - 1];
    }
  }

  /** A client's samples count wherever the client stands in the list. */
  lemma ConcatExtract(l: seq<seq<nat>>, x: seq<nat>, r: seq<seq<nat>>)
    ensures multiset(Concat(l + [x] + r)) == multiset(Concat(l + r)) + multiset(x)
  {
    ConcatAppend(l + [x], r);
    ConcatAppend(l, [x]);
    ConcatAppend(l, r);
    assert Concat([x]) == Concat([]) + x == x;
    assert Concat(l + [x] + r) == Concat(l) + x + Concat(r);
  }

  lemma {:induction false} ConcatPermuted(a: seq<seq<nat>>, b: seq<seq<nat>>)
    requires multiset(a) == multiset(b)
    ensures multiset(Concat(a)) == multiset(Concat(b))
  {
    hide Concat;
    if a == [] {
      assert |b| == |multiset(b)| == 0;
    } else {
      var n := |a| - 1;
      var x, rest := a[n], a[..n];
      assert a == rest + [x] == rest + [x] + [] && rest + [] == rest;
      assert x in multiset(b);
      var k :| 0 <= k < |b| && b[k] == x;
      var l, r := b[..k], b[k + 1..];
      assert b == l + [x] + r;
      RemoveOne(rest, l, r, x);
      ConcatPermuted(rest, l + r);
      ConcatExtract(rest, x, []);
      ConcatExtract(l, x, r);
    }
  }

  /** Merging the clients' histograms in any order gives the same histogram: the same
      counts, total, minimum and maximum. */
  lemma MergeOrderIrrelevant(a: Histogram, b: Histogram, parts: seq<seq<nat>>, parts': seq<seq<nat>>)
    requires a.Valid() && b.Valid() && a.samples == Concat(parts) && b.samples == Concat(parts')
    requires multiset(parts) == multiset(parts')
    ensures a.counts[..] == b.counts[..] && a.total == b.total && a.min == b.min && a.max == b.max
  {
    hide Concat, IsMin, IsMax, Count, InRange;
    ConcatPermuted(parts, parts');
    OrderIrrelevant(a.samples, b.samples, a.min, b.min, a.max, b.max);
    assert forall i | 0 <= i < |a.counts[..]| :: a.counts[..][i] == b.counts[..][i];
  }

  // ---- conservation ----

  ghost function Samples(clients: seq<Client>): (parts: seq<seq<nat>>)
    ensures |parts| == |clients| && forall c | 0 <= c < |clients| :: parts[c] == clients[c].samples
  {
    seq(|clients|, c requires 0 <= c < |clients| => clients[c].samples)
  }

  lemma {:induction false} SampleCount(clients: seq<Client>, quota: nat)
    requires forall c | 0 <= c < |clients| :: |clients[c].samples| == |clients[c].done| == quota
    ensures |Concat(Samples(clients))| == TotalDone(clients) == |clients| * quota
  {
    if clients != [] {
      var n := |clients| - 1;
      SampleCount(clients[..n], quota);
      assert Samples(clients)[..n] == Samples(clients[..n]);
      assert (n + 1) * quota == n * quota + quota;
    }
  }

  /** In any interleaving, when every client is done and their histograms are merged:
      the read counter is the number of reads, scans and read-modify-writes begun, the
      write counter the number of updates, inserts, deletes and read-modify-writes;
      together they are the merged count plus the read-modify-writes; and the merged
      count is clients times their share. */
  lemma OperationsConserved(states: seq<State>, steps: seq<Step>, operations: nat, clients: nat, i: nat,
                            merged: Histogram)
    requires clients > 0 && Run(states, steps, clients, PerClient(operations, clients)) && i < |states|
    requires Finished(states[i], PerClient(operations, clients))
    requires merged.Valid() && merged.samples == Concat(Samples(states[i].clients))
    ensures var s := states[i];
            && s.readOps == Begun(steps, Read, i) + Begun(steps, Scan, i) + Begun(steps, ReadModifyWrite, i)
            && s.writeOps == Begun(steps, Update, i) + Begun(steps, Insert, i) + Begun(steps, Kind.Delete, i)
                             + Begun(steps, ReadModifyWrite, i)
            && s.readOps + s.writeOps == merged.total + Begun(steps, ReadModifyWrite, i)
            && merged.total == clients * PerClient(operations, clients)
  {
    hide TotalAdded, TotalDone, Concat, Count, Next, Begun, PerClient;
    var s, quota := states[i], PerClient(operations, clients);
    RunInv(states, steps, clients, quota, i);
    ByKind(s.clients);
    SampleCount(s.clients, quota);
  }

  /** The times recorded before step i, by any client. */
  ghost function Timed(steps: seq<Step>, i: nat): multiset<nat>
    requires i <= |steps|
  {
    if i == 0 then multiset{} else
    Timed(steps, i - 1) + if steps[i - 1].Record? then multiset{steps[i - 1].ns} else multiset{}
  }

  lemma SampleAdded(clients: seq<Client>, c: nat, k: Client, ns: nat)
    requires c < |clients| && k.samples == clients[c].samples + [ns]
    ensures multiset(Concat(Samples(clients[c := k]))) == multiset(Concat(Samples(clients))) + multiset{ns}
  {
    hide Concat;
    var p, p' := Samples(clients), Samples(clients[c := k]);
    var l, r := p[..c], p[c + 1..];
    assert p == l + [clients[c].samples] + r && p' == l + [k.samples] + r;
    ConcatExtract(l, clients[c].samples, r);
    ConcatExtract(l, k.samples, r);
    assert multiset(k.samples) == multiset(clients[c].samples) + multiset{ns};
  }

  lemma {:induction false} NoSamples(clients: seq<Client>)
    requires forall c | 0 <= c < |clients| :: clients[c].samples == []
    ensures Concat(Samples(clients)) == []
  {
    if clients != [] {
      var n := |clients| - 1;
      NoSamples(clients[..n]);
      assert Samples(clients)[..n] == Samples(clients[..n]);
    }
  }

  lemma SamplesStep(s: State, step: Step, s': State, quota: nat)
    requires Next(s, step, s', quota)
    ensures multiset(Concat(Samples(s'.clients))) ==
            multiset(Concat(Samples(s.clients))) + if step.Record? then multiset{step.ns} else multiset{}
  {
    hide Concat;
    if step.Record? {
      SampleAdded(s.clients, step.c, s'.clients[step.c], step.ns);
    } else {
      assert Samples(s'.clients) == Samples(s.clients);
    }
  }

  /** In any interleaving the clients' histograms hold exactly the times recorded. */
  lemma {:induction false} SamplesRecorded(states: seq<State>, steps: seq<Step>, clients: nat, quota: nat, i: nat)
    requires Run(states, steps, clients, quota) && i < |states|
    ensures multiset(Concat(Samples(states[i].clients))) == Timed(steps, i)
  {
    hide Next, Concat;
    if i == 0 {
      NoSamples(states[0].clients);
    } else {
      SamplesRecorded(states, steps, clients, quota, i - 1);
      SamplesStep(states[i - 1], steps[i - 1], states[i], quota);
    }
  }
}
