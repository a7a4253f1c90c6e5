/** The whole of `f2` under concurrency: 256 shards, each with its own readers and
    writer, all interleaving. A Get anywhere is linearizable with respect to the one map
    that the shards stand for together, and every write changes that map once. */
module F2System {
  import opened Records
  import opened Store
  import opened Probing
  import opened F2Table
  import opened F2Engine
  import opened F2Protocol

  /** A step of one shard. */
  datatype At = At(shard: nat, step: Step)

  /** Reads and writes of a key go to the key's shard. */
  ghost predicate Routed(e: At, hash: Hash)
  {
    && (e.step.ReadBegin? ==> e.shard == ShardOf(hash(e.step.key)))
    && (e.step.WriteBegin? ==> e.shard == ShardOf(hash(e.step.op.key)))
    && !e.step.Elsewhere?
  }

  ghost predicate Moves(s: seq<Shard>, e: At, s': seq<Shard>, hash: Hash)
  {
    && |s| == |s'| == SHARDS && e.shard < SHARDS && Routed(e, hash)
    && NextState(s[e.shard], e.step, s'[e.shard], hash)
    && forall i | 0 <= i < SHARDS && i != e.shard :: s'[i] == s[i]
  }

  ghost predicate SystemRun(states: seq<seq<Shard>>, steps: seq<At>, hash: Hash)
  {
    && |states| == |steps| + 1 && |states[0]| == SHARDS
    && (forall i | 0 <= i < SHARDS :: Init(states[0][i], hash))
    && (forall i | 0 <= i < |steps| :: Moves(states[i], steps[i], states[i + 1], hash))
  }

  // ---- one shard's view of a run ----

  lemma {:induction false} Width(states: seq<seq<Shard>>, steps: seq<At>, hash: Hash, i: nat)
    requires SystemRun(states, steps, hash) && i < |states|
    ensures |states[i]| == SHARDS
  {
    if i > 0 {
      assert Moves(states[i - 1], steps[i - 1], states[i], hash);
    }
  }

  ghost function ShardStates(states: seq<seq<Shard>>, b: nat): (view: seq<Shard>)
    requires forall i | 0 <= i < |states| :: b < |states[i]|
    ensures |view| == |states| && forall i | 0 <= i < |states| :: view[i] == states[i][b]
  {
    seq(|states|, i requires 0 <= i < |states| => states[i][b])
  }

  ghost function ShardSteps(steps: seq<At>, b: nat): (view: seq<Step>)
    ensures |view| == |steps|
    ensures forall i | 0 <= i < |steps| :: view[i] == if steps[i].shard == b then steps[i].step else Elsewhere
  {
    seq(|steps|, i requires 0 <= i < |steps| => if steps[i].shard == b then steps[i].step else Elsewhere)
  }

  lemma AllWide(states: seq<seq<Shard>>, steps: seq<At>, hash: Hash)
    requires SystemRun(states, steps, hash)
    ensures forall i | 0 <= i < |states| :: |states[i]| == SHARDS
  {
    forall i | 0 <= i < |states|
      ensures |states[i]| == SHARDS
    {
      Width(states, steps, hash, i);
    }
  }

  /** Each shard by itself runs the shard protocol. */
  lemma ShardRuns(states: seq<seq<Shard>>, steps: seq<At>, hash: Hash, b: nat)
    requires SystemRun(states, steps, hash) && b < SHARDS
    ensures forall i | 0 <= i < |states| :: |states[i]| == SHARDS
    ensures Run(ShardStates(states, b), ShardSteps(steps, b), hash)
  {
    AllWide(states, steps, hash);
    var view, own := ShardStates(states, b), ShardSteps(steps, b);
    RunsUpTo(states, steps, hash, b, |steps|);
    assert view[..|steps| + 1] == view && own[..|steps|] == own;
  }

  lemma {:induction false} RunsUpTo(states: seq<seq<Shard>>, steps: seq<At>, hash: Hash, b: nat, n: nat)
    requires SystemRun(states, steps, hash) && b < SHARDS && n <= |steps|
    requires forall i | 0 <= i < |states| :: |states[i]| == SHARDS
    ensures Run(ShardStates(states, b)[..n + 1], ShardSteps(steps, b)[..n], hash)
  {
    hide NextState, Init;
    var view, own := ShardStates(states, b), ShardSteps(steps, b);
    if n > 0 {
      RunsUpTo(states, steps, hash, b, n - 1);
      assert Moves(states[n - 1], steps[n - 1], states[n], hash);
      if steps[n - 1].shard != b {
        assert view[..n][n - 1] == view[n - 1] == view[n];
        Stutters(view[..n], own[..n - 1], hash, n - 1);
      }
    }
  }

  /** A shard can always wait. */
  lemma Stutters(states: seq<Shard>, steps: seq<Step>, hash: Hash, i: nat)
    requires Run(states, steps, hash) && i < |states|
    ensures NextState(states[i], Elsewhere, states[i], hash)
  {
    hide NextState, Inv;
    RunInv(states, steps, hash, i);
    InvWellFormed(states[i], hash);
    StutterStep(states[i], hash);
  }

  lemma StutterStep(s: Shard, hash: Hash)
    requires WellFormed(s)
    ensures NextState(s, Elsewhere, s, hash)
  {
  }

  // ---- the one map ----

  /** The newest map of every shard. */
  ghost function Maps(s: seq<Shard>): (maps: seq<Contents>)
    requires forall i | 0 <= i < |s| :: |s[i].hist| > 0
    ensures |maps| == |s| && forall i | 0 <= i < |s| :: maps[i] == s[i].hist[Now(s[i])]
  {
    seq(|s|, i requires 0 <= i < |s| => s[i].hist[Now(s[i])])
  }

  /** The engine's map in state i. */
  ghost function Whole(s: seq<Shard>, hash: Hash): Contents
    requires forall i | 0 <= i < |s| :: |s[i].hist| > 0
  {
    Union(Maps(s), hash)
  }

  lemma HistoriesStart(states: seq<seq<Shard>>, steps: seq<At>, hash: Hash, i: nat)
    requires SystemRun(states, steps, hash) && i < |states|
    ensures |states[i]| == SHARDS && forall b | 0 <= b < SHARDS :: |states[i][b].hist| > 0
  {
    AllWide(states, steps, hash);
    forall b | 0 <= b < SHARDS
      ensures |states[i][b].hist| > 0
    {
      ShardRuns(states, steps, hash, b);
      HasTable(ShardStates(states, b), ShardSteps(steps, b), hash, i);
    }
  }

  /** Every operation a shard has begun is on a key of that shard. */
  lemma {:induction false} BegunHere(steps: seq<At>, hash: Hash, b: nat, i: nat)
    requires (forall j | 0 <= j < |steps| :: Routed(steps[j], hash)) && i <= |steps|
    ensures forall j | 0 <= j < |Begun(ShardSteps(steps, b), i)| ::
              ShardOf(hash(Begun(ShardSteps(steps, b), i)[j].key)) == b
  {
    if i > 0 {
      BegunHere(steps, hash, b, i - 1);
      var view := ShardSteps(steps, b);
      assert view[i - 1].WriteBegin? ==> steps[i - 1].shard == b && Routed(steps[i - 1], hash);
    }
  }

  lemma {:induction false} KeysHere(ops: seq<Op>, hash: Hash, b: nat, k: Bytes)
    requires (forall j | 0 <= j < |ops| :: ShardOf(hash(ops[j].key)) == b) && k in ApplyAll(map[], ops)
    ensures ShardOf(hash(k)) == b
  {
    hide ShardOf;
    if ops != [] {
      var n := |ops| - 1;
      if ops[n].key != k {
        KeysHere(ops[..n], hash, b, k);
      }
    }
  }

  /** In every run each key is in its own shard only. */
  lemma AtHome(states: seq<seq<Shard>>, steps: seq<At>, hash: Hash, i: nat)
    requires SystemRun(states, steps, hash) && i < |states|
    ensures |states[i]| == SHARDS && forall b | 0 <= b < SHARDS :: |states[i][b].hist| > 0
    ensures Homed(Maps(states[i]), hash)
  {
    hide Moves, ShardOf, Init;
    HistoriesStart(states, steps, hash, i);
    RoutedRun(states, steps, hash);
    forall b, k | 0 <= b < SHARDS && k in Maps(states[i])[b]
      ensures ShardOf(hash(k)) == b
    {
      ShardHome(states, steps, hash, i, b, k);
    }
  }

  lemma RoutedRun(states: seq<seq<Shard>>, steps: seq<At>, hash: Hash)
    requires SystemRun(states, steps, hash)
    ensures forall j | 0 <= j < |steps| :: Routed(steps[j], hash)
  {
    hide Routed, NextState, Init;
    forall j | 0 <= j < |steps|
      ensures Routed(steps[j], hash)
    {
      assert Moves(states[j], steps[j], states[j + 1], hash);
    }
  }

  lemma ShardHome(states: seq<seq<Shard>>, steps: seq<At>, hash: Hash, i: nat, b: nat, k: Bytes)
    requires SystemRun(states, steps, hash) && i < |states| && b < SHARDS
    requires |states[i]| == SHARDS && |states[i][b].hist| > 0 && k in states[i][b].hist[Now(states[i][b])]
    requires forall j | 0 <= j < |steps| :: Routed(steps[j], hash)
    ensures ShardOf(hash(k)) == b
  {
    hide Moves, ShardOf, Routed, Init, Run, AtOps, ApplyAll;
    ShardRuns(states, steps, hash, b);
    MapIsOps(ShardStates(states, b), ShardSteps(steps, b), hash, i);
    BegunHere(steps, hash, b, i);
    KeysHere(Committed(ShardStates(states, b), ShardSteps(steps, b), i), hash, b, k);
  }

  /** Reader r begins a Get of key at step a, and begins no other before step b. */
  ghost predicate Span(steps: seq<At>, r: nat, key: Bytes, a: nat, b: nat)
  {
    && a < b <= |steps| && steps[a].step == ReadBegin(r, key)
    && forall i | a < i < b && steps[i].shard == steps[a].shard && IsReadStep(steps[i].step, r) ::
         !steps[i].step.ReadBegin?
  }

  /** What reader r of a shard has returned, if it has. */
  ghost function Answer(s: seq<Shard>, shard: nat, r: nat): Option<Option<Bytes>>
  {
    if shard < |s| && r in s[shard].readers && s[shard].readers[r].RDone? then Some(s[shard].readers[r].result)
    else None
  }

  /** In every interleaving of all shards, a Get that begins at step a and returns at
      step b answers what the one map said of its key in some state between the two. */
  lemma EngineLinearizable(states: seq<seq<Shard>>, steps: seq<At>, hash: Hash,
                           r: nat, key: Bytes, a: nat, b: nat) returns (i: nat)
    requires SystemRun(states, steps, hash) && a < b < |steps| && Span(steps, r, key, a, b + 1)
    requires Answer(states[b], steps[a].shard, r).None? && Answer(states[b + 1], steps[a].shard, r).Some?
    ensures a <= i <= b && |states[i]| == SHARDS && forall h | 0 <= h < SHARDS :: |states[i][h].hist| > 0
    ensures var m := Whole(states[i], hash);
            Answer(states[b + 1], steps[a].shard, r) == Some(if key in m then Some(m[key]) else None)
  {
    RoutedRun(states, steps, hash);
    assert Moves(states[a], steps[a], states[a + 1], hash) && Routed(steps[a], hash);
    hide Moves, ShardOf, Init, Run, AtOps, ApplyAll, Union, Committed, Routed;
    var h := steps[a].shard;
    ShardRuns(states, steps, hash, h);
    var view, own := ShardStates(states, h), ShardSteps(steps, h);
    i := GetSeesWrites(view, own, hash, r, key, a, b);
    MapIsOps(view, own, hash, i);
    AtHome(states, steps, hash, i);
  }

  /** The write that holds shard b's lock before step i, or else the last one that did. */
  ghost function LastBegun(steps: seq<At>, b: nat, i: nat): Option<Op>
    requires i <= |steps|
  {
    var ops := Begun(ShardSteps(steps, b), i);
    if ops == [] then None else Some(ops[|ops| - 1])
  }

  lemma ShardWrites(states: seq<seq<Shard>>, steps: seq<At>, hash: Hash, i: nat, b: nat)
    requires SystemRun(states, steps, hash) && i < |steps| && b == steps[i].shard < SHARDS
    requires |states[i]| == |states[i + 1]| == SHARDS && |states[i][b].hist| > 0 && |states[i + 1][b].hist| > 0
    ensures !states[i][b].writer.WIdle? ==>
              LastBegun(steps, b, i).Some? && ShardOf(hash(LastBegun(steps, b, i).value.key)) == b
    ensures var m, m' := states[i][b].hist[Now(states[i][b])], states[i + 1][b].hist[Now(states[i + 1][b])];
            m' == if states[i][b].writer.WIdle? || !states[i + 1][b].writer.WIdle? then m
                  else Apply(m, LastBegun(steps, b, i).value)
  {
    hide ShardOf, Init, Inv, NextState, Routed, Moves, Apply, ApplyAll;
    ShardRuns(states, steps, hash, b);
    var view, own := ShardStates(states, b), ShardSteps(steps, b);
    var ops := Begun(own, i);
    MapIsOps(view, own, hash, i);
    RunInv(view, own, hash, i);
    RoutedRun(states, steps, hash);
    BegunHere(steps, hash, b, i);
    var op := if ops == [] then Delete([]) else ops[|ops| - 1];
    StepCommits(view[i], own[i], view[i + 1], hash, op);
  }

  /** In every interleaving of all shards, a step changes the one map only by letting the
      write that holds its shard's lock take effect, and that write changes it whole. */
  lemma EngineWrites(states: seq<seq<Shard>>, steps: seq<At>, hash: Hash, i: nat)
    requires SystemRun(states, steps, hash) && i < |steps|
    ensures |states[i]| == |states[i + 1]| == SHARDS && steps[i].shard < SHARDS
    ensures forall b | 0 <= b < SHARDS :: |states[i][b].hist| > 0 && |states[i + 1][b].hist| > 0
    ensures var b := steps[i].shard;
            if states[i][b].writer.WIdle? || !states[i + 1][b].writer.WIdle?
            then Whole(states[i + 1], hash) == Whole(states[i], hash)
            else
              && LastBegun(steps, b, i).Some?
              && Whole(states[i + 1], hash) == Apply(Whole(states[i], hash), LastBegun(steps, b, i).value)
  {
    assert Moves(states[i], steps[i], states[i + 1], hash);
    hide SystemRun, NextState, Union, Routed, Homed, Apply, ShardOf, LastBegun;
    AtHome(states, steps, hash, i);
    AtHome(states, steps, hash, i + 1);
    var b := steps[i].shard;
    ShardWrites(states, steps, hash, i, b);
    var op := if LastBegun(steps, b, i).Some? then LastBegun(steps, b, i).value else Delete([]);
    UnionApply(Maps(states[i]), Maps(states[i + 1]), hash, b, op);
  }

  lemma UnionApply(maps: seq<Contents>, maps': seq<Contents>, hash: Hash, b: nat, op: Op)
    requires |maps| == |maps'| == SHARDS && b < SHARDS && Homed(maps, hash)
    requires forall i | 0 <= i < SHARDS && i != b :: maps'[i] == maps[i]
    ensures maps'[b] == maps[b] ==> Union(maps', hash) == Union(maps, hash)
    ensures ShardOf(hash(op.key)) == b && maps'[b] == Apply(maps[b], op) ==>
              Union(maps', hash) == Apply(Union(maps, hash), op)
  {
    hide Union, Homed, ShardOf;
    if maps'[b] == maps[b] {
      assert maps' == maps;
    }
    if ShardOf(hash(op.key)) == b && maps'[b] == Apply(maps[b], op) {
      assert maps' == maps[b := maps'[b]];
      match op
      case Put(k, v) => UnionPut(maps, hash, k, v);
      case Delete(k) => UnionDelete(maps, hash, k);
    }
  }
}
