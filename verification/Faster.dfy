/** The `faster` engine: an append-only record log behind an open-addressing index
    whose slots hold a hash, a log offset and a state. */
module FasterEngine {
  import opened Arith
  import opened Records
  import opened Store
  import opened Probing

  datatype FastSlot = FastSlot(hash: nat, off: nat, state: SlotState)

  const EMPTY_SLOT := FastSlot(0, 0, StEmpty)

  // ---- what a slot array and a log stand for ----

  /** A full slot points at a whole record inside the log, filed under its key's hash. */
  ghost predicate SlotOk(s: FastSlot, log: Bytes, hash: Hash)
  {
    s.state.StFull? ==>
      && RecordAt(log, s.off).Some?
      && var (k, v) := RecordAt(log, s.off).value;
      && HasRecord(log, |log|, s.off, k, v)
      && s.hash == hash(k)
  }

  ghost function CellOf(s: FastSlot, log: Bytes): Cell
  {
    match s.state
    case StEmpty => Empty
    case StTomb => Tomb
    case StFull =>
      match RecordAt(log, s.off)
      case Some((k, v)) => Full(k, v)
      case None => Tomb
  }

  ghost function Cells(slots: seq<FastSlot>, log: Bytes): (cells: seq<Cell>)
    ensures |cells| == |slots|
    ensures forall i | 0 <= i < |slots| :: cells[i] == CellOf(slots[i], log)
  {
    seq(|slots|, i requires 0 <= i < |slots| => CellOf(slots[i], log))
  }

  ghost predicate Index(slots: seq<FastSlot>, log: Bytes, hash: Hash)
  {
    && |slots| > 0
    && (forall i | 0 <= i < |slots| :: SlotOk(slots[i], log, hash))
    && Reachable(Cells(slots, log), hash)
    && Unique(Cells(slots, log))
  }

  /** Appending to the log changes no cell: a record once written is never moved. */
  lemma AppendKeepsCells(slots: seq<FastSlot>, log: Bytes, more: Bytes, hash: Hash)
    requires forall i | 0 <= i < |slots| :: SlotOk(slots[i], log, hash)
    ensures Cells(slots, log + more) == Cells(slots, log)
    ensures forall i | 0 <= i < |slots| :: SlotOk(slots[i], log + more, hash)
  {
    forall i | 0 <= i < |slots|
      ensures SlotOk(slots[i], log + more, hash) && CellOf(slots[i], log + more) == CellOf(slots[i], log)
    {
      if slots[i].state.StFull? {
        var (k, v) := RecordAt(log, slots[i].off).value;
        assert (log + more)[..|log|] == log == log[..|log|];
        RecordStable(log, log + more, |log|, |log + more|, slots[i].off, k, v);
      }
    }
  }

  /** The appended record is what its offset reads back. */
  lemma AppendedSlot(log: Bytes, hash: Hash, key: Bytes, val: Bytes)
    ensures var s := FastSlot(hash(key), |log|, StFull);
            SlotOk(s, log + Record(key, val), hash) && CellOf(s, log + Record(key, val)) == Full(key, val)
  {
    var log' := log + Record(key, val);
    assert log'[|log|..] == Record(key, val);
    RecordRoundTrip(log', |log'|, |log|, key, val);
  }

  /** Appending a record and pointing slot p at it writes Full(key, val) to cell p. */
  lemma PointSlot(slots: seq<FastSlot>, log: Bytes, hash: Hash, p: nat, key: Bytes, val: Bytes)
    requires p < |slots| && forall i | 0 <= i < |slots| :: SlotOk(slots[i], log, hash)
    ensures var slots' := slots[p := FastSlot(hash(key), |log|, StFull)];
            var log' := log + Record(key, val);
            && (forall i | 0 <= i < |slots'| :: SlotOk(slots'[i], log', hash))
            && Cells(slots', log') == Cells(slots, log)[p := Full(key, val)]
  {
    AppendKeepsCells(slots, log, Record(key, val), hash);
    AppendedSlot(log, hash, key, val);
  }

  /** Appending a record and pointing the key's target at it updates that key; an
      older record of the key is stranded where it was. */
  lemma PutAt(slots: seq<FastSlot>, log: Bytes, hash: Hash, p: nat, key: Bytes, val: Bytes)
    requires Index(slots, log, hash) && Target(Cells(slots, log), hash, key, p)
    ensures var slots', log' := slots[p := FastSlot(hash(key), |log|, StFull)], log + Record(key, val);
            && Index(slots', log', hash)
            && Cells(slots', log') == Cells(slots, log)[p := Full(key, val)]
            && View(Cells(slots', log')) == View(Cells(slots, log))[key := val]
            && Fulls(Cells(slots', log')) == Fulls(Cells(slots, log)) + (if slots[p].state.StFull? then 0 else 1)
            && Used(Cells(slots', log')) == Used(Cells(slots, log)) + (if slots[p].state.StEmpty? then 1 else 0)
  {
    hide View, Fulls, Used, Record, RecordAt, HasRecord, Reachable, Unique;
    PointSlot(slots, log, hash, p, key, val);
    Fill(Cells(slots, log), hash, p, key, val);
    assert SlotOk(slots[p], log, hash);
  }

  /** Turning slot p into a tombstone removes its key and no other. */
  lemma Bury(slots: seq<FastSlot>, log: Bytes, hash: Hash, p: nat)
    requires Index(slots, log, hash) && p < |slots| && slots[p].state.StFull?
    ensures var slots' := slots[p := slots[p].(state := StTomb)];
            && Index(slots', log, hash)
            && View(Cells(slots', log)) == View(Cells(slots, log)) - {Cells(slots, log)[p].key}
            && Fulls(Cells(slots', log)) == Fulls(Cells(slots, log)) - 1
            && Used(Cells(slots', log)) == Used(Cells(slots, log))
  {
    var cells := Cells(slots, log);
    assert Cells(slots[p := slots[p].(state := StTomb)], log) == cells[p := Tomb];
    Remove(cells, hash, p);
    CountUpdate(cells, p, Tomb);
  }

  lemma EmptyIndex(slots: seq<FastSlot>, log: Bytes, hash: Hash)
    requires |slots| > 0 && forall i | 0 <= i < |slots| :: slots[i] == EMPTY_SLOT
    ensures Index(slots, log, hash) && View(Cells(slots, log)) == map[]
    ensures Fulls(Cells(slots, log)) == Used(Cells(slots, log)) == 0
  {
    CountEmpty(Cells(slots, log));
  }

  /** What a batch adds to the log: the records of its puts, in order. */
  function Logged(ops: seq<Op>): Bytes
  {
    if ops == [] then [] else
    var last := ops[|ops| - 1];
    Logged(ops[..|ops| - 1]) + if last.Put? then Record(last.key, last.val) else []
  }

  /** Every record of the log reads the same after any operations at all: overwrites,
      deletes and growth strand records but never move or change one. */
  lemma LogForever(log: Bytes, ops: seq<Op>, off: nat, key: Bytes, val: Bytes)
    requires HasRecord(log, |log|, off, key, val)
    ensures var log' := log + Logged(ops);
            && HasRecord(log', |log'|, off, key, val)
            && RecordAt(log', off) == RecordAt(log, off) == Some((key, val))
  {
    var log' := log + Logged(ops);
    assert log'[..|log|] == log == log[..|log|];
    RecordStable(log, log', |log|, |log'|, off, key, val);
  }

  /** In particular the record behind a full slot, which Get hands out as a view. */
  lemma SlotForever(slots: seq<FastSlot>, log: Bytes, hash: Hash, ops: seq<Op>, i: nat)
    requires Index(slots, log, hash) && i < |slots| && slots[i].state.StFull?
    ensures var c := Cells(slots, log)[i];
            c.Full? && RecordAt(log + Logged(ops), slots[i].off) == Some((c.key, c.val))
  {
    assert SlotOk(slots[i], log, hash);
    var (k, v) := RecordAt(log, slots[i].off).value;
    LogForever(log, ops, slots[i].off, k, v);
  }

  class Faster {
    const hash: Hash
    var log: Bytes
    var idx: array<FastSlot>
    var live: nat
    var used: nat

    ghost predicate Valid()
      reads this, idx
    {
      && idx.Length >= 2 && IsPow2(idx.Length)
      && Index(idx[..], log, hash)
      && live == Fulls(Cells(idx[..], log))
      && used == Used(Cells(idx[..], log))
      && 10 * used <= 7 * idx.Length
    }

    ghost function Contents(): Contents
      reads this, idx
    {
      View(Cells(idx[..], log))
    }

    constructor (hash: Hash)
      ensures Valid() && fresh(idx) && Contents() == map[] && this.hash == hash
      ensures idx.Length == 1024 && log == []
    {
      this.hash := hash;
      log := [];
      idx := new FastSlot[0x400](_ => EMPTY_SLOT);
      live, used := 0, 0;
      new;
      EmptyIndex(idx[..], log, hash);
      assert IsPow2(0x400);
    }

    /** The index always has an empty slot, so every probe below ends. */
    lemma Probes()
      requires Valid()
      ensures ValidTable(Cells(idx[..], log), hash)
    {
      CountBounds(Cells(idx[..], log));
    }

    lemma LiveIsSize()
      requires Valid()
      ensures live == |Contents()|
    {
      FullsIsSize(Cells(idx[..], log));
    }

    method Get(key: Bytes) returns (r: Option<Bytes>)
      requires Valid()
      ensures r == if key in Contents() then Some(Contents()[key]) else None
    {
      var len := idx.Length;
      var h := hash(key);
      var i := h % len;
      ghost var cells, n := Cells(idx[..], log), 0;
      Probes();
      while true
        invariant 0 <= n < len && i == Slot(h % len, n, len) && Clear(cells, h % len, key, n)
        decreases len - n
      {
        var s := idx[i];
        assert SlotOk(idx[..][i], log, hash) && cells[i] == CellOf(s, log);
        match s.state {
          case StEmpty =>
            Miss(cells, hash, key, n);
            return None;
          case StTomb =>
          case StFull =>
            if s.hash == h {
              var (k, v) := RecordAt(log, s.off).value;
              if k == key {
                ViewAt(cells, i);
                return Some(v);
              }
            }
        }
        ClearStep(cells, h % len, key, n);
        i, n := Next(i, len), n + 1;
      }
    }

    method PutLocked(key: Bytes, val: Bytes)
      requires Valid()
      modifies this, idx
      ensures Valid() && (idx == old(idx) || fresh(idx))
      ensures Contents() == old(Contents())[key := val]
      ensures log == old(log) + Record(key, val)
      ensures idx.Length == if old(Overloaded(used, idx.Length)) then 2 * old(idx.Length) else old(idx.Length)
    {
      hide Valid, Contents;
      if Overloaded(used, idx.Length) {
        Grow();
      }
      ghost var p := Place(key, val);
    }

    /** Append the record and point the key's target slot at it. */
    method Place(key: Bytes, val: Bytes) returns (ghost p: nat)
      requires Valid() && !Overloaded(used, idx.Length)
      modifies this, idx
      ensures Valid() && idx == old(idx)
      ensures Target(old(Cells(idx[..], log)), hash, key, p)
      ensures Cells(idx[..], log) == old(Cells(idx[..], log))[p := Full(key, val)]
      ensures Contents() == old(Contents())[key := val]
      ensures log == old(log) + Record(key, val)
    {
      hide View, Reachable, Unique, Fulls, Used, Record, RecordAt, HasRecord, IsPow2, Cells, Target;
      ghost var slots := idx[..];
      var h := hash(key);
      var i := PutSlot(key);
      p := i;
      PutAt(slots, log, hash, i, key, val);
      var off := AppendRecord(key, val);
      match idx[i].state {
        case StEmpty =>
          used := used + 1;
          live := live + 1;
        case StTomb =>
          live := live + 1;
        case StFull =>
      }
      idx[i] := FastSlot(h, off, StFull);
      assert idx[..] == slots[i := FastSlot(h, off, StFull)];
    }

    /** The probe of a put: the key's own slot, or else the first tombstone, or else
        the empty slot that ends the walk. */
    method PutSlot(key: Bytes) returns (p: nat)
      requires Valid()
      ensures p < idx.Length && Target(Cells(idx[..], log), hash, key, p)
      ensures idx[p].state.StFull? ==> idx[p].hash == hash(key)
    {
      hide View, Reachable, Unique, Fulls, Used, Record, RecordAt, HasRecord, IsPow2, Cells;
      var len := idx.Length;
      var h := hash(key);
      var i := h % len;
      var firstTomb := -1;
      ghost var slots, cells, n, tombAt := idx[..], Cells(idx[..], log), 0, 0;
      Probes();
      while true
        invariant 0 <= n < len && i == Slot(h % len, n, len) && Clear(cells, h % len, key, n)
        invariant 0 <= tombAt <= n && (firstTomb == -1 ==> tombAt == n)
        invariant forall m | 0 <= m < tombAt :: cells[Slot(h % len, m, len)].Full?
        invariant firstTomb == -1 || (tombAt < n && firstTomb == Slot(h % len, tombAt, len) && cells[firstTomb].Tomb?)
        decreases len - n
      {
        var s := idx[i];
        assert SlotOk(slots[i], log, hash) && cells[i] == CellOf(s, log);
        match s.state {
          case StEmpty =>
            Miss(cells, hash, key, n);
            if firstTomb >= 0 {
              assert cells[firstTomb] == CellOf(slots[firstTomb], log) && SlotOk(slots[firstTomb], log, hash);
              return firstTomb;
            }
            return i;
          case StTomb =>
            if firstTomb < 0 {
              firstTomb, tombAt := i, n;
            }
          case StFull =>
            if s.hash == h {
              var (k, _) := RecordAt(log, s.off).value;
              if k == key {
                return i;
              }
            }
        }
        ClearStep(cells, h % len, key, n);
        i, n := Next(i, len), n + 1;
        tombAt := if firstTomb < 0 then n else tombAt;
      }
    }

    method AppendRecord(key: Bytes, val: Bytes) returns (off: nat)
      modifies this`log
      ensures off == old(|log|) && log == old(log) + Record(key, val)
    {
      off := |log|;
      log := log + PutUvarint(|key|);
      log := log + key;
      log := log + PutUvarint(|val|);
      log := log + val;
    }

    /** Doubling re-files every full slot, drops every tombstone and leaves the log alone. */
    method Grow()
      requires Valid()
      modifies this
      ensures Valid() && fresh(idx) && log == old(log)
      ensures idx.Length == 2 * old(idx.Length)
      ensures Contents() == old(Contents())
      ensures forall i | 0 <= i < idx.Length :: !idx[i].state.StTomb?
      ensures used == live == old(live)
      ensures !Overloaded(used, idx.Length)
    {
      hide Reachable, Fulls, Used, Record, RecordAt, HasRecord, Unique, View, Cells;
      var prev := idx;
      ghost var was := Cells(prev[..], log);
      CountBounds(was);
      var len := 2 * prev.Length;
      var next := new FastSlot[len](_ => EMPTY_SLOT);
      idx := next;
      used, live := 0, 0;
      EmptyIndex(idx[..], log, hash);
      CountEmpty(was[..0]);
      var j := 0;
      while j < prev.Length
        invariant 0 <= j <= prev.Length && log == old(log) && idx == next && prev[..] == old(idx[..])
        invariant Index(idx[..], log, hash)
        invariant forall i | 0 <= i < len :: !idx[i].state.StTomb?
        invariant used == live == Fulls(was[..j]) == Fulls(Cells(idx[..], log)) == Used(Cells(idx[..], log))
        invariant View(Cells(idx[..], log)) == View(was[..j])
      {
        var s := prev[j];
        assert SlotOk(prev[..][j], log, hash) && was[j] == CellOf(s, log);
        assert was[..j + 1][..j] == was[..j];
        ViewExtend(was, j);
        FullsPrefix(was, j);
        if s.state == StFull {
          Refile(s);
        }
        j := j + 1;
      }
      assert was[..j] == was;
      assert IsPow2(len);
    }

    /** The inner loop of Grow: walk to the first empty slot and copy s there. */
    method Refile(s: FastSlot)
      requires Index(idx[..], log, hash) && s.state.StFull? && SlotOk(s, log, hash)
      requires CellOf(s, log).key !in View(Cells(idx[..], log))
      requires used == live == Fulls(Cells(idx[..], log)) == Used(Cells(idx[..], log)) < idx.Length
      requires forall i | 0 <= i < idx.Length :: !idx[i].state.StTomb?
      modifies this`used, this`live, idx
      ensures Index(idx[..], log, hash)
      ensures forall i | 0 <= i < idx.Length :: !idx[i].state.StTomb?
      ensures used == live == Fulls(Cells(idx[..], log)) == Used(Cells(idx[..], log)) == old(used) + 1
      ensures var c := CellOf(s, log); View(Cells(idx[..], log)) == old(View(Cells(idx[..], log)))[c.key := c.val]
    {
      hide View, Reachable, Fulls, Used, Record, RecordAt, HasRecord;
      var len := idx.Length;
      ghost var slots, cells, n := idx[..], Cells(idx[..], log), 0;
      ghost var c := CellOf(s, log);
      CountBounds(cells);
      var i := s.hash % len;
      while idx[i].state != StEmpty
        modifies {}
        invariant 0 <= n < len && i == Slot(s.hash % len, n, len) && Clear(cells, s.hash % len, c.key, n)
        invariant forall m | 0 <= m < n :: cells[Slot(s.hash % len, m, len)].Full?
        decreases len - n
      {
        assert SlotOk(slots[i], log, hash) && cells[i] == CellOf(slots[i], log);
        ViewAt(cells, i);
        ClearStep(cells, s.hash % len, c.key, n);
        i, n := Next(i, len), n + 1;
      }
      assert cells[i] == CellOf(slots[i], log);
      Fill(cells, hash, i, c.key, c.val);
      idx[i] := s;
      assert idx[..] == slots[i := s];
      assert Cells(idx[..], log) == cells[i := c];
      used, live := used + 1, live + 1;
    }

    method DeleteLocked(key: Bytes)
      requires Valid()
      modifies this`live, idx
      ensures Valid() && log == old(log)
      ensures Contents() == old(Contents()) - {key}
    {
      hide View, Reachable, Unique, Fulls, Used, Record, RecordAt, HasRecord, IsPow2, Cells;
      var len := idx.Length;
      var h := hash(key);
      var i := h % len;
      ghost var slots, cells, n := idx[..], Cells(idx[..], log), 0;
      Probes();
      while true
        modifies {}
        invariant 0 <= n < len && i == Slot(h % len, n, len) && Clear(cells, h % len, key, n)
        decreases len - n
      {
        var s := idx[i];
        assert SlotOk(slots[i], log, hash) && cells[i] == CellOf(s, log);
        if s.state == StEmpty {
          Miss(cells, hash, key, n);
          assert Contents() - {key} == Contents();
          return;
        }
        if s.state == StFull && s.hash == h {
          var (k, _) := RecordAt(log, s.off).value;
          if k == key {
            break;
          }
        }
        ClearStep(cells, h % len, key, n);
        i, n := Next(i, len), n + 1;
      }
      Bury(slots, log, hash, i);
      idx[i] := idx[i].(state := StTomb);
      assert idx[..] == slots[i := slots[i].(state := StTomb)];
      live := live - 1;
    }

    /** One lock is held across the whole loop, so the batch takes effect as one step. */
    method ApplyBatch(ops: seq<Op>)
      requires Valid()
      modifies this, idx
      ensures Valid() && (idx == old(idx) || fresh(idx))
      ensures Contents() == ApplyAll(old(Contents()), ops)
      ensures log == old(log) + Logged(ops)
    {
      hide Valid, Contents;
      var j := 0;
      while j < |ops|
        invariant 0 <= j <= |ops| && Valid() && (idx == old(idx) || fresh(idx))
        invariant Contents() == ApplyAll(old(Contents()), ops[..j]) && log == old(log) + Logged(ops[..j])
      {
        assert ops[..j + 1][..j] == ops[..j];
        match ops[j] {
          case Delete(k) => DeleteLocked(k);
          case Put(k, v) => PutLocked(k, v);
        }
        j := j + 1;
      }
      assert ops[..j] == ops;
    }
  }
}
