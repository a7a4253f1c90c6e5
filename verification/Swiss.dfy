/** The `swiss` engine: one open-addressing table whose slots own their key and value. */
module SwissEngine {
  import opened Arith
  import opened Records
  import opened Store
  import opened Probing

  datatype SwissSlot = SwissSlot(hash: nat, key: Bytes, val: Bytes, state: SlotState)

  const EMPTY := SwissSlot(0, [], [], StEmpty)

  ghost function CellIn(s: SwissSlot): Cell
  {
    match s.state
    case StEmpty => Empty
    case StTomb => Tomb
    case StFull => Full(s.key, s.val)
  }

  ghost function SwissCells(slots: seq<SwissSlot>): (cells: seq<Cell>)
    ensures |cells| == |slots|
    ensures forall i | 0 <= i < |slots| :: cells[i] == CellIn(slots[i])
  {
    seq(|slots|, i requires 0 <= i < |slots| => CellIn(slots[i]))
  }

  ghost predicate Table(slots: seq<SwissSlot>, hash: Hash)
  {
    && |slots| > 0
    && (forall i | 0 <= i < |slots| && slots[i].state.StFull? :: slots[i].hash == hash(slots[i].key))
    && Reachable(SwissCells(slots), hash)
    && Unique(SwissCells(slots))
  }

  lemma EmptyTable(slots: seq<SwissSlot>, hash: Hash)
    requires |slots| > 0 && forall i | 0 <= i < |slots| :: slots[i] == EMPTY
    ensures Table(slots, hash) && View(SwissCells(slots)) == map[]
    ensures Fulls(SwissCells(slots)) == Used(SwissCells(slots)) == 0
  {
    CountEmpty(SwissCells(slots));
  }

  /** Writing a full slot at its key's target updates that key. */
  lemma StoreAt(slots: seq<SwissSlot>, hash: Hash, p: nat, s: SwissSlot)
    requires Table(slots, hash) && s.state.StFull? && s.hash == hash(s.key)
    requires Target(SwissCells(slots), hash, s.key, p)
    ensures var cells, cells' := SwissCells(slots), SwissCells(slots[p := s]);
            && Table(slots[p := s], hash)
            && cells' == cells[p := Full(s.key, s.val)]
            && View(cells') == View(cells)[s.key := s.val]
            && Fulls(cells') == Fulls(cells) + (if slots[p].state.StFull? then 0 else 1)
            && Used(cells') == Used(cells) + (if slots[p].state.StEmpty? then 1 else 0)
  {
    hide View, Fulls, Used, Reachable, Unique;
    var cells := SwissCells(slots);
    assert SwissCells(slots[p := s]) == cells[p := Full(s.key, s.val)];
    Fill(cells, hash, p, s.key, s.val);
  }

  /** Clearing slot p to a tombstone removes its key and no other. */
  lemma Erase(slots: seq<SwissSlot>, hash: Hash, p: nat, s: SwissSlot)
    requires Table(slots, hash) && p < |slots| && slots[p].state.StFull? && s.state.StTomb?
    ensures var cells, cells' := SwissCells(slots), SwissCells(slots[p := s]);
            && Table(slots[p := s], hash)
            && View(cells') == View(cells) - {slots[p].key}
            && Fulls(cells') == Fulls(cells) - 1 && Used(cells') == Used(cells)
  {
    var cells := SwissCells(slots);
    assert SwissCells(slots[p := s]) == cells[p := Tomb];
    Remove(cells, hash, p);
    CountUpdate(cells, p, Tomb);
  }

  class Swiss {
    const hash: Hash
    var slots: array<SwissSlot>
    var live: nat
    var used: nat

    ghost predicate Valid()
      reads this, slots
    {
      && slots.Length >= 4 && IsPow2(slots.Length)
      && Table(slots[..], hash)
      && live == Fulls(SwissCells(slots[..]))
      && used == Used(SwissCells(slots[..]))
      && 4 * used <= 3 * slots.Length
    }

    ghost function Contents(): Contents
      reads this, slots
    {
      View(SwissCells(slots[..]))
    }

    constructor (hash: Hash)
      ensures Valid() && fresh(slots) && Contents() == map[] && this.hash == hash
      ensures slots.Length == 1024
    {
      this.hash := hash;
      slots := new SwissSlot[0x400](_ => EMPTY);
      live, used := 0, 0;
      new;
      EmptyTable(slots[..], hash);
      assert IsPow2(0x400);
    }

    /** The table always has an empty slot, so every probe below ends. */
    lemma Probes()
      requires Valid()
      ensures ValidTable(SwissCells(slots[..]), hash)
    {
      CountBounds(SwissCells(slots[..]));
    }

    /** The load check `used+1 > 0.75*len`, over integers. */
    predicate Overfull()
      reads this
    {
      4 * (used + 1) > 3 * slots.Length
    }

    lemma LoadTest()
      ensures Overfull() <==> (used + 1) as real > 0.75 * slots.Length as real
    {
      assert 4.0 * (0.75 * slots.Length as real) == 3.0 * slots.Length as real;
    }

    lemma LiveIsSize()
      requires Valid()
      ensures live == |Contents()|
    {
      FullsIsSize(SwissCells(slots[..]));
    }

    method Get(key: Bytes) returns (r: Option<Bytes>)
      requires Valid()
      ensures r == if key in Contents() then Some(Contents()[key]) else None
    {
      hide View, Reachable, Unique, Fulls, Used, IsPow2, SwissCells;
      var len := slots.Length;
      var h := hash(key);
      var i := h % len;
      ghost var cells, n := SwissCells(slots[..]), 0;
      Probes();
      while true
        invariant 0 <= n < len && i == Slot(h % len, n, len) && Clear(cells, h % len, key, n)
        decreases len - n
      {
        var s := slots[i];
        assert slots[..][i] == s && cells[i] == CellIn(s);
        match s.state {
          case StEmpty =>
            Miss(cells, hash, key, n);
            return None;
          case StTomb =>
          case StFull =>
            if s.hash == h && s.key == key {
              ViewAt(cells, i);
              return Some(s.val);
            }
        }
        ClearStep(cells, h % len, key, n);
        i, n := Next(i, len), n + 1;
      }
    }

    method PutLocked(key: Bytes, val: Bytes)
      requires Valid()
      modifies this, slots
      ensures Valid() && (slots == old(slots) || fresh(slots))
      ensures Contents() == old(Contents())[key := val]
      ensures slots.Length == if old(Overfull()) then 2 * old(slots.Length) else old(slots.Length)
    {
      hide Valid, Contents;
      if Overfull() {
        Grow();
      }
      ghost var p := Place(key, val);
    }

    /** Write the key's target slot: a whole new slot, or a new value in place. */
    method Place(key: Bytes, val: Bytes) returns (ghost p: nat)
      requires Valid() && !Overfull()
      modifies this, slots
      ensures Valid() && slots == old(slots)
      ensures Target(old(SwissCells(slots[..])), hash, key, p)
      ensures SwissCells(slots[..]) == old(SwissCells(slots[..]))[p := Full(key, val)]
      ensures Contents() == old(Contents())[key := val]
    {
      hide View, Reachable, Unique, Fulls, Used, IsPow2, SwissCells, Target;
      ghost var was := slots[..];
      var i := PutSlot(key);
      p := i;
      var ns := SwissSlot(hash(key), key, val, StFull);
      StoreAt(was, hash, i, ns);
      match slots[i].state {
        case StEmpty =>
          slots[i] := ns;
          used := used + 1;
          live := live + 1;
        case StTomb =>
          slots[i] := ns;
          live := live + 1;
        case StFull =>
          slots[i] := slots[i].(val := val);
      }
      assert slots[..] == was[i := ns];
    }

    /** The probe of a put: the key's own slot, or else the first tombstone, or else
        the empty slot that ends the walk. */
    method PutSlot(key: Bytes) returns (p: nat)
      requires Valid()
      ensures p < slots.Length && Target(SwissCells(slots[..]), hash, key, p)
      ensures slots[p].state.StFull? ==> slots[p].hash == hash(key) && slots[p].key == key
    {
      hide View, Reachable, Unique, Fulls, Used, IsPow2, SwissCells;
      var len := slots.Length;
      var h := hash(key);
      var i := h % len;
      var firstTomb := -1;
      ghost var was, cells, n, tombAt := slots[..], SwissCells(slots[..]), 0, 0;
      Probes();
      while true
        invariant 0 <= n < len && i == Slot(h % len, n, len) && Clear(cells, h % len, key, n)
        invariant 0 <= tombAt <= n && (firstTomb == -1 ==> tombAt == n)
        invariant forall m | 0 <= m < tombAt :: cells[Slot(h % len, m, len)].Full?
        invariant firstTomb == -1 || (tombAt < n && firstTomb == Slot(h % len, tombAt, len) && cells[firstTomb].Tomb?)
        decreases len - n
      {
        var s := slots[i];
        assert was[i] == s && cells[i] == CellIn(s);
        match s.state {
          case StEmpty =>
            Miss(cells, hash, key, n);
            if firstTomb >= 0 {
              assert cells[firstTomb] == CellIn(was[firstTomb]);
              return firstTomb;
            }
            return i;
          case StTomb =>
            if firstTomb < 0 {
              firstTomb, tombAt := i, n;
            }
          case StFull =>
            if s.hash == h && s.key == key {
              return i;
            }
        }
        ClearStep(cells, h % len, key, n);
        i, n := Next(i, len), n + 1;
        tombAt := if firstTomb < 0 then n else tombAt;
      }
    }

    /** Doubling re-files every full slot and drops every tombstone. */
    method Grow()
      requires Valid()
      modifies this
      ensures Valid() && fresh(slots)
      ensures slots.Length == 2 * old(slots.Length)
      ensures Contents() == old(Contents())
      ensures forall i | 0 <= i < slots.Length :: !slots[i].state.StTomb?
      ensures used == live == old(live)
      ensures !Overfull()
    {
      hide Reachable, Fulls, Used, Unique, View, SwissCells;
      var prev := slots;
      ghost var was := SwissCells(prev[..]);
      CountBounds(was);
      var len := 2 * prev.Length;
      var next := new SwissSlot[len](_ => EMPTY);
      slots := next;
      used, live := 0, 0;
      EmptyTable(slots[..], hash);
      CountEmpty(was[..0]);
      var j := 0;
      while j < prev.Length
        invariant 0 <= j <= prev.Length && slots == next && prev[..] == old(slots[..])
        invariant Table(slots[..], hash)
        invariant forall i | 0 <= i < len :: !slots[i].state.StTomb?
        invariant used == live == Fulls(was[..j]) == Fulls(SwissCells(slots[..])) == Used(SwissCells(slots[..]))
        invariant View(SwissCells(slots[..])) == View(was[..j])
      {
        var s := prev[j];
        assert prev[..][j] == s && was[j] == CellIn(s);
        ViewExtend(was, j);
        FullsPrefix(was, j);
        if s.state == StFull {
          Refile(s);
        }
        j := j + 1;
      }
      assert was[..j] == was;
      assert IsPow2(len);
    }

    /** The inner loop of Grow: walk to the first empty slot and copy s there. */
    method Refile(s: SwissSlot)
      requires Table(slots[..], hash) && s.state.StFull? && s.hash == hash(s.key)
      requires s.key !in View(SwissCells(slots[..]))
      requires used == live == Fulls(SwissCells(slots[..])) == Used(SwissCells(slots[..])) < slots.Length
      requires forall i | 0 <= i < slots.Length :: !slots[i].state.StTomb?
      modifies this`used, this`live, slots
      ensures Table(slots[..], hash)
      ensures forall i | 0 <= i < slots.Length :: !slots[i].state.StTomb?
      ensures used == live == Fulls(SwissCells(slots[..])) == Used(SwissCells(slots[..])) == old(used) + 1
      ensures View(SwissCells(slots[..])) == old(View(SwissCells(slots[..])))[s.key := s.val]
    {
      hide View, Reachable, Fulls, Used;
      var len := slots.Length;
      ghost var was, cells, n := slots[..], SwissCells(slots[..]), 0;
      CountBounds(cells);
      var i := s.hash % len;
      while slots[i].state != StEmpty
        modifies {}
        invariant 0 <= n < len && i == Slot(s.hash % len, n, len) && Clear(cells, s.hash % len, s.key, n)
        invariant forall m | 0 <= m < n :: cells[Slot(s.hash % len, m, len)].Full?
        decreases len - n
      {
        assert cells[i] == CellIn(was[i]);
        ViewAt(cells, i);
        ClearStep(cells, s.hash % len, s.key, n);
        i, n := Next(i, len), n + 1;
      }
      assert cells[i] == CellIn(was[i]);
      StoreAt(was, hash, i, s);
      slots[i] := s;
      assert slots[..] == was[i := s];
      used, live := used + 1, live + 1;
    }

    method DeleteLocked(key: Bytes)
      requires Valid()
      modifies this`live, slots
      ensures Valid()
      ensures Contents() == old(Contents()) - {key}
    {
      hide View, Reachable, Unique, Fulls, Used, IsPow2, SwissCells;
      var len := slots.Length;
      var h := hash(key);
      var i := h % len;
      ghost var was, cells, n := slots[..], SwissCells(slots[..]), 0;
      Probes();
      while true
        modifies {}
        invariant 0 <= n < len && i == Slot(h % len, n, len) && Clear(cells, h % len, key, n)
        decreases len - n
      {
        var s := slots[i];
        assert was[i] == s && cells[i] == CellIn(s);
        if s.state == StEmpty {
          Miss(cells, hash, key, n);
          assert Contents() - {key} == Contents();
          return;
        }
        if s.state == StFull && s.hash == h && s.key == key {
          break;
        }
        ClearStep(cells, h % len, key, n);
        i, n := Next(i, len), n + 1;
      }
      var t := slots[i].(state := StTomb, key := [], val := []);
      Erase(was, hash, i, t);
      slots[i] := t;
      assert slots[..] == was[i := t];
      live := live - 1;
    }

    /** One lock is held across the whole loop, so the batch takes effect as one step. */
    method ApplyBatch(ops: seq<Op>)
      requires Valid()
      modifies this, slots
      ensures Valid() && (slots == old(slots) || fresh(slots))
      ensures Contents() == ApplyAll(old(Contents()), ops)
    {
      hide Valid, Contents;
      var j := 0;
      while j < |ops|
        invariant 0 <= j <= |ops| && Valid() && (slots == old(slots) || fresh(slots))
        invariant Contents() == ApplyAll(old(Contents()), ops[..j])
      {
        assert ops[..j + 1][..j] == ops[..j];
        match ops[j] {
          case Delete(k) => DeleteLocked(k);
          case Put(k, v) => PutLocked(k, v);
        }
        j := j + 1;
      }
      assert ops[..j] == ops;
    }
  }
}
