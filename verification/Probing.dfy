/** Open addressing with linear probing and tombstones, seen through the keys and
    values its slots hold. `faster`, `swiss` and `f2` differ in how a slot stores
    its record; everything about probe runs is stated once, here, for an arbitrary
    hash function. */
module Probing {
  import opened Records
  import opened Store

  datatype Cell = Empty | Tomb | Full(key: Bytes, val: Bytes)

  type Hash = Bytes -> nat

  // ---- cyclic positions ----

  /** The slot after i; `& mask` on a power-of-two length is `% len` (Bits.MaskIsMod). */
  function Next(i: nat, len: nat): (r: nat)
    requires i < len
    ensures r == if i + 1 == len then 0 else i + 1
  {
    if i + 1 == len then assert len % len == 0; (i + 1) % len else (i + 1) % len
  }

  function Home(hash: Hash, key: Bytes, len: nat): (r: nat)
    requires len > 0
    ensures r < len
  {
    hash(key) % len
  }

  /** The slot visited after n steps of a probe that starts at home. */
  function Slot(home: nat, n: nat, len: nat): (r: nat)
    requires home < len && n < len
    ensures r < len
  {
    if home + n < len then home + n else home + n - len
  }

  /** The number of steps a probe from home takes to reach i. */
  function Dist(home: nat, i: nat, len: nat): (d: nat)
    requires home < len && i < len
    ensures d < len && Slot(home, d, len) == i
  {
    if home <= i then i - home else i + len - home
  }

  /** The state byte of a `faster` or `swiss` slot. */
  datatype SlotState = StEmpty | StFull | StTomb

  /** The load check `used+1 > 0.7*len` of faster and f2, over integers. */
  predicate Overloaded(used: nat, len: nat)
  {
    10 * (used + 1) > 7 * len
  }

  lemma LoadTest(used: nat, len: nat)
    ensures Overloaded(used, len) <==> (used + 1) as real > 0.7 * len as real
  {
    assert 10.0 * (0.7 * len as real) == 7.0 * len as real;
  }

  // ---- the table invariant ----

  /** Every slot the probe visits before i is occupied or a tombstone. */
  ghost predicate NoGap(cells: seq<Cell>, home: nat, i: nat)
    requires home < |cells| && i < |cells|
  {
    forall n | 0 <= n < Dist(home, i, |cells|) :: !cells[Slot(home, n, |cells|)].Empty?
  }

  ghost predicate Unique(cells: seq<Cell>)
  {
    forall i, j | 0 <= i < |cells| && 0 <= j < |cells| && cells[i].Full? && cells[j].Full? ::
      cells[i].key == cells[j].key ==> i == j
  }

  ghost predicate HasEmpty(cells: seq<Cell>)
  {
    exists i | 0 <= i < |cells| :: cells[i].Empty?
  }

  ghost predicate Reachable(cells: seq<Cell>, hash: Hash)
  {
    forall i | 0 <= i < |cells| && cells[i].Full? :: NoGap(cells, Home(hash, cells[i].key, |cells|), i)
  }

  ghost predicate ValidTable(cells: seq<Cell>, hash: Hash)
  {
    Reachable(cells, hash) && Unique(cells) && HasEmpty(cells)
  }

  /** The map a table stands for: its keys, each looked up in the slot that holds it. */
  ghost function View(cells: seq<Cell>): (m: Contents)
  {
    map k | k in Keys(cells) :: cells[IndexOf(cells, k)].val
  }

  ghost function Keys(cells: seq<Cell>): set<Bytes>
  {
    set i | 0 <= i < |cells| && cells[i].Full? :: cells[i].key
  }

  ghost function IndexOf(cells: seq<Cell>, k: Bytes): (i: nat)
    requires k in Keys(cells)
    ensures i < |cells| && cells[i].Full? && cells[i].key == k
  {
    var i :| 0 <= i < |cells| && cells[i].Full? && cells[i].key == k; i
  }

  /** A map that agrees with every full slot and has no other key is the table's map. */
  lemma ViewIs(cells: seq<Cell>, m: Contents)
    requires forall i | 0 <= i < |cells| && cells[i].Full? :: cells[i].key in m && m[cells[i].key] == cells[i].val
    requires forall k | k in m :: k in Keys(cells)
    ensures View(cells) == m
  {
  }

  lemma ViewAt(cells: seq<Cell>, i: nat)
    requires Unique(cells) && i < |cells| && cells[i].Full?
    ensures cells[i].key in View(cells) && View(cells)[cells[i].key] == cells[i].val
  {
  }

  // ---- counters ----

  ghost function Fulls(cells: seq<Cell>): nat
  {
    if cells == [] then 0 else Fulls(cells[..|cells| - 1]) + if cells[|cells| - 1].Full? then 1 else 0
  }

  ghost function Used(cells: seq<Cell>): nat
  {
    if cells == [] then 0 else Used(cells[..|cells| - 1]) + if cells[|cells| - 1].Empty? then 0 else 1
  }

  lemma {:induction false} CountUpdate(cells: seq<Cell>, i: nat, c: Cell)
    requires i < |cells|
    ensures Fulls(cells[i := c]) == Fulls(cells) - (if cells[i].Full? then 1 else 0) + (if c.Full? then 1 else 0)
    ensures Used(cells[i := c]) == Used(cells) - (if cells[i].Empty? then 0 else 1) + (if c.Empty? then 0 else 1)
  {
    var last := |cells| - 1;
    if i == last {
      assert cells[i := c][..last] == cells[..last];
    } else {
      CountUpdate(cells[..last], i, c);
      assert cells[i := c][..last] == cells[..last][i := c];
    }
  }

  lemma {:induction false} CountBounds(cells: seq<Cell>)
    ensures Fulls(cells) <= Used(cells) <= |cells|
    ensures Used(cells) < |cells| <==> HasEmpty(cells)
    ensures (forall i | 0 <= i < |cells| :: !cells[i].Tomb?) ==> Fulls(cells) == Used(cells)
  {
    if cells != [] {
      var last := |cells| - 1;
      CountBounds(cells[..last]);
      if HasEmpty(cells[..last]) {
        var i :| 0 <= i < last && cells[..last][i].Empty?;
        assert cells[i].Empty?;
      } else if HasEmpty(cells) {
        var i :| 0 <= i < |cells| && cells[i].Empty?;
        assert i < last ==> cells[..last][i].Empty?;
      }
    }
  }

  lemma {:induction false} CountEmpty(cells: seq<Cell>)
    requires forall i | 0 <= i < |cells| :: cells[i].Empty?
    ensures Fulls(cells) == Used(cells) == 0 && View(cells) == map[]
  {
    if cells != [] {
      CountEmpty(cells[..|cells| - 1]);
    }
  }

  lemma FullsPrefix(cells: seq<Cell>, n: nat)
    requires n < |cells|
    ensures Fulls(cells[..n + 1]) == Fulls(cells[..n]) + if cells[n].Full? then 1 else 0
    ensures Fulls(cells[..n + 1]) <= Fulls(cells)
  {
    assert cells[..n + 1][..n] == cells[..n];
    FullsMonotone(cells, n + 1);
  }

  lemma {:induction false} FullsMonotone(cells: seq<Cell>, n: nat)
    requires n <= |cells|
    ensures Fulls(cells[..n]) <= Fulls(cells)
  {
    if n == |cells| {
      assert cells[..n] == cells;
    } else {
      FullsMonotone(cells[..|cells| - 1], n);
      assert cells[..|cells| - 1][..n] == cells[..n];
    }
  }

  /** The live counter is the size of the map. */
  lemma {:induction false} FullsIsSize(cells: seq<Cell>)
    requires Unique(cells)
    ensures Fulls(cells) == |View(cells)|
  {
    if cells == [] {
      assert View(cells) == map[];
    } else {
      var last := |cells| - 1;
      FullsIsSize(cells[..last]);
      ViewExtend(cells, last);
    }
  }

  /** The map of a prefix grows by one slot at a time. */
  lemma ViewExtend(cells: seq<Cell>, n: nat)
    requires Unique(cells) && n < |cells|
    ensures Unique(cells[..n]) && Unique(cells[..n + 1])
    ensures !cells[n].Full? ==> View(cells[..n + 1]) == View(cells[..n])
    ensures cells[n].Full? ==>
              && cells[n].key !in View(cells[..n])
              && View(cells[..n + 1]) == View(cells[..n])[cells[n].key := cells[n].val]
    ensures n + 1 == |cells| ==> View(cells[..n + 1]) == View(cells) && cells[..n + 1] == cells
  {
    var a, b := cells[..n], cells[..n + 1];
    assert forall i | 0 <= i < n :: a[i] == b[i] == cells[i];
    assert b[n] == cells[n];
    assert n + 1 == |cells| ==> b == cells;
    var m := View(a);
    forall i | 0 <= i < n && a[i].Full?
      ensures b[i] == a[i] && a[i].key in m && m[a[i].key] == a[i].val
    {
      ViewAt(a, i);
    }
    forall k | k in m
      ensures k in Keys(b)
    {
      assert b[IndexOf(a, k)].key == k;
    }
    if cells[n].Full? {
      assert b[n].key in Keys(b);
      ViewIs(b, m[cells[n].key := cells[n].val]);
    } else {
      ViewIs(b, m);
    }
  }

  // ---- probing ----

  /** The first n slots of the probe are neither empty nor hold key. */
  ghost predicate Clear(cells: seq<Cell>, home: nat, key: Bytes, n: nat)
    requires home < |cells| && n < |cells|
  {
    forall m | 0 <= m < n ::
      var c := cells[Slot(home, m, |cells|)]; !c.Empty? && (c.Full? ==> c.key != key)
  }

  /** Where a put stores: the slot that holds the key, or, when none does, the first
      slot of the key's probe that holds nothing, tombstone or empty. */
  ghost predicate Target(cells: seq<Cell>, hash: Hash, key: Bytes, p: nat)
    requires |cells| > 0
  {
    && p < |cells|
    && if cells[p].Full? then cells[p].key == key else
         var home := Home(hash, key, |cells|);
         && key !in View(cells)
         && forall m | 0 <= m < Dist(home, p, |cells|) :: cells[Slot(home, m, |cells|)].Full?
  }

  /** There is only one such slot. */
  lemma TargetUnique(cells: seq<Cell>, hash: Hash, key: Bytes, p: nat, q: nat)
    requires |cells| > 0 && Unique(cells) && Target(cells, hash, key, p) && Target(cells, hash, key, q)
    ensures p == q
  {
    var home := Home(hash, key, |cells|);
    if cells[p].Full? {
      ViewAt(cells, p);
    } else if cells[q].Full? {
      ViewAt(cells, q);
    } else {
      var dp, dq := Dist(home, p, |cells|), Dist(home, q, |cells|);
      assert Slot(home, dp, |cells|) == p && Slot(home, dq, |cells|) == q;
    }
  }

  /** Walking past one more slot keeps the walk clear, and never goes all the way
      round: an empty slot is still ahead. */
  lemma ClearStep(cells: seq<Cell>, home: nat, key: Bytes, n: nat)
    requires home < |cells| && n < |cells| && HasEmpty(cells) && Clear(cells, home, key, n)
    requires var c := cells[Slot(home, n, |cells|)]; !c.Empty? && (c.Full? ==> c.key != key)
    ensures n + 1 < |cells| && Clear(cells, home, key, n + 1)
    ensures Next(Slot(home, n, |cells|), |cells|) == Slot(home, n + 1, |cells|)
  {
    var e :| 0 <= e < |cells| && cells[e].Empty?;
    assert forall m | 0 <= m <= n :: Slot(home, m, |cells|) != e;
    assert Dist(home, e, |cells|) > n;
  }

  /** A probe that meets an empty slot has proved the key absent. */
  lemma Miss(cells: seq<Cell>, hash: Hash, key: Bytes, n: nat)
    requires ValidTable(cells, hash) && n < |cells|
    requires Clear(cells, Home(hash, key, |cells|), key, n)
    requires cells[Slot(Home(hash, key, |cells|), n, |cells|)].Empty?
    ensures key !in View(cells)
  {
  }

  // ---- the three slot updates ----

  /** Storing a key at its target, new or not, updates that key and no other. */
  lemma Fill(cells: seq<Cell>, hash: Hash, p: nat, key: Bytes, val: Bytes)
    requires |cells| > 0 && Reachable(cells, hash) && Unique(cells) && Target(cells, hash, key, p)
    ensures var cells' := cells[p := Full(key, val)];
            && Reachable(cells', hash) && Unique(cells')
            && View(cells') == View(cells)[key := val]
            && Fulls(cells') == Fulls(cells) + (if cells[p].Full? then 0 else 1)
            && Used(cells') == Used(cells) + (if cells[p].Empty? then 1 else 0)
  {
    CountUpdate(cells, p, Full(key, val));
    if cells[p].Full? {
      Replace(cells, hash, p, val);
    } else {
      Insert(cells, hash, p, key, val);
    }
  }

  lemma Insert(cells: seq<Cell>, hash: Hash, p: nat, key: Bytes, val: Bytes)
    requires |cells| > 0 && Reachable(cells, hash) && Unique(cells)
    requires Target(cells, hash, key, p) && !cells[p].Full?
    ensures var cells' := cells[p := Full(key, val)];
            && Reachable(cells', hash) && Unique(cells')
            && View(cells') == View(cells)[key := val]
  {
    var home := Home(hash, key, |cells|);
    var cells' := cells[p := Full(key, val)];
    forall i | 0 <= i < |cells'| && cells'[i].Full?
      ensures NoGap(cells', Home(hash, cells'[i].key, |cells'|), i)
    {
      if i != p {
        assert NoGap(cells, Home(hash, cells[i].key, |cells|), i);
      }
    }
    ViewUpdate(cells, p, key, val);
  }

  /** Writing a full cell over a slot that holds the key, or over a slot that
      holds nothing while no slot holds the key. */
  lemma ViewUpdate(cells: seq<Cell>, p: nat, key: Bytes, val: Bytes)
    requires Unique(cells) && p < |cells|
    requires (cells[p].Full? && cells[p].key == key) || (!cells[p].Full? && key !in View(cells))
    ensures Unique(cells[p := Full(key, val)])
    ensures View(cells[p := Full(key, val)]) == View(cells)[key := val]
  {
    var cells' := cells[p := Full(key, val)];
    UniqueUpdate(cells, p, key, val);
    var m := View(cells);
    forall i | 0 <= i < |cells'| && cells'[i].Full? && i != p
      ensures cells'[i].key in m && m[cells'[i].key] == cells'[i].val
    {
      ViewAt(cells, i);
    }
    assert cells'[p].key in Keys(cells');
    forall k | k in m && k != key
      ensures k in Keys(cells')
    {
      assert cells'[IndexOf(cells, k)].key == k;
    }
    ViewIs(cells', m[key := val]);
  }

  lemma UniqueUpdate(cells: seq<Cell>, p: nat, key: Bytes, val: Bytes)
    requires Unique(cells) && p < |cells|
    requires (cells[p].Full? && cells[p].key == key) || (!cells[p].Full? && key !in View(cells))
    ensures Unique(cells[p := Full(key, val)])
  {
  }

  /** Overwriting in place. */
  lemma Replace(cells: seq<Cell>, hash: Hash, p: nat, val: Bytes)
    requires |cells| > 0 && Reachable(cells, hash) && Unique(cells) && p < |cells| && cells[p].Full?
    ensures var cells' := cells[p := Full(cells[p].key, val)];
            && Reachable(cells', hash) && Unique(cells')
            && View(cells') == View(cells)[cells[p].key := val]
  {
    var cells' := cells[p := Full(cells[p].key, val)];
    forall i | 0 <= i < |cells'| && cells'[i].Full?
      ensures NoGap(cells', Home(hash, cells'[i].key, |cells'|), i)
    {
      assert NoGap(cells, Home(hash, cells[i].key, |cells|), i);
    }
    ViewUpdate(cells, p, cells[p].key, val);
  }

  /** Deleting leaves a tombstone, so no other key's probe run is cut short. */
  lemma Remove(cells: seq<Cell>, hash: Hash, p: nat)
    requires |cells| > 0 && Reachable(cells, hash) && Unique(cells) && p < |cells| && cells[p].Full?
    ensures var cells' := cells[p := Tomb];
            && Reachable(cells', hash) && Unique(cells')
            && View(cells') == View(cells) - {cells[p].key}
  {
    var cells' := cells[p := Tomb];
    forall i | 0 <= i < |cells'| && cells'[i].Full?
      ensures NoGap(cells', Home(hash, cells'[i].key, |cells'|), i)
    {
      assert NoGap(cells, Home(hash, cells[i].key, |cells|), i);
    }
    var m := View(cells);
    forall i | 0 <= i < |cells'| && cells'[i].Full?
      ensures cells'[i].key in m && m[cells'[i].key] == cells'[i].val
    {
      ViewAt(cells, i);
    }
    forall k | k in m && k != cells[p].key
      ensures k in Keys(cells')
    {
      assert cells'[IndexOf(cells, k)].key == k;
    }
    ViewIs(cells', m - {cells[p].key});
  }
}
