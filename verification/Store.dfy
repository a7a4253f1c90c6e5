/** The reference every engine is measured against: a finite map with
    last-write-wins updates. */
module Store {
  import opened Records

  type Contents = map<Bytes, Bytes>

  /** What a scan yields: a key and its value. */
  type Row = (Bytes, Bytes)

  /** One buffered write of a batch. */
  datatype Op = Put(key: Bytes, val: Bytes) | Delete(key: Bytes)

  function Apply(m: Contents, op: Op): Contents
  {
    match op
    case Put(k, v) => m[k := v]
    case Delete(k) => m - {k}
  }

  /** A batch is its operations in order. */
  function ApplyAll(m: Contents, ops: seq<Op>): Contents
  {
    if ops == [] then m else Apply(ApplyAll(m, ops[..|ops| - 1]), ops[|ops| - 1])
  }

  /** A key that no operation of a batch names keeps its old state. */
  lemma {:induction false} Untouched(m: Contents, ops: seq<Op>, k: Bytes)
    requires forall j | 0 <= j < |ops| :: ops[j].key != k
    ensures k in ApplyAll(m, ops) <==> k in m
    ensures k in m ==> ApplyAll(m, ops)[k] == m[k]
  {
    if ops != [] {
      Untouched(m, ops[..|ops| - 1], k);
    }
  }

  /** The last operation of a batch that names a key decides it. */
  lemma {:induction false} LastWriteWins(m: Contents, ops: seq<Op>, i: nat)
    requires i < |ops| && forall j | i < j < |ops| :: ops[j].key != ops[i].key
    ensures ops[i].Put? ==> ops[i].key in ApplyAll(m, ops) && ApplyAll(m, ops)[ops[i].key] == ops[i].val
    ensures ops[i].Delete? ==> ops[i].key !in ApplyAll(m, ops)
  {
    var k, before := ops[i].key, ApplyAll(m, ops[..i + 1]);
    assert ops[..i + 1][..i] == ops[..i];
    assert before == Apply(ApplyAll(m, ops[..i]), ops[i]);
    ApplyAllConcat(m, ops[..i + 1], ops[i + 1..]);
    assert ops[..i + 1] + ops[i + 1..] == ops;
    Untouched(before, ops[i + 1..], k);
  }

  lemma {:induction false} ApplyAllConcat(m: Contents, a: seq<Op>, b: seq<Op>)
    ensures ApplyAll(m, a + b) == ApplyAll(ApplyAll(m, a), b)
  {
    if b == [] {
      assert a + b == a;
    } else {
      ApplyAllConcat(m, a, b[..|b| - 1]);
      assert (a + b)[..|a + b| - 1] == a + b[..|b| - 1];
    }
  }
}
