/** The operation payloads of the rustkv protocol: the Go encoders, the Rust helper's
    `handle`, and the Go scan iterator, over an abstract store. */
module Payloads {
  import opened Arith
  import opened Records
  import opened Store
  import opened Wire

  const OP_PUT: byte := 1
  const OP_GET: byte := 2
  const OP_DEL: byte := 3
  const OP_SCAN: byte := 4
  const OP_FLUSH: byte := 5
  const OP_BATCH: byte := 6

  // ---- batches ----

  function OpBytes(op: Op): Bytes
  {
    match op
    case Put(k, v) => [OP_PUT] + Field(k) + Field(v)
    case Delete(k) => [OP_DEL] + Field(k)
  }

  function OpsBytes(ops: seq<Op>): Bytes
  {
    if ops == [] then [] else OpBytes(ops[0]) + OpsBytes(ops[1..])
  }

  predicate ShortOp(op: Op)
  {
    Short(op.key) && (op.Put? ==> Short(op.val))
  }

  lemma {:induction false} OpsBytesSnoc(ops: seq<Op>, op: Op)
    ensures OpsBytes(ops + [op]) == OpsBytes(ops) + OpBytes(op)
  {
    hide OpBytes;
    if ops == [] {
      assert ops + [op] == [op] && [op][1..] == [];
    } else {
      OpsBytesSnoc(ops[1..], op);
      assert (ops + [op])[1..] == ops[1..] + [op];
    }
  }

  /** The client's batch: encoded records accumulate in buf, n counts them. */
  class Batch {
    var buf: Bytes
    var n: nat
    ghost var ops: seq<Op>

    ghost predicate Valid()
      reads this
    {
      buf == OpsBytes(ops) && n == |ops|
    }

    constructor ()
      ensures Valid() && ops == []
    {
      buf, n, ops := [], 0, [];
    }

    method Put(k: Bytes, v: Bytes)
      requires Valid()
      modifies this
      ensures Valid() && ops == old(ops) + [Op.Put(k, v)]
    {
      hide LE, OpsBytes;
      OpsBytesSnoc(ops, Op.Put(k, v));
      var rec := [OP_PUT] + LE(|k|, 4) + k + LE(|v|, 4) + v;
      assert rec == OpBytes(Op.Put(k, v));
      buf := buf + rec;
      n := n + 1;
      ops := ops + [Op.Put(k, v)];
    }

    method Delete(k: Bytes)
      requires Valid()
      modifies this
      ensures Valid() && ops == old(ops) + [Op.Delete(k)]
    {
      hide LE, OpsBytes;
      OpsBytesSnoc(ops, Op.Delete(k));
      var rec := [OP_DEL] + LE(|k|, 4) + k;
      assert rec == OpBytes(Op.Delete(k));
      buf := buf + rec;
      n := n + 1;
      ops := ops + [Op.Delete(k)];
    }

    /** The payload a Commit sends; the batch is empty afterwards. */
    method Commit() returns (p: Bytes)
      requires Valid()
      modifies this
      ensures p == BatchPayload(old(ops)) && Valid() && ops == []
    {
      p := LE(n, 4) + buf;
      buf, n, ops := [], 0, [];
    }
  }

  function BatchPayload(ops: seq<Op>): Bytes
  {
    LE(|ops|, 4) + OpsBytes(ops)
  }

  /** One operation at off and the offset past it. */
  function ReadOp(p: Bytes, off: nat): (r: Option<(Op, nat)>)
    ensures r.Some? ==> off < r.value.1 <= |p|
  {
    if off >= |p| then None else
    match ReadBytes(p, off + 1)
    case None => None
    case Some((k, o1)) =>
      if p[off] == OP_PUT then
        match ReadBytes(p, o1)
        case None => None
        case Some((v, o2)) => Some((Op.Put(k, v), o2))
      else
        Some((Op.Delete(k), o1))
  }

  function ReadOps(p: Bytes, off: nat, count: nat): Option<seq<Op>>
    decreases count
  {
    if count == 0 then Some([]) else
    match ReadOp(p, off)
    case None => None
    case Some((op, next)) =>
      match ReadOps(p, next, count - 1)
      case None => None
      case Some(rest) => Some([op] + rest)
  }

  ghost function After(done: seq<Op>, r: Option<seq<Op>>): Option<seq<Op>>
  {
    match r
    case None => None
    case Some(rest) => Some(done + rest)
  }

  lemma AfterFacts(done: seq<Op>, op: Op, r: Option<seq<Op>>)
    ensures After(done, After([op], r)) == After(done + [op], r)
    ensures After([], r) == r && After(done, Some([])) == Some(done)
  {
    if r.Some? {
      assert done + ([op] + r.value) == done + [op] + r.value;
      assert [] + r.value == r.value;
    }
    assert done + [] == done;
  }

  /** The helper's OP_BATCH loop. */
  method DecodeBatch(p: Bytes) returns (r: Option<seq<Op>>)
    ensures r == if |p| < 4 then None else ReadOps(p, 4, FromLE(p[0..4]))
  {
    hide FromLE, ReadOp;
    if |p| < 4 {
      return None;
    }
    var count := FromLE(p[0..4]);
    var off, i := 4, 0;
    var ops: seq<Op> := [];
    AfterFacts([], Op.Delete([]), ReadOps(p, 4, count));
    while i < count
      invariant 0 <= i <= count
      invariant ReadOps(p, 4, count) == After(ops, ReadOps(p, off, count - i))
    {
      match ReadOp(p, off) {
        case None => return None;
        case Some((op, next)) =>
          AfterFacts(ops, op, ReadOps(p, next, count - i - 1));
          assert ReadOps(p, off, count - i) == After([op], ReadOps(p, next, count - i - 1));
          ops := ops + [op];
          off := next;
      }
      i := i + 1;
    }
    AfterFacts(ops, Op.Delete([]), None);
    return Some(ops);
  }

  lemma OpRoundTrip(pre: Bytes, op: Op, post: Bytes)
    requires ShortOp(op)
    ensures ReadOp(pre + OpBytes(op) + post, |pre|) == Some((op, |pre| + |OpBytes(op)|))
  {
    hide LE, FromLE, ReadBytes, Field;
    var p, b, n := pre + OpBytes(op) + post, OpBytes(op), |pre|;
    assert p[n..n + |b|] == b && p[n] == b[0];
    match op
    case Put(k, v) =>
      assert p[n + 1..n + 5 + |k|] == b[1..5 + |k|] == Field(k);
      FieldAt(p, n + 1, k);
      assert p[n + 5 + |k|..n + 9 + |k| + |v|] == b[5 + |k|..] == Field(v);
      FieldAt(p, n + 5 + |k|, v);
    case Delete(k) =>
      assert p[n + 1..n + 5 + |k|] == b[1..] == Field(k);
      FieldAt(p, n + 1, k);
  }

  lemma {:induction false} OpsRoundTrip(pre: Bytes, ops: seq<Op>, rest: Bytes)
    requires forall i | 0 <= i < |ops| :: ShortOp(ops[i])
    ensures ReadOps(pre + OpsBytes(ops) + rest, |pre|, |ops|) == Some(ops)
    decreases |ops|
  {
    hide LE, FromLE, ReadOp, OpBytes;
    if ops != [] {
      var b, tail := OpBytes(ops[0]), OpsBytes(ops[1..]);
      OpRoundTrip(pre, ops[0], tail + rest);
      assert pre + OpsBytes(ops) + rest == pre + b + (tail + rest) == (pre + b) + tail + rest;
      OpsRoundTrip(pre + b, ops[1..], rest);
      assert [ops[0]] + ops[1..] == ops;
    }
  }

  /** Any mix of puts and deletes decodes to the same list in the same order. */
  lemma BatchRoundTrip(ops: seq<Op>, rest: Bytes)
    requires |ops| < U32 && forall i | 0 <= i < |ops| :: ShortOp(ops[i])
    ensures var p := BatchPayload(ops) + rest;
            |p| >= 4 && FromLE(p[0..4]) == |ops| && ReadOps(p, 4, |ops|) == Some(ops)
  {
    hide LE, FromLE, Pow256, ReadOps, OpsBytes;
    Widths();
    LERoundTrip(|ops|, 4);
    assert (BatchPayload(ops) + rest)[0..4] == LE(|ops|, 4);
    OpsRoundTrip(LE(|ops|, 4), ops, rest);
  }

  // ---- scans ----

  function RowBytes(row: Row): Bytes
  {
    Field(row.0) + Field(row.1)
  }

  function RowsBytes(rows: seq<Row>): Bytes
  {
    if rows == [] then [] else RowBytes(rows[0]) + RowsBytes(rows[1..])
  }

  predicate ShortRows(rows: seq<Row>)
  {
    forall i | 0 <= i < |rows| :: Short(rows[i].0) && Short(rows[i].1)
  }

  lemma RowsStep(rows: seq<Row>, i: nat)
    requires i <= |rows|
    ensures RowsBytes(rows[i..]) == if i == |rows| then [] else RowBytes(rows[i]) + RowsBytes(rows[i + 1..])
  {
    assert i < |rows| ==> rows[i..][1..] == rows[i + 1..];
  }

  lemma RowInPieces(done: Bytes, k: Bytes, v: Bytes, rest: Bytes)
    ensures done + LE(|k|, 4) + k + LE(|v|, 4) + v + rest == done + (RowBytes((k, v)) + rest)
  {
    hide LE;
  }

  /** The helper's OP_SCAN loop. */
  method EncodeRows(rows: seq<Row>) returns (body: Bytes)
    ensures body == RowsBytes(rows)
  {
    hide LE, RowsBytes, RowBytes;
    body := [];
    var i := 0;
    assert rows[0..] == rows;
    while i < |rows|
      invariant 0 <= i <= |rows| && body + RowsBytes(rows[i..]) == RowsBytes(rows)
    {
      var (k, v) := rows[i];
      ghost var done := body;
      RowsStep(rows, i);
      body := body + LE(|k|, 4);
      body := body + k;
      body := body + LE(|v|, 4);
      body := body + v;
      RowInPieces(done, k, v, RowsBytes(rows[i + 1..]));
      i := i + 1;
    }
    RowsStep(rows, i);
  }

  /** The client's cursor over a scan response. */
  class Iter {
    const body: Bytes
    var off: nat
    var k: Bytes
    var v: Bytes

    constructor (body: Bytes)
      ensures this.body == body && off == 0
    {
      this.body := body;
      off, k, v := 0, [], [];
    }

    /** One row per call, for any body at all: a malformed body ends the scan, and no
        slice goes out of range. */
    method Next() returns (ok: bool)
      requires off <= |body|
      modifies this
      ensures old(off) <= off <= |body|
      ensures ok <==> ParseRows(body, old(off)) != []
      ensures ok ==> ParseRows(body, old(off)) == [(k, v)] + ParseRows(body, off)
    {
      hide FromLE;
      if off + 4 > |body| {
        return false;
      }
      var kl := FromLE(body[off..off + 4]);
      off := off + 4;
      if off + kl + 4 > |body| {
        return false;
      }
      k := body[off..off + kl];
      off := off + kl;
      var vl := FromLE(body[off..off + 4]);
      off := off + 4;
      if off + vl > |body| {
        return false;
      }
      v := body[off..off + vl];
      off := off + vl;
      return true;
    }
  }

  /** The two fields of a row sit at off. */
  ghost predicate RowAt(body: Bytes, off: nat, row: Row)
  {
    var (k, v) := row;
    && ReadBytes(body, off) == Some((k, off + 4 + |k|))
    && ReadBytes(body, off + 4 + |k|) == Some((v, off + 8 + |k| + |v|))
  }

  lemma NoRows(body: Bytes, off: nat)
    requires off <= |body| && body[off..] == RowsBytes([])
    ensures off == |body|
  {
  }

  lemma RowFront(body: Bytes, off: nat, rows: seq<Row>)
    requires off <= |body| && rows != [] && body[off..] == RowsBytes(rows) && ShortRows(rows)
    ensures RowAt(body, off, rows[0]) && off + 8 + |rows[0].0| + |rows[0].1| <= |body|
    ensures body[off + 8 + |rows[0].0| + |rows[0].1|..] == RowsBytes(rows[1..])
  {
    hide ReadBytes, Field;
    var (k, v) := rows[0];
    Parts(body, off, Field(k), Field(v), RowsBytes(rows[1..]));
    FieldAt(body, off, k);
    FieldAt(body, off + 4 + |k|, v);
  }

  lemma Parts(s: Bytes, off: nat, a: Bytes, b: Bytes, c: Bytes)
    requires off <= |s| && s[off..] == a + b + c
    ensures off + |a| + |b| <= |s|
    ensures s[off..off + |a|] == a && s[off + |a|..off + |a| + |b|] == b && s[off + |a| + |b|..] == c
  {
    var tail := s[off..];
    assert s[off..off + |a|] == tail[..|a|] && s[off + |a|..off + |a| + |b|] == tail[|a|..|a| + |b|];
    assert s[off + |a| + |b|..] == tail[|a| + |b|..];
  }

  /** The rows an iterator over the body yields from off on. */
  function ParseRows(body: Bytes, off: nat): seq<Row>
    requires off <= |body|
    decreases |body| - off
  {
    match ReadBytes(body, off)
    case None => []
    case Some((k, mid)) =>
      match ReadBytes(body, mid)
      case None => []
      case Some((v, end)) => [(k, v)] + ParseRows(body, end)
  }

  /** A client loop over any scan body. */
  method Drain(body: Bytes) returns (seen: seq<Row>)
    ensures seen == ParseRows(body, 0)
  {
    hide ParseRows;
    var it := new Iter(body);
    seen := [];
    var ok := it.Next();
    while ok
      invariant fresh(it) && it.body == body && it.off <= |body|
      invariant ParseRows(body, 0) == if ok then seen + [(it.k, it.v)] + ParseRows(body, it.off) else seen
      decreases if ok then 1 + |ParseRows(body, it.off)| else 0
    {
      seen := seen + [(it.k, it.v)];
      ghost var rest := ParseRows(body, it.off);
      ok := it.Next();
      assert ok ==> seen + rest == seen + [(it.k, it.v)] + ParseRows(body, it.off);
      assert !ok ==> seen + rest == seen;
    }
  }

  /** A scan body iterates back to the helper's rows, all of them, in order. */
  lemma {:induction false} RowsRoundTrip(body: Bytes, off: nat, rows: seq<Row>)
    requires off <= |body| && body[off..] == RowsBytes(rows) && ShortRows(rows)
    ensures ParseRows(body, off) == rows
    decreases |rows|
  {
    hide ReadBytes, RowsBytes;
    if rows == [] {
      NoRows(body, off);
      NothingAt(body, off);
    } else {
      RowFront(body, off, rows);
      RowsRoundTrip(body, off + 8 + |rows[0].0| + |rows[0].1|, rows[1..]);
      assert [rows[0]] + rows[1..] == rows;
    }
  }

  lemma NothingAt(body: Bytes, off: nat)
    requires off == |body|
    ensures ReadBytes(body, off).None?
  {
  }

  // ---- the helper's dispatcher ----

  type Scan = (Contents, Bytes, nat) -> seq<Row>

  /** The new store, the status and the body; None where the helper would panic. */
  function Handle(m: Contents, scan: Scan, op: byte, p: Bytes): Option<(Contents, byte, Bytes)>
  {
    if op == OP_GET then
      match ReadBytes(p, 0)
      case None => None
      case Some((k, _)) => if k in m then Some((m, 1, m[k])) else Some((m, 0, []))
    else if op == OP_PUT then
      match ReadBytes(p, 0)
      case None => None
      case Some((k, off)) =>
        match ReadBytes(p, off)
        case None => None
        case Some((v, _)) => Some((m[k := v], 0, []))
    else if op == OP_DEL then
      match ReadBytes(p, 0)
      case None => None
      case Some((k, _)) => Some((m - {k}, 0, []))
    else if op == OP_SCAN then
      match ReadBytes(p, 0)
      case None => None
      case Some((start, off)) =>
        if off + 4 > |p| then None else Some((m, 0, RowsBytes(scan(m, start, FromLE(p[off..off + 4])))))
    else if op == OP_FLUSH then Some((m, 0, []))
    else if op == OP_BATCH then
      if |p| < 4 then None else
      match ReadOps(p, 4, FromLE(p[0..4]))
      case None => None
      case Some(ops) => Some((ApplyAll(m, ops), 0, []))
    else Some((m, 255, []))
  }

  /** What the client sends means to the helper what the client meant, whatever bytes
      follow the fields it reads. */
  lemma RequestsMean(m: Contents, scan: Scan, k: Bytes, v: Bytes, limit: nat, rest: Bytes)
    requires Short(k) && Short(v) && limit < U32
    ensures Handle(m, scan, OP_PUT, Field(k) + Field(v) + rest) == Some((m[k := v], 0, []))
    ensures Handle(m, scan, OP_GET, Field(k) + rest) == Some(if k in m then (m, 1, m[k]) else (m, 0, []))
    ensures Handle(m, scan, OP_DEL, Field(k) + rest) == Some((m - {k}, 0, []))
    ensures Handle(m, scan, OP_SCAN, Field(k) + LE(limit, 4) + rest) == Some((m, 0, RowsBytes(scan(m, k, limit))))
    ensures Handle(m, scan, OP_FLUSH, rest) == Some((m, 0, []))
  {
    hide LE, FromLE, Pow256, ReadBytes, Field, ReadOps, RowsBytes;
    OneField(k, rest);
    TwoFields(k, v, rest);
    FieldAndLimit(k, limit, rest);
  }

  /** A committed batch is applied to the store as the list of its operations. */
  lemma BatchMeans(m: Contents, scan: Scan, ops: seq<Op>, rest: Bytes)
    requires |ops| < U32 && forall i | 0 <= i < |ops| :: ShortOp(ops[i])
    ensures Handle(m, scan, OP_BATCH, BatchPayload(ops) + rest) == Some((ApplyAll(m, ops), 0, []))
  {
    hide FromLE, ReadOps, BatchPayload;
    BatchRoundTrip(ops, rest);
  }

  /** Whatever the payload, only a put, a delete or a batch changes the store, and an
      operation the helper does not know is answered with status 255. */
  lemma OnlyWritesChange(m: Contents, scan: Scan, op: byte, p: Bytes)
    requires Handle(m, scan, op, p).Some?
    ensures op != OP_PUT && op != OP_DEL && op != OP_BATCH ==> Handle(m, scan, op, p).value.0 == m
    ensures op == 0 || op > OP_BATCH ==> Handle(m, scan, op, p) == Some((m, 255, []))
  {
    hide FromLE, ReadBytes, ReadOps, RowsBytes;
  }

  lemma OneField(k: Bytes, rest: Bytes)
    requires Short(k)
    ensures ReadBytes(Field(k) + rest, 0) == Some((k, 4 + |k|))
  {
    hide LE, FromLE, ReadBytes, Field;
    var p := Field(k) + rest;
    assert p[0..4 + |k|] == Field(k);
    FieldAt(p, 0, k);
  }

  lemma TwoFields(k: Bytes, v: Bytes, rest: Bytes)
    requires Short(k) && Short(v)
    ensures ReadBytes(Field(k) + Field(v) + rest, 0) == Some((k, 4 + |k|))
    ensures ReadBytes(Field(k) + Field(v) + rest, 4 + |k|) == Some((v, 8 + |k| + |v|))
  {
    hide LE, FromLE, ReadBytes, Field;
    var p := Field(k) + Field(v) + rest;
    assert p[0..4 + |k|] == Field(k) && p[4 + |k|..8 + |k| + |v|] == Field(v);
    FieldAt(p, 0, k);
    FieldAt(p, 4 + |k|, v);
  }

  lemma FieldAndLimit(k: Bytes, limit: nat, rest: Bytes)
    requires Short(k) && limit < U32
    ensures var p := Field(k) + LE(limit, 4) + rest;
            && ReadBytes(p, 0) == Some((k, 4 + |k|)) && |p| >= 8 + |k|
            && FromLE(p[4 + |k|..8 + |k|]) == limit
  {
    hide LE, FromLE, ReadBytes, Pow256, Field;
    var p := Field(k) + LE(limit, 4) + rest;
    assert p[0..4 + |k|] == Field(k);
    FieldAt(p, 0, k);
    assert p[4 + |k|..8 + |k|] == LE(limit, 4);
    Widths();
    LERoundTrip(limit, 4);
  }

  // ---- the client's operations ----

  datatype Request =
    | GetReq(key: Bytes) | PutReq(key: Bytes, val: Bytes) | DeleteReq(key: Bytes)
    | ScanReq(start: Bytes) | FlushReq | BatchReq(ops: seq<Op>)

  /** What a client method returns. */
  datatype Reply = Found(val: Option<Bytes>) | Rows(rows: seq<Row>) | Acked | StatusError(status: byte)

  const SCAN_CAP: nat := 512

  function CodeOf(req: Request): byte
  {
    match req
    case GetReq(_) => OP_GET
    case PutReq(_, _) => OP_PUT
    case DeleteReq(_) => OP_DEL
    case ScanReq(_) => OP_SCAN
    case FlushReq => OP_FLUSH
    case BatchReq(_) => OP_BATCH
  }

  function PayloadOf(req: Request): Bytes
  {
    match req
    case GetReq(k) => Field(k)
    case PutReq(k, v) => Field(k) + Field(v)
    case DeleteReq(k) => Field(k)
    case ScanReq(start) => Field(start) + LE(SCAN_CAP, 4)
    case FlushReq => []
    case BatchReq(ops) => BatchPayload(ops)
  }

  /** How the client method reads the response. */
  function ReplyOf(req: Request, status: byte, body: Bytes): Reply
  {
    match req
    case GetReq(_) => if status == 0 then Found(None) else Found(Some(body))
    case PutReq(_, _) => if status != 0 then StatusError(status) else Acked
    case DeleteReq(_) => Acked
    case ScanReq(_) => Rows(ParseRows(body, 0))
    case FlushReq => Acked
    case BatchReq(_) => if status != 0 then StatusError(status) else Acked
  }

  /** What the operation means on a map. */
  function Effect(m: Contents, req: Request): Contents
  {
    match req
    case PutReq(k, v) => m[k := v]
    case DeleteReq(k) => m - {k}
    case BatchReq(ops) => ApplyAll(m, ops)
    case _ => m
  }

  function Expected(m: Contents, scan: Scan, req: Request): Reply
  {
    match req
    case GetReq(k) => Found(if k in m then Some(m[k]) else None)
    case ScanReq(start) => Rows(scan(m, start, SCAN_CAP))
    case _ => Acked
  }

  /** Every length the request and its answer write down is under 2^32. */
  predicate ShortRequest(m: Contents, scan: Scan, req: Request)
  {
    match req
    case GetReq(k) => Short(k)
    case PutReq(k, v) => Short(k) && Short(v)
    case DeleteReq(k) => Short(k)
    case ScanReq(start) => Short(start) && ShortRows(scan(m, start, SCAN_CAP))
    case FlushReq => true
    case BatchReq(ops) => |ops| < U32 && forall i | 0 <= i < |ops| :: ShortOp(ops[i])
  }

  /** Client method, encoding, helper, response and decoding together are the operation
      on the map. */
  lemma RequestIsOperation(m: Contents, scan: Scan, req: Request)
    requires ShortRequest(m, scan, req)
    ensures var r := Handle(m, scan, CodeOf(req), PayloadOf(req));
            && r.Some? && r.value.0 == Effect(m, req)
            && ReplyOf(req, r.value.1, r.value.2) == Expected(m, scan, req)
  {
    hide LE, ReadBytes, Field, ReadOps, RowsBytes, BatchPayload, Handle, ParseRows, ShortRows;
    assert PayloadOf(req) + [] == PayloadOf(req);
    match req
    case GetReq(k) => RequestsMean(m, scan, k, [], 0, []);
    case PutReq(k, v) => RequestsMean(m, scan, k, v, 0, []);
    case DeleteReq(k) => RequestsMean(m, scan, k, [], 0, []);
    case ScanReq(start) =>
      RequestsMean(m, scan, start, [], SCAN_CAP, []);
      var rows := scan(m, start, SCAN_CAP);
      assert RowsBytes(rows)[0..] == RowsBytes(rows);
      RowsRoundTrip(RowsBytes(rows), 0, rows);
    case FlushReq => RequestsMean(m, scan, [], [], 0, []);
    case BatchReq(ops) => BatchMeans(m, scan, ops, []);
  }
}
