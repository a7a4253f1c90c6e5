/** Byte strings, and the record format shared by the `faster` log and the `f2`
    arena: varint(keyLen) key varint(valLen) val. */
module Records {

  type byte = x: int | 0 <= x < 256
  type Bytes = seq<byte>

  datatype Option<+T> = None | Some(value: T)

  // ---- unsigned LEB128 (section 7.6 of the DWARF Version 5 standard) ----

  /** Least significant group of seven bits first; the high bit of a byte says
      that another group follows. */
  function PutUvarint(x: nat): (r: Bytes)
    ensures |r| >= 1
  {
    if x < 0x80 then [x] else [x % 0x80 + 0x80] + PutUvarint(x / 0x80)
  }

  /** The value at the front of b and the number of bytes it takes, or None when
      b ends before the varint does. */
  function Uvarint(b: Bytes): (r: Option<(nat, nat)>)
    ensures r.Some? ==> 1 <= r.value.1 <= |b|
  {
    if b == [] then None
    else if b[0] < 0x80 then Some((b[0], 1))
    else match Uvarint(b[1..])
      case None => None
      case Some((x, n)) => Some((b[0] - 0x80 + 0x80 * x, n + 1))
  }

  lemma {:induction false} UvarintRoundTrip(x: nat, rest: Bytes)
    ensures Uvarint(PutUvarint(x) + rest) == Some((x, |PutUvarint(x)|))
  {
    var b := PutUvarint(x) + rest;
    if x >= 0x80 {
      UvarintRoundTrip(x / 0x80, rest);
      assert b[1..] == PutUvarint(x / 0x80) + rest;
    }
  }

  /** Byte i carries bits 7i to 7i + 6, and every byte but the last its high bit. */
  lemma {:induction false} UvarintByte(x: nat, i: nat)
    requires i < |PutUvarint(x)|
    ensures PutUvarint(x)[i] % 0x80 == Shifted(x, i) % 0x80
    ensures PutUvarint(x)[i] >= 0x80 <==> i + 1 < |PutUvarint(x)|
    ensures Shifted(x, |PutUvarint(x)|) == 0
  {
    if x >= 0x80 {
      UvarintByte(x / 0x80, if i > 0 then i - 1 else 0);
    }
  }

  /** x with i groups of seven bits shifted out. */
  function Shifted(x: nat, i: nat): nat
  {
    if i == 0 then x else Shifted(x / 0x80, i - 1)
  }

  /** The size computation runs the shift loop without writing any byte. */
  method UvarintLen(n: nat) returns (c: nat)
    ensures c == |PutUvarint(n)|
  {
    var x := n;
    c := 1;
    while x >= 0x80
      invariant c - 1 + |PutUvarint(x)| == |PutUvarint(n)|
    {
      x := x / 0x80;
      c := c + 1;
    }
  }

  // ---- records ----

  function Record(key: Bytes, val: Bytes): (r: Bytes)
    ensures |r| >= 2 + |key| + |val|
  {
    PutUvarint(|key|) + key + PutUvarint(|val|) + val
  }

  method RecordSize(key: Bytes, val: Bytes) returns (n: nat)
    ensures n == |Record(key, val)|
  {
    var kn := UvarintLen(|key|);
    var vn := UvarintLen(|val|);
    n := kn + |key| + vn + |val|;
  }

  /** The key and value of the record at off; None where a slice bound of the
      decoder would be out of range. */
  function RecordAt(buf: Bytes, off: nat): (r: Option<(Bytes, Bytes)>)
  {
    if off > |buf| then None else
    match Uvarint(buf[off..])
    case None => None
    case Some((kl, n)) =>
      var b := buf[off..][n..];
      if kl > |b| then None else
      match Uvarint(b[kl..])
      case None => None
      case Some((vl, m)) =>
        var c := b[kl..][m..];
        if vl > |c| then None else Some((b[..kl], c[..vl]))
  }

  /** The bytes at off are exactly the record of key and val, below limit. */
  ghost predicate HasRecord(buf: Bytes, limit: nat, off: nat, key: Bytes, val: Bytes)
  {
    && off + |Record(key, val)| <= limit <= |buf|
    && buf[off..off + |Record(key, val)|] == Record(key, val)
  }

  /** Decoding undoes encoding wherever the record sits and whatever surrounds it. */
  lemma RecordRoundTrip(buf: Bytes, limit: nat, off: nat, key: Bytes, val: Bytes)
    requires HasRecord(buf, limit, off, key, val)
    ensures RecordAt(buf, off) == Some((key, val))
  {
    hide Uvarint, PutUvarint;
    var rest := buf[off + |Record(key, val)|..];
    var kn, vn := PutUvarint(|key|), PutUvarint(|val|);
    assert buf[off..] == Record(key, val) + rest;
    assert buf[off..] == kn + (key + vn + val + rest);
    UvarintRoundTrip(|key|, key + vn + val + rest);
    var b := buf[off..][|kn|..];
    assert b == key + (vn + val + rest);
    assert b[|key|..] == vn + (val + rest);
    UvarintRoundTrip(|val|, val + rest);
    assert b[|key|..][|vn|..] == val + rest;
  }

  /** A record survives any rewrite of the bytes at and above its limit. */
  lemma RecordStable(buf: Bytes, buf': Bytes, limit: nat, limit': nat, off: nat, key: Bytes, val: Bytes)
    requires HasRecord(buf, limit, off, key, val)
    requires limit <= limit' <= |buf'| && buf'[..limit] == buf[..limit]
    ensures HasRecord(buf', limit', off, key, val)
    ensures RecordAt(buf', off) == Some((key, val)) == RecordAt(buf, off)
  {
    hide Record, RecordAt;
    var end := off + |Record(key, val)|;
    assert buf'[off..end] == buf'[..limit][off..end];
    assert buf[off..end] == buf[..limit][off..end];
    RecordRoundTrip(buf, limit, off, key, val);
    RecordRoundTrip(buf', limit', off, key, val);
  }
}
