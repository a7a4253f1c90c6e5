/** The byte formats of the pipe between the Go client and the Rust helper, with both
    ends of each: what one side writes, the other reads back. */
module Wire {
  import opened Arith
  import opened Records

  // ---- little-endian integers ----

  /** The low w bytes of n, least significant first; higher bytes are cut off. */
  function LE(n: nat, w: nat): (b: Bytes)
    ensures |b| == w
  {
    if w == 0 then [] else [n % 256] + LE(n / 256, w - 1)
  }

  function FromLE(b: Bytes): nat
  {
    if b == [] then 0 else b[0] + 256 * FromLE(b[1..])
  }

  /** A value survives w bytes exactly when it is below 256^w. */
  lemma LERoundTrip(n: nat, w: nat)
    ensures FromLE(LE(n, w)) == n <==> n < Pow256(w)
    ensures FromLE(LE(n, w)) < Pow256(w)
  {
  }

  /** Least significant byte first. */
  lemma {:induction false} LEByte(n: nat, w: nat, i: nat)
    requires i < w
    ensures LE(n, w)[i] == n / Pow256(i) % 256
  {
    if i > 0 {
      LEByte(n / 256, w - 1, i - 1);
      ShiftedByte(n, Pow256(i - 1));
    }
  }

  lemma ShiftedByte(n: nat, p: nat)
    requires p > 0
    ensures n / 256 / p == n / (256 * p)
  {
    var q, r := n / 256 / p, n / 256 % p;
    assert n / 256 == p * q + r;
    assert n == (256 * p) * q + (256 * r + n % 256);
    QuotientUnique(n, 256 * p, q, 256 * r + n % 256);
  }

  // ---- frames ----

  /** Both directions frame an id, one byte (the operation or the status) and a
      length-prefixed body; they differ in whether the byte or the id comes first. */
  datatype Frame = Frame(code: byte, id: nat, body: Bytes)

  predicate Fits(f: Frame)
  {
    f.id < U64 && |f.body| < U32
  }

  const HEADER: nat := 13

  /** A request: op u8, id u64, plen u32, payload. */
  function Request(f: Frame): Bytes
  {
    [f.code] + LE(f.id, 8) + LE(|f.body|, 4) + f.body
  }

  /** A response: id u64, status u8, blen u32, body. */
  function Response(f: Frame): Bytes
  {
    LE(f.id, 8) + [f.code] + LE(|f.body|, 4) + f.body
  }

  /** Where the fields of a frame are. */
  lemma FrameLayout(f: Frame)
    ensures var r := Request(f);
            && |r| == 13 + |f.body| && r[0] == f.code && r[1..9] == LE(f.id, 8)
            && r[9..13] == LE(|f.body|, 4) && r[13..] == f.body
    ensures var r := Response(f);
            && |r| == 13 + |f.body| && r[0..8] == LE(f.id, 8) && r[8] == f.code
            && r[9..13] == LE(|f.body|, 4) && r[13..] == f.body
  {
    hide LE;
  }

  datatype Direction = Requests | Responses

  function Encode(d: Direction, f: Frame): (b: Bytes)
    ensures |b| == HEADER + |f.body|
  {
    if d.Requests? then Request(f) else Response(f)
  }

  function EncodeAll(d: Direction, fs: seq<Frame>): Bytes
  {
    if fs == [] then [] else Encode(d, fs[0]) + EncodeAll(d, fs[1..])
  }

  function FromHeader(d: Direction, hdr: Bytes, body: Bytes): Frame
    requires |hdr| == HEADER
  {
    if d.Requests? then Frame(hdr[0], FromLE(hdr[1..9]), body) else Frame(hdr[8], FromLE(hdr[0..8]), body)
  }

  /** The frame whose header starts the stream, if the stream holds all of it. */
  function FirstFrame(d: Direction, s: Bytes): (r: Option<(Frame, nat)>)
    ensures r.Some? ==> HEADER <= r.value.1 <= |s|
  {
    if |s| < HEADER then None else
    var len := FromLE(s[..HEADER][9..13]);
    if |s| < HEADER + len then None else Some((FromHeader(d, s[..HEADER], s[13..13 + len]), 13 + len))
  }

  /** Every whole frame of the stream, in order, up to the first incomplete one. */
  function Parse(d: Direction, s: Bytes): seq<Frame>
    decreases |s|
  {
    match FirstFrame(d, s)
    case None => []
    case Some((f, n)) => [f] + Parse(d, s[n..])
  }

  /** What the stream holds after its last whole frame. */
  function Rest(d: Direction, s: Bytes): Bytes
    decreases |s|
  {
    match FirstFrame(d, s)
    case None => s
    case Some((_, n)) => Rest(d, s[n..])
  }

  /** Reading one frame off the front of a stream. */
  lemma ParseStep(d: Direction, s: Bytes)
    requires FirstFrame(d, s).Some?
    ensures var (f, n) := FirstFrame(d, s).value; Parse(d, s) == [f] + Parse(d, s[n..]) && Rest(d, s) == Rest(d, s[n..])
  {
  }

  /** Bytes that arrive behind a stream of whole frames are parsed as if they had come
      alone. */
  lemma {:induction false} ParseAppend(d: Direction, s: Bytes, t: Bytes)
    requires Rest(d, s) == []
    ensures Parse(d, s + t) == Parse(d, s) + Parse(d, t) && Rest(d, s + t) == Rest(d, t)
    decreases |s|
  {
    hide FirstFrame;
    if FirstFrame(d, s).None? {
      assert s == [] && s + t == t;
    } else {
      var n := FirstFrame(d, s).value.1;
      FirstStays(d, s, t);
      assert (s + t)[n..] == s[n..] + t;
      ParseAppend(d, s[n..], t);
    }
  }

  lemma FirstStays(d: Direction, s: Bytes, t: Bytes)
    requires FirstFrame(d, s).Some?
    ensures FirstFrame(d, s + t) == FirstFrame(d, s)
  {
    hide FromHeader, FromLE;
    var n := FirstFrame(d, s).value.1;
    assert (s + t)[..HEADER] == s[..HEADER] && (s + t)[13..n] == s[13..n];
  }

  /** The reader loop of either side: read a header, read the body it announces,
      stop at the first short read. */
  method ReadFrames(d: Direction, s: Bytes) returns (fs: seq<Frame>)
    ensures fs == Parse(d, s)
  {
    hide FromLE, FromHeader;
    fs := [];
    var off := 0;
    assert s[0..] == s;
    while true
      invariant 0 <= off <= |s| && fs + Parse(d, s[off..]) == Parse(d, s)
      decreases |s| - off
    {
      if |s| - off < HEADER {
        return;
      }
      var hdr := s[off..off + HEADER];
      var len := FromLE(hdr[9..13]);
      assert s[off..][..HEADER] == hdr;
      if |s| - off - HEADER < len {
        return;
      }
      var body := s[off + HEADER..off + HEADER + len];
      FrameAt(d, s, off, len);
      fs := fs + [FromHeader(d, hdr, body)];
      off := off + HEADER + len;
    }
  }

  lemma FrameAt(d: Direction, s: Bytes, off: nat, len: nat)
    requires off + HEADER + len <= |s| && len == FromLE(s[off..off + HEADER][9..13])
    ensures var hdr, body := s[off..off + HEADER], s[off + HEADER..off + HEADER + len];
            Parse(d, s[off..]) == [FromHeader(d, hdr, body)] + Parse(d, s[off + HEADER + len..])
  {
    var rest := s[off..];
    assert rest[..HEADER] == s[off..off + HEADER];
    assert s[off + HEADER..off + HEADER + len] == rest[13..13 + len];
    assert rest[13 + len..] == s[off + HEADER + len..];
  }

  lemma FirstOfEncoded(d: Direction, f: Frame, rest: Bytes)
    requires f.id < U64
    ensures |f.body| < U32 ==> FirstFrame(d, Encode(d, f) + rest) == Some((f, HEADER + |f.body|))
    ensures |f.body| >= U32 ==>
              FirstFrame(d, Encode(d, f)).Some? && |FirstFrame(d, Encode(d, f)).value.0.body| < |f.body|
  {
    Widths();
    LERoundTrip(f.id, 8);
    LERoundTrip(|f.body|, 4);
    var s := Encode(d, f) + rest;
    var hdr := s[..HEADER];
    assert hdr == Encode(d, f)[..HEADER] && hdr[9..13] == LE(|f.body|, 4);
    assert s[13..13 + |f.body|] == f.body;
    if d.Requests? {
      assert hdr[1..9] == LE(f.id, 8);
    } else {
      assert hdr[0..8] == LE(f.id, 8);
    }
  }

  /** A frame that fits is parsed back and leaves nothing behind; a proper prefix of
      one yields no frame. */
  lemma WholeOrCut(d: Direction, f: Frame, cut: nat)
    requires Fits(f) && cut <= |Encode(d, f)|
    ensures cut == |Encode(d, f)| ==> Parse(d, Encode(d, f)[..cut]) == [f] && Rest(d, Encode(d, f)[..cut]) == []
    ensures cut < |Encode(d, f)| ==> Parse(d, Encode(d, f)[..cut]) == []
  {
    hide Encode, FirstFrame;
    var b := Encode(d, f);
    if cut == |b| {
      FirstOfEncoded(d, f, []);
      assert b[..cut] == b == b + [] && b[HEADER + |f.body|..] == [];
      assert FirstFrame(d, []).None?;
      ParseStep(d, b);
    } else {
      CutFrame(d, f, cut);
    }
  }

  /** A concatenation of frames, cut off anywhere inside one more frame, parses back
      to exactly the whole frames. */
  lemma {:induction false} StreamRoundTrip(d: Direction, fs: seq<Frame>, last: Frame, cut: nat)
    requires (forall i | 0 <= i < |fs| :: Fits(fs[i])) && Fits(last) && cut < |Encode(d, last)|
    ensures Parse(d, EncodeAll(d, fs) + Encode(d, last)[..cut]) == fs
  {
    hide Encode, FirstFrame, Parse, Rest;
    var tail := Encode(d, last)[..cut];
    if fs == [] {
      assert EncodeAll(d, fs) + tail == tail;
      WholeOrCut(d, last, cut);
    } else {
      var b, rest := Encode(d, fs[0]), EncodeAll(d, fs[1..]) + tail;
      assert EncodeAll(d, fs) + tail == b + rest && b[..|b|] == b;
      WholeOrCut(d, fs[0], |b|);
      ParseAppend(d, b, rest);
      StreamRoundTrip(d, fs[1..], last, cut);
    }
  }

  lemma CutFrame(d: Direction, f: Frame, cut: nat)
    requires Fits(f) && cut < |Encode(d, f)|
    ensures FirstFrame(d, Encode(d, f)[..cut]).None?
  {
    var s := Encode(d, f)[..cut];
    if cut >= HEADER {
      Widths();
      LERoundTrip(|f.body|, 4);
      assert s[..HEADER] == Encode(d, f)[..HEADER] && s[..HEADER][9..13] == LE(|f.body|, 4);
    }
  }

  /** A frame written behind whole frames is read back behind them exactly when its
      body is under 2^32 bytes: the length field holds 32 bits. */
  lemma FrameSurvivesIff(d: Direction, s: Bytes, f: Frame)
    requires Rest(d, s) == [] && f.id < U64
    ensures Parse(d, s + Encode(d, f)) == Parse(d, s) + [f] <==> |f.body| < U32
  {
    hide Encode, FirstFrame, Parse, Rest;
    var b := Encode(d, f);
    ParseAppend(d, s, b);
    if |f.body| < U32 {
      WholeOrCut(d, f, |b|);
      assert b[..|b|] == b;
    } else {
      FirstOfEncoded(d, f, []);
      ParseStep(d, b);
      assert (Parse(d, s) + Parse(d, b))[|Parse(d, s)|] == Parse(d, b)[0] != f;
    }
  }

  // ---- length-prefixed fields ----

  predicate Short(b: Bytes)
  {
    |b| < U32
  }

  function Field(b: Bytes): (r: Bytes)
    ensures |r| == 4 + |b|
  {
    LE(|b|, 4) + b
  }

  /** read_bytes: the field at off and the offset past it; None where a slice bound
      is out of range. */
  function ReadBytes(p: Bytes, off: nat): (r: Option<(Bytes, nat)>)
    ensures r.Some? ==> off + 4 <= r.value.1 <= |p|
  {
    if off + 4 > |p| then None else
    var n := FromLE(p[off..off + 4]);
    if off + 4 + n > |p| then None else Some((p[off + 4..off + 4 + n], off + 4 + n))
  }

  /** A field is read back wherever it sits. */
  lemma FieldAt(p: Bytes, off: nat, b: Bytes)
    requires Short(b) && off + 4 + |b| <= |p| && p[off..off + 4 + |b|] == Field(b)
    ensures ReadBytes(p, off) == Some((b, off + 4 + |b|))
  {
    hide LE, FromLE, Pow256;
    Widths();
    LERoundTrip(|b|, 4);
    var f := p[off..off + 4 + |b|];
    assert p[off..off + 4] == f[..4] == LE(|b|, 4);
    assert p[off + 4..off + 4 + |b|] == f[4..] == b;
  }
}
