/** What travels on a connection: messages as frames, frames as a byte stream. */
module Wire {
  import opened Arith

  type byte = x: int | 0 <= x < 256

  const U64: nat := 0x1_0000_0000_0000_0000
  type u64 = x: int | 0 <= x < U64

  const MESSAGE_MAGIC_NO: nat := 0xdead_beef
  const HEADER_SIZE := 16
  const MAX_PAYLOAD_SIZE := 0x400_0000

  datatype Msg = Msg(id: u64, payload: seq<byte>)

  /** Encode throws on an empty payload and on one above 64 MiB. */
  predicate Encodable(m: Msg) {
    0 < |m.payload| <= MAX_PAYLOAD_SIZE
  }

  function Pow256(k: nat): (r: nat)
    ensures r > 0
  {
    if k == 0 then 1 else 256 * Pow256(k - 1)
  }

  /** The k low bytes of n, the most significant first. */
  function Bytes(n: nat, k: nat): (s: seq<byte>)
    ensures |s| == k
    decreases k
  {
    if k == 0 then [] else Bytes(n / 256, k - 1) + [n % 256]
  }

  /** The number a byte sequence stands for. */
  function Value(s: seq<byte>): (n: nat) {
    if s == [] then 0 else 256 * Value(s[..|s| - 1]) + s[|s| - 1]
  }

  /** Writing then reading gives the number back when it fits. */
  lemma {:induction false} ValueOfBytes(n: nat, k: nat)
    requires n < Pow256(k)
    ensures Value(Bytes(n, k)) == n
    decreases k
  {
    if k != 0 {
      ValueOfBytes(n / 256, k - 1);
      assert Bytes(n, k)[..k - 1] == Bytes(n / 256, k - 1);
    }
  }

  /** Reading then writing gives the bytes back. */
  lemma {:induction false} BytesOfValue(s: seq<byte>)
    ensures Bytes(Value(s), |s|) == s && Value(s) < Pow256(|s|)
  {
    if s != [] {
      var rest := s[..|s| - 1];
      BytesOfValue(rest);
      assert Value(s) / 256 == Value(rest) && Value(s) % 256 == s[|s| - 1];
      assert s == rest + [s[|s| - 1]];
    }
  }

  lemma Pow256Values()
    ensures Pow256(2) == 0x1_0000 && Pow256(4) == 0x1_0000_0000 && Pow256(8) == U64
  {
    assert Pow256(2) == 0x1_0000;
    assert Pow256(4) == 256 * (256 * Pow256(2));
    assert Pow256(6) == 256 * (256 * Pow256(4));
    assert Pow256(8) == 256 * (256 * Pow256(6));
  }

  // ----- frames

  function HeaderBytes(id: u64, len: nat): (s: seq<byte>)
    ensures |s| == HEADER_SIZE
  {
    Bytes(MESSAGE_MAGIC_NO, 4) + Bytes(id, 8) + Bytes(len, 4)
  }

  function Frame(m: Msg): (s: seq<byte>)
    ensures |s| == HEADER_SIZE + |m.payload|
  {
    HeaderBytes(m.id, |m.payload|) + m.payload
  }

  /** The bytes of a sequence of messages, in order. */
  function Stream(ms: seq<Msg>): (s: seq<byte>) {
    if ms == [] then [] else Frame(ms[0]) + Stream(ms[1..])
  }

  /** What DecodeMsgHeader accepts. */
  predicate GoodHeader(h: seq<byte>) {
    |h| == HEADER_SIZE && Value(h[..4]) == MESSAGE_MAGIC_NO && Value(h[12..]) <= MAX_PAYLOAD_SIZE
  }

  lemma HeaderParts(id: u64, len: nat)
    requires len <= MAX_PAYLOAD_SIZE
    ensures var h := HeaderBytes(id, len);
      Value(h[..4]) == MESSAGE_MAGIC_NO && Value(h[4..12]) == id && Value(h[12..]) == len && GoodHeader(h)
  {
    var h := HeaderBytes(id, len);
    Pow256Values();
    ValueOfBytes(MESSAGE_MAGIC_NO, 4);
    ValueOfBytes(id, 8);
    ValueOfBytes(len, 4);
    assert h[..4] == Bytes(MESSAGE_MAGIC_NO, 4) && h[4..12] == Bytes(id, 8) && h[12..] == Bytes(len, 4);
  }

  lemma ValueMore(s: seq<byte>, x: byte)
    ensures Value(s + [x]) == 256 * Value(s) + x && Value([]) == 0
  {
    assert (s + [x])[..|s|] == s;
  }

  lemma FourBytes(a: byte, b: byte, c: byte, d: byte)
    ensures var n := a * 0x100_0000 + b * 0x1_0000 + c * 0x100 + d;
      Value([a, b, c, d]) == n && Bytes(n, 4) == [a, b, c, d]
  {
    hide Value, Bytes;
    ValueMore([], a);
    ValueMore([a], b);
    ValueMore([a, b], c);
    ValueMore([a, b, c], d);
    assert [] + [a] == [a] && [a] + [b] == [a, b] && [a, b] + [c] == [a, b, c] && [a, b, c] + [d] == [a, b, c, d];
    BytesOfValue([a, b, c, d]);
  }

  /** The header byte by byte: de ad be ef, then the id, then the length with its most significant byte first;
      it is accepted exactly up to 64 MiB. */
  lemma HeaderLayout(id: u64, a: byte, b: byte, c: byte, d: byte)
    ensures var len := a * 0x100_0000 + b * 0x1_0000 + c * 0x100 + d; var h := HeaderBytes(id, len);
      && h[..4] == [0xde, 0xad, 0xbe, 0xef] && Value(h[4..12]) == id && h[12..] == [a, b, c, d]
      && (GoodHeader(h) <==> len <= 64 * 1024 * 1024)
  {
    hide Bytes, Value;
    var len := a * 0x100_0000 + b * 0x1_0000 + c * 0x100 + d;
    var h := HeaderBytes(id, len);
    FourBytes(0xde, 0xad, 0xbe, 0xef);
    FourBytes(a, b, c, d);
    Pow256Values();
    ValueOfBytes(id, 8);
    assert h[..4] == Bytes(0xdead_beef, 4) && h[4..12] == Bytes(id, 8) && h[12..] == Bytes(len, 4);
  }

  /** A header that is accepted is the header of what it decodes to. */
  lemma HeaderDecoded(h: seq<byte>)
    requires GoodHeader(h)
    ensures Value(h[4..12]) < U64 && h == HeaderBytes(Value(h[4..12]), Value(h[12..]))
  {
    Pow256Values();
    BytesOfValue(h[..4]);
    BytesOfValue(h[4..12]);
    BytesOfValue(h[12..]);
    assert h == h[..4] + h[4..12] + h[12..];
  }

  // ----- frames cannot be confused

  /** Two streams that begin with frames and agree begin with the same message. */
  lemma FrameUnique(a: Msg, x: seq<byte>, b: Msg, y: seq<byte>)
    requires Encodable(a) && Encodable(b) && Frame(a) + x == Frame(b) + y
    ensures a == b && x == y
  {
    var s := Frame(a) + x;
    assert s[..HEADER_SIZE] == HeaderBytes(a.id, |a.payload|);
    assert s[..HEADER_SIZE] == HeaderBytes(b.id, |b.payload|) by { assert s == Frame(b) + y; }
    HeaderParts(a.id, |a.payload|);
    HeaderParts(b.id, |b.payload|);
    var n := HEADER_SIZE + |a.payload|;
    assert s[HEADER_SIZE..n] == a.payload && s[n..] == x;
    assert s[HEADER_SIZE..n] == b.payload && s[n..] == y by { assert s == Frame(b) + y; }
  }

  ghost predicate AllEncodable(ms: seq<Msg>) {
    forall m | m in ms :: Encodable(m)
  }

  lemma Assoc(x: seq<byte>, y: seq<byte>, z: seq<byte>)
    ensures (x + y) + z == x + (y + z)
  {
  }

  lemma StreamCons(ms: seq<Msg>)
    requires ms != []
    ensures Stream(ms) == Frame(ms[0]) + Stream(ms[1..])
  {
  }

  lemma {:induction false} StreamAppend(a: seq<Msg>, b: seq<Msg>)
    ensures Stream(a + b) == Stream(a) + Stream(b)
  {
    hide Frame, HeaderBytes;
    if a == [] {
      assert a + b == b;
      assert Stream(a) == [] && [] + Stream(b) == Stream(b);
    } else {
      StreamAppend(a[1..], b);
      StreamCons(a + b);
      StreamCons(a);
      assert (a + b)[1..] == a[1..] + b;
      Assoc(Frame(a[0]), Stream(a[1..]), Stream(b));
    }
  }

  /** A stream of frames that is a prefix of another carries a prefix of its messages, and the rest of
      the bytes is the stream of the rest of the messages. */
  lemma {:induction false} StreamPrefix(a: seq<Msg>, x: seq<byte>, b: seq<Msg>)
    requires AllEncodable(a) && AllEncodable(b) && Stream(a) + x <= Stream(b)
    ensures a <= b && x <= Stream(b[|a|..])
  {
    hide Frame, HeaderBytes, Encodable;
    if a == [] {
      assert Stream(a) + x == x && b[0..] == b;
    } else {
      var rest := Stream(b)[|Stream(a) + x|..];
      assert Stream(b) == Stream(a) + x + rest;
      assert Stream(b) == Frame(a[0]) + (Stream(a[1..]) + x + rest);
      assert b != [];
      FrameUnique(a[0], Stream(a[1..]) + x + rest, b[0], Stream(b[1..]));
      assert Stream(a[1..]) + x <= Stream(b[1..]);
      StreamPrefix(a[1..], x, b[1..]);
      assert b == [b[0]] + b[1..] && a == [a[0]] + a[1..];
      assert b[1..][|a| - 1..] == b[|a|..];
    }
  }

  // ----- the simple receiver

  datatype Parsed = Parsed(msgs: seq<Msg>, rest: seq<byte>)

  /** Cut a byte stream into messages, as long as whole frames with good headers come. */
  function Parse(s: seq<byte>): (r: Parsed)
    decreases |s|
  {
    if |s| < HEADER_SIZE || !GoodHeader(s[..HEADER_SIZE]) then Parsed([], s)
    else
      var h := s[..HEADER_SIZE];
      var len := Value(h[12..]);
      HeaderDecoded(h);
      if len == 0 || |s| < HEADER_SIZE + len then Parsed([], s)
      else
        var tail := Parse(s[HEADER_SIZE + len..]);
        Parsed([Msg(Value(h[4..12]), s[HEADER_SIZE..HEADER_SIZE + len])] + tail.msgs, tail.rest)
  }

  lemma ParseFrame(m: Msg, tail: seq<byte>)
    requires Encodable(m)
    ensures Parse(Frame(m) + tail) == Parsed([m] + Parse(tail).msgs, Parse(tail).rest)
  {
    hide HeaderBytes;
    var s := Frame(m) + tail;
    var n := HEADER_SIZE + |m.payload|;
    assert s[..HEADER_SIZE] == HeaderBytes(m.id, |m.payload|);
    assert s[HEADER_SIZE..n] == m.payload && s[n..] == tail;
    HeaderParts(m.id, |m.payload|);
  }

  lemma ParseNothing(s: seq<byte>)
    requires Parse(s).msgs == []
    ensures Parse(s) == Parsed([], s)
  {
  }

  /** Parsing finds exactly the messages of a stream, and nothing in an incomplete frame. */
  lemma {:induction false} ParseStream(ms: seq<Msg>, rest: seq<byte>)
    requires AllEncodable(ms) && Parse(rest).msgs == []
    ensures Parse(Stream(ms) + rest) == Parsed(ms, rest)
  {
    hide Frame, Parse, Encodable;
    if ms == [] {
      ParseNothing(rest);
      assert Stream(ms) + rest == rest;
    } else {
      ParseStream(ms[1..], rest);
      Assoc(Frame(ms[0]), Stream(ms[1..]), rest);
      ParseFrame(ms[0], Stream(ms[1..]) + rest);
      assert ms == [ms[0]] + ms[1..];
    }
  }

  /** Encoding what was parsed gives the bytes back. */
  lemma {:induction false} ParseBack(s: seq<byte>)
    ensures AllEncodable(Parse(s).msgs) && Stream(Parse(s).msgs) + Parse(s).rest == s
    decreases |s|
  {
    hide HeaderBytes, Frame;
    var msgs, rest := Parse(s).msgs, Parse(s).rest;
    if msgs == [] {
      ParseNothing(s);
    } else {
      var h := s[..HEADER_SIZE];
      var n := HEADER_SIZE + Value(h[12..]);
      HeaderDecoded(h);
      ParseBack(s[n..]);
      assert msgs[1..] == Parse(s[n..]).msgs;
      FrameOf(s, msgs[0]);
      Assoc(s[..n], Stream(msgs[1..]), rest);
    }
  }

  lemma FrameOf(s: seq<byte>, m: Msg)
    requires |s| >= HEADER_SIZE + |m.payload| && s[..HEADER_SIZE] == HeaderBytes(m.id, |m.payload|)
    requires m.payload == s[HEADER_SIZE..HEADER_SIZE + |m.payload|]
    ensures Frame(m) == s[..HEADER_SIZE + |m.payload|]
  {
  }
}
