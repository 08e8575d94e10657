/**
  The framed message codec of the connection manager.

  A frame is two unsigned 32-bit lengths (header length, then binary length),
  then the header bytes, then the binary bytes. The source packs the two
  lengths with `struct.pack("II", ...)`, i.e. in the host's native byte order;
  this model fixes little-endian order for both peers. The header is JSON text
  in the source; here it is an opaque byte sequence (the JSON encoding and
  decoding are library calls outside the model).
 */
module Codec {

  /** One byte of a wire stream. */
  type Byte = b: int | 0 <= b < 256

  /** Size of the length prefix of every frame (`MIN_MESSAGE_BYTES`). */
  const HEADER_SIZE: nat := 8

  /** One more than the largest value of an unsigned 32-bit length field. */
  const U32_LIMIT: nat := 0x1_0000_0000

  function Pow256(k: nat): (r: nat)
    ensures r >= 1
  {
    if k == 0 then 1 else 256 * Pow256(k - 1)
  }

  /** The low `width` bytes of `n`, least significant first. */
  function LittleEndian(n: nat, width: nat): (r: seq<Byte>)
    ensures |r| == width
  {
    if width == 0 then [] else [n % 256] + LittleEndian(n / 256, width - 1)
  }

  /** The unsigned number whose little-endian bytes are `s`. */
  function FromLittleEndian(s: seq<Byte>): nat
  {
    if s == [] then 0 else s[0] + 256 * FromLittleEndian(s[1..])
  }

  /** `width` bytes hold only numbers below 256^width. */
  lemma {:induction false} FromLittleEndianBound(s: seq<Byte>)
    ensures FromLittleEndian(s) < Pow256(|s|)
  {
    if s != [] {
      FromLittleEndianBound(s[1..]);
      var high := FromLittleEndian(s[1..]);
      assert 256 * high <= 256 * (Pow256(|s| - 1) - 1);
    }
  }

  /** Encoding a number that fits and decoding it gives the number back. */
  lemma {:induction false} LittleEndianRoundTrip(n: nat, width: nat)
    requires n < Pow256(width)
    ensures FromLittleEndian(LittleEndian(n, width)) == n
  {
    if width > 0 {
      var s := LittleEndian(n, width);
      assert s[1..] == LittleEndian(n / 256, width - 1);
      LittleEndianRoundTrip(n / 256, width - 1);
    }
  }

  /** Splitting `low + 256 * high` back into its low byte and the rest. */
  lemma SplitLowByte(low: Byte, high: nat)
    ensures (low + 256 * high) % 256 == low
    ensures (low + 256 * high) / 256 == high
  {
  }

  /** Every byte sequence is the encoding of the number it decodes to. */
  lemma {:induction false} FromLittleEndianRoundTrip(s: seq<Byte>)
    ensures LittleEndian(FromLittleEndian(s), |s|) == s
  {
    if s != [] {
      var high := FromLittleEndian(s[1..]);
      SplitLowByte(s[0], high);
      FromLittleEndianRoundTrip(s[1..]);
      assert s == [s[0]] + s[1..];
    }
  }

  lemma U32LimitIsPow256()
    ensures Pow256(4) == U32_LIMIT
  {
  }

  /**
    One protocol unit: the header bytes (`o`, JSON text on the wire) and the
    binary payload (`b`).
   */
  datatype Message = Message(header: seq<Byte>, binary: seq<Byte>)

  /** `struct.pack("II", ...)` accepts both lengths only below 2^32. */
  predicate Packable(m: Message)
  {
    |m.header| < U32_LIMIT && |m.binary| < U32_LIMIT
  }

  /** `SloMoMessage.pack_to_binary`: the frame that carries `m`. */
  function Pack(m: Message): (r: seq<Byte>)
    requires Packable(m)
    ensures |r| == HEADER_SIZE + |m.header| + |m.binary|
  {
    LittleEndian(|m.header|, 4) + LittleEndian(|m.binary|, 4) + m.header + m.binary
  }

  /**
    The layout of a frame: bytes 0..4 carry the header length, bytes 4..8 the
    binary length, then the header verbatim, then the binary verbatim.
   */
  lemma PackLayout(m: Message)
    requires Packable(m)
    ensures FromLittleEndian(Pack(m)[0..4]) == |m.header|
    ensures FromLittleEndian(Pack(m)[4..8]) == |m.binary|
    ensures Pack(m)[8..8 + |m.header|] == m.header
    ensures Pack(m)[8 + |m.header|..] == m.binary
  {
    U32LimitIsPow256();
    LittleEndianRoundTrip(|m.header|, 4);
    LittleEndianRoundTrip(|m.binary|, 4);
    var r := Pack(m);
    assert r[0..4] == LittleEndian(|m.header|, 4);
    assert r[4..8] == LittleEndian(|m.binary|, 4);
  }

  /** The frames of `ms`, one after the other. */
  function PackAll(ms: seq<Message>): (r: seq<Byte>)
    requires forall i :: 0 <= i < |ms| ==> Packable(ms[i])
  {
    if ms == [] then [] else Pack(ms[0]) + PackAll(ms[1..])
  }

  /** The header length announced by the first four bytes of a buffer. */
  function DeclaredHeaderSize(buf: seq<Byte>): nat
    requires |buf| >= HEADER_SIZE
  {
    FromLittleEndian(buf[0..4])
  }

  /** The binary length announced by bytes 4..8 of a buffer. */
  function DeclaredBinarySize(buf: seq<Byte>): nat
    requires |buf| >= HEADER_SIZE
  {
    FromLittleEndian(buf[4..8])
  }

  /** A whole frame sits at the front of `buf`. */
  predicate HoldsFrame(buf: seq<Byte>)
  {
    |buf| >= HEADER_SIZE &&
    |buf| - HEADER_SIZE >= DeclaredHeaderSize(buf) + DeclaredBinarySize(buf)
  }

  /** Result of trying to take one frame off the front of a buffer. */
  datatype Decoded = Incomplete | Frame(msg: Message, rest: seq<Byte>)

  /**
    The byte-level part of `try_remove_message`: a message and the bytes after
    it, or `Incomplete` when the length prefix or the body is not all there.
   */
  function TryDecode(buf: seq<Byte>): (r: Decoded)
    ensures r.Incomplete? <==> !HoldsFrame(buf)
    ensures r.Frame? ==> |r.rest| <= |buf| - HEADER_SIZE
  {
    if |buf| < HEADER_SIZE then Incomplete
    else
      var jsonSize := FromLittleEndian(buf[0..4]);
      var binarySize := FromLittleEndian(buf[4..8]);
      var rest := buf[HEADER_SIZE..];
      if |rest| >= jsonSize + binarySize then
        Frame(Message(rest[0..jsonSize], rest[jsonSize..jsonSize + binarySize]),
              buf[HEADER_SIZE + (jsonSize + binarySize)..])
      else Incomplete
  }

  /** Round trip: a packed frame followed by anything decodes to the message and that thing. */
  lemma PackRoundTrip(m: Message, rest: seq<Byte>)
    requires Packable(m)
    ensures TryDecode(Pack(m) + rest) == Frame(m, rest)
  {
    var p := Pack(m);
    PackLayout(m);
    var buf := p + rest;
    assert buf[0..4] == p[0..4];
    assert buf[4..8] == p[4..8];
    var body := buf[HEADER_SIZE..];
    assert body == m.header + m.binary + rest by {
      assert p[HEADER_SIZE..] == m.header + m.binary by {
        assert p[8..] == p[8..8 + |m.header|] + p[8 + |m.header|..];
      }
    }
    assert body[0..|m.header|] == m.header;
    assert body[|m.header|..|m.header| + |m.binary|] == m.binary;
    assert buf[HEADER_SIZE + (|m.header| + |m.binary|)..] == rest;
  }

  /** A sequence is the concatenation of its pieces between four cut points. */
  lemma CutFourTimes<T>(s: seq<T>, i: nat, j: nat, k: nat, l: nat)
    requires i <= j <= k <= l <= |s|
    ensures s == s[..i] + s[i..j] + s[j..k] + s[k..l] + s[l..]
  {
  }

  /** Conversely, whatever a successful decode takes off the buffer is exactly one packed frame. */
  lemma DecodeTakesOneFrame(buf: seq<Byte>)
    requires TryDecode(buf).Frame?
    ensures Packable(TryDecode(buf).msg)
    ensures buf == Pack(TryDecode(buf).msg) + TryDecode(buf).rest
  {
    var d := TryDecode(buf);
    var hs, bs := DeclaredHeaderSize(buf), DeclaredBinarySize(buf);
    assert d.msg == Message(buf[8..8 + hs], buf[8 + hs..8 + hs + bs]);
    assert d.rest == buf[8 + hs + bs..];
    U32LimitIsPow256();
    FromLittleEndianBound(buf[0..4]);
    FromLittleEndianBound(buf[4..8]);
    FromLittleEndianRoundTrip(buf[0..4]);
    FromLittleEndianRoundTrip(buf[4..8]);
    CutFourTimes(buf, 4, 8, 8 + hs, 8 + hs + bs);
  }

  /** Fragmentation independence for one frame: bytes arriving later never change a decode that already succeeded. */
  lemma DecodeIgnoresLaterBytes(buf: seq<Byte>, more: seq<Byte>)
    requires TryDecode(buf).Frame?
    ensures TryDecode(buf + more) == Frame(TryDecode(buf).msg, TryDecode(buf).rest + more)
  {
    DecodeTakesOneFrame(buf);
    var d := TryDecode(buf);
    assert buf + more == Pack(d.msg) + (d.rest + more);
    PackRoundTrip(d.msg, d.rest + more);
  }

  /**
    What a caller obtains by calling `try_remove_message` until it returns
    `None` (the drain loops of the client and server): the messages, in
    order, and the bytes left behind.
   */
  function Drain(buf: seq<Byte>): (r: (seq<Message>, seq<Byte>))
    ensures !HoldsFrame(r.1)
    decreases |buf|
  {
    match TryDecode(buf)
    case Incomplete => ([], buf)
    case Frame(m, rest) =>
      var (ms, left) := Drain(rest);
      ([m] + ms, left)
  }

  /** Draining loses no byte: the drained messages' frames followed by the leftover are the buffer. */
  lemma {:induction false} DrainLosesNothing(buf: seq<Byte>)
    ensures forall i :: 0 <= i < |Drain(buf).0| ==> Packable(Drain(buf).0[i])
    ensures buf == PackAll(Drain(buf).0) + Drain(buf).1
    decreases |buf|
  {
    if TryDecode(buf).Frame? {
      var m, rest := TryDecode(buf).msg, TryDecode(buf).rest;
      DecodeTakesOneFrame(buf);
      DrainStep(buf, m, rest);
      DrainLosesNothing(rest);
      var ms := Drain(rest).0;
      assert ([m] + ms)[1..] == ms;
      assert PackAll([m] + ms) == Pack(m) + PackAll(ms);
    }
  }

  /** One step of `Drain`: a decoded frame contributes its message ahead of the rest. */
  lemma DrainStep(buf: seq<Byte>, m: Message, rest: seq<Byte>)
    requires TryDecode(buf) == Frame(m, rest)
    ensures Drain(buf) == ([m] + Drain(rest).0, Drain(rest).1)
  {
  }

  lemma Associative<T>(a: seq<T>, b: seq<T>, c: seq<T>)
    ensures (a + b) + c == a + (b + c)
  {
  }

  /** The frames of several messages are the first message's frame, then the others'. */
  lemma PackAllFront(ms: seq<Message>, tail: seq<Byte>)
    requires ms != []
    requires forall i :: 0 <= i < |ms| ==> Packable(ms[i])
    ensures PackAll(ms) + tail == Pack(ms[0]) + (PackAll(ms[1..]) + tail)
  {
    var first, others := Pack(ms[0]), PackAll(ms[1..]);
    assert PackAll(ms) == first + others;
    Associative(first, others, tail);
  }

  /** The first of several packed frames decodes first. */
  lemma DecodeFront(ms: seq<Message>, tail: seq<Byte>)
    requires ms != []
    requires forall i :: 0 <= i < |ms| ==> Packable(ms[i])
    ensures TryDecode(PackAll(ms) + tail) == Frame(ms[0], PackAll(ms[1..]) + tail)
  {
    var rest := PackAll(ms[1..]) + tail;
    PackAllFront(ms, tail);
    PackRoundTrip(ms[0], rest);
  }

  /** A buffer that does not hold a whole frame drains to nothing and stays as it is. */
  lemma DrainIncomplete(buf: seq<Byte>)
    requires !HoldsFrame(buf)
    ensures Drain(buf) == ([], buf)
  {
  }

  /** Packed messages followed by an incomplete tail drain to exactly those messages, in order. */
  lemma {:induction false} DrainPacked(ms: seq<Message>, tail: seq<Byte>)
    requires forall i :: 0 <= i < |ms| ==> Packable(ms[i])
    requires !HoldsFrame(tail)
    ensures Drain(PackAll(ms) + tail) == (ms, tail)
  {
    if ms == [] {
      assert PackAll(ms) + tail == tail;
    } else {
      DecodeFront(ms, tail);
      DrainPacked(ms[1..], tail);
      DrainStep(PackAll(ms) + tail, ms[0], PackAll(ms[1..]) + tail);
      assert [ms[0]] + ms[1..] == ms;
    }
  }

  /** Two frames back to back: the first message, then the second, then nothing. */
  lemma DrainTwoFrames(m1: Message, m2: Message)
    requires Packable(m1) && Packable(m2)
    ensures TryDecode(Pack(m1) + Pack(m2)) == Frame(m1, Pack(m2))
    ensures TryDecode(Pack(m2)) == Frame(m2, [])
    ensures TryDecode([]) == Incomplete
  {
    PackRoundTrip(m1, Pack(m2));
    PackRoundTrip(m2, []);
    assert Pack(m2) + [] == Pack(m2);
  }

  /** The frames of two message lists, one after the other, are the frames of the joined list. */
  lemma {:induction false} PackAllAppend(xs: seq<Message>, ys: seq<Message>)
    requires forall i :: 0 <= i < |xs| ==> Packable(xs[i])
    requires forall i :: 0 <= i < |ys| ==> Packable(ys[i])
    ensures forall i :: 0 <= i < |xs + ys| ==> Packable((xs + ys)[i])
    ensures PackAll(xs + ys) == PackAll(xs) + PackAll(ys)
  {
    if xs != [] {
      assert (xs + ys)[1..] == xs[1..] + ys;
      PackAllAppend(xs[1..], ys);
    } else {
      assert xs + ys == ys;
    }
  }

  /**
    Fragmentation independence: draining after a first chunk `a` and again
    after the next chunk `b` yields the same messages, in the same order, as
    draining `a + b` at once.
   */
  lemma DrainInPieces(a: seq<Byte>, b: seq<Byte>)
    ensures Drain(a + b) == (Drain(a).0 + Drain(Drain(a).1 + b).0, Drain(Drain(a).1 + b).1)
  {
    var (ms1, r1) := Drain(a);
    var (ms2, r2) := Drain(r1 + b);
    DrainLosesNothing(a);
    DrainLosesNothing(r1 + b);
    PackAllAppend(ms1, ms2);
    JoinPieces(a, b, PackAll(ms1), PackAll(ms2), r1, r2);
    DrainPacked(ms1 + ms2, r2);
  }

  lemma JoinPieces(a: seq<Byte>, b: seq<Byte>, p1: seq<Byte>, p2: seq<Byte>, r1: seq<Byte>, r2: seq<Byte>)
    requires a == p1 + r1 && r1 + b == p2 + r2
    ensures a + b == (p1 + p2) + r2
  {
    calc {
      a + b;
      (p1 + r1) + b;
      p1 + (r1 + b);
      p1 + (p2 + r2);
      (p1 + p2) + r2;
    }
  }
}
