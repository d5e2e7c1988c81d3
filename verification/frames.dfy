/** The submission wire format: every notification payload travels as one
    frame `[command 2][32-bit big-endian payload length][payload]`, and the
    frames of a batch are concatenated with no separator (core.rb, the
    `packed_nofications` method). The decoder is the gateway's side of the
    protocol: it is the partner against which the encoder is proved. */
module Frames {
  import opened Results
  import opened Bytes

  /** The command byte that opens every frame. */
  const Command: Byte := 2

  /** Bytes in a frame header: the command byte and the length field. */
  const HeaderSize := 5

  /** `pack('N')` keeps only the low 32 bits of the integer it is given. */
  const LengthModulus := 0x1_0000_0000

  /** A payload whose byte length the 32-bit length field can hold exactly. */
  predicate Representable(p: seq<Byte>) {
    |p| < LengthModulus
  }

  /** `pack('N')` of a length: four big-endian bytes holding its low 32 bits. */
  function LengthField(n: nat): (r: seq<Byte>)
    ensures |r| == 4
    ensures FromBE(r) == n % LengthModulus
  {
    assert Pow256(4) == LengthModulus;
    ToBE(n % LengthModulus, 4)
  }

  /** A length that fits the field is stored as it is. */
  lemma LengthFieldExact(n: nat)
    requires n < LengthModulus
    ensures LengthField(n) == ToBE(n, 4)
  {
    assert n % LengthModulus == n;
  }

  /** The frame for one payload: `[2, bytesize].pack('CN') + pn`. */
  function Frame(p: seq<Byte>): (r: seq<Byte>)
    ensures |r| == HeaderSize + |p|
    ensures r[0] == Command
    ensures r[1..HeaderSize] == LengthField(|p|)
    ensures r[HeaderSize..] == p
  {
    [Command] + LengthField(|p|) + p
  }

  /** The number of bytes a batch occupies on the wire: a header plus the
      payload for every notification. */
  function WireSize(ps: seq<seq<Byte>>): nat {
    if |ps| == 0 then 0 else HeaderSize + |ps[0]| + WireSize(ps[1..])
  }

  /** The packed buffer for a batch of payloads, frames in input order. */
  function EncodeFrames(ps: seq<seq<Byte>>): (r: seq<Byte>)
    ensures |r| == WireSize(ps)
  {
    if |ps| == 0 then [] else Frame(ps[0]) + EncodeFrames(ps[1..])
  }

  /** Why the gateway would reject a byte stream as a sequence of frames. */
  datatype FrameError = BadCommand(command: Byte) | Truncated

  /** How the gateway reads a stream: a command byte, a 4-byte big-endian
      length, that many payload bytes, and again until the stream ends. */
  function DecodeFrames(s: seq<Byte>): (r: Result<seq<seq<Byte>>, FrameError>)
    decreases |s|
  {
    if |s| == 0 then Ok([])
    else if s[0] != Command then Err(BadCommand(s[0]))
    else if |s| < HeaderSize then Err(Truncated)
    else
      var n := FromBE(s[1..HeaderSize]);
      if |s| - HeaderSize < n then Err(Truncated)
      else match DecodeFrames(s[HeaderSize + n..])
        case Ok(rest) => Ok([s[HeaderSize..HeaderSize + n]] + rest)
        case Err(e) => Err(e)
  }

  /** An empty batch packs to the empty buffer. */
  lemma EncodeFramesEmpty()
    ensures EncodeFrames([]) == []
  {
  }

  /** Packing distributes over concatenation of batches: packing `a ++ b` is
      packing `a` followed by packing `b`. */
  lemma {:induction false} EncodeFramesAppend(a: seq<seq<Byte>>, b: seq<seq<Byte>>)
    ensures EncodeFrames(a + b) == EncodeFrames(a) + EncodeFrames(b)
  {
    if |a| == 0 {
      assert a + b == b;
    } else {
      assert (a + b)[1..] == a[1..] + b;
      EncodeFramesAppend(a[1..], b);
    }
  }

  /** The gateway reads one frame off the front of a stream and goes on with
      the rest. */
  lemma DecodeFrameThen(p: seq<Byte>, rest: seq<Byte>)
    requires Representable(p)
    ensures DecodeFrames(Frame(p) + rest) ==
      match DecodeFrames(rest)
      case Ok(more) => Ok([p] + more)
      case Err(e) => Err(e)
  {
    var f := Frame(p);
    var s := f + rest;
    assert s[0] == Command;
    LengthFieldExact(|p|);
    assert s[1..HeaderSize] == f[1..HeaderSize];
    assert FromBE(s[1..HeaderSize]) == |p|;
    assert s[HeaderSize..HeaderSize + |p|] == p;
    assert s[HeaderSize + |p|..] == rest;
  }

  /** Round trip: the gateway recovers every payload, in order, from the
      packed buffer, provided every length fits the 32-bit field. */
  lemma {:induction false} DecodeEncodeFrames(ps: seq<seq<Byte>>)
    requires forall i :: 0 <= i < |ps| ==> Representable(ps[i])
    ensures DecodeFrames(EncodeFrames(ps)) == Ok(ps)
  {
    if |ps| > 0 {
      DecodeEncodeFrames(ps[1..]);
      DecodeFrameThen(ps[0], EncodeFrames(ps[1..]));
      assert [ps[0]] + ps[1..] == ps;
    }
  }

  /** The converse: whatever the gateway accepts is exactly the packed buffer
      of the payloads it reads, so the framing is unambiguous. */
  lemma {:induction false} EncodeDecodeFrames(s: seq<Byte>, ps: seq<seq<Byte>>)
    requires DecodeFrames(s) == Ok(ps)
    ensures EncodeFrames(ps) == s
    ensures forall i :: 0 <= i < |ps| ==> Representable(ps[i])
    decreases |s|
  {
    if |s| > 0 {
      var n := FirstFrame(s);
      var tail := s[HeaderSize + n..];
      var rest := DecodeFrames(tail).value;
      EncodeDecodeFrames(tail, rest);
      assert ps[1..] == rest;
      assert s == s[..HeaderSize + n] + tail;
    }
  }

  /** The first frame of an accepted stream: its payload length `n`, and the
      stream starts with the frame of the `n` bytes after the header. */
  lemma FirstFrame(s: seq<Byte>) returns (n: nat)
    requires |s| > 0 && DecodeFrames(s).Ok?
    ensures HeaderSize + n <= |s| && n < LengthModulus
    ensures DecodeFrames(s[HeaderSize + n..]).Ok?
    ensures DecodeFrames(s).value == [s[HeaderSize..HeaderSize + n]] + DecodeFrames(s[HeaderSize + n..]).value
    ensures Frame(s[HeaderSize..HeaderSize + n]) == s[..HeaderSize + n]
  {
    var hdr := s[1..HeaderSize];
    n := FromBE(hdr);
    assert n < LengthModulus by {
      assert Pow256(4) == LengthModulus;
    }
    var f := s[..HeaderSize + n];
    assert f[1..HeaderSize] == hdr;
    assert f[HeaderSize..] == s[HeaderSize..HeaderSize + n];
    FrameOfHeader(f, n);
  }

  /** A stretch that starts with the command byte and a length field, followed
      by exactly that many bytes, is the frame of those bytes. */
  lemma FrameOfHeader(f: seq<Byte>, n: nat)
    requires |f| == HeaderSize + n && n < LengthModulus
    requires f[0] == Command && FromBE(f[1..HeaderSize]) == n
    ensures Frame(f[HeaderSize..]) == f
  {
    var h := f[1..HeaderSize];
    var x := f[HeaderSize..];
    LengthFieldOf(h);
    LengthFieldExact(n);
    assert f == [f[0]] + h + x;
  }

  /** A 4-byte length field is the encoding of its own value. */
  lemma LengthFieldOf(h: seq<Byte>)
    requires |h| == 4
    ensures ToBE(FromBE(h), 4) == h
  {
    ToBEFromBE(h);
  }

  /** The length field of a payload shorter than 256 bytes: three zero bytes
      and the length. */
  lemma SmallLengthField(n: nat)
    requires n < 256
    ensures ToBE(n, 4) == [0, 0, 0, n]
  {
    ZeroBytes();
    assert n / 256 == 0 && n % 256 == n;
  }

  /** Three zero bytes encode zero. */
  lemma ZeroBytes()
    ensures ToBE(0, 3) == [0, 0, 0]
  {
    assert ToBE(0, 1) == [0];
    assert ToBE(0, 2) == [0, 0];
  }

  /** The frame of a payload shorter than 256 bytes. */
  lemma SmallFrame(p: seq<Byte>)
    requires |p| < 256
    ensures EncodeFrames([p]) == [2, 0, 0, 0, |p|] + p
  {
    SmallLengthField(|p|);
    LengthFieldExact(|p|);
    assert Frame(p) == [2] + [0, 0, 0, |p|] + p;
    assert [p][1..] == [];
    assert EncodeFrames([p]) == Frame(p) + EncodeFrames([]);
  }

  /** The single three-byte payload `01 02 03` travels as
      `02 00 00 00 03 01 02 03`. */
  lemma SingleFrameExample()
    ensures EncodeFrames([[1, 2, 3]]) == [2, 0, 0, 0, 3, 1, 2, 3]
  {
    SmallFrame([1, 2, 3]);
  }

  /** A batch of a 3-byte and a 5-byte payload is the two frames back to back,
      each with its own length field and no separator. */
  lemma TwoFramesExample()
    ensures EncodeFrames([[1, 2, 3], [4, 5, 6, 7, 8]])
         == [2, 0, 0, 0, 3, 1, 2, 3] + [2, 0, 0, 0, 5, 4, 5, 6, 7, 8]
  {
    var p: seq<Byte> := [1, 2, 3];
    var q: seq<Byte> := [4, 5, 6, 7, 8];
    SmallFrame(p);
    SmallFrame(q);
    EncodeFramesAppend([p], [q]);
    assert [p] + [q] == [[1, 2, 3], [4, 5, 6, 7, 8]];
  }
}
