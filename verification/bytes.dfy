/** Byte strings and the fixed-width integer and hexadecimal codings that the
    gateway client applies to them: Ruby's `pack`/`unpack` directives `C`
    (one byte), `n` (16-bit big-endian), `N` (32-bit big-endian) and `H*`
    (lower-case hexadecimal, high nibble first). */
module Bytes {
  import opened Results

  type Byte = b: int | 0 <= b < 256

  /** 256 to the power `w`: the number of values a `w`-byte field holds. */
  function Pow256(w: nat): (r: nat)
    ensures r >= 1
  {
    if w == 0 then 1 else 256 * Pow256(w - 1)
  }

  /** The unsigned big-endian value of a byte string, most significant byte first. */
  function FromBE(s: seq<Byte>): (r: nat)
    ensures r < Pow256(|s|)
  {
    if |s| == 0 then 0
    else
      var hi := FromBE(s[..|s| - 1]);
      assert hi * 256 + s[|s| - 1] < Pow256(|s| - 1) * 256 by {
        assert hi <= Pow256(|s| - 1) - 1;
      }
      hi * 256 + s[|s| - 1]
  }

  /** The `w`-byte big-endian representation of `n`. */
  function ToBE(n: nat, w: nat): (r: seq<Byte>)
    requires n < Pow256(w)
    ensures |r| == w
    ensures FromBE(r) == n
  {
    if w == 0 then []
    else
      assert n / 256 < Pow256(w - 1);
      var r := ToBE(n / 256, w - 1) + [n % 256];
      assert r[..|r| - 1] == ToBE(n / 256, w - 1);
      r
  }

  /** A byte string is the big-endian representation of its own value:
      together with `ToBE`'s contract, `FromBE` and `ToBE` are mutually inverse. */
  lemma {:induction false} ToBEFromBE(s: seq<Byte>)
    ensures ToBE(FromBE(s), |s|) == s
  {
    if |s| > 0 {
      var init := s[..|s| - 1];
      var n := FromBE(s);
      assert n == FromBE(init) * 256 + s[|s| - 1];
      assert n / 256 == FromBE(init);
      assert n % 256 == s[|s| - 1];
      ToBEFromBE(init);
      assert init + [s[|s| - 1]] == s;
    }
  }

  /** The lower-case hexadecimal digit for a nibble. */
  function HexDigit(v: nat): (c: char)
    requires v < 16
    ensures IsHexDigit(c)
  {
    if v < 10 then ('0' as int + v) as char else ('a' as int + v - 10) as char
  }

  /** The characters `H*` produces: `0`-`9` and `a`-`f`. */
  predicate IsHexDigit(c: char) {
    '0' <= c <= '9' || 'a' <= c <= 'f'
  }

  /** The nibble a lower-case hexadecimal digit stands for; `None` for any other character. */
  function DigitValue(c: char): (r: Option<nat>)
    ensures r.Some? <==> IsHexDigit(c)
    ensures r.Some? ==> r.value < 16 && HexDigit(r.value) == c
  {
    if '0' <= c <= '9' then Some(c as int - '0' as int)
    else if 'a' <= c <= 'f' then Some(c as int - 'a' as int + 10)
    else None
  }

  /** `unpack('H*')`: two lower-case hexadecimal digits per byte, high nibble first. */
  function Hex(bs: seq<Byte>): (r: string)
    ensures |r| == 2 * |bs|
    ensures forall i :: 0 <= i < |r| ==> IsHexDigit(r[i])
  {
    if |bs| == 0 then ""
    else [HexDigit(bs[0] / 16), HexDigit(bs[0] % 16)] + Hex(bs[1..])
  }

  /** Reads a hexadecimal string back into bytes; `None` for an odd length or
      a character that `Hex` never produces. */
  function UnHex(s: string): (r: Option<seq<Byte>>)
    decreases |s|
  {
    if |s| == 0 then Some([])
    else if |s| == 1 then None
    else match (DigitValue(s[0]), DigitValue(s[1]), UnHex(s[2..]))
      case (Some(hi), Some(lo), Some(rest)) => Some([hi * 16 + lo] + rest)
      case _ => None
  }

  /** Rendering bytes as hexadecimal loses nothing. */
  lemma {:induction false} UnHexHex(bs: seq<Byte>)
    ensures UnHex(Hex(bs)) == Some(bs)
  {
    if |bs| > 0 {
      var h := Hex(bs);
      assert h[2..] == Hex(bs[1..]);
      UnHexHex(bs[1..]);
      assert DigitValue(h[0]) == Some(bs[0] / 16);
      assert DigitValue(h[1]) == Some(bs[0] % 16);
      assert [bs[0]] + bs[1..] == bs;
    }
  }

  /** The only strings that read back as bytes are exactly the renderings of
      those bytes: the hexadecimal form is canonical. */
  lemma {:induction false} HexUnHex(s: string, bs: seq<Byte>)
    requires UnHex(s) == Some(bs)
    ensures Hex(bs) == s
    decreases |s|
  {
    if |s| > 0 {
      var hi := DigitValue(s[0]).value;
      var lo := DigitValue(s[1]).value;
      var rest := UnHex(s[2..]).value;
      assert bs == [hi * 16 + lo] + rest;
      HexUnHex(s[2..], rest);
      assert (hi * 16 + lo) / 16 == hi;
      assert (hi * 16 + lo) % 16 == lo;
      assert bs[1..] == rest;
      assert s == [s[0], s[1]] + s[2..];
    }
  }
}
