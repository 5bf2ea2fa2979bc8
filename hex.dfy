/**
 * Hexadecimal text to bytes and back, as HexUtil.decodeHexString and HexUtil.encodeHexString
 * are used by the registry datum code: decoding accepts upper- and lower-case digits and
 * fails (the library throws) on an odd length or a non-hex character; encoding writes
 * lower-case digits, two per byte.
 */
module Hex {
  import opened Optional

  type byte = x: int | 0 <= x < 256

  function HexDigitValue(c: char): (r: Option<nat>)
    ensures r.Some? ==> r.value < 16
  {
    if '0' <= c <= '9' then Some(c as int - '0' as int)
    else if 'a' <= c <= 'f' then Some(c as int - 'a' as int + 10)
    else if 'A' <= c <= 'F' then Some(c as int - 'A' as int + 10)
    else None
  }

  function DigitChar(d: nat): (c: char)
    requires d < 16
    ensures HexDigitValue(c) == Some(d)
    ensures IsLowerHexDigit(c)
  {
    if d < 10 then ('0' as int + d) as char else ('a' as int + d - 10) as char
  }

  predicate IsHexDigit(c: char) {
    HexDigitValue(c).Some?
  }

  predicate IsLowerHexDigit(c: char) {
    '0' <= c <= '9' || 'a' <= c <= 'f'
  }

  /** Text that decodeHexString accepts. */
  predicate IsHex(s: string) {
    |s| % 2 == 0 && forall i :: 0 <= i < |s| ==> IsHexDigit(s[i])
  }

  /** Text in the form encodeHexString writes. */
  predicate IsLowerHex(s: string) {
    |s| % 2 == 0 && forall i :: 0 <= i < |s| ==> IsLowerHexDigit(s[i])
  }

  /** A hex text splits into its first two digits and a hex rest. */
  lemma HexSplit(s: string)
    requires |s| >= 2
    ensures IsHex(s) <==> IsHexDigit(s[0]) && IsHexDigit(s[1]) && IsHex(s[2..])
  {
    if IsHexDigit(s[0]) && IsHexDigit(s[1]) && IsHex(s[2..]) {
      forall i | 2 <= i < |s| ensures IsHexDigit(s[i]) {
        assert s[i] == s[2..][i - 2];
      }
    }
    if IsHex(s) {
      forall i | 0 <= i < |s[2..]| ensures IsHexDigit(s[2..][i]) {
        assert s[2..][i] == s[i + 2];
      }
    }
  }

  function DecodeHex(s: string): (r: Option<seq<byte>>)
    ensures r.Some? <==> IsHex(s)
    ensures r.Some? ==> 2 * |r.value| == |s|
    decreases |s|
  {
    if |s| < 2 then
      if |s| == 0 then Some([]) else None
    else
      HexSplit(s);
      var hi, lo, rest := HexDigitValue(s[0]), HexDigitValue(s[1]), DecodeHex(s[2..]);
      if hi.Some? && lo.Some? && rest.Some? then Some([16 * hi.value + lo.value] + rest.value) else None
  }

  function EncodeHex(b: seq<byte>): (r: string)
    ensures |r| == 2 * |b|
    ensures IsLowerHex(r)
  {
    if b == [] then "" else [DigitChar(b[0] / 16), DigitChar(b[0] % 16)] + EncodeHex(b[1..])
  }

  lemma LowerHexIsHex(s: string)
    requires IsLowerHex(s)
    ensures IsHex(s)
  {
  }

  lemma {:induction false} DecodeEncode(b: seq<byte>)
    ensures DecodeHex(EncodeHex(b)) == Some(b)
  {
    if b != [] {
      var s := EncodeHex(b);
      assert s[2..] == EncodeHex(b[1..]);
      DecodeEncode(b[1..]);
      assert HexDigitValue(s[0]) == Some(b[0] / 16);
      assert HexDigitValue(s[1]) == Some(b[0] % 16);
      assert 16 * (b[0] / 16) + b[0] % 16 == b[0];
      assert b == [b[0]] + b[1..];
    }
  }

  /** A lower-case digit is written back as itself. */
  lemma DigitRoundTrip(c: char)
    requires IsLowerHexDigit(c)
    ensures HexDigitValue(c).Some? && DigitChar(HexDigitValue(c).value) == c
  {
  }

  lemma ByteDigits(hi: nat, lo: nat)
    requires hi < 16 && lo < 16
    ensures 0 <= 16 * hi + lo < 256
    ensures (16 * hi + lo) / 16 == hi && (16 * hi + lo) % 16 == lo
  {
  }

  lemma {:induction false} EncodeDecode(s: string)
    requires IsLowerHex(s)
    ensures DecodeHex(s).Some? && EncodeHex(DecodeHex(s).value) == s
    decreases |s|
  {
    LowerHexIsHex(s);
    if |s| > 0 {
      var tail := s[2..];
      assert IsLowerHex(tail) by {
        forall i | 0 <= i < |tail| ensures IsLowerHexDigit(tail[i]) {
          assert tail[i] == s[i + 2];
        }
      }
      EncodeDecode(tail);
      DigitRoundTrip(s[0]);
      DigitRoundTrip(s[1]);
      var hi := HexDigitValue(s[0]).value;
      var lo := HexDigitValue(s[1]).value;
      ByteDigits(hi, lo);
      var b: byte := 16 * hi + lo;
      var rest := DecodeHex(tail).value;
      assert DecodeHex(s).value == [b] + rest;
      assert EncodeHex([b] + rest) == [DigitChar(hi), DigitChar(lo)] + EncodeHex(rest);
      assert s == [s[0], s[1]] + tail;
    }
  }
}
