/**
 * Hexadecimal text as Python writes it: `bytes.hex()` (two lower-case digits
 * per byte) and `hex(n)` (a `0x` prefix, then the fewest lower-case digits),
 * each with the inverse that reads the text back.
 */
module Hex {
  import opened Wrappers

  newtype byte = x: int | 0 <= x < 256

  /** The digits Python emits: `0`-`9` and lower-case `a`-`f`. */
  predicate IsHexDigit(c: char)
  {
    '0' <= c <= '9' || 'a' <= c <= 'f'
  }

  predicate IsHex(s: string)
  {
    forall k :: 0 <= k < |s| ==> IsHexDigit(s[k])
  }

  function DigitValue(c: char): (v: nat)
    requires IsHexDigit(c)
    ensures v < 16
  {
    if c <= '9' then c as int - '0' as int else c as int - 'a' as int + 10
  }

  function Digit(v: nat): (c: char)
    requires v < 16
    ensures IsHexDigit(c) && DigitValue(c) == v
    ensures c != '-'
  {
    if v < 10 then ('0' as int + v) as char else ('a' as int + v - 10) as char
  }

  lemma DigitOfValue(c: char)
    requires IsHexDigit(c)
    ensures Digit(DigitValue(c)) == c
  {
  }

  /** `bytes([b]).hex()`. */
  function ByteHex(b: byte): (r: string)
    ensures |r| == 2 && IsHex(r)
  {
    [Digit(b as int / 16), Digit(b as int % 16)]
  }

  /** `bs.hex()`: two digits per byte, so always an even number of hex digits. */
  function BytesHex(bs: seq<byte>): (r: string)
    ensures |r| == 2 * |bs| && IsHex(r)
    decreases |bs|
  {
    if bs == [] then "" else ByteHex(bs[0]) + BytesHex(bs[1..])
  }

  /** Reads a `bytes.hex()` text back: `None` unless it is an even run of lower-case hex digits. */
  function ParseBytesHex(s: string): Option<seq<byte>>
    decreases |s|
  {
    if s == [] then Some([])
    else if |s| < 2 || !IsHexDigit(s[0]) || !IsHexDigit(s[1]) then None
    else match ParseBytesHex(s[2..])
      case None => None
      case Some(rest) => Some([(16 * DigitValue(s[0]) + DigitValue(s[1])) as byte] + rest)
  }

  lemma {:induction false} BytesHexRoundTrip(bs: seq<byte>)
    ensures ParseBytesHex(BytesHex(bs)) == Some(bs)
    decreases |bs|
  {
    if bs != [] {
      var s := BytesHex(bs);
      assert s[2..] == BytesHex(bs[1..]);
      BytesHexRoundTrip(bs[1..]);
      assert [bs[0]] + bs[1..] == bs;
    }
  }

  lemma {:induction false} ParseBytesHexRoundTrip(s: string)
    requires ParseBytesHex(s).Some?
    ensures BytesHex(ParseBytesHex(s).value) == s
    decreases |s|
  {
    if s != [] {
      var rest := ParseBytesHex(s[2..]).value;
      ParseBytesHexRoundTrip(s[2..]);
      var b := (16 * DigitValue(s[0]) + DigitValue(s[1])) as byte;
      assert ParseBytesHex(s).value == [b] + rest;
      assert ([b] + rest)[1..] == rest;
      ByteHexOfDigits(s[0], s[1]);
      assert s == [s[0], s[1]] + s[2..];
    }
  }

  lemma ByteHexOfDigits(hi: char, lo: char)
    requires IsHexDigit(hi) && IsHexDigit(lo)
    ensures ByteHex((16 * DigitValue(hi) + DigitValue(lo)) as byte) == [hi, lo]
  {
    var n := 16 * DigitValue(hi) + DigitValue(lo);
    assert n / 16 == DigitValue(hi) && n % 16 == DigitValue(lo);
    DigitOfValue(hi);
    DigitOfValue(lo);
  }

  /** The digits of `hex(n)` for `n >= 0`, that is, `hex(n)[2:]`. */
  function IntHex(n: nat): (r: string)
    ensures |r| >= 1 && IsHex(r)
    ensures r[0] == '0' ==> n == 0 && r == "0"
    decreases n
  {
    if n < 16 then [Digit(n)] else IntHex(n / 16) + [Digit(n % 16)]
  }

  /** The number a run of hex digits denotes, most significant first. */
  function HexValue(s: string): nat
    requires IsHex(s)
    decreases |s|
  {
    if s == [] then 0 else 16 * HexValue(s[..|s| - 1]) + DigitValue(s[|s| - 1])
  }

  lemma {:induction false} IntHexRoundTrip(n: nat)
    ensures HexValue(IntHex(n)) == n
    decreases n
  {
    if n >= 16 {
      var r := IntHex(n);
      assert r[..|r| - 1] == IntHex(n / 16);
      IntHexRoundTrip(n / 16);
    }
  }

  /** Every hex text without a redundant leading zero is what `IntHex` writes for its value. */
  lemma {:induction false} HexValueRoundTrip(s: string)
    requires IsHex(s) && s != []
    requires s[0] == '0' ==> |s| == 1
    ensures IntHex(HexValue(s)) == s
    decreases |s|
  {
    var d := DigitValue(s[|s| - 1]);
    DigitOfValue(s[|s| - 1]);
    if |s| > 1 {
      var p := s[..|s| - 1];
      assert p[0] == s[0];
      HexValueLeadingDigit(p);
      HexValueRoundTrip(p);
      var n := HexValue(s);
      assert n == 16 * HexValue(p) + d;
      assert n / 16 == HexValue(p) && n % 16 == d;
      assert s == p + [s[|s| - 1]];
    }
  }

  lemma {:induction false} HexValueLeadingDigit(s: string)
    requires IsHex(s) && s != [] && s[0] != '0'
    ensures HexValue(s) >= 1
    decreases |s|
  {
    if |s| > 1 {
      var p := s[..|s| - 1];
      assert p[0] == s[0];
      HexValueLeadingDigit(p);
    }
  }

  /** Python's `hex(n)`: a minus sign for negative `n`, then `0x`, then the digits of `|n|`. */
  function PyHex(n: int): (r: string)
    ensures |r| >= 3
    ensures n >= 0 ==> r[..2] == "0x" && r[2..] == IntHex(n)
    ensures n < 0 ==> r[..3] == "-0x" && r[2..] == "x" + IntHex(-n)
  {
    if n < 0 then "-0x" + IntHex(-n) else "0x" + IntHex(n)
  }
}
