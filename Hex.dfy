/** PHP's `bin2hex` and `hex2bin`: Base16 as in section 8 of RFC 4648,
    lowercase on output and case-insensitive on input. */
module Hex {
  import opened Bytes

  predicate IsHexChar(c: char)
  {
    '0' <= c <= '9' || 'a' <= c <= 'f' || 'A' <= c <= 'F'
  }

  predicate IsLowerHexChar(c: char)
  {
    '0' <= c <= '9' || 'a' <= c <= 'f'
  }

  /** Every character of `s` is a hex digit, in either case. */
  predicate AllHex(s: string)
  {
    forall i :: 0 <= i < |s| ==> IsHexChar(s[i])
  }

  /** The lowercase digit for a nibble. */
  function Digit(n: int): (c: char)
    requires 0 <= n < 16
    ensures IsLowerHexChar(c)
  {
    if n < 10 then ('0' as int + n) as char else ('a' as int + n - 10) as char
  }

  /** The nibble a digit stands for, either case. */
  function DigitValue(c: char): (n: int)
    requires IsHexChar(c)
    ensures 0 <= n < 16
  {
    if '0' <= c <= '9' then c as int - '0' as int
    else if 'a' <= c <= 'f' then c as int - 'a' as int + 10
    else c as int - 'A' as int + 10
  }

  /** Lowercases the letters `A`..`F`; anything else is kept. */
  function LowerHex(c: char): (d: char)
    ensures IsHexChar(c) ==> IsLowerHexChar(d) && DigitValue(d) == DigitValue(c)
  {
    if 'A' <= c <= 'F' then (c as int + 32) as char else c
  }

  function LowerHexString(s: string): (t: string)
    ensures |t| == |s|
    ensures forall i :: 0 <= i < |s| ==> t[i] == LowerHex(s[i])
  {
    seq(|s|, i requires 0 <= i < |s| => LowerHex(s[i]))
  }

  lemma DigitValueOfDigit(n: int)
    requires 0 <= n < 16
    ensures DigitValue(Digit(n)) == n
  {
  }

  /** The lowercase digit for a digit's value is that digit, lowercased. */
  lemma DigitOfDigitValue(c: char)
    requires IsHexChar(c)
    ensures Digit(DigitValue(c)) == LowerHex(c)
  {
  }

  /** A digit strictly below another stands for a strictly smaller nibble. */
  lemma DigitMonotone(m: int, n: int)
    requires 0 <= m < 16 && 0 <= n < 16
    ensures Digit(m) < Digit(n) <==> m < n
  {
  }

  /** `bin2hex`: two lowercase digits per byte, high nibble first. */
  function Bin2Hex(b: seq<Byte>): (s: string)
    ensures |s| == 2 * |b|
    ensures forall i :: 0 <= i < |b| ==> s[2 * i] == Digit(b[i] / 16) && s[2 * i + 1] == Digit(b[i] % 16)
  {
    if b == [] then []
    else
      var rest := Bin2Hex(b[1..]);
      var s := [Digit(b[0] / 16), Digit(b[0] % 16)] + rest;
      assert forall i :: 1 <= i < |b| ==> s[2 * i] == rest[2 * (i - 1)] && s[2 * i + 1] == rest[2 * (i - 1) + 1];
      s
  }

  /** `hex2bin` on an even-length string of hex digits: each pair of digits,
      high nibble first, becomes one byte. */
  function Hex2Bin(s: string): (b: seq<Byte>)
    requires |s| % 2 == 0 && AllHex(s)
    ensures |b| == |s| / 2
  {
    seq(|s| / 2, i requires 0 <= i < |s| / 2 => DigitValue(s[2 * i]) * 16 + DigitValue(s[2 * i + 1]))
  }

  /** `bin2hex` produces only lowercase hex digits. */
  lemma Bin2HexIsLowerHex(b: seq<Byte>)
    ensures forall i :: 0 <= i < |Bin2Hex(b)| ==> IsLowerHexChar(Bin2Hex(b)[i])
  {
    var s := Bin2Hex(b);
    forall i | 0 <= i < |s|
      ensures IsLowerHexChar(s[i])
    {
      var j := i / 2;
      assert s[2 * j] == Digit(b[j] / 16) && s[2 * j + 1] == Digit(b[j] % 16);
      assert i == 2 * j || i == 2 * j + 1;
    }
  }

  /** Decoding an encoding gives back the bytes. */
  lemma Hex2BinBin2Hex(b: seq<Byte>)
    ensures AllHex(Bin2Hex(b)) && Hex2Bin(Bin2Hex(b)) == b
  {
    var s := Bin2Hex(b);
    Bin2HexIsLowerHex(b);
    var d := Hex2Bin(s);
    forall i | 0 <= i < |b|
      ensures d[i] == b[i]
    {
      DigitValueOfDigit(b[i] / 16);
      DigitValueOfDigit(b[i] % 16);
    }
  }

  /** Encoding a decoding gives back the digits, lowercased. */
  lemma Bin2HexHex2Bin(s: string)
    requires |s| % 2 == 0 && AllHex(s)
    ensures Bin2Hex(Hex2Bin(s)) == LowerHexString(s)
  {
    var b := Hex2Bin(s);
    var t := Bin2Hex(b);
    forall k | 0 <= k < |s|
      ensures t[k] == LowerHex(s[k])
    {
      var i := k / 2;
      var hi, lo := DigitValue(s[2 * i]), DigitValue(s[2 * i + 1]);
      assert b[i] == hi * 16 + lo;
      assert b[i] / 16 == hi && b[i] % 16 == lo;
      DigitOfDigitValue(s[2 * i]);
      DigitOfDigitValue(s[2 * i + 1]);
      assert t[2 * i] == Digit(hi) && t[2 * i + 1] == Digit(lo);
      assert k == 2 * i || k == 2 * i + 1;
    }
  }

  /** Different byte strings have different encodings. */
  lemma Bin2HexInjective(a: seq<Byte>, b: seq<Byte>)
    requires Bin2Hex(a) == Bin2Hex(b)
    ensures a == b
  {
    Hex2BinBin2Hex(a);
    Hex2BinBin2Hex(b);
  }

  /** Lexicographic order on strings, by character code: `<=>` applied to two
      hex forms.  It has the shape of `Bytes.Compare`, but over characters
      rather than bytes; keeping both is what lets `CompareBin2Hex` state
      that the two orders agree. */
  function CompareStrings(s: string, t: string): (r: int)
    ensures -1 <= r <= 1
  {
    if s == [] then (if t == [] then 0 else -1)
    else if t == [] then 1
    else if s[0] < t[0] then -1
    else if s[0] > t[0] then 1
    else CompareStrings(s[1..], t[1..])
  }

  /** Comparing two encodings orders them as the bytes they encode. */
  lemma {:induction false} CompareBin2Hex(a: seq<Byte>, b: seq<Byte>)
    ensures CompareStrings(Bin2Hex(a), Bin2Hex(b)) == Compare(a, b)
  {
    if a != [] && b != [] {
      var s, t := Bin2Hex(a), Bin2Hex(b);
      assert s[2..] == Bin2Hex(a[1..]);
      assert t[2..] == Bin2Hex(b[1..]);
      DigitMonotone(a[0] / 16, b[0] / 16);
      DigitMonotone(b[0] / 16, a[0] / 16);
      DigitMonotone(a[0] % 16, b[0] % 16);
      DigitMonotone(b[0] % 16, a[0] % 16);
      CompareBin2Hex(a[1..], b[1..]);
      assert s[1..][1..] == s[2..] && t[1..][1..] == t[2..];
    }
  }
}
