/**
 * Base64 as the browser's `atob` decodes it (the "forgiving-base64 decode" of
 * the HTML standard, over the alphabet of section 4 of RFC 4648), and the
 * padded encoding of section 4 of RFC 4648 that image encoders emit.
 */
module Base64 {
  import opened Wrappers

  newtype byte = x: int | 0 <= x < 256

  /** The one error `atob` raises: `InvalidCharacterError`. */
  datatype AtobError = InvalidCharacter

  // ---------------------------------------------------------------------
  // The alphabet
  // ---------------------------------------------------------------------

  predicate IsBase64Digit(c: char) {
    ('A' as int <= c as int <= 'Z' as int) || ('a' as int <= c as int <= 'z' as int) ||
    ('0' as int <= c as int <= '9' as int) || c == '+' || c == '/'
  }

  predicate AllBase64Digits(s: string) {
    forall i :: 0 <= i < |s| ==> IsBase64Digit(s[i])
  }

  /** The character that stands for the 6-bit value `v`. */
  function Digit(v: nat): (c: char)
    requires v < 64
    ensures IsBase64Digit(c)
  {
    if v < 26 then ('A' as int + v) as char
    else if v < 52 then ('a' as int + (v - 26)) as char
    else if v < 62 then ('0' as int + (v - 52)) as char
    else if v == 62 then '+'
    else '/'
  }

  /** The 6-bit value a character of the alphabet stands for. */
  function DigitValue(c: char): (v: nat)
    requires IsBase64Digit(c)
    ensures v < 64
  {
    if 'A' as int <= c as int <= 'Z' as int then c as int - 'A' as int
    else if 'a' as int <= c as int <= 'z' as int then c as int - 'a' as int + 26
    else if '0' as int <= c as int <= '9' as int then c as int - '0' as int + 52
    else if c == '+' then 62
    else 63
  }

  /** `Digit` and `DigitValue` are inverse bijections between 0..63 and the alphabet. */
  lemma DigitValueOfDigit(v: nat)
    requires v < 64
    ensures DigitValue(Digit(v)) == v
  {
  }

  lemma DigitOfDigitValue(c: char)
    requires IsBase64Digit(c)
    ensures Digit(DigitValue(c)) == c
  {
  }

  // ---------------------------------------------------------------------
  // atob
  // ---------------------------------------------------------------------

  /** ASCII whitespace: tab, line feed, form feed, carriage return, space. */
  predicate IsAsciiWhitespace(c: char) {
    c == '\t' || c == '\n' || c as int == 0x0C || c == '\r' || c == ' '
  }

  function RemoveWhitespace(s: string): (r: string)
    ensures forall i :: 0 <= i < |r| ==> !IsAsciiWhitespace(r[i])
    ensures |r| <= |s|
  {
    if s == [] then []
    else if IsAsciiWhitespace(s[0]) then RemoveWhitespace(s[1..])
    else [s[0]] + RemoveWhitespace(s[1..])
  }

  /** A string ending in one or two `=` loses them (two if it ends in `==`). */
  function RemovePadding(s: string): (r: string)
    ensures |r| <= |s| <= |r| + 2 && r == s[..|r|]
    ensures forall i :: |r| <= i < |s| ==> s[i] == '='
    ensures |s| - |r| < 2 ==> |r| == 0 || s[|r| - 1] != '='
  {
    if |s| >= 2 && s[|s| - 2] == '=' && s[|s| - 1] == '=' then s[..|s| - 2]
    else if |s| >= 1 && s[|s| - 1] == '=' then s[..|s| - 1]
    else s
  }

  /**
   * The first three steps of forgiving-base64 decode: what is left to decode.
   * All whitespace is dropped; then, only when the length left is a multiple
   * of four, at most two trailing `=` go too; nothing else changes.
   */
  function Canonical(data: string): (r: string)
    ensures forall i :: 0 <= i < |r| ==> !IsAsciiWhitespace(r[i])
    ensures var s := RemoveWhitespace(data);
      |r| <= |s| <= |r| + 2 && r == s[..|r|] &&
      (forall i :: |r| <= i < |s| ==> s[i] == '=') &&
      (|s| % 4 != 0 ==> r == s) &&
      (|s| % 4 == 0 && |s| - |r| < 2 ==> |r| == 0 || s[|r| - 1] != '=')
  {
    var s := RemoveWhitespace(data);
    if |s| % 4 == 0 then RemovePadding(s) else s
  }

  /**
   * The bytes that a run of base64 digits encodes: every four digits give
   * three bytes; a final two (three) digits give one (two) bytes, the
   * left-over low bits being dropped.
   */
  function DecodeDigits(s: string): (r: seq<byte>)
    requires AllBase64Digits(s) && |s| % 4 != 1
    ensures |r| == |s| * 3 / 4
    decreases |s|
  {
    if |s| < 4 then DecodeTail(s)
    else DecodeGroup(s[..4]) + DecodeDigits(s[4..])
  }

  /** Four digits, 24 bits, three bytes. */
  function DecodeGroup(g: string): (r: seq<byte>)
    requires |g| == 4 && AllBase64Digits(g)
    ensures |r| == 3
  {
    Join(DigitValue(g[0]), DigitValue(g[1]), DigitValue(g[2]), DigitValue(g[3]))
  }

  /** Zero, two or three final digits: no byte, one byte or two bytes. */
  function DecodeTail(t: string): (r: seq<byte>)
    requires |t| < 4 && |t| != 1 && AllBase64Digits(t)
    ensures |r| == |t| * 3 / 4
  {
    if |t| == 0 then []
    else if |t| == 2 then Join(DigitValue(t[0]), DigitValue(t[1]), 0, 0)[..1]
    else Join(DigitValue(t[0]), DigitValue(t[1]), DigitValue(t[2]), 0)[..2]
  }

  /** The three bytes of the 24 bits of four 6-bit values. */
  function Join(v0: nat, v1: nat, v2: nat, v3: nat): (r: seq<byte>)
    requires v0 < 64 && v1 < 64 && v2 < 64 && v3 < 64
    ensures |r| == 3
  {
    [(v0 * 4 + v1 / 16) as byte, ((v1 % 16) * 16 + v2 / 4) as byte, ((v2 % 4) * 64 + v3) as byte]
  }

  /** A "binary string": one character per byte, whose code is the byte. */
  function BinaryString(b: seq<byte>): (s: string)
    ensures |s| == |b|
    ensures forall i :: 0 <= i < |b| ==> s[i] as int == b[i] as int
  {
    seq(|b|, i requires 0 <= i < |b| => b[i] as int as char)
  }

  /**
   * `atob(data)`: whitespace is ignored, one or two trailing `=` are dropped
   * when the length is a multiple of four, and the input is rejected when
   * what is left leaves a remainder of one modulo four or holds a character
   * outside the alphabet (a `=` anywhere else included).
   */
  function Atob(data: string): (r: Result<string, AtobError>)
    ensures r.Failure? <==>
      (|Canonical(data)| % 4 == 1 || !AllBase64Digits(Canonical(data)))
    ensures r.Success? ==>
      |r.value| == |Canonical(data)| * 3 / 4 &&
      forall i :: 0 <= i < |r.value| ==> r.value[i] as int < 256
  {
    var s := Canonical(data);
    if |s| % 4 == 1 || !AllBase64Digits(s) then Failure(InvalidCharacter)
    else Success(BinaryString(DecodeDigits(s)))
  }

  // ---------------------------------------------------------------------
  // The encoding of section 4 of RFC 4648
  // ---------------------------------------------------------------------

  /** The base64 digits of `b`, without padding. */
  function EncodeDigits(b: seq<byte>): (s: string)
    ensures AllBase64Digits(s)
    ensures |s| % 4 != 1
    decreases |b|
  {
    if |b| < 3 then EncodeTail(b)
    else EncodeGroup(b[0], b[1], b[2]) + EncodeDigits(b[3..])
  }

  /** Three bytes, 24 bits, four digits. */
  function EncodeGroup(x: byte, y: byte, z: byte): (s: string)
    ensures |s| == 4 && AllBase64Digits(s)
  {
    [Digit(Six0(x)), Digit(Six1(x, y)), Digit(Six2(y, z)), Digit(Six3(z))]
  }

  /** One or two final bytes, zero-filled to two or three digits. */
  function EncodeTail(b: seq<byte>): (s: string)
    requires |b| < 3
    ensures |s| == (if |b| == 0 then 0 else |b| + 1) && AllBase64Digits(s)
  {
    if |b| == 0 then []
    else if |b| == 1 then [Digit(Six0(b[0])), Digit(Six1(b[0], 0))]
    else [Digit(Six0(b[0])), Digit(Six1(b[0], b[1])), Digit(Six2(b[1], 0))]
  }

  // The four 6-bit values of the 24 bits of three bytes x y z.
  function Six0(x: byte): (v: nat)
    ensures v < 64
  {
    x as int / 4
  }

  function Six1(x: byte, y: byte): (v: nat)
    ensures v < 64
  {
    (x as int % 4) * 16 + y as int / 16
  }

  function Six2(y: byte, z: byte): (v: nat)
    ensures v < 64
  {
    (y as int % 16) * 4 + z as int / 64
  }

  function Six3(z: byte): (v: nat)
    ensures v < 64
  {
    z as int % 64
  }

  /** The `=` characters that pad an encoding of `n` bytes to a multiple of four. */
  function Padding(n: nat): string {
    if n % 3 == 1 then "==" else if n % 3 == 2 then "=" else ""
  }

  /** The padded base64 encoding of `b`: four characters per started three bytes. */
  function Encode(b: seq<byte>): (s: string)
    ensures |s| % 4 == 0
    ensures |s| == 4 * ((|b| + 2) / 3)
  {
    EncodeDigitsLength(b);
    PaddedLength(|b|);
    EncodeDigits(b) + Padding(|b|)
  }

  /** Three bytes take four digits; a final one or two bytes take two or three. */
  lemma {:induction false} EncodeDigitsLength(b: seq<byte>)
    ensures |EncodeDigits(b)| == 4 * (|b| / 3) + (if |b| % 3 == 0 then 0 else |b| % 3 + 1)
    decreases |b|
  {
    if |b| >= 3 {
      EncodeDigitsLength(b[3..]);
      assert |b[3..]| / 3 == |b| / 3 - 1 && |b[3..]| % 3 == |b| % 3;
    }
  }

  /** The digits of `n` bytes and their padding fill whole groups of four. */
  lemma PaddedLength(n: nat)
    ensures 4 * (n / 3) + (if n % 3 == 0 then 0 else n % 3 + 1) + |Padding(n)| == 4 * ((n + 2) / 3)
    ensures (4 * ((n + 2) / 3)) % 4 == 0
  {
    var q, r := n / 3, n % 3;
    assert n == 3 * q + r;
    assert (n + 2) / 3 == q + (if r == 0 then 0 else 1);
  }

  // ---------------------------------------------------------------------
  // Round trip
  // ---------------------------------------------------------------------

  /** Decoding the digits of `b` gives back `b`. */
  lemma {:induction false} DecodeEncodeDigits(b: seq<byte>)
    ensures DecodeDigits(EncodeDigits(b)) == b
    decreases |b|
  {
    if |b| < 3 {
      DecodeEncodeTail(b);
    } else {
      var g := EncodeGroup(b[0], b[1], b[2]);
      var rest := EncodeDigits(b[3..]);
      calc {
        DecodeDigits(EncodeDigits(b));
        { assert EncodeDigits(b) == g + rest; }
        DecodeDigits(g + rest);
        { DecodeDigitsGroup(g, rest); }
        DecodeGroup(g) + DecodeDigits(rest);
        { DecodeEncodeGroup(b[0], b[1], b[2]); DecodeEncodeDigits(b[3..]); }
        [b[0], b[1], b[2]] + b[3..];
        b;
      }
    }
  }

  /** Decoding proceeds group by group. */
  lemma DecodeDigitsGroup(g: string, rest: string)
    requires |g| == 4 && AllBase64Digits(g) && AllBase64Digits(rest) && |rest| % 4 != 1
    ensures AllBase64Digits(g + rest) && |g + rest| % 4 != 1
    ensures DecodeDigits(g + rest) == DecodeGroup(g) + DecodeDigits(rest)
  {
    var s := g + rest;
    assert s[..4] == g && s[4..] == rest;
  }

  lemma DecodeEncodeGroup(x: byte, y: byte, z: byte)
    ensures DecodeGroup(EncodeGroup(x, y, z)) == [x, y, z]
  {
    DecodeDigitsOf(Six0(x), Six1(x, y), Six2(y, z), Six3(z));
    JoinSplit(x, y, z);
  }

  lemma DecodeEncodeTail(b: seq<byte>)
    requires |b| < 3
    ensures DecodeTail(EncodeTail(b)) == b
  {
    if |b| == 1 {
      var t := EncodeTail(b);
      DigitValueOfDigit(Six0(b[0]));
      DigitValueOfDigit(Six1(b[0], 0));
      assert DecodeTail(t) == Join(Six0(b[0]), Six1(b[0], 0), 0, 0)[..1];
      JoinSplit(b[0], 0, 0);
    } else if |b| == 2 {
      var t := EncodeTail(b);
      DigitValueOfDigit(Six0(b[0]));
      DigitValueOfDigit(Six1(b[0], b[1]));
      DigitValueOfDigit(Six2(b[1], 0));
      assert DecodeTail(t) == Join(Six0(b[0]), Six1(b[0], b[1]), Six2(b[1], 0), 0)[..2];
      JoinSplit(b[0], b[1], 0);
    }
  }

  /** Decoding four digits reads back their four 6-bit values. */
  lemma DecodeDigitsOf(v0: nat, v1: nat, v2: nat, v3: nat)
    requires v0 < 64 && v1 < 64 && v2 < 64 && v3 < 64
    ensures DecodeGroup([Digit(v0), Digit(v1), Digit(v2), Digit(v3)]) == Join(v0, v1, v2, v3)
  {
    DigitValueOfDigit(v0);
    DigitValueOfDigit(v1);
    DigitValueOfDigit(v2);
    DigitValueOfDigit(v3);
  }

  /** Splitting three bytes into four 6-bit values and joining them again. */
  lemma JoinSplit(x: byte, y: byte, z: byte)
    ensures Join(Six0(x), Six1(x, y), Six2(y, z), Six3(z)) == [x, y, z]
  {
  }

  /** An encoding is made of alphabet characters followed by at most two `=`. */
  lemma EncodeChars(b: seq<byte>)
    ensures forall i :: 0 <= i < |Encode(b)| ==> IsBase64Digit(Encode(b)[i]) || Encode(b)[i] == '='
  {
    var d := EncodeDigits(b);
    var s := Encode(b);
    forall i | 0 <= i < |s| ensures IsBase64Digit(s[i]) || s[i] == '=' {
      if i < |d| { assert s[i] == d[i]; }
    }
  }

  /** Removing the padding of an encoding leaves exactly its digits. */
  lemma RemovePaddingOfEncode(b: seq<byte>)
    ensures RemovePadding(Encode(b)) == EncodeDigits(b)
  {
    var d := EncodeDigits(b);
    var s := Encode(b);
    assert d != [] ==> IsBase64Digit(d[|d| - 1]);
    if |b| % 3 == 1 {
      assert s == d + "==";
      assert s[..|s| - 2] == d;
    } else if |b| % 3 == 2 {
      assert s == d + "=";
      assert s[|s| - 2] == d[|d| - 1];
      assert s[..|s| - 1] == d;
    } else {
      assert s == d;
    }
  }

  /** What `atob` decodes from a padded encoding is exactly its digits. */
  lemma CanonicalOfEncode(b: seq<byte>)
    ensures Canonical(Encode(b)) == EncodeDigits(b)
  {
    var s := Encode(b);
    EncodeChars(b);
    assert forall i :: 0 <= i < |s| ==> !IsAsciiWhitespace(s[i]);
    NoWhitespaceUnchanged(s);
    RemovePaddingOfEncode(b);
  }

  lemma {:induction false} NoWhitespaceUnchanged(s: string)
    requires forall i :: 0 <= i < |s| ==> !IsAsciiWhitespace(s[i])
    ensures RemoveWhitespace(s) == s
  {
    if s != [] {
      NoWhitespaceUnchanged(s[1..]);
      assert s == [s[0]] + s[1..];
    }
  }

  /** Dropping whitespace from a concatenation drops it from each part, keeping their order. */
  lemma {:induction false} RemoveWhitespaceAppend(a: string, b: string)
    ensures RemoveWhitespace(a + b) == RemoveWhitespace(a) + RemoveWhitespace(b)
    decreases |a|
  {
    if a != [] {
      assert (a + b)[0] == a[0] && (a + b)[1..] == a[1..] + b;
      RemoveWhitespaceAppend(a[1..], b);
      if !IsAsciiWhitespace(a[0]) {
        assert [a[0]] + RemoveWhitespace(a[1..]) + RemoveWhitespace(b) == [a[0]] + (RemoveWhitespace(a[1..]) + RemoveWhitespace(b));
      }
    } else {
      assert a + b == b;
    }
  }

  /** Every whitespace character goes; every other character stays, as often as it occurs. */
  lemma {:induction false} RemoveWhitespaceMultiplicity(s: string, c: char)
    ensures multiset(RemoveWhitespace(s))[c] == if IsAsciiWhitespace(c) then 0 else multiset(s)[c]
    decreases |s|
  {
    if s != [] {
      RemoveWhitespaceMultiplicity(s[1..], c);
      assert s == [s[0]] + s[1..];
      assert multiset(s) == multiset([s[0]]) + multiset(s[1..]);
    }
  }

  /** `atob` inverts the padded encoding of section 4 of RFC 4648. */
  lemma AtobEncode(b: seq<byte>)
    ensures Atob(Encode(b)) == Success(BinaryString(b))
  {
    var d := EncodeDigits(b);
    CanonicalOfEncode(b);
    assert AllBase64Digits(d);
    DecodeEncodeDigits(b);
  }
}
