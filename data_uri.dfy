/**
 * `dataURItoBuffer`: the payload of a data URI, the text after its first
 * comma, decoded by `atob` and copied character code by character code into
 * a fresh byte buffer.
 */
module DataUri {
  import opened Wrappers
  import opened Base64

  /** The text before the first comma of `s` (all of `s` when it has none). */
  function UpToComma(s: string): (r: string)
    ensures ',' !in r
    ensures |r| <= |s| && r == s[..|r|]
  {
    if s == [] || s[0] == ',' then [] else [s[0]] + UpToComma(s[1..])
  }

  /** The text after the first comma of `s`, or None when `s` has no comma. */
  function AfterComma(s: string): (r: Option<string>)
    ensures r.None? <==> ',' !in s
    ensures r.Some? ==> |r.value| < |s|
  {
    if s == [] then None
    else if s[0] == ',' then Some(s[1..])
    else AfterComma(s[1..])
  }

  /** `s.split(",")[1]`: the second comma-separated field, when there is one. */
  function SecondField(s: string): (r: Option<string>)
    ensures r.None? <==> ',' !in s
    ensures r.Some? ==> ',' !in r.value && |r.value| < |s|
  {
    match AfterComma(s)
    case Some(rest) => Some(UpToComma(rest))
    case None => None
  }

  /**
   * The argument `atob` receives. A missing field is `undefined`, which `atob`
   * turns into the string "undefined".
   */
  function AtobArgument(uri: string): (a: string)
    ensures ',' !in uri ==> a == "undefined"
    ensures ',' in uri ==> ',' !in a
  {
    SecondField(uri).GetOr("undefined")
  }

  /** The binary string decoded from the payload of `uri`: every code is below 256. */
  function Payload(uri: string): (r: Result<string, AtobError>)
    ensures r.Success? ==> forall i :: 0 <= i < |r.value| ==> r.value[i] as int < 256
  {
    Atob(AtobArgument(uri))
  }

  /**
   * Byte `i` of the buffer is character code `i` of `s`, as a `Uint8Array`
   * stores it (modulo 256).
   */
  function CharCodes(s: string): (b: seq<byte>)
    ensures |b| == |s|
  {
    seq(|s|, i requires 0 <= i < |s| => (s[i] as int % 256) as byte)
  }

  /**
   * The bytes `dataURItoBuffer(uri)` returns, or the error it raises. It
   * fails exactly when `atob` does; otherwise no character code is
   * truncated, since `atob` yields only codes below 256.
   */
  function BufferOf(uri: string): (r: Result<seq<byte>, AtobError>)
    ensures r.Failure? <==> Payload(uri).Failure?
    ensures r.Success? ==> |r.value| == |Payload(uri).value|
    ensures r.Success? ==> forall i :: 0 <= i < |r.value| ==> r.value[i] as int == Payload(uri).value[i] as int
  {
    var decoded := Payload(uri);
    if decoded.Failure? then Failure(decoded.error)
    else
      CharCodesExact(decoded.value);
      Success(CharCodes(decoded.value))
  }

  /** Character codes below 256 are stored unchanged. */
  lemma CharCodesExact(s: string)
    requires forall i :: 0 <= i < |s| ==> s[i] as int < 256
    ensures forall i :: 0 <= i < |s| ==> CharCodes(s)[i] as int == s[i] as int
  {
  }

  // ---------------------------------------------------------------------
  // The method
  // ---------------------------------------------------------------------

  /** The loop of `dataURItoBuffer`: a fresh buffer holding the character codes of `s`. */
  method CopyCharCodes(s: string) returns (a: array<byte>)
    ensures fresh(a)
    ensures a.Length == |s|
    ensures forall i :: 0 <= i < |s| ==> a[i] as int == s[i] as int % 256
  {
    a := new byte[|s|];
    var i := 0;
    while i < |s|
      invariant 0 <= i <= |s|
      invariant forall k :: 0 <= k < i ==> a[k] as int == s[k] as int % 256
    {
      a[i] := (s[i] as int % 256) as byte;
      i := i + 1;
    }
  }

  /** `dataURItoBuffer(uri)`: the decoded payload in a fresh buffer, or the `atob` error. */
  method DataUriToBuffer(uri: string) returns (r: Result<array<byte>, AtobError>)
    ensures BufferOf(uri).Failure? ==> r == Failure(BufferOf(uri).error)
    ensures BufferOf(uri).Success? ==>
      r.Success? && fresh(r.value) && r.value[..] == BufferOf(uri).value
  {
    var decoded := Atob(AtobArgument(uri));
    if decoded.Failure? {
      return Failure(decoded.error);
    }
    var a := CopyCharCodes(decoded.value);
    assert a[..] == CharCodes(decoded.value);
    return Success(a);
  }

  // ---------------------------------------------------------------------
  // Properties
  // ---------------------------------------------------------------------

  /** The field after the first comma ends at the next comma, or at the end. */
  lemma {:induction false} SecondFieldOf(prefix: string, field: string, rest: string)
    requires ',' !in prefix && ',' !in field
    requires rest == [] || rest[0] == ','
    ensures SecondField(prefix + "," + field + rest) == Some(field)
  {
    assert prefix + "," + field + rest == prefix + "," + (field + rest);
    AfterCommaOf(prefix, field + rest);
    UpToCommaOf(field, rest);
  }

  lemma {:induction false} AfterCommaOf(prefix: string, tail: string)
    requires ',' !in prefix
    ensures AfterComma(prefix + "," + tail) == Some(tail)
  {
    if prefix != [] {
      assert (prefix + "," + tail)[1..] == prefix[1..] + "," + tail;
      AfterCommaOf(prefix[1..], tail);
    }
  }

  lemma {:induction false} UpToCommaOf(field: string, rest: string)
    requires ',' !in field
    requires rest == [] || rest[0] == ','
    ensures UpToComma(field + rest) == field
  {
    if field != [] {
      assert (field + rest)[1..] == field[1..] + rest;
      UpToCommaOf(field[1..], rest);
    } else {
      assert field + rest == rest;
    }
  }

  /** A URI without a comma makes `atob` fail: "undefined" has nine characters. */
  lemma NoCommaFails(uri: string)
    requires ',' !in uri
    ensures Payload(uri).Failure?
  {
    assert AtobArgument(uri) == "undefined";
    assert RemoveWhitespace("undefined") == "undefined" by {
      NoWhitespaceUnchanged("undefined");
    }
  }

  /** A buffer of the character codes of a binary string is the bytes it was made of. */
  lemma CharCodesOfBinaryString(b: seq<byte>)
    ensures CharCodes(BinaryString(b)) == b
  {
    var s := BinaryString(b);
    forall i | 0 <= i < |b| ensures CharCodes(s)[i] == b[i] {
      assert s[i] as int == b[i] as int;
    }
  }

  /**
   * Decoding a data URI `mediaType,payload` whose payload is the base64
   * encoding of `b` returns `b`: the media-type declaration never reaches
   * the buffer.
   */
  lemma DataUriRoundTrip(mediaType: string, b: seq<byte>)
    requires ',' !in mediaType
    ensures BufferOf(mediaType + "," + Encode(b)) == Success(b)
  {
    var e := Encode(b);
    assert ',' !in e by {
      assert AllBase64Digits(EncodeDigits(b));
      forall i | 0 <= i < |e| ensures e[i] != ',' {
        if i < |EncodeDigits(b)| { assert e[i] == EncodeDigits(b)[i]; }
      }
    }
    SecondFieldOf(mediaType, e, []);
    assert mediaType + "," + e + [] == mediaType + "," + e;
    AtobEncode(b);
    CharCodesOfBinaryString(b);
  }

  /**
   * Only the second field matters: two URIs with the same payload field
   * decode to the same buffer, whatever precedes the first comma or follows
   * the second.
   */
  lemma {:induction false} OnlyPayloadMatters(p1: string, p2: string, field: string, r1: string, r2: string)
    requires ',' !in p1 && ',' !in p2 && ',' !in field
    requires (r1 == [] || r1[0] == ',') && (r2 == [] || r2[0] == ',')
    ensures BufferOf(p1 + "," + field + r1) == BufferOf(p2 + "," + field + r2)
  {
    SecondFieldOf(p1, field, r1);
    SecondFieldOf(p2, field, r2);
  }
}
