/**
  encodeURIComponent (section 19.2.6.5 of ECMA-262): every code point outside
  the unescaped set "A-Z a-z 0-9 - _ . ! ~ * ' ( )" is written as the
  percent-encoded octets of its UTF-8 form, with upper-case hexadecimal digits;
  an unpaired surrogate throws a URIError, modelled here as None.
*/
module UriComponent {
  import opened Wrappers
  import opened Unicode

  const HexDigits: string := "0123456789ABCDEF"

  /** The characters encodeURIComponent leaves as they are. */
  predicate IsUnescapedChar(c: char)
  {
    || 'A' <= c <= 'Z' || 'a' <= c <= 'z' || '0' <= c <= '9'
    || c == '-' || c == '_' || c == '.' || c == '!' || c == '~'
    || c == '*' || c == '\'' || c == '(' || c == ')'
  }

  predicate IsUnescaped(c: Scalar)
  {
    c < 0x80 && IsUnescapedChar(c as char)
  }

  predicate IsHexDigit(c: char)
  {
    '0' <= c <= '9' || 'A' <= c <= 'F'
  }

  /** "%XY" for one octet. */
  function PercentTriple(b: Byte): (r: string)
    ensures |r| == 3 && r[0] == '%' && IsHexDigit(r[1]) && IsHexDigit(r[2])
  {
    ['%', HexDigits[b / 16], HexDigits[b % 16]]
  }

  function PercentBytes(bs: seq<Byte>): string
  {
    if bs == [] then "" else PercentTriple(bs[0]) + PercentBytes(bs[1..])
  }

  /** One code point as it appears in encodeURIComponent's output. */
  function EscapeCodePoint(c: Scalar): string
  {
    if IsUnescaped(c) then [c as char] else PercentBytes(Utf8(c))
  }

  function EscapeAll(cs: seq<Scalar>): string
  {
    if cs == [] then "" else EscapeCodePoint(cs[0]) + EscapeAll(cs[1..])
  }

  /** The host's encodeURIComponent; None where it throws a URIError. */
  function EncodeURIComponent(s: JSString): Option<string>
  {
    match CodePoints(s)
    case None => None
    case Some(cs) => Some(EscapeAll(cs))
  }

  // ------------------------------------------------------ the inverse

  function HexValue(c: char): Option<int>
  {
    if '0' <= c <= '9' then Some(c as int - '0' as int)
    else if 'A' <= c <= 'F' then Some(c as int - 'A' as int + 10)
    else if 'a' <= c <= 'f' then Some(c as int - 'a' as int + 10)
    else None
  }

  /** Turns "%XY" triples into octets and other ASCII characters into their own octet. */
  function PercentDecode(r: string): Option<seq<Byte>>
    decreases |r|
  {
    if r == [] then Some([])
    else if r[0] == '%' then
      if |r| < 3 || HexValue(r[1]).None? || HexValue(r[2]).None? then None
      else
        match PercentDecode(r[3..])
        case None => None
        case Some(rest) => Some([HexValue(r[1]).value * 16 + HexValue(r[2]).value] + rest)
    else if r[0] as int < 0x80 then
      match PercentDecode(r[1..])
      case None => None
      case Some(rest) => Some([r[0] as int] + rest)
    else None
  }

  /** Percent-decoding followed by UTF-8 and UTF-16 decoding: a JavaScript string back. */
  function DecodeComponent(r: string): Option<JSString>
  {
    match PercentDecode(r)
    case None => None
    case Some(bs) =>
      match Utf8Decode(bs)
      case None => None
      case Some(cs) => Some(Utf16All(cs))
  }

  // ------------------------------------------------------ lemmas

  lemma HexOfDigit(n: int)
    requires 0 <= n < 16
    ensures HexValue(HexDigits[n]) == Some(n)
  {
  }

  lemma PercentDecodeTriple(b: Byte, rest: string)
    ensures PercentDecode(PercentTriple(b) + rest) ==
            match PercentDecode(rest) case None => None case Some(t) => Some([b] + t)
  {
    var r := PercentTriple(b) + rest;
    HexOfDigit(b / 16);
    HexOfDigit(b % 16);
    assert r[1] == HexDigits[b / 16] && r[2] == HexDigits[b % 16];
    assert r[3..] == rest;
  }

  lemma {:induction false} PercentDecodeTriples(bs: seq<Byte>, rest: string)
    ensures PercentDecode(rest).None? ==> PercentDecode(PercentBytes(bs) + rest).None?
    ensures PercentDecode(rest).Some? ==>
            PercentDecode(PercentBytes(bs) + rest) == Some(bs + PercentDecode(rest).value)
    decreases |bs|
  {
    if bs == [] {
      assert PercentBytes(bs) + rest == rest;
      if PercentDecode(rest).Some? {
        assert bs + PercentDecode(rest).value == PercentDecode(rest).value;
      }
    } else {
      var tail := PercentBytes(bs[1..]) + rest;
      PercentDecodeTriples(bs[1..], rest);
      assert PercentBytes(bs) + rest == PercentTriple(bs[0]) + tail;
      PercentDecodeTriple(bs[0], tail);
      if PercentDecode(rest).Some? {
        var t := PercentDecode(rest).value;
        assert [bs[0]] + (bs[1..] + t) == bs + t;
      }
    }
  }

  lemma PercentDecodeEscape(c: Scalar, rest: string)
    ensures PercentDecode(EscapeCodePoint(c) + rest) ==
            match PercentDecode(rest) case None => None case Some(t) => Some(Utf8(c) + t)
  {
    if IsUnescaped(c) {
      var r := EscapeCodePoint(c) + rest;
      assert r[0] == c as char && r[1..] == rest;
    } else {
      PercentDecodeTriples(Utf8(c), rest);
    }
  }

  /** Percent-decoding the escaped text gives back the UTF-8 octets of the code points. */
  lemma {:induction false} PercentDecodeEscapeAll(cs: seq<Scalar>)
    ensures PercentDecode(EscapeAll(cs)) == Some(Utf8All(cs))
    decreases |cs|
  {
    if cs != [] {
      PercentDecodeEscapeAll(cs[1..]);
      PercentDecodeEscape(cs[0], EscapeAll(cs[1..]));
    }
  }

  /**
    Whenever encodeURIComponent returns, decoding its output gives back the
    original value, code unit for code unit.
  */
  lemma EncodeRoundTrip(s: JSString)
    requires EncodeURIComponent(s).Some?
    ensures DecodeComponent(EncodeURIComponent(s).value) == Some(s)
  {
    var cs := CodePoints(s).value;
    PercentDecodeEscapeAll(cs);
    Utf8RoundTrip(cs);
    Utf16AllOfCodePoints(s, cs);
  }

  /** encodeURIComponent throws exactly on strings with an unpaired surrogate. */
  lemma EncodeDefinedIffWellFormed(s: JSString)
    ensures EncodeURIComponent(s).Some? <==> WellFormed(s)
  {
    CodePointsDefinedIffWellFormed(s);
  }

  /** Distinct strings never encode to the same text. */
  lemma EncodeInjective(s: JSString, t: JSString)
    requires EncodeURIComponent(s).Some? && EncodeURIComponent(s) == EncodeURIComponent(t)
    ensures s == t
  {
    EncodeRoundTrip(s);
    EncodeRoundTrip(t);
  }

  // ------------------------------------------------------ output alphabet

  /** Text made only of unescaped characters and "%XY" triples, read left to right. */
  ghost predicate Escaped(r: string)
    decreases |r|
  {
    if r == [] then true
    else if r[0] == '%' then |r| >= 3 && IsHexDigit(r[1]) && IsHexDigit(r[2]) && Escaped(r[3..])
    else IsUnescapedChar(r[0]) && Escaped(r[1..])
  }

  lemma {:induction false} EscapedAppend(a: string, b: string)
    requires Escaped(a) && Escaped(b)
    ensures Escaped(a + b)
    decreases |a|
  {
    if a != [] && a[0] == '%' {
      EscapedAppend(a[3..], b);
      assert (a + b)[1] == a[1] && (a + b)[2] == a[2];
      assert (a + b)[3..] == a[3..] + b;
    } else if a != [] {
      EscapedAppend(a[1..], b);
      assert (a + b)[1..] == a[1..] + b;
    } else {
      assert a + b == b;
    }
  }

  lemma {:induction false} EscapedPercentBytes(bs: seq<Byte>)
    ensures Escaped(PercentBytes(bs))
    decreases |bs|
  {
    if bs != [] {
      EscapedPercentBytes(bs[1..]);
      var r := PercentBytes(bs);
      assert r[3..] == PercentBytes(bs[1..]);
    }
  }

  lemma {:induction false} EscapedEscapeAll(cs: seq<Scalar>)
    ensures Escaped(EscapeAll(cs))
    decreases |cs|
  {
    if cs != [] {
      EscapedEscapeAll(cs[1..]);
      if !IsUnescaped(cs[0]) {
        EscapedPercentBytes(Utf8(cs[0]));
      }
      EscapedAppend(EscapeCodePoint(cs[0]), EscapeAll(cs[1..]));
    }
  }

  lemma {:induction false} EscapedChars(r: string)
    requires Escaped(r)
    ensures forall i :: 0 <= i < |r| ==> IsUnescapedChar(r[i]) || r[i] == '%'
    ensures forall i :: 0 <= i < |r| && r[i] == '%' ==> i + 2 < |r| && IsHexDigit(r[i + 1]) && IsHexDigit(r[i + 2])
    decreases |r|
  {
    if r != [] {
      var k := if r[0] == '%' then 3 else 1;
      EscapedChars(r[k..]);
      forall i | k <= i < |r| ensures r[i] == r[k..][i - k] { }
    }
  }

  /**
    The output of encodeURIComponent holds only unescaped characters and
    "%XY" triples; in particular no '&', '=', '/', '?', '#' or space.
  */
  lemma EncodedAlphabet(s: JSString)
    requires EncodeURIComponent(s).Some?
    ensures var r := EncodeURIComponent(s).value;
      && (forall i :: 0 <= i < |r| ==> IsUnescapedChar(r[i]) || r[i] == '%')
      && (forall i :: 0 <= i < |r| && r[i] == '%' ==> i + 2 < |r| && IsHexDigit(r[i + 1]) && IsHexDigit(r[i + 2]))
      && '&' !in r && '=' !in r && '/' !in r && ' ' !in r && '?' !in r && '#' !in r
  {
    var r := EncodeURIComponent(s).value;
    EscapedEscapeAll(CodePoints(s).value);
    EscapedChars(r);
    NoDelimiters(r);
  }

  lemma NoDelimiters(r: string)
    requires forall i :: 0 <= i < |r| ==> IsUnescapedChar(r[i]) || r[i] == '%'
    ensures '&' !in r && '=' !in r && '/' !in r && ' ' !in r && '?' !in r && '#' !in r
  {
    forall i | 0 <= i < |r|
      ensures r[i] != '&' && r[i] != '=' && r[i] != '/' && r[i] != ' ' && r[i] != '?' && r[i] != '#'
    {
      assert IsUnescapedChar(r[i]) || r[i] == '%';
    }
  }
}
