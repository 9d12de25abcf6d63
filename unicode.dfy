/**
  UTF-16 code units (the elements of a JavaScript string), Unicode scalar
  values and UTF-8 bytes, with the conversions between them that
  encodeURIComponent relies on (section 19.2.6 of ECMA-262: the string is read
  as code points, with surrogate pairs combined, and every code point that is
  escaped is written as its UTF-8 octets).
*/
module Unicode {
  import opened Wrappers

  /** One element of a JavaScript string. */
  type CodeUnit = u: int | 0 <= u < 0x1_0000

  /** A JavaScript string value: a sequence of UTF-16 code units, possibly ill-formed. */
  type JSString = seq<CodeUnit>

  /** A Unicode code point that is not a surrogate. */
  type Scalar = c: int | 0 <= c < 0xD800 || 0xE000 <= c < 0x11_0000

  type Byte = b: int | 0 <= b < 0x100

  predicate IsHighSurrogate(u: CodeUnit) { 0xD800 <= u < 0xDC00 }

  predicate IsLowSurrogate(u: CodeUnit) { 0xDC00 <= u < 0xE000 }

  // ---------------------------------------------------------------- UTF-16

  /** The code point of a surrogate pair. */
  function PairToCodePoint(hi: CodeUnit, lo: CodeUnit): (c: Scalar)
    requires IsHighSurrogate(hi) && IsLowSurrogate(lo)
    ensures 0x1_0000 <= c
  {
    (hi as int - 0xD800) * 0x400 + (lo as int - 0xDC00) + 0x1_0000
  }

  /**
    Reads a string as code points, left to right, combining a high surrogate
    with the low surrogate that follows it. None when a surrogate is unpaired:
    that is the case in which encodeURIComponent throws a URIError.
  */
  function CodePoints(s: JSString): Option<seq<Scalar>>
    decreases |s|
  {
    if s == [] then Some([])
    else if |s| >= 2 && IsHighSurrogate(s[0]) && IsLowSurrogate(s[1]) then
      match CodePoints(s[2..])
      case None => None
      case Some(rest) => Some([PairToCodePoint(s[0], s[1])] + rest)
    else if IsHighSurrogate(s[0]) || IsLowSurrogate(s[0]) then None
    else
      match CodePoints(s[1..])
      case None => None
      case Some(rest) => Some([s[0] as Scalar] + rest)
  }

  /** The UTF-16 code units of one code point. */
  function Utf16(c: Scalar): (r: JSString)
    ensures |r| == if c < 0x1_0000 then 1 else 2
  {
    if c < 0x1_0000 then [c]
    else [0xD800 + (c - 0x1_0000) / 0x400, 0xDC00 + (c - 0x1_0000) % 0x400]
  }

  /** The UTF-16 code units of a code-point sequence. */
  function Utf16All(cs: seq<Scalar>): JSString
  {
    if cs == [] then [] else Utf16(cs[0]) + Utf16All(cs[1..])
  }

  /** The unit at i is not a surrogate, or is one half of a surrogate pair. */
  ghost predicate PairedAt(s: JSString, i: int)
    requires 0 <= i < |s|
  {
    && (IsHighSurrogate(s[i]) ==> i + 1 < |s| && IsLowSurrogate(s[i + 1]))
    && (IsLowSurrogate(s[i]) ==> 0 < i && IsHighSurrogate(s[i - 1]))
  }

  /** A string is well formed when every surrogate belongs to a pair. */
  ghost predicate WellFormed(s: JSString)
  {
    forall i :: 0 <= i < |s| ==> PairedAt(s, i)
  }

  /** Cutting a string after a unit that is not a high surrogate keeps pairing intact on both sides. */
  lemma WellFormedSplit(s: JSString, k: nat)
    requires 0 < k <= |s| && !IsHighSurrogate(s[k - 1])
    ensures WellFormed(s) <==> (forall i :: 0 <= i < k ==> PairedAt(s, i)) && WellFormed(s[k..])
  {
    var t := s[k..];
    if WellFormed(s) {
      forall i | 0 <= i < |t| ensures PairedAt(t, i) {
        assert PairedAt(s, k + i);
      }
    }
    if (forall i :: 0 <= i < k ==> PairedAt(s, i)) && WellFormed(t) {
      forall i | k <= i < |s| ensures PairedAt(s, i) {
        assert PairedAt(t, i - k);
        if i > k { assert t[i - k - 1] == s[i - 1]; }
      }
    }
  }

  /** Reading code points fails exactly on the strings with an unpaired surrogate. */
  lemma {:induction false} CodePointsDefinedIffWellFormed(s: JSString)
    ensures CodePoints(s).Some? <==> WellFormed(s)
    decreases |s|
  {
    if s == [] {
    } else if |s| >= 2 && IsHighSurrogate(s[0]) && IsLowSurrogate(s[1]) {
      CodePointsDefinedIffWellFormed(s[2..]);
      WellFormedSplit(s, 2);
      assert PairedAt(s, 0) && PairedAt(s, 1);
    } else if IsHighSurrogate(s[0]) {
      assert !PairedAt(s, 0);
    } else if IsLowSurrogate(s[0]) {
      assert !PairedAt(s, 0);
    } else {
      CodePointsDefinedIffWellFormed(s[1..]);
      WellFormedSplit(s, 1);
      assert PairedAt(s, 0);
    }
  }

  lemma Utf16OfPair(hi: CodeUnit, lo: CodeUnit)
    requires IsHighSurrogate(hi) && IsLowSurrogate(lo)
    ensures Utf16(PairToCodePoint(hi, lo)) == [hi, lo]
  {
    var v := (hi as int - 0xD800) * 0x400 + (lo as int - 0xDC00);
    assert PairToCodePoint(hi, lo) - 0x1_0000 == v;
    assert v / 0x400 == hi - 0xD800 && v % 0x400 == lo - 0xDC00;
  }

  /** Re-encoding the code points read from a string gives the string back. */
  lemma {:induction false} Utf16AllOfCodePoints(s: JSString, cs: seq<Scalar>)
    requires CodePoints(s) == Some(cs)
    ensures Utf16All(cs) == s
    decreases |s|
  {
    if s == [] {
    } else if |s| >= 2 && IsHighSurrogate(s[0]) && IsLowSurrogate(s[1]) {
      var rest := CodePoints(s[2..]).value;
      Utf16AllOfCodePoints(s[2..], rest);
      Utf16OfPair(s[0], s[1]);
      assert cs[1..] == rest;
      assert s == [s[0], s[1]] + s[2..];
    } else {
      var rest := CodePoints(s[1..]).value;
      Utf16AllOfCodePoints(s[1..], rest);
      assert cs[1..] == rest;
      assert s == [s[0]] + s[1..];
    }
  }

  /** The two units a supplementary code point is written as form a pair that reads back as it. */
  lemma PairOfUtf16(c: Scalar)
    requires 0x1_0000 <= c
    ensures IsHighSurrogate(Utf16(c)[0]) && IsLowSurrogate(Utf16(c)[1])
    ensures PairToCodePoint(Utf16(c)[0], Utf16(c)[1]) == c
  {
    var v := c as int - 0x1_0000;
    assert v == (v / 0x400) * 0x400 + v % 0x400;
  }

  lemma CodePointsCons(c: Scalar, rest: JSString)
    ensures CodePoints(Utf16(c) + rest) ==
            match CodePoints(rest) case None => None case Some(cs) => Some([c] + cs)
  {
    var s := Utf16(c) + rest;
    if c < 0x1_0000 {
      assert s[1..] == rest;
    } else {
      PairOfUtf16(c);
      assert s[0] == Utf16(c)[0] && s[1] == Utf16(c)[1];
      assert s[2..] == rest;
    }
  }

  /** Reading back the code units of a code-point sequence gives the sequence back. */
  lemma {:induction false} CodePointsOfUtf16All(cs: seq<Scalar>)
    ensures CodePoints(Utf16All(cs)) == Some(cs)
    decreases |cs|
  {
    if cs != [] {
      CodePointsOfUtf16All(cs[1..]);
      CodePointsCons(cs[0], Utf16All(cs[1..]));
      assert [cs[0]] + cs[1..] == cs;
    }
  }

  // ----------------------------------------------------------------- UTF-8

  /** The UTF-8 octets of one code point (the UTF-8 transformation in Encode, section 19.2.6.5 of ECMA-262). */
  function Utf8(c: Scalar): (r: seq<Byte>)
    ensures 1 <= |r| <= 4
  {
    if c < 0x80 then [c]
    else if c < 0x800 then [0xC0 + c / 0x40, 0x80 + c % 0x40]
    else if c < 0x1_0000 then [0xE0 + c / 0x40 / 0x40, 0x80 + c / 0x40 % 0x40, 0x80 + c % 0x40]
    else [0xF0 + c / 0x40 / 0x40 / 0x40, 0x80 + c / 0x40 / 0x40 % 0x40, 0x80 + c / 0x40 % 0x40, 0x80 + c % 0x40]
  }

  function Utf8All(cs: seq<Scalar>): seq<Byte>
  {
    if cs == [] then [] else Utf8(cs[0]) + Utf8All(cs[1..])
  }

  predicate IsContinuation(b: Byte) { 0x80 <= b < 0xC0 }

  /**
    Decodes UTF-8, refusing truncated sequences, stray continuation bytes,
    overlong forms, surrogates and values above U+10FFFF.
  */
  function Utf8Decode(bs: seq<Byte>): Option<seq<Scalar>>
    decreases |bs|
  {
    if bs == [] then Some([])
    else
      var b0: int := bs[0];
      var n := if b0 < 0x80 then 1 else if 0xC0 <= b0 < 0xE0 then 2
               else if 0xE0 <= b0 < 0xF0 then 3 else if 0xF0 <= b0 < 0xF8 then 4 else 0;
      if n == 0 || |bs| < n || exists k :: 1 <= k < n && !IsContinuation(bs[k]) then None
      else
        var c :=
          if n == 1 then b0
          else if n == 2 then (b0 - 0xC0) * 0x40 + (bs[1] as int - 0x80)
          else if n == 3 then ((b0 - 0xE0) * 0x40 + (bs[1] as int - 0x80)) * 0x40 + (bs[2] as int - 0x80)
          else (((b0 - 0xF0) * 0x40 + (bs[1] as int - 0x80)) * 0x40 + (bs[2] as int - 0x80)) * 0x40 + (bs[3] as int - 0x80);
        var least := if n == 1 then 0 else if n == 2 then 0x80 else if n == 3 then 0x800 else 0x1_0000;
        if c < least || 0xD800 <= c < 0xE000 || 0x11_0000 <= c then None
        else
          match Utf8Decode(bs[n..])
          case None => None
          case Some(rest) => Some([c as Scalar] + rest)
  }

  lemma Utf8DecodeOne(c: Scalar, rest: seq<Byte>)
    ensures Utf8Decode(Utf8(c) + rest) ==
            match Utf8Decode(rest) case None => None case Some(cs) => Some([c] + cs)
  {
    if c < 0x80 {
      assert (Utf8(c) + rest)[1..] == rest;
    } else if c < 0x800 {
      Utf8DecodeTwo(c, rest);
    } else if c < 0x1_0000 {
      Utf8DecodeThree(c, rest);
    } else {
      Utf8DecodeFour(c, rest);
    }
  }

  lemma Utf8DecodeTwo(c: Scalar, rest: seq<Byte>)
    requires 0x80 <= c < 0x800
    ensures Utf8Decode(Utf8(c) + rest) ==
            match Utf8Decode(rest) case None => None case Some(cs) => Some([c] + cs)
  {
    var bs := Utf8(c) + rest;
    assert bs[2..] == rest;
    assert bs[0] == 0xC0 + c / 0x40 && bs[1] == 0x80 + c % 0x40;
  }

  lemma Utf8DecodeThree(c: Scalar, rest: seq<Byte>)
    requires 0x800 <= c < 0x1_0000
    ensures Utf8Decode(Utf8(c) + rest) ==
            match Utf8Decode(rest) case None => None case Some(cs) => Some([c] + cs)
  {
    var bs := Utf8(c) + rest;
    assert bs[3..] == rest;
    var q := c / 0x40;
    assert bs[0] == 0xE0 + q / 0x40 && bs[1] == 0x80 + q % 0x40 && bs[2] == 0x80 + c % 0x40;
  }

  lemma Utf8DecodeFour(c: Scalar, rest: seq<Byte>)
    requires 0x1_0000 <= c
    ensures Utf8Decode(Utf8(c) + rest) ==
            match Utf8Decode(rest) case None => None case Some(cs) => Some([c] + cs)
  {
    var bs := Utf8(c) + rest;
    assert bs[4..] == rest;
    var q := c / 0x40;
    var q2 := q / 0x40;
    assert bs[0] == 0xF0 + q2 / 0x40 && bs[1] == 0x80 + q2 % 0x40;
    assert bs[2] == 0x80 + q % 0x40 && bs[3] == 0x80 + c % 0x40;
  }

  /** UTF-8 decoding undoes UTF-8 encoding. */
  lemma {:induction false} Utf8RoundTrip(cs: seq<Scalar>)
    ensures Utf8Decode(Utf8All(cs)) == Some(cs)
    decreases |cs|
  {
    if cs != [] {
      Utf8RoundTrip(cs[1..]);
      Utf8DecodeOne(cs[0], Utf8All(cs[1..]));
      assert [cs[0]] + cs[1..] == cs;
    }
  }
}
