/**
 * The grammar of Structured Fields as a relation between text, value and what follows (sections
 * 3 and 4.2 of RFC 8941), and that the reader accepts exactly it: every spelling, not only the
 * canonical one, and nothing else.
 */
module SfvGrammar {
  import opened Bytes
  import opened Sfv
  import opened SfvRoundTrip
  import opened SfvSoundness
  import Base64

  // ----- Characters -----

  const KEY_CHARS := Ascii("abcdefghijklmnopqrstuvwxyz0123456789_-.*")
  const TOKEN_MARKS := Ascii("!#$%&'*+-.^_`|~:/")

  /** The characters of keys, tokens and numbers, written out. */
  lemma ClassExactly(c: byte)
    ensures InClass(c, KeyClass) <==> c in KEY_CHARS
    ensures InClass(c, TokenClass) <==> 0x30 <= c <= 0x39 || 0x41 <= c <= 0x5A || 0x61 <= c <= 0x7A || c in TOKEN_MARKS
    ensures InClass(c, DigitClass) <==> 0x30 <= c <= 0x39
    ensures IsKeyStart(c) <==> 0x61 <= c <= 0x7A || c == 0x2A
    ensures IsTokenStart(c) <==> 0x41 <= c <= 0x5A || 0x61 <= c <= 0x7A || c == 0x2A
    ensures IsPrintable(c) <==> 0x20 <= c <= 0x7E
  {
    KeyChars(c);
    TokenMarks(c);
  }

  lemma KeyChars(c: byte)
    ensures c in KEY_CHARS <==> 0x61 <= c <= 0x7A || 0x30 <= c <= 0x39 || c in {0x5F, 0x2D, 0x2E, 0x2A}
  {
    var k := KEY_CHARS;
    assert |k| == 40 && forall i :: 0 <= i < 26 ==> k[i] as int == 0x61 + i;
    assert forall i :: 26 <= i < 36 ==> k[i] as int == 0x30 + i - 26;
    assert k[36] == 0x5F && k[37] == 0x2D && k[38] == 0x2E && k[39] == 0x2A;
    if 0x61 <= c <= 0x7A { assert k[c as int - 0x61] == c; }
    if 0x30 <= c <= 0x39 { assert k[c as int - 0x30 + 26] == c; }
  }

  lemma TokenMarks(c: byte)
    ensures c in TOKEN_MARKS <==>
      c in {0x21, 0x23, 0x24, 0x25, 0x26, 0x27, 0x2A, 0x2B, 0x2D, 0x2E, 0x5E, 0x5F, 0x60, 0x7C, 0x7E, 0x3A, 0x2F}
  {
    assert TOKEN_MARKS ==
      [0x21, 0x23, 0x24, 0x25, 0x26, 0x27, 0x2A, 0x2B, 0x2D, 0x2E, 0x5E, 0x5F, 0x60, 0x7C, 0x7E, 0x3A, 0x2F];
  }

  // ----- Keys, tokens and strings -----

  lemma KeyExactly(s: bytes, k: bytes, rest: bytes)
    ensures ReadKey(s) == Parsed(k, rest) <==> s == k + rest && ValidKey(k) && Ends(rest, KeyClass)
  {
    hide RunLength;
    if s == k + rest && ValidKey(k) && Ends(rest, KeyClass) {
      KeyRoundTrip(k, rest);
    }
    if s != [] { RunEnds(s, KeyClass); }
  }

  lemma RunEnds(s: bytes, cl: CharClass)
    requires s != []
    ensures var n := 1 + RunLength(s[1..], cl);
      s[..n] + s[n..] == s && s[n..] == s[1..][n - 1..] && Ends(s[n..], cl) && s[..n][1..] == s[1..][..n - 1]
  {
  }

  lemma TokenExactly(s: bytes, t: bytes, rest: bytes)
    ensures ReadToken(s) == Parsed(t, rest) <==> s == t + rest && ValidToken(t) && Ends(rest, TokenClass)
  {
    hide RunLength;
    if s == t + rest && ValidToken(t) && Ends(rest, TokenClass) {
      TokenRoundTrip(t, rest);
    }
    if s != [] { RunEnds(s, TokenClass); }
  }

  /** A string has one spelling: its text escaped, and a closing quote. */
  lemma {:induction false} TextExactly(s: bytes, t: bytes, rest: bytes)
    ensures ReadText(s) == Parsed(t, rest) <==> AllPrintable(t) && s == Escape(t) + ([DQUOTE] + rest)
    decreases |s|
  {
    if AllPrintable(t) && s == Escape(t) + ([DQUOTE] + rest) {
      TextRoundTrip(t, rest);
    }
    if ReadText(s) == Parsed(t, rest) {
      TextSpelled(s, t, rest);
    }
  }

  lemma {:induction false} TextSpelled(s: bytes, t: bytes, rest: bytes)
    requires ReadText(s) == Parsed(t, rest)
    ensures s == Escape(t) + ([DQUOTE] + rest)
    decreases |s|
  {
    hide Escape, ReadText;
    if s != [] && s[0] == DQUOTE {
      TextEnd(s[1..]);
      assert s == [DQUOTE] + s[1..];
      EscapeExactly(0, []);
    } else {
      var n, more := TextFront(s, t, rest);
      var tail := Escape(more) + ([DQUOTE] + rest);
      TextSpelled(s[n..], more, rest);
      EscapeExactly(s[n - 1], more);
      assert s == s[..n] + tail;
      assert Escape(t) + ([DQUOTE] + rest) == s[..n] + tail;
    }
  }

  /** The front of a string that can be read: one character, as it is escaped. */
  lemma TextFront(s: bytes, t: bytes, rest: bytes) returns (n: nat, more: bytes)
    requires ReadText(s) == Parsed(t, rest) && s != [] && s[0] != DQUOTE
    ensures 1 <= n <= |s| && s[..n] == (if s[n - 1] == 0x22 || s[n - 1] == 0x5C then [0x5C, s[n - 1]] else [s[n - 1]])
    ensures ReadText(s[n..]) == Parsed(more, rest) && t == [s[n - 1]] + more
  {
    n := if s[0] == BACKSLASH then 2 else 1;
    more := ReadText(s[n..]).value;
  }

  /** Escaping puts a backslash before quotes and backslashes, and changes nothing else. */
  lemma EscapeExactly(c: byte, t: bytes)
    ensures Escape([]) == [] && Escape([c] + t) == (if c == 0x22 || c == 0x5C then [0x5C, c] else [c]) + Escape(t)
  {
    assert ([c] + t)[1..] == t;
  }

  // ----- Byte sequences and Booleans -----

  /** Base64 up to the closing colon, `=` at its end only and at most twice. */
  ghost predicate ContentText(u: bytes, c: bytes) { 0x3A !in u && Padded(u) && Base64.Decode(u) == Some(c) }

  ghost predicate Padded(u: bytes) { exists a, pad :: IsPadded(u, a, pad) }

  predicate IsPadded(u: bytes, a: bytes, pad: bytes) {
    u == a + pad && 0x3D !in a && (pad == [] || pad == [0x3D] || pad == [0x3D, 0x3D])
  }

  lemma PaddedExactly(u: bytes)
    ensures Base64.PaddingOk(u) <==> Padded(u)
  {
    hide Base64.Unpadded;
    forall a, pad | IsPadded(u, a, pad)
      ensures Base64.PaddingOk(u)
    {
      Base64.UnpaddedConcat(a, pad);
      assert forall i :: |a| <= i < |u| ==> u[i] == pad[i - |a|];
    }
    if Base64.PaddingOk(u) {
      var a := Base64.Unpadded(u);
      var pad := u[|a|..];
      assert forall i :: 0 <= i < |pad| ==> pad[i] == 0x3D by {
        assert forall i :: 0 <= i < |pad| ==> pad[i] == u[|a| + i];
      }
      assert pad == [] || pad == [0x3D] || pad == [0x3D, 0x3D];
      assert u == a + pad;
      assert IsPadded(u, a, pad);
    }
  }

  lemma ContentExactly(s: bytes, c: bytes, rest: bytes)
    ensures ReadContent(s) == Parsed(c, rest) <==> exists u :: s == u + ([COLON] + rest) && ContentText(u, c)
  {
    hide Base64.PaddingOk, Base64.Decode, IndexOfByte, Padded;
    var n := IndexOfByte(s, COLON);
    if n < |s| {
      PaddedExactly(s[..n]);
      assert s == s[..n] + ([COLON] + s[n + 1..]);
      if ReadContent(s) == Parsed(c, rest) {
        assert ContentText(s[..n], c);
      }
    }
    forall u | s == u + ([COLON] + rest) && ContentText(u, c)
      ensures ReadContent(s) == Parsed(c, rest)
    {
      PaddedExactly(u);
      ColonAtConcat(u, rest);
      assert s[..|u|] == u && s[|u| + 1..] == rest;
    }
  }

  // ----- Numbers -----

  /** A sign or none. */
  predicate SignText(u: bytes, sign: int) { (u == [] && sign == 1) || (u == [0x2D] && sign == -1) }

  predicate AllDigits(d: bytes) { AllIn(d, DigitClass) }

  /** The text of a number with what follows: digits, and for a decimal a point and one to three more. */
  ghost predicate NumberText(s: bytes, b: Bare, rest: bytes) {
    match b
    case Integer(v) => exists u, sign, d :: IsInteger(s, v, rest, u, sign, d)
    case Decimal(v) => exists u, sign, d, f :: IsDecimal(s, v, rest, u, sign, d, f)
    case _ => false
  }

  predicate IsInteger(s: bytes, v: int, rest: bytes, u: bytes, sign: int, d: bytes) {
    && SignText(u, sign) && AllDigits(d) && 1 <= |d| <= 15 && v == sign * DigitsValue(d)
    && s == u + (d + rest) && Ends(rest, DigitClass) && !StartsWith(rest, 0x2E)
  }

  predicate IsDecimal(s: bytes, v: int, rest: bytes, u: bytes, sign: int, d: bytes, f: bytes) {
    && SignText(u, sign) && AllDigits(d) && AllDigits(f) && 1 <= |d| <= 12 && 1 <= |f| <= 3
    && v == sign * (DigitsValue(d) * 1000 + DigitsValue(f) * (if |f| == 1 then 100 else if |f| == 2 then 10 else 1))
    && s == u + (d + ([0x2E] + (f + rest))) && Ends(rest, DigitClass)
  }

  lemma RunOf(d: bytes, rest: bytes)
    requires AllDigits(d) && Ends(rest, DigitClass)
    ensures RunLength(d + rest, DigitClass) == |d| && (d + rest)[..|d|] == d && (d + rest)[|d|..] == rest
  {
    RunLengthConcat(d, rest, DigitClass);
  }

  lemma Unsigned(d: bytes, rest: bytes, u: bytes, sign: int)
    requires SignText(u, sign) && AllDigits(d) && d != []
    ensures ReadNumber(u + (d + rest)) == ReadMagnitude(d + rest, sign)
  {
    hide ReadMagnitude;
    assert InClass(d[0], DigitClass);
    var s := u + (d + rest);
    if u == [] {
      assert s == d + rest && s[0] == d[0];
    } else {
      assert s[1..] == d + rest;
    }
  }

  lemma NumberAccepted(s: bytes, b: Bare, rest: bytes)
    requires NumberText(s, b, rest)
    ensures ReadNumber(s) == Parsed(b, rest)
  {
    hide ReadNumber, ReadMagnitude, DigitsValue;
    match b
    case Integer(v) =>
      var u, sign, d :| IsInteger(s, v, rest, u, sign, d);
      Unsigned(d, rest, u, sign);
      IntegerAccepted(s, v, rest, u, sign, d);
    case Decimal(v) =>
      var u, sign, d, f :| IsDecimal(s, v, rest, u, sign, d, f);
      Unsigned(d, [0x2E] + (f + rest), u, sign);
      DecimalAccepted(s, v, rest, u, sign, d, f);
  }

  lemma IntegerAccepted(s: bytes, v: int, rest: bytes, u: bytes, sign: int, d: bytes)
    requires IsInteger(s, v, rest, u, sign, d)
    ensures ReadMagnitude(d + rest, sign) == Parsed(Integer(v), rest)
  {
    hide RunLength, DigitsValue;
    RunOf(d, rest);
  }

  lemma DecimalAccepted(s: bytes, v: int, rest: bytes, u: bytes, sign: int, d: bytes, f: bytes)
    requires IsDecimal(s, v, rest, u, sign, d, f)
    ensures ReadMagnitude(d + ([0x2E] + (f + rest)), sign) == Parsed(Decimal(v), rest)
  {
    hide RunLength, DigitsValue;
    var t := [0x2E] + (f + rest);
    RunOf(d, t);
    assert t[1..] == f + rest && (d + t)[|d| + 1..] == t[1..];
    RunOf(f, rest);
  }

  lemma NumberRead(s: bytes, b: Bare, rest: bytes)
    requires ReadNumber(s) == Parsed(b, rest)
    ensures NumberText(s, b, rest)
  {
    hide ReadMagnitude;
    if StartsWith(s, MINUS) {
      assert s == [0x2D] + s[1..];
      MagnitudeRead(s[1..], b, rest, [0x2D], -1);
    } else {
      assert s == [] + s;
      MagnitudeRead(s, b, rest, [], 1);
    }
  }

  lemma MagnitudeRead(m: bytes, b: Bare, rest: bytes, u: bytes, sign: int)
    requires ReadMagnitude(m, sign) == Parsed(b, rest) && SignText(u, sign)
    ensures NumberText(u + m, b, rest)
  {
    hide RunLength, DigitsValue, NumberText, SignText, FractionValue;
    var n := RunLength(m, DigitClass);
    if StartsWith(m[n..], DOT) {
      DecimalRead(m, n, b, rest, u, sign);
    } else {
      assert m == m[..n] + rest;
      IntegerParts(m[..n], rest, u, sign);
      IntegerText(u + m, b.value, rest, u, sign, m[..n]);
    }
  }

  lemma DecimalRead(m: bytes, n: nat, b: Bare, rest: bytes, u: bytes, sign: int)
    requires ReadMagnitude(m, sign) == Parsed(b, rest) && SignText(u, sign)
    requires n == RunLength(m, DigitClass) && StartsWith(m[n..], DOT)
    ensures NumberText(u + m, b, rest)
  {
    hide *;
    var d, f := DecimalDigits(m, n, b, rest, sign);
    DecimalParts(d, f, rest, u, sign);
    DecimalText(u + m, b.thousandths, rest, u, sign, d, f);
  }

  lemma DecimalDigits(m: bytes, n: nat, b: Bare, rest: bytes, sign: int) returns (d: bytes, f: bytes)
    requires ReadMagnitude(m, sign) == Parsed(b, rest) && n == RunLength(m, DigitClass) && StartsWith(m[n..], DOT)
    ensures AllDigits(d) && 1 <= |d| <= 12 && AllDigits(f) && 1 <= |f| <= 3 && Ends(rest, DigitClass)
    ensures b == Decimal(sign * (DigitsValue(d) * 1000 + FractionValue(f))) && m == d + ([0x2E] + (f + rest))
  {
    hide *;
    var k := DecimalLengths(m, n, b, rest, sign);
    d, f := m[..n], m[n + 1..][..k];
    CutAt(m, n);
    assert m[n + 1..] == f + rest;
  }

  lemma DecimalLengths(m: bytes, n: nat, b: Bare, rest: bytes, sign: int) returns (k: nat)
    requires ReadMagnitude(m, sign) == Parsed(b, rest) && n == RunLength(m, DigitClass) && StartsWith(m[n..], DOT)
    ensures n < |m| && m[n] == 0x2E && 1 <= n <= 12 && 1 <= k <= 3 && k <= |m[n + 1..]|
    ensures AllDigits(m[..n]) && AllDigits(m[n + 1..][..k]) && rest == m[n + 1..][k..] && Ends(rest, DigitClass)
    ensures b == Decimal(sign * (DigitsValue(m[..n]) * 1000 + FractionValue(m[n + 1..][..k])))
  {
    hide RunLength, DigitsValue, FractionValue, AllIn;
    k := RunLength(m[n + 1..], DigitClass);
  }

  lemma CutAt(m: bytes, n: nat)
    requires n < |m|
    ensures m == m[..n] + ([m[n]] + m[n + 1..])
  {
  }

  lemma IntegerParts(d: bytes, rest: bytes, u: bytes, sign: int)
    requires SignText(u, sign) && AllDigits(d) && 1 <= |d| <= 15 && Ends(rest, DigitClass) && !StartsWith(rest, DOT)
    ensures IsInteger(u + (d + rest), sign * DigitsValue(d), rest, u, sign, d)
  {
    hide DigitsValue;
  }

  lemma DecimalParts(d: bytes, f: bytes, rest: bytes, u: bytes, sign: int)
    requires SignText(u, sign) && AllDigits(d) && 1 <= |d| <= 12 && AllDigits(f) && 1 <= |f| <= 3
      && Ends(rest, DigitClass)
    ensures var v := sign * (DigitsValue(d) * 1000 + FractionValue(f));
      IsDecimal(u + (d + ([0x2E] + (f + rest))), v, rest, u, sign, d, f)
  {
    hide DigitsValue;
  }

  lemma IntegerText(s: bytes, v: int, rest: bytes, u: bytes, sign: int, d: bytes)
    requires IsInteger(s, v, rest, u, sign, d)
    ensures NumberText(s, Integer(v), rest)
  {
  }

  lemma DecimalText(s: bytes, v: int, rest: bytes, u: bytes, sign: int, d: bytes, f: bytes)
    requires IsDecimal(s, v, rest, u, sign, d, f)
    ensures NumberText(s, Decimal(v), rest)
  {
  }

  // ----- Bare items -----

  /** The text of a bare item with what follows. */
  ghost predicate BareText(s: bytes, b: Bare, rest: bytes) {
    match b
    case Integer(_) => NumberText(s, b, rest)
    case Decimal(_) => NumberText(s, b, rest)
    case String(t) => AllPrintable(t) && s == [0x22] + (Escape(t) + ([0x22] + rest))
    case Token(t) => s == t + rest && ValidToken(t) && Ends(rest, TokenClass)
    case ByteSequence(c) => exists u :: s == [0x3A] + (u + ([0x3A] + rest)) && ContentText(u, c)
    case Boolean(f) => s == [0x3F, if f then 0x31 else 0x30] + rest
  }

  lemma BareExactly(s: bytes, b: Bare, rest: bytes)
    ensures ReadBare(s) == Parsed(b, rest) <==> BareText(s, b, rest)
  {
    hide ReadNumber, ReadText, ReadContent, ReadToken, NumberText, ContentText, Escape, RunLength;
    if BareText(s, b, rest) {
      BareAccepted(s, b, rest);
    }
    if ReadBare(s) == Parsed(b, rest) {
      BareRead(s, b, rest);
    }
  }

  lemma NumberStarts(s: bytes, b: Bare, rest: bytes)
    requires NumberText(s, b, rest)
    ensures s != [] && (s[0] == MINUS || IsDigit(s[0]))
  {
    hide DigitsValue;
    match b
    case Integer(v) =>
      var u, sign, d :| IsInteger(s, v, rest, u, sign, d);
      assert InClass(d[0], DigitClass);
    case Decimal(v) =>
      var u, sign, d, f :| IsDecimal(s, v, rest, u, sign, d, f);
      assert InClass(d[0], DigitClass);
  }

  lemma BareAccepted(s: bytes, b: Bare, rest: bytes)
    requires BareText(s, b, rest)
    ensures ReadBare(s) == Parsed(b, rest)
  {
    hide ReadNumber, ReadText, ReadContent, ReadToken, NumberText, ContentText, Escape, RunLength;
    match b
    case Integer(v) => NumberStarts(s, b, rest); NumberAccepted(s, b, rest);
    case Decimal(v) => NumberStarts(s, b, rest); NumberAccepted(s, b, rest);
    case String(t) =>
      assert s[1..] == Escape(t) + ([DQUOTE] + rest);
      TextExactly(s[1..], t, rest);
    case Token(t) => TokenExactly(s, t, rest);
    case ByteSequence(c) =>
      var u :| s == [0x3A] + (u + ([0x3A] + rest)) && ContentText(u, c);
      assert s[1..] == u + ([COLON] + rest);
      ContentExactly(s[1..], c, rest);
    case Boolean(f) => assert s[2..] == rest;
  }

  lemma BareRead(s: bytes, b: Bare, rest: bytes)
    requires ReadBare(s) == Parsed(b, rest)
    ensures BareText(s, b, rest)
  {
    hide ReadNumber, ReadText, ReadContent, ReadToken, NumberText, ContentText, Escape, RunLength;
    assert s == [s[0]] + s[1..];
    if s[0] == MINUS || IsDigit(s[0]) {
      NumberRead(s, b, rest);
      NumberIs(s, b, rest);
    } else if s[0] == DQUOTE {
      TextExactly(s[1..], b.text, rest);
    } else if s[0] == COLON {
      ContentExactly(s[1..], b.content, rest);
      var u :| s[1..] == u + ([COLON] + rest) && ContentText(u, b.content);
      assert s == [0x3A] + (u + ([0x3A] + rest));
    } else if s[0] == QUESTION {
      assert s == [s[0], s[1]] + s[2..];
    } else {
      TokenExactly(s, b.name, rest);
    }
  }

  lemma NumberIs(s: bytes, b: Bare, rest: bytes)
    requires NumberText(s, b, rest)
    ensures b.Integer? || b.Decimal?
  {
  }

  // ----- Parameters -----

  predicate Spaces(s: bytes) { forall i :: 0 <= i < |s| ==> s[i] == 0x20 }

  /** What follows a key: an equals sign and a bare item, or nothing for a true Boolean. */
  ghost predicate ValueText(s: bytes, v: Bare, rest: bytes) {
    if StartsWith(s, 0x3D) then BareText(s[1..], v, rest) else v == Boolean(true) && s == rest
  }

  /** A semicolon, spaces, a key and its value. */
  ghost predicate ParamText(s: bytes, p: Param, rest: bytes) {
    exists sp, t :: IsParam(s, p, rest, sp, t)
  }

  ghost predicate IsParam(s: bytes, p: Param, rest: bytes, sp: bytes, t: bytes) {
    && Spaces(sp) && ValidKey(p.key) && Ends(t, KeyClass)
    && s == [0x3B] + (sp + (p.key + t)) && ValueText(t, p.value, rest)
  }

  /** Parameters as they come, repeats included, up to what is not one. */
  ghost predicate RawText(s: bytes, raw: seq<Param>, rest: bytes)
    decreases |raw|
  {
    if raw == [] then s == rest && !StartsWith(s, 0x3B)
    else exists t :: ParamText(s, raw[0], t) && RawText(t, raw[1..], rest)
  }

  /** The parameters of a text: of repeated keys the last value at the first place, sixteen keys at most. */
  ghost predicate ParamsText(s: bytes, ps: seq<Param>, rest: bytes) {
    |ps| <= 16 && exists raw :: RawText(s, raw, rest) && Merged(raw, ps)
  }

  lemma SkipExactly(sp: bytes, s: bytes)
    requires Spaces(sp) && !StartsWith(s, SPACE)
    ensures SkipSpaces(sp + s) == s
    decreases |sp|
  {
    if sp == [] {
      assert sp + s == s;
    } else {
      assert (sp + s)[1..] == sp[1..] + s;
      SkipExactly(sp[1..], s);
    }
  }

  lemma {:induction false} SkippedSpaces(s: bytes) returns (sp: bytes)
    ensures Spaces(sp) && s == sp + SkipSpaces(s)
  {
    sp := [];
    if StartsWith(s, SPACE) {
      var more := SkippedSpaces(s[1..]);
      sp := [s[0]] + more;
    }
  }

  lemma ValueExactly(s: bytes, v: Bare, rest: bytes)
    ensures ReadValue(s) == Parsed(v, rest) <==> ValueText(s, v, rest)
  {
    hide ReadBare, BareText;
    if StartsWith(s, EQUALS) { BareExactly(s[1..], v, rest); }
  }

  lemma ParamExactly(s: bytes, p: Param, rest: bytes)
    ensures StartsWith(s, SEMICOLON) && ReadParam(s[1..]) == Parsed(p, rest) <==> ParamText(s, p, rest)
  {
    hide ReadKey, ReadValue, ValueText, SkipSpaces;
    forall sp, t | IsParam(s, p, rest, sp, t)
      ensures StartsWith(s, SEMICOLON) && ReadParam(s[1..]) == Parsed(p, rest)
    {
      assert s[1..] == sp + (p.key + t);
      SkipExactly(sp, p.key + t);
      KeyExactly(p.key + t, p.key, t);
      ValueExactly(t, p.value, rest);
    }
    if StartsWith(s, SEMICOLON) && ReadParam(s[1..]) == Parsed(p, rest) {
      var sp := SkippedSpaces(s[1..]);
      var t := ReadKey(SkipSpaces(s[1..])).rest;
      KeyExactly(SkipSpaces(s[1..]), p.key, t);
      ValueExactly(t, p.value, rest);
      assert s == [0x3B] + s[1..];
      assert IsParam(s, p, rest, sp, t);
    }
  }

  lemma {:induction false} RawExactly(s: bytes, raw: seq<Param>, rest: bytes)
    ensures ReadRawParams(s) == Parsed(raw, rest) <==> RawText(s, raw, rest)
    decreases |raw|
  {
    hide ReadParam, ParamText;
    if raw != [] {
      forall t | ParamText(s, raw[0], t) && RawText(t, raw[1..], rest)
        ensures ReadRawParams(s) == Parsed(raw, rest)
      {
        ParamExactly(s, raw[0], t);
        RawExactly(t, raw[1..], rest);
        assert raw == [raw[0]] + raw[1..];
      }
      if ReadRawParams(s) == Parsed(raw, rest) {
        var p := ReadParam(s[1..]);
        ParamExactly(s, p.value, p.rest);
        assert raw == [p.value] + ReadRawParams(p.rest).value;
        RawExactly(p.rest, raw[1..], rest);
      }
    }
  }

  /** A key of one merge is in the other, and not before its own place when the places before agree. */
  lemma OtherPlace<V>(raw: seq<Keyed<V>>, a: seq<Keyed<V>>, b: seq<Keyed<V>>, n: nat) returns (j: nat)
    requires Merged(raw, a) && Merged(raw, b) && n < |a| && n <= |b|
    requires forall i :: 0 <= i < n ==> a[i] == b[i]
    ensures n <= j < |b| && b[j] == a[n]
    ensures n < j ==> IndexOf(raw, b[n].key) < IndexOf(raw, a[n].key)
  {
    hide LastValue, IndexOf;
    j := IndexOf(b, a[n].key);
    assert IndexOf(a, a[n].key) == n;
    assert Get(a, a[n].key) == Some(a[n].value) == Get(b, a[n].key);
  }

  lemma {:induction false} SamePrefix<V>(raw: seq<Keyed<V>>, a: seq<Keyed<V>>, b: seq<Keyed<V>>, n: nat)
    requires Merged(raw, a) && Merged(raw, b) && n <= |a|
    ensures n <= |b| && forall i :: 0 <= i < n ==> a[i] == b[i]
  {
    hide Merged, IndexOf;
    if n > 0 {
      SamePrefix(raw, a, b, n - 1);
      var j := OtherPlace(raw, a, b, n - 1);
      var k := OtherPlace(raw, b, a, n - 1);
    }
  }

  /** Merging has one result. */
  lemma MergedOnce<V>(raw: seq<Keyed<V>>, a: seq<Keyed<V>>, b: seq<Keyed<V>>)
    requires Merged(raw, a) && Merged(raw, b)
    ensures a == b
  {
    hide Merged;
    SamePrefix(raw, a, b, |a|);
    SamePrefix(raw, b, a, |b|);
  }

  lemma ParamsExactly(s: bytes, ps: seq<Param>, rest: bytes)
    ensures ReadParams(s) == Parsed(ps, rest) <==> ParamsText(s, ps, rest)
  {
    hide ReadRawParams, RawText, Fold, Merged;
    forall raw | RawText(s, raw, rest) && Merged(raw, ps) && |ps| <= 16
      ensures ReadParams(s) == Parsed(ps, rest)
    {
      RawExactly(s, raw, rest);
      FoldMerges(raw);
      MergedOnce(raw, ps, Fold([], raw));
    }
    if ReadParams(s) == Parsed(ps, rest) {
      var raw := ReadRawParams(s).value;
      RawExactly(s, raw, rest);
      FoldMerges(raw);
    }
  }

  // ----- Items and inner lists -----

  ghost predicate ItemText(s: bytes, x: Item, rest: bytes) {
    exists t :: BareText(s, x.bare, t) && ParamsText(t, x.params, rest)
  }

  lemma ItemExactly(s: bytes, x: Item, rest: bytes)
    ensures ReadItem(s) == Parsed(x, rest) <==> ItemText(s, x, rest)
  {
    hide ReadBare, ReadParams, BareText, ParamsText;
    forall t | BareText(s, x.bare, t) && ParamsText(t, x.params, rest)
      ensures ReadItem(s) == Parsed(x, rest)
    {
      BareExactly(s, x.bare, t);
      ParamsExactly(t, x.params, rest);
    }
    if ReadItem(s) == Parsed(x, rest) {
      var t := ReadBare(s).rest;
      BareExactly(s, x.bare, t);
      ParamsExactly(t, x.params, rest);
    }
  }

  /** Spaces, and then something else. */
  predicate Spaced(s: bytes, u: bytes) {
    |u| <= |s| && Spaces(s[..|s| - |u|]) && s[|s| - |u|..] == u && !StartsWith(u, 0x20)
  }

  lemma SpacedExactly(s: bytes, u: bytes)
    ensures SkipSpaces(s) == u <==> Spaced(s, u)
  {
    hide SkipSpaces;
    if Spaced(s, u) {
      SkipExactly(s[..|s| - |u|], u);
      assert s == s[..|s| - |u|] + u;
    }
    if SkipSpaces(s) == u {
      var sp := SkippedSpaces(s);
      assert s[..|s| - |u|] == sp;
    }
  }

  /** Items parted by spaces, any of them before the closing parenthesis, and that parenthesis. */
  ghost predicate ItemsText(s: bytes, xs: seq<Item>, rest: bytes)
    decreases |xs|, 0
  {
    if xs == [] then s == [0x29] + rest
    else exists t :: ItemText(s, xs[0], t) && AfterItem(t, xs[1..], rest)
  }

  ghost predicate AfterItem(t: bytes, xs: seq<Item>, rest: bytes)
    decreases |xs|, 1
  {
    if StartsWith(t, 0x29) then xs == [] && t == [0x29] + rest
    else StartsWith(t, 0x20) && exists u :: Spaced(t, u) && ItemsText(u, xs, rest)
  }

  lemma {:induction false} ItemsExactly(s: bytes, xs: seq<Item>, rest: bytes)
    ensures ReadItems(s) == Parsed(xs, rest) <==> ItemsText(s, xs, rest)
    decreases |xs|, 0
  {
    hide ReadItem, ItemText, SkipSpaces, Spaced;
    if xs != [] {
      forall t | ItemText(s, xs[0], t) && AfterItem(t, xs[1..], rest)
        ensures ReadItems(s) == Parsed(xs, rest)
      {
        ItemExactly(s, xs[0], t);
        NoParenthesis(s, xs[0], t);
        AfterAccepted(t, xs[1..], rest);
        ItemsStep(s, xs[0], t, xs[1..], rest);
        assert xs == [xs[0]] + xs[1..];
      }
      if ReadItems(s) == Parsed(xs, rest) {
        var x := ReadItem(s);
        ItemExactly(s, x.value, x.rest);
        AfterRead(x.rest, xs[1..], rest, xs);
      }
    } else {
      ParenthesisEnds(s, rest);
    }
  }

  lemma ItemsStep(s: bytes, x: Item, t: bytes, more: seq<Item>, rest: bytes)
    requires ReadItem(s) == Parsed(x, t) && s != [] && s[0] != RPAREN
    requires if StartsWith(t, RPAREN) then more == [] && t[1..] == rest
             else StartsWith(t, SPACE) && ReadItems(SkipSpaces(t)) == Parsed(more, rest)
    ensures ReadItems(s) == Parsed([x] + more, rest)
  {
    hide ReadItem, SkipSpaces;
    assert more == [] ==> [x] + more == [x];
  }

  lemma ParenthesisEnds(s: bytes, rest: bytes)
    ensures ReadItems(s) == Parsed([], rest) <==> s == [0x29] + rest
  {
    hide ReadItem, SkipSpaces;
    if s != [] { assert s == [s[0]] + s[1..]; }
  }

  lemma NoParenthesis(s: bytes, x: Item, t: bytes)
    requires ReadItem(s) == Parsed(x, t)
    ensures s != [] && s[0] != RPAREN
  {
    hide ReadNumber, ReadText, ReadContent, ReadToken, ReadParams;
  }

  lemma AfterAccepted(t: bytes, xs: seq<Item>, rest: bytes)
    requires AfterItem(t, xs, rest)
    ensures if StartsWith(t, RPAREN) then xs == [] && t[1..] == rest
            else StartsWith(t, SPACE) && ReadItems(SkipSpaces(t)) == Parsed(xs, rest)
    decreases |xs|, 1
  {
    hide ReadItems, ItemsText, SkipSpaces, Spaced;
    if StartsWith(t, RPAREN) {
      assert t[1..] == rest;
    } else {
      var u :| Spaced(t, u) && ItemsText(u, xs, rest);
      SpacedExactly(t, u);
      ItemsExactly(u, xs, rest);
    }
  }

  lemma AfterRead(t: bytes, tail: seq<Item>, rest: bytes, xs: seq<Item>)
    requires xs != [] && tail == xs[1..]
    requires if StartsWith(t, RPAREN) then |xs| == 1 && t[1..] == rest
             else
               && StartsWith(t, SPACE)
               && exists more :: ReadItems(SkipSpaces(t)) == Parsed(more, rest) && xs == [xs[0]] + more
    ensures AfterItem(t, tail, rest)
    decreases |tail|, 1
  {
    hide ReadItems, ItemsText, SkipSpaces, Spaced;
    if StartsWith(t, RPAREN) {
      assert t == [t[0]] + t[1..];
    } else {
      var more :| ReadItems(SkipSpaces(t)) == Parsed(more, rest) && xs == [xs[0]] + more;
      assert more == tail;
      SpacedExactly(t, SkipSpaces(t));
      ItemsExactly(SkipSpaces(t), tail, rest);
    }
  }

  /** An inner list behind its opening parenthesis: at most 64 items, and parameters of its own. */
  ghost predicate InnerListText(s: bytes, l: InnerList, rest: bytes) {
    |l.items| <= 64 && exists u, t :: Spaced(s, u) && ItemsText(u, l.items, t) && ParamsText(t, l.params, rest)
  }

  lemma InnerListExactly(s: bytes, l: InnerList, rest: bytes)
    ensures ReadInnerList(s) == Parsed(l, rest) <==> InnerListText(s, l, rest)
  {
    hide ReadItems, ReadParams, ItemsText, ParamsText, SkipSpaces, Spaced;
    forall u, t | Spaced(s, u) && ItemsText(u, l.items, t) && ParamsText(t, l.params, rest) && |l.items| <= 64
      ensures ReadInnerList(s) == Parsed(l, rest)
    {
      SpacedExactly(s, u);
      ItemsExactly(u, l.items, t);
      ParamsExactly(t, l.params, rest);
    }
    if ReadInnerList(s) == Parsed(l, rest) {
      var u := SkipSpaces(s);
      var t := ReadItems(u).rest;
      SpacedExactly(s, u);
      ItemsExactly(u, l.items, t);
      ParamsExactly(t, l.params, rest);
    }
  }

  // ----- Dictionaries -----

  ghost predicate MemberText(s: bytes, m: Member, rest: bytes) {
    match m
    case ListMember(l) => StartsWith(s, 0x28) && InnerListText(s[1..], l, rest)
    case ItemMember(x) => !StartsWith(s, 0x28) && ItemText(s, x, rest)
  }

  lemma MemberExactly(s: bytes, m: Member, rest: bytes)
    ensures ReadMember(s) == Parsed(m, rest) <==> MemberText(s, m, rest)
  {
    hide ReadItem, ReadInnerList, ItemText, InnerListText;
    if m.ItemMember? { ItemExactly(s, m.item, rest); }
    if m.ListMember? && StartsWith(s, LPAREN) { InnerListExactly(s[1..], m.list, rest); }
  }

  /** Behind a label: an equals sign and a member, or the parameters of a true Boolean. */
  ghost predicate LabelText(s: bytes, m: Member, rest: bytes) {
    if StartsWith(s, 0x3D) then MemberText(s[1..], m, rest)
    else m.ItemMember? && m.item.bare == Boolean(true) && ParamsText(s, m.item.params, rest)
  }

  ghost predicate EntryText(s: bytes, e: Entry, rest: bytes) {
    exists t :: ValidKey(e.key) && Ends(t, KeyClass) && s == e.key + t && LabelText(t, e.value, rest)
  }

  lemma EntryExactly(s: bytes, e: Entry, rest: bytes)
    ensures ReadEntry(s) == Parsed(e, rest) <==> EntryText(s, e, rest)
  {
    hide ReadKey, ReadEntryValue, LabelText;
    forall t | ValidKey(e.key) && Ends(t, KeyClass) && s == e.key + t && LabelText(t, e.value, rest)
      ensures ReadEntry(s) == Parsed(e, rest)
    {
      KeyExactly(s, e.key, t);
      LabelExactly(t, e.value, rest);
    }
    if ReadEntry(s) == Parsed(e, rest) {
      var t := ReadKey(s).rest;
      KeyExactly(s, e.key, t);
      LabelExactly(t, e.value, rest);
    }
  }

  lemma LabelExactly(s: bytes, m: Member, rest: bytes)
    ensures ReadEntryValue(s) == Parsed(m, rest) <==> LabelText(s, m, rest)
  {
    hide ReadMember, MemberText, ReadParams, ParamsText;
    if StartsWith(s, EQUALS) {
      MemberExactly(s[1..], m, rest);
    } else if m.ItemMember? {
      ParamsExactly(s, m.item.params, rest);
    }
  }

  predicate Blanks(s: bytes) { forall i :: 0 <= i < |s| ==> s[i] == 0x20 || s[i] == 0x09 }

  /** Blanks, and then something else. */
  predicate Blanked(s: bytes, u: bytes) {
    |u| <= |s| && Blanks(s[..|s| - |u|]) && s[|s| - |u|..] == u && (u == [] || (u[0] != 0x20 && u[0] != 0x09))
  }

  lemma {:induction false} BlankedExactly(s: bytes, u: bytes)
    ensures SkipBlank(s) == u <==> Blanked(s, u)
    decreases |s|
  {
    if s != [] && Blank(s[0]) {
      BlankedExactly(s[1..], u);
      if Blanked(s[1..], u) {
        assert s[..|s| - |u|] == [s[0]] + s[1..][..|s| - 1 - |u|];
      }
      if Blanked(s, u) {
        assert |u| < |s|;
        assert s[1..][..|s| - 1 - |u|] == s[..|s| - |u|][1..];
      }
    } else {
      assert s[..0] == [];
    }
  }

  /** Entries parted by commas with blanks around them, blanks after the last, and nothing more. */
  ghost predicate EntriesText(s: bytes, raw: seq<Entry>)
    decreases |raw|, 0
  {
    if raw == [] then s == [] else exists t :: EntryText(s, raw[0], t) && AfterEntry(t, raw[1..])
  }

  ghost predicate AfterEntry(t: bytes, raw: seq<Entry>)
    decreases |raw|, 1
  {
    if raw == [] then Blanks(t)
    else exists u, v :: Blanked(t, u) && StartsWith(u, 0x2C) && Blanked(u[1..], v) && v != [] && EntriesText(v, raw)
  }

  lemma {:induction false} EntriesExactly(s: bytes, raw: seq<Entry>)
    ensures ReadRawEntries(s) == Some(raw) <==> EntriesText(s, raw)
    decreases |raw|, 0
  {
    hide ReadEntry, EntryText, SkipBlank, Blanked, Blanks;
    if raw != [] {
      forall t | EntryText(s, raw[0], t) && AfterEntry(t, raw[1..])
        ensures ReadRawEntries(s) == Some(raw)
      {
        EntryExactly(s, raw[0], t);
        EntryThere(s, raw[0], t);
        EndAccepted(t, raw[1..]);
        EntriesStep(s, raw[0], t, raw[1..]);
        assert raw == [raw[0]] + raw[1..];
      }
      if ReadRawEntries(s) == Some(raw) {
        var e := ReadEntry(s);
        EntryExactly(s, e.value, e.rest);
        EndRead(e.rest, raw[1..], raw);
      }
    } else {
      SomeEntry(s);
    }
  }

  lemma EntriesStep(s: bytes, e: Entry, t: bytes, more: seq<Entry>)
    requires ReadEntry(s) == Parsed(e, t) && s != []
    requires var u := SkipBlank(t);
      if more == [] then u == []
      else u != [] && u[0] == COMMA && SkipBlank(u[1..]) != [] && ReadRawEntries(SkipBlank(u[1..])) == Some(more)
    ensures ReadRawEntries(s) == Some([e] + more)
  {
    hide ReadEntry, SkipBlank;
    assert more == [] ==> [e] + more == [e];
  }

  lemma SomeEntry(s: bytes)
    ensures ReadRawEntries(s) == Some([]) <==> s == []
  {
    hide ReadEntry, SkipBlank;
  }

  lemma EntryThere(s: bytes, e: Entry, t: bytes)
    requires ReadEntry(s) == Parsed(e, t)
    ensures s != []
  {
    hide ReadEntryValue;
  }

  lemma OnlyBlanks(t: bytes)
    ensures SkipBlank(t) == [] <==> Blanks(t)
  {
    hide SkipBlank;
    BlankedExactly(t, []);
    assert t[..|t| - 0] == t;
  }

  lemma EndAccepted(t: bytes, raw: seq<Entry>)
    requires AfterEntry(t, raw)
    ensures var u := SkipBlank(t);
      if raw == [] then u == []
      else u != [] && u[0] == COMMA && SkipBlank(u[1..]) != [] && ReadRawEntries(SkipBlank(u[1..])) == Some(raw)
    decreases |raw|, 1
  {
    hide ReadRawEntries, EntriesText, SkipBlank, Blanked, Blanks;
    if raw == [] {
      OnlyBlanks(t);
    } else {
      var u, v :| Blanked(t, u) && StartsWith(u, 0x2C) && Blanked(u[1..], v) && v != [] && EntriesText(v, raw);
      BlankedExactly(t, u);
      BlankedExactly(u[1..], v);
      EntriesExactly(v, raw);
    }
  }

  lemma EndRead(t: bytes, tail: seq<Entry>, raw: seq<Entry>)
    requires raw != [] && tail == raw[1..]
    requires var u := SkipBlank(t);
      if u == [] then |raw| == 1
      else u[0] == COMMA && SkipBlank(u[1..]) != []
           && exists more :: ReadRawEntries(SkipBlank(u[1..])) == Some(more) && raw == [raw[0]] + more
    ensures AfterEntry(t, tail)
    decreases |tail|, 1
  {
    hide ReadRawEntries, EntriesText, SkipBlank, Blanked, Blanks;
    var u := SkipBlank(t);
    BlankedExactly(t, u);
    OnlyBlanks(t);
    if u != [] {
      var v := SkipBlank(u[1..]);
      var more :| ReadRawEntries(v) == Some(more) && raw == [raw[0]] + more;
      assert more == tail;
      BlankedExactly(u[1..], v);
      EntriesExactly(v, tail);
      SomeEntry(v);
    }
  }

  /** A whole dictionary: at most 8192 bytes and 64 labels; repeats are merged and noted. */
  ghost predicate DictionaryText(s: bytes, d: Dictionary) {
    && |s| <= 8192 && |d.entries| <= 64
    && exists u, raw: seq<Entry> ::
         && Spaced(s, u) && EntriesText(u, raw) && Merged(raw, d.entries)
         && (d.duplicateKeys <==> exists i, j :: 0 <= i < j < |raw| && raw[i].key == raw[j].key)
  }

  /** A dictionary is parsed exactly from its spellings. */
  lemma DictionaryExactly(s: bytes, d: Dictionary)
    ensures ParseDictionary(s) == Some(d) <==> DictionaryText(s, d)
  {
    hide ReadRawEntries, EntriesText, SkipSpaces, Spaced, Fold, Merged;
    forall u, raw: seq<Entry> | Spaced(s, u) && EntriesText(u, raw) && Merged(raw, d.entries)
      ensures u == SkipSpaces(s) && ReadRawEntries(u) == Some(raw) && d.entries == Fold([], raw)
    {
      SpacedExactly(s, u);
      EntriesExactly(u, raw);
      FoldMerges(raw);
      MergedOnce(raw, d.entries, Fold([], raw));
    }
    if ParseDictionary(s) == Some(d) {
      var u := SkipSpaces(s);
      var raw := ReadRawEntries(u).value;
      SpacedExactly(s, u);
      EntriesExactly(u, raw);
      FoldMerges(raw);
    }
  }

  /** A whole item: spaces around it, and at most 8192 bytes. */
  ghost predicate WholeItemText(s: bytes, x: Item) {
    |s| <= 8192 && exists u, t :: Spaced(s, u) && ItemText(u, x, t) && Spaces(t)
  }

  lemma WholeItemExactly(s: bytes, x: Item)
    ensures ParseItem(s) == Some(x) <==> WholeItemText(s, x)
  {
    hide ReadItem, ItemText, SkipSpaces, Spaced, Spaces;
    forall u, t | Spaced(s, u) && ItemText(u, x, t) && Spaces(t)
      ensures u == SkipSpaces(s) && ReadItem(u) == Parsed(x, t) && SkipSpaces(t) == []
    {
      SpacedExactly(s, u);
      ItemExactly(u, x, t);
      AllSpaces(t);
    }
    if ParseItem(s) == Some(x) {
      var u := SkipSpaces(s);
      var t := ReadItem(u).rest;
      SpacedExactly(s, u);
      ItemExactly(u, x, t);
      AllSpaces(t);
    }
  }

  lemma AllSpaces(t: bytes)
    ensures SkipSpaces(t) == [] <==> Spaces(t)
  {
    hide SkipSpaces;
    SpacedExactly(t, []);
    assert t[..|t| - 0] == t;
  }
}
