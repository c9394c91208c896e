/**
 * Reading undoes writing: on every well-formed value the reader consumes exactly what
 * the serializer emitted and gives the value back, so serialization is injective.
 */
module SfvRoundTrip {
  import opened Bytes
  import opened Sfv
  import Base64

  /** Bytes that may follow a bare item without being absorbed by it. */
  predicate EndsBare(rest: bytes) { Ends(rest, TokenClass) }

  /** Bytes that may follow parameters without being absorbed by them. */
  predicate EndsParams(rest: bytes) {
    Ends(rest, TokenClass) && !StartsWith(rest, SEMICOLON) && !StartsWith(rest, EQUALS)
  }

  lemma EndsNarrower(rest: bytes)
    requires Ends(rest, TokenClass)
    ensures Ends(rest, KeyClass) && Ends(rest, DigitClass) && !StartsWith(rest, DOT)
  {
  }

  lemma {:induction false} RunLengthConcat(u: bytes, rest: bytes, cl: CharClass)
    requires AllIn(u, cl) && Ends(rest, cl)
    ensures RunLength(u + rest, cl) == |u|
  {
    if u == [] {
      assert u + rest == rest;
    } else {
      assert (u + rest)[1..] == u[1..] + rest;
      RunLengthConcat(u[1..], rest, cl);
    }
  }

  lemma KeyRoundTrip(k: bytes, rest: bytes)
    requires ValidKey(k) && Ends(rest, KeyClass)
    ensures ReadKey(k + rest) == Parsed(k, rest)
  {
    assert (k + rest)[1..] == k[1..] + rest;
    RunLengthConcat(k[1..], rest, KeyClass);
  }

  lemma TokenRoundTrip(t: bytes, rest: bytes)
    requires ValidToken(t) && Ends(rest, TokenClass)
    ensures ReadToken(t + rest) == Parsed(t, rest)
  {
    assert (t + rest)[1..] == t[1..] + rest;
    RunLengthConcat(t[1..], rest, TokenClass);
  }

  /** What the reader does with one character as the serializer emits it. */
  lemma TextStep(c: byte, more: bytes)
    requires IsPrintable(c)
    ensures ReadText((if NeedsEscape(c) then [BACKSLASH, c] else [c]) + more) == Prepend(c, ReadText(more))
  {
    var s := (if NeedsEscape(c) then [BACKSLASH, c] else [c]) + more;
    if NeedsEscape(c) {
      assert s[2..] == more;
    } else {
      assert s[1..] == more;
    }
  }

  lemma TextEnd(rest: bytes)
    ensures ReadText([DQUOTE] + rest) == Parsed([], rest)
  {
    assert ([DQUOTE] + rest)[1..] == rest;
  }

  lemma {:induction false} TextRoundTrip(t: bytes, rest: bytes)
    requires AllPrintable(t)
    ensures ReadText(Escape(t) + ([DQUOTE] + rest)) == Parsed(t, rest)
  {
    hide ReadText;
    var tail := [DQUOTE] + rest;
    if t == [] {
      assert Escape(t) + tail == tail;
      TextEnd(rest);
    } else {
      var head := if NeedsEscape(t[0]) then [BACKSLASH, t[0]] else [t[0]];
      TextRoundTrip(t[1..], rest);
      TextStep(t[0], Escape(t[1..]) + tail);
      assert Escape(t) + tail == head + (Escape(t[1..]) + tail);
      assert [t[0]] + t[1..] == t;
    }
  }

  lemma ColonAtConcat(u: bytes, rest: bytes)
    requires forall i :: 0 <= i < |u| ==> u[i] != COLON
    ensures IndexOfByte(u + ([COLON] + rest), COLON) == |u|
  {
    var s := u + ([COLON] + rest);
    assert s[|u|] == COLON;
    assert forall i :: 0 <= i < |u| ==> s[i] == u[i];
  }

  lemma ContentRoundTrip(c: bytes, rest: bytes)
    ensures ReadContent(Base64.Encode(c) + ([COLON] + rest)) == Parsed(c, rest)
  {
    hide Base64.Encode, Base64.Decode, Base64.PaddingOk, IndexOfByte;
    var u := Base64.Encode(c);
    Base64.RoundTrip(c);
    ColonAtConcat(u, rest);
    var s := u + ([COLON] + rest);
    assert s[..|u|] == u && s[|u| + 1..] == rest;
  }

  // ----- Numbers -----

  lemma DigitsValueSnoc(s: bytes, d: int)
    requires AllIn(s, DigitClass) && 0 <= d < 10
    ensures AllIn(s + [DigitChar(d)], DigitClass)
    ensures DigitsValue(s + [DigitChar(d)]) == DigitsValue(s) * 10 + d
  {
    var t := s + [DigitChar(d)];
    assert t[..|t| - 1] == s;
  }

  lemma {:induction false} DigitsValueOfDigits(n: nat)
    ensures DigitsValue(Digits(n)) == n
  {
    if n < 10 {
      DigitsValueSnoc([], n);
      assert [] + [DigitChar(n)] == [DigitChar(n)];
    } else {
      DigitsValueOfDigits(n / 10);
      DigitsValueSnoc(Digits(n / 10), n % 10);
    }
  }

  function Pow10(k: nat): (p: nat)
    ensures p >= 1
  {
    if k == 0 then 1 else 10 * Pow10(k - 1)
  }

  lemma {:induction false} DigitsLength(n: nat, k: nat)
    requires k >= 1 && n < Pow10(k)
    ensures |Digits(n)| <= k
  {
    if n >= 10 {
      assert Pow10(1) == 10 * Pow10(0);
      assert n / 10 < Pow10(k - 1);
      DigitsLength(n / 10, k - 1);
    }
  }

  lemma Magnitudes()
    ensures Pow10(12) == 1_000_000_000_000 && Pow10(15) == MAX_NUMBER + 1
  {
    assert Pow10(3) == 1000;
    assert Pow10(6) == 1_000_000;
    assert Pow10(9) == 1_000_000_000;
    assert Pow10(12) == 1_000_000_000_000;
  }

  lemma ShortDigits(a: int, b: int, c: int)
    requires 0 <= a < 10 && 0 <= b < 10 && 0 <= c < 10
    ensures AllIn([DigitChar(a), DigitChar(b), DigitChar(c)], DigitClass)
    ensures DigitsValue([DigitChar(a)]) == a
    ensures DigitsValue([DigitChar(a), DigitChar(b)]) == a * 10 + b
    ensures DigitsValue([DigitChar(a), DigitChar(b), DigitChar(c)]) == a * 100 + b * 10 + c
  {
    var x, y, z := DigitChar(a), DigitChar(b), DigitChar(c);
    DigitsValueSnoc([], a);
    assert [] + [x] == [x];
    DigitsValueSnoc([x], b);
    assert [x] + [y] == [x, y];
    DigitsValueSnoc([x, y], c);
    assert [x, y] + [z] == [x, y, z];
  }

  lemma FractionRoundTrip(f: nat)
    requires f < 1000
    ensures FractionValue(Fraction(f)) == f
  {
    hide DigitsValue, DigitChar;
    ShortDigits(f / 100, f / 10 % 10, f % 10);
    assert f == f / 100 * 100 + f / 10 % 10 * 10 + f % 10;
  }

  lemma MagnitudeIntegerRoundTrip(n: nat, sign: int, rest: bytes)
    requires n <= MAX_NUMBER && Ends(rest, TokenClass)
    ensures ReadMagnitude(Digits(n) + rest, sign) == Parsed(Integer(sign * n), rest)
  {
    hide RunLength, DigitsValue;
    Magnitudes();
    DigitsLength(n, 15);
    DigitsValueOfDigits(n);
    EndsNarrower(rest);
    var s := Digits(n) + rest;
    RunLengthConcat(Digits(n), rest, DigitClass);
    assert s[..|Digits(n)|] == Digits(n) && s[|Digits(n)|..] == rest;
  }

  lemma MagnitudeDecimalRoundTrip(n: nat, sign: int, rest: bytes)
    requires n <= MAX_NUMBER && Ends(rest, TokenClass)
    ensures ReadMagnitude(Digits(n / 1000) + ([DOT] + (Fraction(n % 1000) + rest)), sign)
            == Parsed(Decimal(sign * n), rest)
  {
    hide RunLength, DigitsValue, Digits, Fraction, FractionValue;
    Magnitudes();
    var i, f := Digits(n / 1000), Fraction(n % 1000);
    DigitsLength(n / 1000, 12);
    DigitsValueOfDigits(n / 1000);
    FractionRoundTrip(n % 1000);
    EndsNarrower(rest);
    var t := f + rest;
    var s := i + ([DOT] + t);
    RunLengthConcat(i, [DOT] + t, DigitClass);
    assert s[..|i|] == i && s[|i|..] == [DOT] + t && s[|i| + 1..] == t;
    RunLengthConcat(f, rest, DigitClass);
    assert t[..|f|] == f && t[|f|..] == rest;
    assert n / 1000 * 1000 + n % 1000 == n;
  }

  lemma NumberSign(v: int, body: bytes)
    requires body != [] && IsDigit(body[0])
    ensures var s := Sign(v) + body;
      && ReadNumber(s) == ReadMagnitude(body, if v < 0 then -1 else 1)
      && s != [] && (s[0] == MINUS || IsDigit(s[0]))
  {
    var s := Sign(v) + body;
    if v < 0 {
      assert s[1..] == body;
    } else {
      assert s == body;
    }
  }

  lemma IntegerRoundTrip(v: int, rest: bytes)
    requires ValidBare(Integer(v)) && EndsBare(rest)
    ensures ReadBare(WriteInteger(v) + rest) == Parsed(Integer(v), rest)
  {
    hide ReadMagnitude, Digits;
    var body := Digits(Abs(v)) + rest;
    assert WriteInteger(v) + rest == Sign(v) + body;
    assert InClass(body[0], DigitClass);
    NumberSign(v, body);
    MagnitudeIntegerRoundTrip(Abs(v), if v < 0 then -1 else 1, rest);
  }

  lemma DecimalRoundTrip(v: int, rest: bytes)
    requires ValidBare(Decimal(v)) && EndsBare(rest)
    ensures ReadBare(WriteDecimal(v) + rest) == Parsed(Decimal(v), rest)
  {
    hide ReadMagnitude, Digits, Fraction;
    var n := Abs(v);
    var body := Digits(n / 1000) + ([DOT] + (Fraction(n % 1000) + rest));
    assert WriteDecimal(v) + rest == Sign(v) + body;
    assert InClass(Digits(n / 1000)[0], DigitClass);
    NumberSign(v, body);
    MagnitudeDecimalRoundTrip(n, if v < 0 then -1 else 1, rest);
  }

  // ----- Bare items -----

  lemma BareRoundTrip(b: Bare, rest: bytes)
    requires ValidBare(b) && EndsBare(rest)
    ensures ReadBare(WriteBare(b) + rest) == Parsed(b, rest)
  {
    hide ReadNumber, ReadText, ReadContent, ReadToken, Base64.Encode, Escape, WriteInteger, WriteDecimal;
    match b
    case Integer(v) => IntegerRoundTrip(v, rest);
    case Decimal(v) => DecimalRoundTrip(v, rest);
    case String(t) =>
      TextRoundTrip(t, rest);
      assert (WriteBare(b) + rest)[1..] == Escape(t) + ([DQUOTE] + rest);
    case Token(t) =>
      TokenRoundTrip(t, rest);
    case ByteSequence(c) =>
      ContentRoundTrip(c, rest);
      assert (WriteBare(b) + rest)[1..] == Base64.Encode(c) + ([COLON] + rest);
    case Boolean(f) =>
      assert (WriteBare(b) + rest)[2..] == rest;
  }

  // ----- Parameters -----

  lemma SkipSpacesNone(s: bytes)
    requires !StartsWith(s, SPACE)
    ensures SkipSpaces(s) == s
  {
  }

  /** A parameter is read back when what follows it cannot be absorbed by its value. */
  lemma ParamRoundTrip(p: Param, rest: bytes)
    requires ValidParam(p) && EndsBare(rest) && !StartsWith(rest, EQUALS)
    ensures StartsWith(WriteParam(p) + rest, SEMICOLON)
    ensures ReadParam((WriteParam(p) + rest)[1..]) == Parsed(p, rest)
  {
    hide ReadKey, ReadBare, WriteBare, SkipSpaces;
    var tail := (if p.value == Boolean(true) then [] else [EQUALS] + WriteBare(p.value)) + rest;
    var s := (WriteParam(p) + rest)[1..];
    assert s == p.key + tail;
    EndsNarrower(rest);
    SkipSpacesNone(s);
    if p.value == Boolean(true) {
      assert tail == rest;
    } else {
      assert tail[1..] == WriteBare(p.value) + rest;
      BareRoundTrip(p.value, rest);
    }
    KeyRoundTrip(p.key, tail);
  }

  lemma WriteParamsStart(ps: seq<Param>)
    ensures ps == [] || StartsWith(WriteParams(ps), SEMICOLON)
  {
  }

  lemma {:induction false} RawParamsRoundTrip(ps: seq<Param>, rest: bytes)
    requires forall i :: 0 <= i < |ps| ==> ValidParam(ps[i])
    requires EndsParams(rest)
    ensures ReadRawParams(WriteParams(ps) + rest) == Parsed(ps, rest)
  {
    hide ReadParam, WriteParam;
    if ps == [] {
      assert WriteParams(ps) + rest == rest;
    } else {
      var more := WriteParams(ps[1..]) + rest;
      assert WriteParams(ps) + rest == WriteParam(ps[0]) + more;
      WriteParamsStart(ps[1..]);
      assert EndsBare(more) && !StartsWith(more, EQUALS) by {
        if ps[1..] == [] {
          assert more == rest;
        }
      }
      ParamRoundTrip(ps[0], more);
      RawParamsRoundTrip(ps[1..], rest);
      assert [ps[0]] + ps[1..] == ps;
    }
  }

  lemma {:induction false} FoldDistinct<V>(acc: seq<Keyed<V>>, raw: seq<Keyed<V>>)
    requires DistinctKeys(acc + raw)
    ensures Fold(acc, raw) == acc + raw
    decreases |raw|
  {
    if raw == [] {
      assert acc + raw == acc;
    } else {
      var all := acc + raw;
      assert IndexOf(acc, raw[0].key) == |acc| by {
        assert all[|acc|] == raw[0];
        assert forall j :: 0 <= j < |acc| ==> all[j] == acc[j];
      }
      assert acc + [raw[0]] + raw[1..] == all;
      FoldDistinct(acc + [raw[0]], raw[1..]);
    }
  }

  lemma ParamsRoundTrip(ps: seq<Param>, rest: bytes)
    requires ValidParams(ps) && EndsParams(rest)
    ensures ReadParams(WriteParams(ps) + rest) == Parsed(ps, rest)
  {
    RawParamsRoundTrip(ps, rest);
    assert [] + ps == ps;
    FoldDistinct([], ps);
  }

  // ----- Items and inner lists -----

  /** Reading an item gives back exactly what was written and stops exactly after it. */
  lemma ItemRoundTrip(x: Item, rest: bytes)
    requires ValidItem(x) && EndsParams(rest)
    ensures ReadItem(WriteItem(x) + rest) == Parsed(x, rest)
  {
    hide ReadBare, WriteBare, ReadParams, WriteParams;
    var tail := WriteParams(x.params) + rest;
    assert WriteItem(x) + rest == WriteBare(x.bare) + tail;
    WriteParamsStart(x.params);
    assert EndsBare(tail) by {
      if x.params == [] {
        assert WriteParams(x.params) == [] by { WriteParamsEmpty(); }
        assert tail == rest;
      }
    }
    BareRoundTrip(x.bare, tail);
    ParamsRoundTrip(x.params, rest);
  }

  lemma WriteParamsEmpty()
    ensures WriteParams([]) == []
  {
  }

  /** The first byte of a written bare item tells which reader applies. */
  lemma WriteBareStart(b: Bare)
    requires ValidBare(b)
    ensures var s := WriteBare(b); s != [] && s[0] != SPACE && s[0] != RPAREN
  {
    match b
    case Integer(v) => assert InClass(Digits(Abs(v))[0], DigitClass);
    case Decimal(v) => assert InClass(Digits(Abs(v) / 1000)[0], DigitClass);
    case _ =>
  }

  lemma {:induction false} ItemsRoundTrip(xs: seq<Item>, rest: bytes)
    requires forall i :: 0 <= i < |xs| ==> ValidItem(xs[i])
    ensures ReadItems(WriteItems(xs) + ([RPAREN] + rest)) == Parsed(xs, rest)
    ensures !StartsWith(WriteItems(xs) + ([RPAREN] + rest), SPACE)
  {
    hide ReadItem, WriteItem, SkipSpaces;
    var end := [RPAREN] + rest;
    var s := WriteItems(xs) + end;
    assert end[1..] == rest;
    if xs == [] {
      assert s == end;
    } else {
      ItemStart(xs[0]);
      if |xs| == 1 {
        ItemRoundTrip(xs[0], end);
        assert s == WriteItem(xs[0]) + end;
        assert [xs[0]] == xs;
      } else {
        var more := WriteItems(xs[1..]) + end;
        var gap := [SPACE] + more;
        assert s == WriteItem(xs[0]) + gap;
        ItemRoundTrip(xs[0], gap);
        ItemsRoundTrip(xs[1..], rest);
        SkipOneSpace(more);
        assert [xs[0]] + xs[1..] == xs;
      }
    }
  }

  lemma SkipOneSpace(s: bytes)
    requires !StartsWith(s, SPACE)
    ensures SkipSpaces([SPACE] + s) == s
  {
    assert ([SPACE] + s)[1..] == s;
  }

  lemma ItemStart(x: Item)
    requires ValidItem(x)
    ensures var s := WriteItem(x); s != [] && s[0] != SPACE && s[0] != RPAREN
  {
    hide WriteBare, WriteParams;
    WriteBareStart(x.bare);
  }

  lemma InnerListRoundTrip(l: InnerList, rest: bytes)
    requires ValidInnerList(l) && EndsParams(rest)
    ensures StartsWith(WriteInnerList(l) + rest, LPAREN)
    ensures ReadInnerList((WriteInnerList(l) + rest)[1..]) == Parsed(l, rest)
  {
    hide ReadItems, WriteItems, ReadParams, WriteParams, SkipSpaces;
    var tail := WriteParams(l.params) + rest;
    var body := WriteItems(l.items) + ([RPAREN] + tail);
    assert (WriteInnerList(l) + rest)[1..] == body;
    ItemsRoundTrip(l.items, tail);
    SkipSpacesNone(body);
    ParamsRoundTrip(l.params, rest);
  }

  lemma MemberRoundTrip(m: Member, rest: bytes)
    requires ValidMember(m) && EndsParams(rest)
    ensures ReadMember(WriteMember(m) + rest) == Parsed(m, rest)
  {
    hide ReadItem, WriteItem, ReadInnerList, WriteInnerList;
    match m
    case ListMember(l) => InnerListRoundTrip(l, rest);
    case ItemMember(x) =>
      ItemRoundTrip(x, rest);
      ItemNotParen(x);
  }

  lemma ItemNotParen(x: Item)
    requires ValidItem(x)
    ensures var s := WriteItem(x); s != [] && s[0] != LPAREN
  {
    match x.bare
    case Integer(v) => assert InClass(Digits(Abs(v))[0], DigitClass);
    case Decimal(v) => assert InClass(Digits(Abs(v) / 1000)[0], DigitClass);
    case _ =>
  }

  /**
   * Serialization is injective even with trailing bytes: two members whose text agrees,
   * whatever ends each of them, are the same member with the same rest.
   */
  lemma MemberInjective(m: Member, r: bytes, m': Member, r': bytes)
    requires ValidMember(m) && ValidMember(m') && EndsParams(r) && EndsParams(r')
    requires WriteMember(m) + r == WriteMember(m') + r'
    ensures m == m' && r == r'
  {
    MemberRoundTrip(m, r);
    MemberRoundTrip(m', r');
  }
}
