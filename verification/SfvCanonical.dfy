/** What the serializer writes, character by character (section 4.1 of RFC 8941): one spelling, the shortest. */
module SfvCanonical {
  import opened Bytes
  import opened Sfv
  import opened SfvGrammar
  import opened SfvRoundTrip
  import Base64

  // ----- Numbers -----

  /** Digits without a zero in front, but zero itself. */
  predicate NoLeadingZero(d: bytes) { |d| == 1 || (|d| > 1 && d[0] != 0x30) }

  /** Digits without a zero behind, but one. */
  predicate NoTrailingZero(f: bytes) { |f| == 1 || (|f| > 1 && f[|f| - 1] != 0x30) }

  lemma {:induction false} DigitsWritten(n: nat)
    ensures AllDigits(Digits(n)) && DigitsValue(Digits(n)) == n && NoLeadingZero(Digits(n))
    ensures n > 0 ==> Digits(n)[0] != 0x30
  {
    hide DigitsValue;
    DigitsValueOfDigits(n);
    if n >= 10 {
      DigitsWritten(n / 10);
      assert Digits(n) == Digits(n / 10) + [DigitChar(n % 10)];
    }
  }

  /** An integer is a minus sign if it is negative, and its digits. */
  lemma IntegerWritten(v: int) returns (d: bytes)
    ensures WriteInteger(v) == (if v < 0 then [0x2D] else []) + d
    ensures AllDigits(d) && NoLeadingZero(d) && DigitsValue(d) == if v < 0 then -v else v
  {
    hide Digits, DigitsValue;
    d := Digits(Abs(v));
    DigitsWritten(Abs(v));
  }

  lemma FractionWritten(n: nat)
    requires n < 1000
    ensures var f := Fraction(n);
      AllDigits(f) && 1 <= |f| <= 3 && NoTrailingZero(f) && FractionValue(f) == n
  {
    hide DigitsValue;
    FractionRoundTrip(n);
  }

  /** A decimal is a sign, the digits before the point, the point, and those behind it without idle zeros. */
  lemma DecimalWritten(v: int) returns (d: bytes, f: bytes)
    ensures WriteDecimal(v) == (if v < 0 then [0x2D] else []) + d + [0x2E] + f
    ensures AllDigits(d) && NoLeadingZero(d) && AllDigits(f) && 1 <= |f| <= 3 && NoTrailingZero(f)
    ensures DigitsValue(d) * 1000 + FractionValue(f) == if v < 0 then -v else v
  {
    hide Digits, DigitsValue, Fraction, FractionValue;
    var n := if v < 0 then -v else v;
    assert n == Abs(v);
    d, f := Digits(n / 1000), Fraction(n % 1000);
    DigitsWritten(n / 1000);
    FractionWritten(n % 1000);
    assert n / 1000 * 1000 + n % 1000 == n;
  }

  // ----- Everything else -----

  /** The other bare items between their marks. */
  lemma BareWritten(b: Bare)
    ensures match b
      case Integer(v) => WriteBare(b) == WriteInteger(v)
      case Decimal(v) => WriteBare(b) == WriteDecimal(v)
      case String(t) => WriteBare(b) == [0x22] + Escape(t) + [0x22]
      case Token(t) => WriteBare(b) == t
      case ByteSequence(c) => WriteBare(b) == [0x3A] + Base64.Encode(c) + [0x3A]
      case Boolean(f) => WriteBare(b) == [0x3F, if f then 0x31 else 0x30]
  {
    hide WriteInteger, WriteDecimal, Escape, Base64.Encode;
  }

  /** Parameters one behind the other, each a semicolon, its key, and its value unless it is true. */
  lemma ParamsWritten(p: Param, ps: seq<Param>)
    ensures WriteParams([]) == []
    ensures WriteParams([p] + ps) ==
      [0x3B] + p.key + (if p.value == Boolean(true) then [] else [0x3D] + WriteBare(p.value)) + WriteParams(ps)
  {
    hide WriteBare;
    assert ([p] + ps)[1..] == ps;
    var value := if p.value == Boolean(true) then [] else [0x3D] + WriteBare(p.value);
    assert [0x3B] + (p.key + value) == [0x3B] + p.key + value;
  }

  /** An item is its bare item and its parameters. */
  lemma ItemWritten(x: Item)
    ensures WriteItem(x) == WriteBare(x.bare) + WriteParams(x.params)
  {
  }

  /** Items with one space between them. */
  lemma ItemsWritten(x: Item, y: Item, xs: seq<Item>)
    ensures WriteItems([]) == [] && WriteItems([x]) == WriteItem(x)
    ensures WriteItems([x, y] + xs) == WriteItem(x) + [0x20] + WriteItems([y] + xs)
  {
    hide WriteItem;
    assert ([x, y] + xs)[1..] == [y] + xs;
    assert WriteItem(x) + ([0x20] + WriteItems([y] + xs)) == WriteItem(x) + [0x20] + WriteItems([y] + xs);
  }

  /** A list is its items in parentheses, and its parameters. */
  lemma InnerListWritten(l: InnerList)
    ensures WriteInnerList(l) == [0x28] + WriteItems(l.items) + [0x29] + WriteParams(l.params)
  {
    hide WriteItems, WriteParams;
    assert [0x28] + (WriteItems(l.items) + ([0x29] + WriteParams(l.params)))
        == [0x28] + WriteItems(l.items) + [0x29] + WriteParams(l.params);
  }
}
