/**
 * The Structured Fields serializer as it runs: every method appends to one growing
 * buffer, and is proved to append exactly what its specification function emits.
 */
module SfvWriter {
  import opened Bytes
  import opened Sfv
  import opened SfvRoundTrip
  import Base64

  class Writer {
    var buf: bytes

    constructor ()
      ensures buf == []
    {
      buf := [];
    }

    method Append(s: bytes)
      modifies this
      ensures buf == old(buf) + s
    {
      buf := buf + s;
    }

    /** Digits are produced last to first into the end of a twenty-byte scratch area. */
    method AppendInteger(v: int64)
      requires -MAX_NUMBER <= v as int <= MAX_NUMBER
      modifies this
      ensures buf == old(buf) + WriteInteger(v as int)
    {
      hide Digits, DigitChar, WriteInteger, Sign;
      var magnitude := v;
      if v < 0 {
        Append([MINUS]);
        magnitude := -v;
      }
      SignIs(v as int);
      ghost var signed := buf;
      var digits := new byte[20];
      var p, rest := 20, magnitude;
      Magnitudes();
      DigitsLength(magnitude as int, 15);
      assert digits[20..] == [];
      p, rest := DigitStep(digits, p, rest, magnitude as int, true);
      while rest != 0
        invariant buf == signed && 0 <= rest && 0 < p <= 20
        invariant Remaining(rest as int) + digits[p..] == Digits(magnitude as int)
        decreases rest
      {
        p, rest := DigitStep(digits, p, rest, magnitude as int, false);
      }
      assert Remaining(0) + digits[p..] == digits[p..];
      Append(digits[p..]);
      IntegerParts(old(buf), v as int);
    }

    /** One turn of the digit loop; the first turn runs even for zero. */
    static method DigitStep(digits: array<byte>, p: int, rest: int64, ghost whole: nat, ghost first: bool)
      returns (p': int, rest': int64)
      requires digits.Length == 20 && 0 <= p <= 20 && rest >= 0 && |Digits(whole)| <= 15
      requires first ==> p == 20 && rest as int == whole
      requires !first ==> rest > 0 && Remaining(rest as int) + digits[p..] == Digits(whole)
      modifies digits
      ensures 0 < p' <= 20 && 0 <= rest' && (rest > 0 ==> rest' < rest)
      ensures Remaining(rest' as int) + digits[p'..] == Digits(whole)
    {
      hide DigitChar;
      ghost var tail := digits[p..];
      DigitsUnfold(rest as int);
      assert p > 0 by {
        if !first {
          assert |Remaining(rest as int)| + (20 - p) <= 15;
        }
      }
      p' := p - 1;
      digits[p'] := (0x30 + rest % 10) as byte;
      rest' := rest / 10;
      assert digits[p'..] == [DigitChar(rest as int % 10)] + tail by { DigitCharIs(rest as int % 10); }
      assert Remaining(rest' as int) + ([DigitChar(rest as int % 10)] + tail)
          == Remaining(rest' as int) + [DigitChar(rest as int % 10)] + tail;
      if first {
        assert Digits(whole) + tail == Digits(whole);
      }
    }

    /** The fraction keeps at least one digit and drops trailing zeros. */
    method AppendDecimal(v: int64)
      requires -MAX_NUMBER <= v as int <= MAX_NUMBER
      modifies this
      ensures buf == old(buf) + WriteDecimal(v as int)
    {
      hide Digits, Fraction, Sign, WriteDecimal, WriteInteger;
      var magnitude := v;
      if v < 0 {
        Append([MINUS]);
        magnitude := -v;
      }
      SignIs(v as int);
      ghost var signed := buf;
      Unsigned(magnitude as int / 1000);
      AppendInteger(magnitude / 1000);
      Append([DOT]);
      AppendFraction(magnitude % 1000);
      DecimalParts(old(buf), v as int);
    }

    method AppendFraction(frac: int64)
      requires 0 <= frac < 1000
      modifies this
      ensures buf == old(buf) + Fraction(frac as int)
    {
      if frac == 0 {
        Append([ZERO]);
        return;
      }
      var digits := [frac / 100, frac / 10 % 10, frac % 10];
      var last := 2;
      while last > 0 && digits[last] == 0
        invariant 0 <= last <= 2
        invariant forall k :: last < k <= 2 ==> digits[k] == 0
      {
        last := last - 1;
      }
      ghost var was := buf;
      for i := 0 to last + 1
        invariant |buf| == |was| + i && buf[..|was|] == was
        invariant forall k :: 0 <= k < i ==> buf[|was| + k] as int == 0x30 + digits[k] as int
      {
        Append([(0x30 + digits[i]) as byte]);
      }
      FractionShape(frac as int, last, buf[|was|..]);
      assert buf == buf[..|was|] + buf[|was|..];
    }

    method AppendText(t: bytes)
      modifies this
      ensures buf == old(buf) + ([DQUOTE] + (Escape(t) + [DQUOTE]))
    {
      Append([DQUOTE]);
      for i := 0 to |t|
        invariant buf + Escape(t[i..]) == old(buf) + [DQUOTE] + Escape(t)
      {
        assert t[i..][1..] == t[i + 1..];
        ghost var was := buf;
        if NeedsEscape(t[i]) {
          Append([BACKSLASH]);
        }
        Append([t[i]]);
        assert was + Escape(t[i..]) == buf + Escape(t[i + 1..]);
      }
      assert buf + [] == buf;
      Append([DQUOTE]);
    }

    method AppendBytes(c: bytes)
      modifies this
      ensures buf == old(buf) + ([COLON] + (Base64.Encode(c) + [COLON]))
    {
      hide Base64.Encode;
      var encoded := Base64.EncodeBytes(c);
      Append([COLON]);
      Append(encoded);
      Append([COLON]);
    }

    method AppendBare(b: Bare)
      requires ValidBare(b)
      modifies this
      ensures buf == old(buf) + WriteBare(b)
    {
      hide WriteInteger, WriteDecimal, Escape, Base64.Encode;
      match b
      case Integer(v) => AppendInteger(v as int64);
      case Decimal(v) => AppendDecimal(v as int64);
      case String(t) => AppendText(t);
      case Token(t) => Append(t);
      case ByteSequence(c) => AppendBytes(c);
      case Boolean(f) =>
        Append([QUESTION]);
        Append([if f then 0x31 else 0x30]);
    }

    /** A true Boolean is written as its key alone. */
    method AppendParams(ps: seq<Param>)
      requires forall i :: 0 <= i < |ps| ==> ValidParam(ps[i])
      modifies this
      ensures buf == old(buf) + WriteParams(ps)
    {
      hide WriteBare, WriteParam;
      for i := 0 to |ps|
        invariant buf + WriteParams(ps[i..]) == old(buf) + WriteParams(ps)
      {
        assert ps[i..][1..] == ps[i + 1..];
        ghost var was := buf;
        AppendParam(ps[i]);
        assert was + (WriteParam(ps[i]) + WriteParams(ps[i + 1..])) == buf + WriteParams(ps[i + 1..]);
      }
      assert buf + [] == buf;
    }

    method AppendParam(p: Param)
      requires ValidParam(p)
      modifies this
      ensures buf == old(buf) + WriteParam(p)
    {
      hide WriteBare, ValidKey;
      ghost var was := buf;
      Append([SEMICOLON]);
      Append(p.key);
      if p.value != Boolean(true) {
        Append([EQUALS]);
        AppendBare(p.value);
        assert was + [SEMICOLON] + p.key + [EQUALS] + WriteBare(p.value)
          == was + ([SEMICOLON] + (p.key + ([EQUALS] + WriteBare(p.value))));
      } else {
        assert was + [SEMICOLON] + p.key == was + ([SEMICOLON] + (p.key + []));
      }
    }

    method AppendItem(x: Item)
      requires ValidItem(x)
      modifies this
      ensures buf == old(buf) + WriteItem(x)
    {
      hide WriteBare, WriteParams;
      AppendBare(x.bare);
      AppendParams(x.params);
    }

    method AppendInnerList(l: InnerList)
      requires ValidInnerList(l)
      modifies this
      ensures buf == old(buf) + WriteInnerList(l)
    {
      hide WriteItem, WriteParams, WriteItems, Separated;
      Append([LPAREN]);
      ghost var start := buf;
      SeparatedEnds(l.items);
      for i := 0 to |l.items|
        invariant buf + Separated(i, l.items[i..]) == start + WriteItems(l.items)
      {
        SeparatedStep(i, l.items);
        ghost var was := buf;
        if i > 0 {
          Append([SPACE]);
        }
        AppendItem(l.items[i]);
        ghost var piece := (if i > 0 then [SPACE] else []) + WriteItem(l.items[i]);
        assert buf == was + piece;
        assert was + (piece + Separated(i + 1, l.items[i + 1..])) == buf + Separated(i + 1, l.items[i + 1..]);
      }
      assert buf + [] == buf;
      Append([RPAREN]);
      AppendParams(l.params);
      assert buf == old(buf) + [LPAREN] + WriteItems(l.items) + [RPAREN] + WriteParams(l.params);
    }
  }

  // ----- Facts about the loops -----

  lemma SignIs(v: int)
    ensures Sign(v) == if v < 0 then [MINUS] else []
    ensures Abs(v) == if v < 0 then -v else v
    ensures forall s: bytes :: v >= 0 ==> s + Sign(v) == s
  {
  }

  lemma IntegerParts(s: bytes, v: int)
    ensures s + WriteInteger(v) == s + Sign(v) + Digits(Abs(v))
  {
    hide Digits, Sign;
  }

  lemma Unsigned(n: nat)
    ensures WriteInteger(n) == Digits(n)
  {
    hide Digits;
    assert [] + Digits(n) == Digits(n);
  }

  lemma DecimalParts(s: bytes, v: int)
    ensures s + WriteDecimal(v) == s + Sign(v) + Digits(Abs(v) / 1000) + [DOT] + Fraction(Abs(v) % 1000)
  {
    hide Digits, Fraction, Sign;
    var i, f := Digits(Abs(v) / 1000), Fraction(Abs(v) % 1000);
    assert s + (Sign(v) + (i + ([DOT] + f))) == s + Sign(v) + i + [DOT] + f;
  }

  /** Digits still to be produced once the first has been. */
  function Remaining(n: nat): bytes { if n == 0 then [] else Digits(n) }

  lemma DigitsUnfold(n: nat)
    ensures Digits(n) == Remaining(n / 10) + [DigitChar(n % 10)]
  {
  }

  lemma DigitCharIs(d: int)
    requires 0 <= d < 10
    ensures DigitChar(d) as int == 0x30 + d
  {
  }

  /** The items from index `i` on, with the space that precedes each but the first. */
  function Separated(i: nat, xs: seq<Item>): bytes {
    if xs == [] then [] else if i == 0 then WriteItems(xs) else [SPACE] + WriteItems(xs)
  }

  lemma SeparatedStep(i: nat, xs: seq<Item>)
    requires i < |xs|
    ensures Separated(i, xs[i..]) == (if i > 0 then [SPACE] else []) + WriteItem(xs[i]) + Separated(i + 1, xs[i + 1..])
  {
    hide WriteItem;
    assert xs[i..][1..] == xs[i + 1..];
  }

  lemma FractionShape(f: nat, last: nat, tail: bytes)
    requires 0 < f < 1000 && last <= 2
    requires var d := [f / 100, f / 10 % 10, f % 10];
      && (last > 0 ==> d[last] != 0)
      && (forall k :: last < k <= 2 ==> d[k] == 0)
      && |tail| == last + 1 && forall k :: 0 <= k <= last ==> tail[k] as int == 0x30 + d[k]
    ensures tail == Fraction(f)
  {
    var d := [f / 100, f / 10 % 10, f % 10];
    assert d[2] == f % 10 && d[1] == f / 10 % 10;
    assert tail == seq(last + 1, k requires 0 <= k <= last => DigitChar(d[k]));
  }

  lemma SeparatedEnds(xs: seq<Item>)
    ensures Separated(0, xs[0..]) == WriteItems(xs) && Separated(|xs|, xs[|xs|..]) == []
  {
    assert xs[0..] == xs;
  }

  // ----- Entry points -----

  method SerializeItem(x: Item) returns (s: bytes)
    requires ValidItem(x)
    ensures s == WriteItem(x)
  {
    hide WriteItem;
    var w := new Writer();
    w.AppendItem(x);
    s := w.buf;
    assert s == [] + WriteItem(x);
  }

  method SerializeInnerList(l: InnerList) returns (s: bytes)
    requires ValidInnerList(l)
    ensures s == WriteInnerList(l)
  {
    hide WriteInnerList;
    var w := new Writer();
    w.AppendInnerList(l);
    s := w.buf;
    assert s == [] + WriteInnerList(l);
  }
}
