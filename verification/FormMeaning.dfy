/** What form-urlencoded text stands for, character by character, and how a query falls into parameters. */
module FormMeaning {
  import opened Bytes
  import opened FormUrl

  const UPPER := Ascii("0123456789ABCDEF")
  const LOWER := Ascii("0123456789abcdef")
  const PUNCTUATION := Ascii("*-._")

  /** `c` is a hexadecimal digit of value `v`, in either case. */
  predicate HexOf(c: byte, v: nat) { v < 16 && (c == UPPER[v] || c == LOWER[v]) }

  ghost predicate HexAt(s: bytes, i: nat) { i < |s| && exists v :: HexOf(s[i], v) }

  lemma HexExactly(c: byte, v: nat)
    ensures HexOf(c, v) ==> IsHex(c) && HexValue(c) == v
    ensures IsHex(c) ==> HexOf(c, HexValue(c))
  {
    if v < 16 { DigitsAt(v); }
    if IsHex(c) { DigitsAt(HexValue(c)); }
  }

  lemma DigitsAt(v: nat)
    requires v < 16
    ensures UPPER[v] as int == (if v < 10 then 0x30 + v else 0x41 + v - 10)
    ensures LOWER[v] as int == (if v < 10 then 0x30 + v else 0x61 + v - 10)
  {
  }

  // ----- Decoding -----

  /** A percent sign and two digits, each in either case, are one byte. */
  lemma DecodesEscape(b: byte, h: byte, l: byte, rest: bytes)
    requires HexOf(h, b as int / 16) && HexOf(l, b as int % 16)
    ensures Decode([PERCENT, h, l] + rest) == [b] + Decode(rest)
  {
    hide HexOf, HexValue;
    HexExactly(h, b as int / 16);
    HexExactly(l, b as int % 16);
    var s := [PERCENT, h, l] + rest;
    assert s[3..] == rest;
    assert HexValue(h) * 16 + HexValue(l) == b as int;
  }

  /** A plus sign is a space. */
  lemma DecodesPlus(rest: bytes)
    ensures Decode([PLUS] + rest) == [SPACE] + Decode(rest)
  {
    assert ([PLUS] + rest)[1..] == rest;
  }

  /** Everything else is itself, a percent sign without two digits behind it included. */
  lemma DecodesOther(c: byte, rest: bytes)
    requires c != PLUS && !(c == PERCENT && HexAt(rest, 0) && HexAt(rest, 1))
    ensures Decode([c] + rest) == [c] + Decode(rest)
  {
    hide HexOf, HexValue;
    var s := [c] + rest;
    assert s[1..] == rest;
    if HasEscape(s) {
      HexExactly(rest[0], HexValue(rest[0]));
      HexExactly(rest[1], HexValue(rest[1]));
    }
  }

  // ----- Encoding -----

  /** The characters that stand for themselves. */
  predicate Plain(c: byte) { IsDigit(c) || IsAlpha(c) || c in PUNCTUATION }

  /** A space is a plus sign, a plain character itself, every other byte a percent sign and two upper-case digits. */
  lemma EncodesByte(b: byte, rest: bytes)
    ensures Encode([b] + rest) ==
      (if b == SPACE then [PLUS] else if Plain(b) then [b] else [PERCENT, UPPER[b as int / 16], UPPER[b as int % 16]])
      + Encode(rest)
  {
    assert ([b] + rest)[1..] == rest;
    DigitsAt(b as int / 16);
    DigitsAt(b as int % 16);
    assert PUNCTUATION == [STAR, MINUS, DOT, UNDERSCORE];
  }

  // ----- Parameters of a query -----

  /** An ampersand ends a segment; a last one ends none further. */
  lemma SplitsAtAmpersand(g: bytes, rest: bytes)
    requires AMPERSAND !in g
    ensures Segments(g + [AMPERSAND] + rest) == [g] + Segments(rest)
    ensures Segments(g) == if g == [] then [] else [g]
  {
    var q := g + [AMPERSAND] + rest;
    IndexOfByteIs(q, AMPERSAND, |g|);
    assert q[..|g|] == g && q[|g| + 1..] == rest;
    IndexOfByteIs(g, AMPERSAND, |g|);
    assert g[..|g|] == g;
  }

  /** The first equals sign parts the name from the value; without one there is no value. */
  lemma PartsAtEquals(name: bytes, value: bytes)
    requires EQUALS !in name
    ensures SegmentKey(name + [EQUALS] + value) == name && SegmentValue(name + [EQUALS] + value) == value
    ensures SegmentKey(name) == name && SegmentValue(name) == []
  {
    var g := name + [EQUALS] + value;
    IndexOfByteIs(g, EQUALS, |name|);
    assert g[..|name|] == name && g[|name| + 1..] == value;
    IndexOfByteIs(name, EQUALS, |name|);
    assert name[..|name|] == name;
  }

  /** Segment `i` alone has the decoded name, and `v` is its value encoded anew. */
  predicate MatchesAlone(gs: seq<bytes>, key: bytes, v: bytes, i: nat) {
    && i < |gs| && Decode(SegmentKey(gs[i])) == key && v == Encode(Decode(SegmentValue(gs[i])))
    && forall j :: 0 <= j < |gs| && j != i ==> Decode(SegmentKey(gs[j])) != key
  }

  /** The parameter has a value exactly when one segment alone has its decoded name: that segment's, encoded anew. */
  lemma QueryParamExactly(query: bytes, name: bytes, v: bytes)
    ensures QueryParam(query, name) == Some(v) <==>
      exists i: nat :: MatchesAlone(Segments(query), Decode(name), v, i)
  {
    hide Segments, Decode, Encode, SegmentKey, SegmentValue, UniqueMatch;
    var gs, key := Segments(query), Decode(name);
    forall g
      ensures UniqueMatch(gs, key) == Some(g) <==> IsOnlyMatch(gs, key, g)
    {
      UniqueMatchExact(gs, key, g);
    }
    if QueryParam(query, name) == Some(v) {
      var g := UniqueMatch(gs, key).value;
      assert IsOnlyMatch(gs, key, g);
      var i: nat :| i < |gs| && gs[i] == g && OnlyAt(gs, key, i);
      assert MatchesAlone(Segments(query), Decode(name), v, i);
    }
    if exists i: nat :: MatchesAlone(gs, key, v, i) {
      var i: nat :| MatchesAlone(gs, key, v, i);
      assert OnlyAt(gs, key, i);
      assert IsOnlyMatch(gs, key, gs[i]);
      UniqueMatchExact(gs, key, gs[i]);
      assert UniqueMatch(gs, key) == Some(gs[i]);
      assert QueryParam(query, name) == Some(v);
    }
  }
}
