/**
 * application/x-www-form-urlencoded text as `@query-param` needs it (section 2.2.8 of
 * RFC 9421): decoding, canonical encoding, and comparison without decoding first.
 */
module FormUrl {
  import opened Bytes

  predicate IsHex(c: byte) { IsDigit(c) || 0x61 <= c <= 0x66 || 0x41 <= c <= 0x46 }

  function HexValue(c: byte): (v: int)
    requires IsHex(c)
    ensures 0 <= v < 16
  {
    if IsDigit(c) then c as int - 0x30 else if 0x61 <= c <= 0x66 then c as int - 0x61 + 10 else c as int - 0x41 + 10
  }

  function HexDigit(v: int): (c: byte)
    requires 0 <= v < 16
    ensures IsHex(c) && HexValue(c) == v
  {
    if v < 10 then (0x30 + v) as byte else (0x41 + v - 10) as byte
  }

  predicate Unreserved(c: byte) {
    IsDigit(c) || IsAlpha(c) || c == STAR || c == MINUS || c == DOT || c == UNDERSCORE
  }

  /** A complete `%XX` at the front. */
  predicate HasEscape(s: bytes) { |s| >= 3 && s[0] == PERCENT && IsHex(s[1]) && IsHex(s[2]) }

  /** How many characters stand for the next decoded byte. */
  function UnitLength(s: bytes): (n: nat)
    requires s != []
    ensures 1 <= n <= |s|
  {
    if s[0] != PLUS && HasEscape(s) then 3 else 1
  }

  /** The decoded byte the front of `s` stands for. */
  function UnitByte(s: bytes): byte
    requires s != []
  {
    if s[0] == PLUS then SPACE
    else if HasEscape(s) then (HexValue(s[1]) * 16 + HexValue(s[2])) as byte
    else s[0]
  }

  function Decode(s: bytes): (d: bytes)
    ensures |d| <= |s|
  {
    if s == [] then [] else [UnitByte(s)] + Decode(s[UnitLength(s)..])
  }

  function EncodeByte(c: byte): bytes {
    if c == SPACE then [PLUS]
    else if Unreserved(c) then [c]
    else [PERCENT, HexDigit(c as int / 16), HexDigit(c as int % 16)]
  }

  function Encode(d: bytes): bytes {
    if d == [] then [] else EncodeByte(d[0]) + Encode(d[1..])
  }

  /** Bytes the encoder's sizing pass reserves. */
  function EncodedSize(d: bytes): nat {
    if d == [] then 0 else (if d[0] == SPACE || Unreserved(d[0]) then 1 else 3) + EncodedSize(d[1..])
  }

  lemma {:induction false} EncodedSizeExact(d: bytes)
    ensures |Encode(d)| == EncodedSize(d)
  {
    if d != [] {
      EncodedSizeExact(d[1..]);
    }
  }

  lemma DecodeUnit(c: byte, s: bytes)
    ensures Decode(EncodeByte(c) + s) == [c] + Decode(s)
  {
    var t := EncodeByte(c) + s;
    if c == SPACE || Unreserved(c) {
      assert t[1..] == s;
    } else {
      assert t[3..] == s;
      assert c as int / 16 * 16 + c as int % 16 == c as int;
    }
  }

  /** Decoding undoes encoding, for every byte string. */
  lemma {:induction false} RoundTrip(d: bytes)
    ensures Decode(Encode(d)) == d
  {
    if d != [] {
      RoundTrip(d[1..]);
      DecodeUnit(d[0], Encode(d[1..]));
      assert [d[0]] + d[1..] == d;
    }
  }

  /** Nothing the encoder emits ends a line or starts a new parameter. */
  lemma {:induction false} EncodeIsQuiet(d: bytes)
    ensures forall i :: 0 <= i < |Encode(d)| ==>
      Unreserved(Encode(d)[i]) || Encode(d)[i] == PLUS || Encode(d)[i] == PERCENT
  {
    if d != [] {
      EncodeIsQuiet(d[1..]);
    }
  }

  // ----- Segments of a query -----

  /** The `&`-separated segments; a trailing `&` opens no further segment. */
  function Segments(q: bytes): seq<bytes> {
    if q == [] then []
    else
      var n := IndexOfByte(q, AMPERSAND);
      [q[..n]] + (if n < |q| then Segments(q[n + 1..]) else [])
  }

  function SegmentKey(g: bytes): bytes { g[..IndexOfByte(g, EQUALS)] }

  /** What follows the first `=`, or nothing. */
  function SegmentValue(g: bytes): bytes {
    var n := IndexOfByte(g, EQUALS);
    if n < |g| then g[n + 1..] else []
  }

  /** The only segment with this decoded key, if there is exactly one. */
  function UniqueMatch(gs: seq<bytes>, name: bytes): Option<bytes> {
    if gs == [] then None
    else if Decode(SegmentKey(gs[0])) != name then UniqueMatch(gs[1..], name)
    else if exists i :: 1 <= i < |gs| && Decode(SegmentKey(gs[i])) == name then None
    else Some(gs[0])
  }

  /** The value of `@query-param`: the one matching segment's value, re-encoded canonically. */
  function QueryParam(query: bytes, name: bytes): Option<bytes> {
    var g := UniqueMatch(Segments(query), Decode(name));
    if g.None? then None else Some(Encode(Decode(SegmentValue(g.value))))
  }

  predicate OnlyAt(gs: seq<bytes>, name: bytes, i: nat)
    requires i < |gs|
  {
    forall j :: 0 <= j < |gs| ==> (Decode(SegmentKey(gs[j])) == name <==> j == i)
  }

  ghost predicate IsOnlyMatch(gs: seq<bytes>, name: bytes, g: bytes) {
    exists i :: 0 <= i < |gs| && gs[i] == g && OnlyAt(gs, name, i)
  }

  lemma OnlyMatchShift(gs: seq<bytes>, name: bytes, g: bytes)
    requires gs != [] && Decode(SegmentKey(gs[0])) != name
    ensures IsOnlyMatch(gs, name, g) <==> IsOnlyMatch(gs[1..], name, g)
  {
    hide Decode, SegmentKey;
    var t := gs[1..];
    assert forall j :: 1 <= j < |gs| ==> gs[j] == t[j - 1];
    if IsOnlyMatch(t, name, g) {
      var i :| 0 <= i < |t| && t[i] == g && OnlyAt(t, name, i);
      assert OnlyAt(gs, name, i + 1) && gs[i + 1] == g;
    }
    if IsOnlyMatch(gs, name, g) {
      var i :| 0 <= i < |gs| && gs[i] == g && OnlyAt(gs, name, i);
      assert forall j :: 0 <= j < |t| ==> t[j] == gs[j + 1];
      assert OnlyAt(t, name, i - 1) && t[i - 1] == g;
    }
  }

  lemma OnlyMatchFirst(gs: seq<bytes>, name: bytes, g: bytes)
    requires gs != [] && Decode(SegmentKey(gs[0])) == name
    ensures IsOnlyMatch(gs, name, g) <==> g == gs[0] && OnlyAt(gs, name, 0)
  {
    hide Decode, SegmentKey;
  }

  /** The search succeeds exactly when one and only one segment matches, and returns it. */
  lemma {:induction false} UniqueMatchExact(gs: seq<bytes>, name: bytes, g: bytes)
    ensures UniqueMatch(gs, name) == Some(g) <==> IsOnlyMatch(gs, name, g)
  {
    hide Decode, SegmentKey, IsOnlyMatch;
    if gs == [] {
      assert !IsOnlyMatch(gs, name, g) by { NoMatchInNone(name, g); }
    } else if Decode(SegmentKey(gs[0])) != name {
      UniqueMatchExact(gs[1..], name, g);
      OnlyMatchShift(gs, name, g);
    } else {
      OnlyMatchFirst(gs, name, g);
    }
  }

  lemma NoMatchInNone(name: bytes, g: bytes)
    ensures !IsOnlyMatch([], name, g)
  {
  }

  // ----- As it runs -----

  /** Decodes into a buffer as long as the input. */
  method DecodeText(raw: bytes) returns (d: bytes)
    ensures d == Decode(raw)
  {
    hide UnitByte, UnitLength;
    var dst := new byte[|raw|];
    var i, n := 0, 0;
    assert raw[0..] == raw;
    while i < |raw|
      invariant 0 <= n <= i <= |raw|
      invariant dst[..n] + Decode(raw[i..]) == Decode(raw)
    {
      ghost var was := dst[..n];
      var unit, c := FrontUnit(raw, i);
      assert Decode(raw[i..]) == [c] + Decode(raw[i + unit..]) by { assert raw[i..][unit..] == raw[i + unit..]; }
      dst[n] := c;
      n := n + 1;
      i := i + unit;
      assert dst[..n] == was + [c];
    }
    assert dst[..n] + [] == dst[..n];
    d := dst[..n];
  }

  /** The byte at `i`, decoded, and how far to advance. */
  method FrontUnit(raw: bytes, i: nat) returns (unit: nat, c: byte)
    requires i < |raw|
    ensures unit == UnitLength(raw[i..]) && c == UnitByte(raw[i..])
  {
    if raw[i] == PLUS {
      return 1, SPACE;
    }
    if raw[i] == PERCENT && i + 2 < |raw| && IsHex(raw[i + 1]) && IsHex(raw[i + 2]) {
      return 3, (HexValue(raw[i + 1]) * 16 + HexValue(raw[i + 2])) as byte;
    }
    return 1, raw[i];
  }

  /** Sizes the buffer in a first pass and fills it exactly in a second. */
  method EncodeText(d: bytes) returns (e: bytes)
    ensures e == Encode(d)
  {
    hide EncodeByte;
    var cap := 0;
    for i := 0 to |d|
      invariant cap + EncodedSize(d[i..]) == EncodedSize(d)
    {
      assert d[i..][1..] == d[i + 1..];
      cap := cap + if d[i] == SPACE || Unreserved(d[i]) then 1 else 3;
    }
    EncodedSizeExact(d);
    var dst := new byte[cap];
    var p := 0;
    for i := 0 to |d|
      invariant 0 <= p <= cap
      invariant dst[..p] + Encode(d[i..]) == Encode(d)
    {
      assert d[i..][1..] == d[i + 1..];
      ghost var was := dst[..p];
      EncodeRoom(was, d[i], Encode(d[i + 1..]));
      p := PutEncoded(dst, p, d[i]);
      assert dst[..p] == was + EncodeByte(d[i]);
    }
    assert dst[..p] + [] == dst[..p];
    e := dst[..p];
  }

  lemma EncodeRoom(was: bytes, c: byte, more: bytes)
    ensures |was + (EncodeByte(c) + more)| >= |was| + |EncodeByte(c)|
    ensures was + (EncodeByte(c) + more) == was + EncodeByte(c) + more
  {
  }

  method PutEncoded(dst: array<byte>, p: nat, c: byte) returns (q: nat)
    requires p + |EncodeByte(c)| <= dst.Length
    modifies dst
    ensures q == p + |EncodeByte(c)|
    ensures dst[..q] == old(dst[..p]) + EncodeByte(c)
  {
    if c == SPACE {
      dst[p] := PLUS;
      return p + 1;
    }
    if Unreserved(c) {
      dst[p] := c;
      return p + 1;
    }
    dst[p], dst[p + 1], dst[p + 2] := PERCENT, HexDigit(c as int / 16), HexDigit(c as int % 16);
    return p + 3;
  }

  /** Compares without decoding first: it stops at the first difference. */
  method KeyEquals(raw: bytes, target: bytes) returns (eq: bool)
    ensures eq == (Decode(raw) == target)
  {
    hide UnitByte, UnitLength;
    var i, j := 0, 0;
    assert raw[0..] == raw;
    while i < |raw|
      invariant 0 <= i <= |raw| && 0 <= j <= |target|
      invariant target[..j] + Decode(raw[i..]) == Decode(raw)
    {
      var unit, c := FrontUnit(raw, i);
      assert raw[i..][unit..] == raw[i + unit..];
      ghost var rest := Decode(raw[i..]);
      if j >= |target| || target[j] != c {
        assert Decode(raw)[j] == c;
        return false;
      }
      assert target[..j + 1] == target[..j] + [c];
      i := i + unit;
      j := j + 1;
    }
    assert target[..j] + [] == target[..j];
    eq := j == |target|;
  }

  method FindByte(s: bytes, c: byte) returns (n: nat)
    ensures n == IndexOfByte(s, c)
  {
    n := 0;
    while n < |s| && s[n] != c
      invariant 0 <= n <= |s|
      invariant forall i :: 0 <= i < n ==> s[i] != c
    {
      n := n + 1;
    }
  }

  /** Walks the query segment by segment and gives up on a second match. */
  method FindQueryParam(query: bytes, name: bytes) returns (r: Option<bytes>)
    ensures r == QueryParam(query, name)
  {
    hide Decode, Encode, SegmentKey, SegmentValue, UniqueMatch, Segments;
    var target := DecodeText(name);
    var found: Option<bytes> := None;
    var p := 0;
    ghost var gs := Segments(query);
    ghost var seen := 0;
    assert query[0..] == query;
    while p < |query|
      invariant 0 <= p <= |query| && 0 <= seen <= |gs|
      invariant Segments(query[p..]) == gs[seen..]
      invariant UniqueMatch(gs, target) == Pending(found, gs[seen..], target)
      decreases |query| - p
    {
      SegmentsUnfold(query, p);
      var n := FindByte(query[p..], AMPERSAND);
      var seg := query[p..p + n];
      assert seg == query[p..][..n] && gs[seen] == seg && gs[seen..][1..] == gs[seen + 1..];
      PendingStep(found, gs[seen..], target);
      var eq := FindByte(seg, EQUALS);
      var same := KeyEquals(seg[..eq], target);
      assert SegmentKey(seg) == seg[..eq] by { KeyOf(seg); }
      if same {
        if found.Some? {
          return None;
        }
        found := Some(seg);
      }
      p := if p + n < |query| then p + n + 1 else |query|;
      seen := seen + 1;
    }
    SegmentsEmpty(query, p);
    PendingEnd(found, target);
    if found.None? {
      return None;
    }
    var eq := FindByte(found.value, EQUALS);
    var value := if eq < |found.value| then found.value[eq + 1..] else [];
    assert SegmentValue(found.value) == value by { ValueOf(found.value); }
    var decoded := DecodeText(value);
    var encoded := EncodeText(decoded);
    r := Some(encoded);
  }

  // ----- Facts about the segment loop -----

  /** The answer given the match seen so far and the segments still to come. */
  function Pending(found: Option<bytes>, more: seq<bytes>, name: bytes): Option<bytes> {
    if found.None? then UniqueMatch(more, name)
    else if exists i :: 0 <= i < |more| && Decode(SegmentKey(more[i])) == name then None
    else found
  }

  lemma PendingStep(found: Option<bytes>, more: seq<bytes>, name: bytes)
    requires more != []
    ensures Decode(SegmentKey(more[0])) != name ==> Pending(found, more, name) == Pending(found, more[1..], name)
    ensures Decode(SegmentKey(more[0])) == name && found.None? ==>
      Pending(found, more, name) == Pending(Some(more[0]), more[1..], name)
    ensures Decode(SegmentKey(more[0])) == name && found.Some? ==> Pending(found, more, name) == None
  {
    hide Decode, SegmentKey;
    var t := more[1..];
    assert forall i :: 1 <= i < |more| ==> more[i] == t[i - 1];
    assert forall i :: 0 <= i < |t| ==> t[i] == more[i + 1];
  }

  lemma PendingEnd(found: Option<bytes>, name: bytes)
    ensures Pending(found, [], name) == found
  {
  }

  lemma SegmentsUnfold(q: bytes, p: nat)
    requires p < |q|
    ensures var n := IndexOfByte(q[p..], AMPERSAND);
      && p + n <= |q|
      && Segments(q[p..]) == [q[p..][..n]] + (if p + n < |q| then Segments(q[p + n + 1..]) else [])
      && Segments(q[|q|..]) == []
  {
    var n := IndexOfByte(q[p..], AMPERSAND);
    if p + n < |q| {
      assert q[p..][n + 1..] == q[p + n + 1..];
    }
  }

  lemma SegmentsEmpty(q: bytes, p: nat)
    requires p == |q|
    ensures Segments(q[p..]) == []
  {
  }

  lemma KeyOf(g: bytes)
    ensures SegmentKey(g) == g[..IndexOfByte(g, EQUALS)]
  {
  }

  lemma ValueOf(g: bytes)
    ensures var n := IndexOfByte(g, EQUALS); SegmentValue(g) == if n < |g| then g[n + 1..] else []
  {
  }
}
