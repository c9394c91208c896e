/** How long a fetched key directory is kept: Cache-Control directives, saturating arithmetic, and the clamp. */
module CacheTtl {
  import opened Bytes
  import opened Sfv

  /** Three orders of magnitude below the largest 64-bit time. */
  const CAP := 0x7FFF_FFFF_FFFF_FFFF / 1000

  // ----- Numbers -----

  /** One step of the saturating accumulation. */
  function Accumulate(value: int, c: byte): int {
    if value < CAP then value * 10 + (c as int - 0x30) else CAP
  }

  /** What the parser makes of a run of digits. */
  function Saturated(s: bytes): int
    requires AllIn(s, DigitClass)
  {
    if s == [] then 0 else Accumulate(Saturated(s[..|s| - 1]), s[|s| - 1])
  }

  /** For any number of digits nothing overflows, and up to the cap the result is the exact value. */
  lemma {:induction false} SaturatesExactly(s: bytes)
    requires AllIn(s, DigitClass)
    ensures 0 <= Saturated(s) <= 10 * CAP + 9 <= 0x7FFF_FFFF_FFFF_FFFF
    ensures Min(Saturated(s), CAP) == Min(DigitsValue(s), CAP)
  {
    if s != [] {
      assert InClass(s[|s| - 1], DigitClass);
      SaturatesExactly(s[..|s| - 1]);
    }
  }

  /** Digits at the front, with the value the parser gives them. */
  method ParseUint(s: bytes) returns (value: int64, consumed: nat)
    ensures consumed == RunLength(s, DigitClass) && value as int == Saturated(s[..consumed])
  {
    value, consumed := 0, 0;
    while consumed < |s| && IsDigit(s[consumed])
      invariant consumed <= |s| && AllIn(s[..consumed], DigitClass) && value as int == Saturated(s[..consumed])
    {
      assert s[..consumed + 1][..consumed] == s[..consumed];
      SaturatesExactly(s[..consumed]);
      SaturatesExactly(s[..consumed + 1]);
      if (value as int) < CAP {
        value := value * 10 + (s[consumed] as int64 - 0x30);
      } else {
        value := CAP as int64;
      }
      consumed := consumed + 1;
    }
    RunIs(s, consumed);
  }

  lemma {:induction false} RunIs(s: bytes, n: nat)
    requires n <= |s| && AllIn(s[..n], DigitClass) && (n < |s| ==> !IsDigit(s[n]))
    ensures RunLength(s, DigitClass) == n
  {
    if n > 0 {
      assert s[..n][0] == s[0] && InClass(s[..n][0], DigitClass);
      assert s[1..][..n - 1] == s[..n][1..];
      RunIs(s[1..], n - 1);
    }
  }

  // ----- Directives -----

  function TrimEnd(s: bytes): (r: bytes)
    ensures |r| <= |s| && (r == [] || !Blank(r[|r| - 1]))
  {
    if s != [] && Blank(s[|s| - 1]) then TrimEnd(s[..|s| - 1]) else s
  }

  function Trim(s: bytes): bytes { TrimEnd(SkipBlank(s)) }

  predicate Named(token: bytes, name: bytes) { |token| >= |name| && Lower(token[..|name|]) == name }

  /** The token is `name =` followed by anything. */
  predicate Assigns(token: bytes, name: bytes) {
    Named(token, name) && StartsWith(SkipBlank(token[|name|..]), EQUALS)
  }

  /** What follows the `=`. */
  function Assigned(token: bytes, name: bytes): bytes
    requires Assigns(token, name)
  {
    SkipBlank(SkipBlank(token[|name|..])[1..])
  }

  /** The token is `name = digits`, with blanks allowed around each part. */
  predicate Good(token: bytes, name: bytes) {
    Assigns(token, name) &&
    var v := Assigned(token, name);
    var n := RunLength(v, DigitClass);
    n > 0 && SkipBlank(v[n..]) == []
  }

  function DigitsOf(token: bytes, name: bytes): (d: bytes)
    requires Assigns(token, name)
    ensures AllIn(d, DigitClass)
  {
    Assigned(token, name)[..RunLength(Assigned(token, name), DigitClass)]
  }

  /** What a directive parser returns, and what its value cell then holds. */
  function Directive(token: bytes, name: bytes, was: int): (bool, int) {
    (Good(token, name), if Assigns(token, name) then Saturated(DigitsOf(token, name)) else was)
  }

  datatype State = State(forbid: bool, haveMaxAge: bool, maxAge: int, haveSMaxAge: bool, sMaxAge: int)

  const START := State(false, false, 0, false, 0)

  const S_MAXAGE := Ascii("s-maxage")
  const MAX_AGE := Ascii("max-age")

  predicate Forbids(token: bytes) {
    Lower(token) == Ascii("no-store") || Lower(token) == Ascii("no-cache") || Lower(token) == Ascii("private")
  }

  function Apply(st: State, token: bytes): State {
    if token == [] then st
    else if Forbids(token) then st.(forbid := true)
    else
      var (okS, s) := Directive(token, S_MAXAGE, st.sMaxAge);
      if okS then st.(haveSMaxAge := true, sMaxAge := s)
      else
        var (okM, m) := Directive(token, MAX_AGE, st.maxAge);
        State(st.forbid, st.haveMaxAge || okM, m, st.haveSMaxAge, s)
  }

  /** The comma-separated tokens of a header, trimmed. */
  function Tokens(s: bytes): seq<bytes>
    decreases |s|
  {
    if s == [] then []
    else
      var n := IndexOfByte(s, COMMA);
      [Trim(s[..n])] + (if n < |s| then Tokens(s[n + 1..]) else [])
  }

  function ApplyAll(st: State, tokens: seq<bytes>): State
    decreases |tokens|
  {
    if tokens == [] then st else ApplyAll(Apply(st, tokens[0]), tokens[1..])
  }

  function Derived(st: State): int {
    if st.forbid then 0 else if st.haveSMaxAge then st.sMaxAge else if st.haveMaxAge then st.maxAge else 0
  }

  function Clamp(value: int, min: int, max: int): int {
    var v := if value < 0 then 0 else value;
    var w := if v < min then min else v;
    if w > max then max else w
  }

  function Ttl(cacheControl: bytes, age: int, min: int, max: int): int {
    Clamp(Derived(ApplyAll(START, Tokens(cacheControl))) - age, min, max)
  }

  // ----- What the time to live means -----

  /** The value of the last good token of a kind. */
  function LastGood(tokens: seq<bytes>, name: bytes): Option<nat> {
    if tokens == [] then None
    else
      var t := tokens[|tokens| - 1];
      if !Forbids(t) && Good(t, name) then Some(DigitsValue(DigitsOf(t, name)))
      else LastGood(tokens[..|tokens| - 1], name)
  }

  predicate AnyForbids(tokens: seq<bytes>) { exists i :: 0 <= i < |tokens| && tokens[i] != [] && Forbids(tokens[i]) }

  /** The exact lifetime the header asks for: s-maxage before max-age, the last of its kind, nothing when forbidden. */
  function Asked(tokens: seq<bytes>): nat {
    if AnyForbids(tokens) then 0
    else
      var s := LastGood(tokens, S_MAXAGE);
      if s.Some? then s.value
      else
        var m := LastGood(tokens, MAX_AGE);
        if m.Some? then m.value else 0
  }

  /** The value of the last token that assigns a directive, well formed or not: what its cell holds. */
  function LastWritten(tokens: seq<bytes>, name: bytes): nat {
    if tokens == [] then 0
    else
      var t := tokens[|tokens| - 1];
      if Assigns(t, name) then DigitsValue(DigitsOf(t, name)) else LastWritten(tokens[..|tokens| - 1], name)
  }

  /** Up to the cap, the directive's cell holds what its last well-formed token asks for. */
  predicate Unspoiled(tokens: seq<bytes>, name: bytes) {
    LastGood(tokens, name).Some? ==> Min(LastWritten(tokens, name), CAP) == Min(LastGood(tokens, name).value, CAP)
  }

  /** No malformed token spoils the directive that decides. */
  predicate DeciderUnspoiled(tokens: seq<bytes>) {
    AnyForbids(tokens) || Unspoiled(tokens, if LastGood(tokens, S_MAXAGE).Some? then S_MAXAGE else MAX_AGE)
  }

  /** Every token that assigns one of the two directives is well formed. */
  predicate Clean(tokens: seq<bytes>) {
    forall i :: 0 <= i < |tokens| ==>
      (Assigns(tokens[i], S_MAXAGE) ==> Good(tokens[i], S_MAXAGE))
        && (Assigns(tokens[i], MAX_AGE) ==> Good(tokens[i], MAX_AGE))
  }

  lemma NamesDiffer(token: bytes)
    ensures !(Named(token, S_MAXAGE) && Named(token, MAX_AGE))
    ensures Forbids(token) ==> !Named(token, S_MAXAGE) && !Named(token, MAX_AGE)
  {
    if |token| >= 1 {
      var c := ToLower(token[0]);
      assert Named(token, S_MAXAGE) ==> Lower(token[..8])[0] == c == S_MAXAGE[0] == 0x73;
      assert Named(token, MAX_AGE) ==> Lower(token[..7])[0] == c == MAX_AGE[0] == 0x6D;
      assert Forbids(token) ==> Lower(token)[0] == c && (c == 0x6E || c == 0x70);
    }
  }

  lemma {:induction false} ApplySnoc(st: State, tokens: seq<bytes>)
    requires tokens != []
    ensures ApplyAll(st, tokens) == Apply(ApplyAll(st, tokens[..|tokens| - 1]), tokens[|tokens| - 1])
    decreases |tokens|
  {
    hide Apply;
    if |tokens| > 1 {
      ApplySnoc(Apply(st, tokens[0]), tokens[1..]);
      assert tokens[1..][..|tokens| - 2] == tokens[..|tokens| - 1][1..];
    } else {
      assert tokens[1..] == [] && tokens[..0] == [];
    }
  }

  /** A cell against the last value written to it, and its flag against the last well-formed token. */
  predicate Holds(have: bool, value: int, tokens: seq<bytes>, name: bytes) {
    have == LastGood(tokens, name).Some? && value >= 0 && Min(value, CAP) == Min(LastWritten(tokens, name), CAP)
  }

  /** For every header, each cell holds the last value written to it, up to the cap. */
  lemma {:induction false} StateHolds(tokens: seq<bytes>)
    ensures var st := ApplyAll(START, tokens);
      && st.forbid == AnyForbids(tokens)
      && Holds(st.haveSMaxAge, st.sMaxAge, tokens, S_MAXAGE)
      && Holds(st.haveMaxAge, st.maxAge, tokens, MAX_AGE)
  {
    hide Saturated, Good, DigitsOf, Forbids, Assigns, DigitsValue, Named;
    if tokens != [] {
      var n := |tokens| - 1;
      StateHolds(tokens[..n]);
      ApplySnoc(START, tokens);
      AnyForbidsSnoc(tokens);
      OneDirective(tokens[n]);
    }
  }

  lemma AnyForbidsSnoc(tokens: seq<bytes>)
    requires tokens != []
    ensures var n := |tokens| - 1;
      AnyForbids(tokens) <==> AnyForbids(tokens[..n]) || (tokens[n] != [] && Forbids(tokens[n]))
  {
    hide Forbids;
    var n := |tokens| - 1;
    if AnyForbids(tokens[..n]) {
      var i :| 0 <= i < n && tokens[..n][i] != [] && Forbids(tokens[..n][i]);
      assert tokens[i] != [] && Forbids(tokens[i]);
    }
    if AnyForbids(tokens) {
      var i :| 0 <= i < |tokens| && tokens[i] != [] && Forbids(tokens[i]);
      assert i < n ==> tokens[..n][i] == tokens[i];
    }
  }

  lemma OneDirective(t: bytes)
    ensures !(Good(t, S_MAXAGE) && Good(t, MAX_AGE)) && !(Assigns(t, S_MAXAGE) && Assigns(t, MAX_AGE))
    ensures t == [] ==> !Assigns(t, S_MAXAGE) && !Assigns(t, MAX_AGE) && !Forbids(t)
    ensures forall name :: Good(t, name) ==> Assigns(t, name)
    ensures forall name :: Assigns(t, name) ==>
      Saturated(DigitsOf(t, name)) >= 0
        && Min(Saturated(DigitsOf(t, name)), CAP) == Min(DigitsValue(DigitsOf(t, name)), CAP)
    ensures Forbids(t) ==> !Assigns(t, S_MAXAGE) && !Assigns(t, MAX_AGE)
  {
    hide Saturated, DigitsValue, DigitsOf, Named, Forbids;
    NamesDiffer(t);
    forall name | Assigns(t, name)
      ensures Saturated(DigitsOf(t, name)) >= 0
      ensures Min(Saturated(DigitsOf(t, name)), CAP) == Min(DigitsValue(DigitsOf(t, name)), CAP)
    {
      SaturatesExactly(DigitsOf(t, name));
    }
    NothingNamed();
  }

  lemma NothingNamed()
    ensures !Named([], S_MAXAGE) && !Named([], MAX_AGE) && !Forbids([])
  {
  }

  /**
   * For every age and bounds within the cap, the time to live is the exact lifetime asked for, less
   * the age, clamped.
   */
  ghost predicate Promised(cacheControl: bytes) {
    forall age: int, min: int, max: int :: 0 <= age && 0 <= max && max + age <= CAP ==>
      Ttl(cacheControl, age, min, max) == Clamp(Asked(Tokens(cacheControl)) - age, min, max)
  }

  /**
   * For every header: the time to live is the exact one, in whatever order and number the
   * directives come, if and only if no malformed token spoils the directive that decides.
   */
  lemma TtlExactly(cacheControl: bytes)
    ensures Promised(cacheControl) <==> DeciderUnspoiled(Tokens(cacheControl))
  {
    hide Tokens, ApplyAll, LastGood, LastWritten, AnyForbids;
    var tokens := Tokens(cacheControl);
    StateHolds(tokens);
    if Promised(cacheControl) {
      assert Ttl(cacheControl, 0, 0, CAP) == Clamp(Asked(tokens) - 0, 0, CAP);
    }
  }

  /** In particular when every token that assigns a directive is well formed. */
  lemma TtlExact(cacheControl: bytes, age: int, min: int, max: int)
    requires Clean(Tokens(cacheControl)) && 0 <= age && 0 <= max && max + age <= CAP
    ensures Ttl(cacheControl, age, min, max) == Clamp(Asked(Tokens(cacheControl)) - age, min, max)
  {
    hide Tokens, Unspoiled, AnyForbids, Ttl, Asked, Clean, LastGood;
    CleanUnspoiled(Tokens(cacheControl), S_MAXAGE);
    CleanUnspoiled(Tokens(cacheControl), MAX_AGE);
    TtlExactly(cacheControl);
    assert Promised(cacheControl);
  }

  lemma {:induction false} CleanUnspoiled(tokens: seq<bytes>, name: bytes)
    requires Clean(tokens) && (name == S_MAXAGE || name == MAX_AGE)
    ensures Unspoiled(tokens, name)
  {
    hide Good, DigitsOf, Forbids, Assigns, DigitsValue;
    if tokens != [] {
      var n := |tokens| - 1;
      CleanUnspoiled(tokens[..n], name);
      OneDirective(tokens[n]);
    }
  }

  const SIXTY := Ascii("max-age=60")
  const LETTER := Ascii("max-age=x")
  const SPOILED := SIXTY + [COMMA, SPACE] + LETTER

  /** A malformed directive clears the sixty seconds an earlier good one asked for. */
  lemma MalformedOverwrites(age: int, min: int, max: int)
    requires 0 <= age && 0 <= max
    ensures SPOILED == Ascii("max-age=60, max-age=x") && Asked(Tokens(SPOILED)) == 60
    ensures Ttl(SPOILED, age, min, max) == Clamp(-age, min, max) && !Promised(SPOILED)
  {
    hide Tokens, LastGood, LastWritten, AnyForbids, Ttl, Promised, ApplyAll;
    SpoiledTokens();
    TwoTokens();
    TtlExactly(SPOILED);
    SpoiledTtl(age, min, max);
  }

  lemma SpoiledTtl(age: int, min: int, max: int)
    requires Tokens(SPOILED) == [SIXTY, LETTER] && LastWritten([SIXTY, LETTER], MAX_AGE) == 0
    requires LastGood([SIXTY, LETTER], S_MAXAGE) == None && LastGood([SIXTY, LETTER], MAX_AGE).Some?
    requires !AnyForbids([SIXTY, LETTER])
    ensures Ttl(SPOILED, age, min, max) == Clamp(-age, min, max)
  {
    hide Tokens, LastGood, LastWritten, AnyForbids, ApplyAll;
    StateHolds([SIXTY, LETTER]);
  }

  lemma SpoiledTokens()
    ensures Tokens(SPOILED) == [SIXTY, LETTER]
  {
    hide Trim;
    TextOf();
    var tail := [SPACE] + LETTER;
    assert SPOILED[..10] == SIXTY && SPOILED[11..] == tail && SPOILED[10] == COMMA;
    assert IndexOfByte(SPOILED, COMMA) == 10;
    assert IndexOfByte(tail, COMMA) == |tail|;
    assert tail[..|tail|] == tail;
    TrimTail();
  }

  lemma TextOf()
    ensures |SIXTY| == 10 && |LETTER| == 9 && COMMA !in SIXTY && COMMA !in LETTER
    ensures SPOILED == Ascii("max-age=60, max-age=x")
    ensures SIXTY == MAX_AGE + [EQUALS, 0x36, ZERO] && LETTER == MAX_AGE + [EQUALS, 0x78]
  {
  }

  lemma TrimTail()
    ensures Trim(SIXTY) == SIXTY && Trim([SPACE] + LETTER) == LETTER
  {
    assert SIXTY[0] == 0x6D && SIXTY[9] == ZERO;
    assert LETTER[0] == 0x6D && LETTER[8] == 0x78;
    var tail := [SPACE] + LETTER;
    assert tail[0] == SPACE && tail[1..] == LETTER;
    assert SkipBlank(tail) == SkipBlank(LETTER);
  }

  lemma TwoTokens()
    ensures var ts := [SIXTY, LETTER];
      && LastGood(ts, S_MAXAGE) == None && LastGood(ts, MAX_AGE) == Some(60)
      && LastWritten(ts, MAX_AGE) == 0 && !AnyForbids(ts)
  {
    hide Good, Assigns, DigitsOf, Forbids, Named;
    SixtyGood();
    LetterBad();
    assert [SIXTY, LETTER][..1] == [SIXTY] && [SIXTY][..0] == [];
    OneDirective(SIXTY);
    OneDirective(LETTER);
    assert LastGood([SIXTY], MAX_AGE) == Some(60) && LastGood([SIXTY], S_MAXAGE) == None;
  }

  lemma SixtyGood()
    ensures Good(SIXTY, MAX_AGE) && DigitsValue(DigitsOf(SIXTY, MAX_AGE)) == 60 && !Forbids(SIXTY)
  {
    TextOf();
    LowerMaxAge();
    NamesDiffer(SIXTY);
    var d: bytes := [0x36, ZERO];
    assert SIXTY[..7] == MAX_AGE && SIXTY[7..] == [EQUALS] + d;
    assert ([EQUALS] + d)[1..] == d;
    assert Assigned(SIXTY, MAX_AGE) == d;
    RunIs(d, 2);
    assert d[..2] == d && d[2..] == [];
    assert d[..1] == [0x36] && [0x36 as byte][..0] == [];
  }

  lemma LetterBad()
    ensures Assigns(LETTER, MAX_AGE) && !Good(LETTER, MAX_AGE) && DigitsOf(LETTER, MAX_AGE) == [] && !Forbids(LETTER)
  {
    TextOf();
    LowerMaxAge();
    NamesDiffer(LETTER);
    assert LETTER[..7] == MAX_AGE && LETTER[7..] == [EQUALS, 0x78];
    assert [EQUALS as byte, 0x78][1..] == [0x78];
    assert Assigned(LETTER, MAX_AGE) == [0x78];
  }

  lemma LowerMaxAge()
    ensures Lower(MAX_AGE) == MAX_AGE && |MAX_AGE| == 7
  {
  }

  // ----- As it runs -----

  method SkipBlanks(s: bytes, from: nat) returns (pos: nat)
    requires from <= |s|
    ensures from <= pos <= |s| && s[pos..] == SkipBlank(s[from..])
  {
    pos := from;
    while pos < |s| && Blank(s[pos])
      invariant from <= pos <= |s| && SkipBlank(s[pos..]) == SkipBlank(s[from..])
    {
      assert s[pos..][1..] == s[pos + 1..];
      pos := pos + 1;
    }
  }

  method TrimToken(s: bytes) returns (t: bytes)
    ensures t == Trim(s)
  {
    var p := SkipBlanks(s, 0);
    assert s[0..] == s;
    t := s[p..];
    ghost var u := t;
    while t != [] && Blank(t[|t| - 1])
      invariant TrimEnd(t) == TrimEnd(u)
    {
      t := t[..|t| - 1];
    }
  }

  /** Returns whether the token is the directive; writes its value cell as soon as there is an `=`. */
  method ParseDirective(token: bytes, name: bytes, was: int64) returns (ok: bool, value: int64)
    ensures (ok, value as int) == Directive(token, name, was as int)
  {
    hide Saturated, RunLength, SkipBlank, Lower;
    value := was;
    if |token| < |name| || Lower(token[..|name|]) != name {
      return false, value;
    }
    var pos := SkipBlanks(token, |name|);
    if pos >= |token| || token[pos] != EQUALS {
      return false, value;
    }
    ghost var at := pos;
    pos := SkipBlanks(token, pos + 1);
    assert token[at..][1..] == token[at + 1..];
    var consumed;
    value, consumed := ParseUint(token[pos..]);
    if consumed == 0 {
      return false, value;
    }
    assert token[pos..][consumed..] == token[pos + consumed..];
    pos := SkipBlanks(token, pos + consumed);
    ok := pos == |token|;
  }

  datatype Cells = Cells(forbid: bool, haveMaxAge: bool, maxAge: int64, haveSMaxAge: bool, sMaxAge: int64)

  function Abstract(c: Cells): State {
    State(c.forbid, c.haveMaxAge, c.maxAge as int, c.haveSMaxAge, c.sMaxAge as int)
  }

  method ApplyDirective(was: Cells, token: bytes) returns (c: Cells)
    requires token != []
    ensures Abstract(c) == Apply(Abstract(was), token)
  {
    hide Forbids, Directive;
    c := was;
    if Forbids(token) {
      c := c.(forbid := true);
    } else {
      var ok, s := ParseDirective(token, S_MAXAGE, c.sMaxAge);
      c := c.(sMaxAge := s);
      if ok {
        c := c.(haveSMaxAge := true);
      } else {
        var okM, m := ParseDirective(token, MAX_AGE, c.maxAge);
        c := c.(maxAge := m);
        if okM {
          c := c.(haveMaxAge := true);
        }
      }
    }
  }

  /** The cells only ever hold what a parser put there, so the subtraction of the age cannot overflow. */
  predicate InRange(st: State) {
    0 <= st.maxAge <= 10 * CAP + 9 && 0 <= st.sMaxAge <= 10 * CAP + 9
  }

  lemma ApplyInRange(st: State, token: bytes)
    requires InRange(st)
    ensures InRange(Apply(st, token))
  {
    hide Forbids, Assigns, Good, Saturated;
    if Assigns(token, S_MAXAGE) { SaturatesExactly(DigitsOf(token, S_MAXAGE)); }
    if Assigns(token, MAX_AGE) { SaturatesExactly(DigitsOf(token, MAX_AGE)); }
  }

  /** The token up to the next comma, and what follows that comma. */
  method NextToken(s: bytes) returns (token: bytes, rest: bytes)
    requires s != []
    ensures Tokens(s) == [token] + Tokens(rest) && |rest| < |s|
  {
    hide Trim, IndexOfByte;
    var p := 0;
    while p < |s| && s[p] != COMMA
      invariant p <= |s| && forall i :: 0 <= i < p ==> s[i] != COMMA
    {
      p := p + 1;
    }
    IndexOfByteIs(s, COMMA, p);
    token := TrimToken(s[..p]);
    rest := if p < |s| then s[p + 1..] else [];
  }

  method ReadDirectives(cacheControl: bytes) returns (c: Cells)
    ensures InRange(Abstract(c)) && Abstract(c) == ApplyAll(START, Tokens(cacheControl))
  {
    hide Apply, Tokens;
    c := Cells(false, false, 0, false, 0);
    var s := cacheControl;
    while s != []
      invariant InRange(Abstract(c))
      invariant ApplyAll(Abstract(c), Tokens(s)) == ApplyAll(START, Tokens(cacheControl))
      decreases |s|
    {
      var token, rest := NextToken(s);
      ApplyInRange(Abstract(c), token);
      ApplyNothing(Abstract(c));
      ApplyFirst(Abstract(c), token, Tokens(rest));
      if token != [] {
        c := ApplyDirective(c, token);
      }
      s := rest;
    }
    NoTokens();
  }

  lemma NoTokens()
    ensures Tokens([]) == []
  {
  }

  lemma ApplyFirst(st: State, t: bytes, more: seq<bytes>)
    ensures ApplyAll(st, [t] + more) == ApplyAll(Apply(st, t), more)
  {
    assert ([t] + more)[1..] == more;
  }

  method DeriveTtl(cacheControl: bytes, age: int64, min: int64, max: int64) returns (value: int64)
    requires 0 <= age
    ensures value as int == Ttl(cacheControl, age as int, min as int, max as int)
  {
    hide ApplyAll, Tokens;
    var c := ReadDirectives(cacheControl);
    var derived: int64 := 0;
    if c.haveMaxAge {
      derived := c.maxAge;
    }
    if c.haveSMaxAge {
      derived := c.sMaxAge;
    }
    if c.forbid {
      derived := 0;
    }
    value := derived - age;
    if value < 0 {
      value := 0;
    }
    if value < min {
      value := min;
    }
    if value > max {
      value := max;
    }
  }

  lemma ApplyNothing(st: State)
    ensures Apply(st, []) == st
  {
  }
}
