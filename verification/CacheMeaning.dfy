/** What the Cache-Control text itself says: tokens between commas, directives spelled out, and what forbids keeping. */
module CacheMeaning {
  import opened Bytes
  import opened CacheTtl
  import opened Sfv
  import WireRequest

  const NO_STORE := Ascii("no-store")
  const NO_CACHE := Ascii("no-cache")
  const PRIVATE := Ascii("private")
  const MAX_AGE_NAME := Ascii("max-age")
  const S_MAXAGE_NAME := Ascii("s-maxage")

  // ----- Tokens -----

  /** A comma ends a token; blanks around it do not belong to it; a last comma ends none further. */
  lemma SplitsAtComma(l: bytes, token: bytes, r: bytes, rest: bytes)
    requires WireRequest.Blanks(l) && WireRequest.Blanks(r) && COMMA !in token
    requires token == [] || (!Blank(token[0]) && !Blank(token[|token| - 1]))
    ensures Tokens(l + token + r + [COMMA] + rest) == [token] + Tokens(rest)
    ensures Tokens(l + token + r) == if l + token + r == [] then [] else [token]
  {
    hide Trim;
    var t := l + token + r;
    WireRequest.TrimExact(l, token, r);
    assert COMMA !in t;
    var s := t + [COMMA] + rest;
    IndexOfByteIs(s, COMMA, |t|);
    assert s[..|t|] == t && s[|t| + 1..] == rest;
    assert s == l + token + r + [COMMA] + rest;
    IndexOfByteIs(t, COMMA, |t|);
    assert t[..|t|] == t;
  }

  // ----- Directives -----

  /** The token is the name in any case, an equals sign and digits, with blanks allowed around each. */
  ghost predicate Spells(token: bytes, name: bytes, digits: bytes) {
    exists n, a, b, c :: IsSpelling(token, name, digits, n, a, b, c)
  }

  predicate IsSpelling(token: bytes, name: bytes, digits: bytes, n: bytes, a: bytes, b: bytes, c: bytes) {
    && Lower(n) == name && WireRequest.Blanks(a) && WireRequest.Blanks(b) && WireRequest.Blanks(c)
    && digits != [] && (forall i :: 0 <= i < |digits| ==> IsDigit(digits[i]))
    && token == n + (a + ([EQUALS] + (b + (digits + c))))
  }

  /** A token is a well-formed directive exactly when it spells one, and it then has that value. */
  lemma GoodExactly(token: bytes, name: bytes)
    ensures Good(token, name) <==> exists digits :: Spells(token, name, digits)
    ensures forall digits :: Spells(token, name, digits) ==> DigitsOf(token, name) == digits
  {
    forall n, a, b, c, digits | IsSpelling(token, name, digits, n, a, b, c)
      ensures Good(token, name) && DigitsOf(token, name) == digits
    {
      SpellingGood(token, name, digits, n, a, b, c);
    }
    if Good(token, name) {
      GoodSpells(token, name);
    }
  }

  lemma SpellingGood(token: bytes, name: bytes, digits: bytes, n: bytes, a: bytes, b: bytes, c: bytes)
    requires IsSpelling(token, name, digits, n, a, b, c)
    ensures Good(token, name) && DigitsOf(token, name) == digits
  {
    hide SkipBlank, RunLength, Lower;
    var tail := b + (digits + c);
    assert token[..|n|] == n && token[|n|..] == a + ([EQUALS] + tail);
    assert |n| == |name| by { LowerLength(n); }
    WireRequest.SkipBlankExact(a, [EQUALS] + tail);
    assert ([EQUALS] + tail)[1..] == tail;
    assert !Blank(digits[0]);
    WireRequest.SkipBlankExact(b, digits + c);
    Run(digits, c);
    assert (digits + c)[..|digits|] == digits && (digits + c)[|digits|..] == c;
    assert c + [] == c;
    WireRequest.SkipBlankExact(c, []);
  }

  lemma LowerLength(n: bytes)
    ensures |Lower(n)| == |n|
  {
  }

  lemma Run(digits: bytes, c: bytes)
    requires digits != [] && (forall i :: 0 <= i < |digits| ==> IsDigit(digits[i])) && WireRequest.Blanks(c)
    ensures RunLength(digits + c, DigitClass) == |digits|
  {
    assert (digits + c)[..|digits|] == digits;
    assert forall i :: 0 <= i < |digits| ==> InClass(digits[i], DigitClass);
    RunIs(digits + c, |digits|);
  }

  lemma {:induction false} Skipped(s: bytes) returns (a: bytes)
    ensures WireRequest.Blanks(a) && s == a + SkipBlank(s)
  {
    a := [];
    if s != [] && Blank(s[0]) {
      var b := Skipped(s[1..]);
      a := [s[0]] + b;
    }
  }

  lemma GoodSpells(token: bytes, name: bytes)
    requires Good(token, name)
    ensures Spells(token, name, DigitsOf(token, name))
  {
    hide SkipBlank, RunLength, Lower;
    var n := token[..|name|];
    var u := SkipBlank(token[|name|..]);
    var a := Skipped(token[|name|..]);
    var b := Skipped(u[1..]);
    var v := Assigned(token, name);
    var k := RunLength(v, DigitClass);
    var c := Skipped(v[k..]);
    var digits := v[..k];
    assert c == v[k..] by { assert c + [] == c; }
    forall i | 0 <= i < |digits|
      ensures IsDigit(digits[i])
    {
      assert InClass(digits[i], DigitClass);
    }
    assert v == digits + c && u == [EQUALS] + u[1..];
    assert IsSpelling(token, name, digits, n, a, b, c);
  }

  // ----- What forbids keeping -----

  /** One of the three words, in any case, forbids keeping; nothing else does. */
  lemma ForbidsExactly(token: bytes)
    ensures Forbids(token) <==> Lower(token) == NO_STORE || Lower(token) == NO_CACHE || Lower(token) == PRIVATE
  {
  }

  /** A word that forbids, anywhere in the header, leaves the smallest time to live the age and the bounds allow. */
  lemma ForbiddenIsNotKept(cacheControl: bytes, i: nat, age: int, min: int, max: int)
    requires i < |Tokens(cacheControl)| && 0 <= age
    requires Lower(Tokens(cacheControl)[i]) in {NO_STORE, NO_CACHE, PRIVATE}
    ensures var low := if min < 0 then 0 else min; Ttl(cacheControl, age, min, max) == Min(low, max)
  {
    hide Tokens, ApplyAll, Lower, Holds;
    var tokens := Tokens(cacheControl);
    StateHolds(tokens);
    assert Forbids(tokens[i]);
    assert tokens[i] != [] by { LowerLength(tokens[i]); Words(); }
    assert AnyForbids(tokens);
  }

  lemma Words()
    ensures |NO_STORE| == 8 && |NO_CACHE| == 8 && |PRIVATE| == 7
  {
  }

  // ----- The time to live over the text -----

  /** The value of the last token that spells the directive. */
  ghost predicate LastSpelled(tokens: seq<bytes>, name: bytes, v: nat) {
    exists i, digits :: LastSpelledAt(tokens, name, i, digits) && v == DigitsValue(digits)
  }

  ghost predicate LastSpelledAt(tokens: seq<bytes>, name: bytes, i: int, digits: bytes) {
    && 0 <= i < |tokens| && Spells(tokens[i], name, digits) && AllIn(digits, DigitClass)
    && forall j, d :: i < j < |tokens| ==> !Spells(tokens[j], name, d)
  }

  /** The clamp keeps what lies within the bounds and moves everything else to the nearer one. */
  lemma ClampExactly(v: int, min: int, max: int)
    requires 0 <= min <= max
    ensures Clamp(v, min, max) == if v <= min then min else if v >= max then max else v
    ensures min <= Clamp(v, min, max) <= max
  {
  }

  lemma {:induction false} LastGoodExactly(tokens: seq<bytes>, name: bytes)
    requires name == MAX_AGE_NAME || name == S_MAXAGE_NAME
    ensures LastGood(tokens, name).Some? ==> LastSpelled(tokens, name, LastGood(tokens, name).value)
    ensures LastGood(tokens, name).None? ==> forall i, d :: 0 <= i < |tokens| ==> !Spells(tokens[i], name, d)
  {
    hide Good, DigitsOf, Spells, Forbids, DigitsValue;
    if tokens != [] {
      var n := |tokens| - 1;
      var t := tokens[n];
      LastGoodExactly(tokens[..n], name);
      GoodExactly(t, name);
      GoodIsKept(t, name);
      if Good(t, name) {
        var digits :| Spells(t, name, digits);
        GoodIsAssigned(t, name);
        assert DigitsOf(t, name) == digits;
        assert LastSpelledAt(tokens, name, n, digits);
      } else if LastGood(tokens, name).Some? {
        var i, digits :| LastSpelledAt(tokens[..n], name, i, digits)
          && LastGood(tokens, name).value == DigitsValue(digits);
        assert LastSpelledAt(tokens, name, i, digits);
      }
    }
  }

  lemma GoodIsAssigned(t: bytes, name: bytes)
    requires Good(t, name)
    ensures Assigns(t, name)
  {
  }

  /** No token spells the directive. */
  ghost predicate NoneSpelled(tokens: seq<bytes>, name: bytes) {
    forall i, d :: 0 <= i < |tokens| ==> !Spells(tokens[i], name, d)
  }

  /** What a header that forbids nothing asks for: its last s-maxage, else its last max-age, else nothing. */
  lemma AskedExactly(tokens: seq<bytes>)
    requires forall i :: 0 <= i < |tokens| ==> Lower(tokens[i]) !in {NO_STORE, NO_CACHE, PRIVATE}
    ensures NoneSpelled(tokens, S_MAXAGE_NAME) || LastSpelled(tokens, S_MAXAGE_NAME, Asked(tokens))
    ensures NoneSpelled(tokens, S_MAXAGE_NAME) ==>
      NoneSpelled(tokens, MAX_AGE_NAME) || LastSpelled(tokens, MAX_AGE_NAME, Asked(tokens))
    ensures NoneSpelled(tokens, S_MAXAGE_NAME) && NoneSpelled(tokens, MAX_AGE_NAME) ==> Asked(tokens) == 0
  {
    hide Spells, LastGood, Lower, LastSpelled;
    assert S_MAXAGE == S_MAXAGE_NAME && MAX_AGE == MAX_AGE_NAME;
    LastGoodExactly(tokens, S_MAXAGE_NAME);
    LastGoodExactly(tokens, MAX_AGE_NAME);
    SpelledOrNot(tokens, S_MAXAGE_NAME);
    SpelledOrNot(tokens, MAX_AGE_NAME);
    assert !AnyForbids(tokens);
  }

  lemma SpelledOrNot(tokens: seq<bytes>, name: bytes)
    ensures forall v :: LastSpelled(tokens, name, v) ==> !NoneSpelled(tokens, name)
  {
    hide Spells;
  }

  /** A well-formed directive does not forbid. */
  lemma GoodIsKept(t: bytes, name: bytes)
    requires name == MAX_AGE_NAME || name == S_MAXAGE_NAME
    ensures Good(t, name) ==> !Forbids(t)
  {
    hide Good, Assigns, Named, Forbids;
    OneDirective(t);
    assert name == MAX_AGE || name == S_MAXAGE;
  }
}
