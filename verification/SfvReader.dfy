/**
 * The Structured Fields reader as it runs: a cursor moving over one input. Every method
 * is proved to take exactly the step its specification function takes on the unread text.
 */
module SfvReader {
  import opened Bytes
  import opened Sfv
  import opened SfvRoundTrip
  import opened SfvSoundness
  import Base64

  /** The outcome and the unread text agree with what a specification reader says. */
  ghost predicate Agrees<T>(r: Option<T>, spec: Parse<T>, unread: bytes) {
    if spec.Declined? then r.None? else r == Some(spec.value) && unread == spec.rest
  }

  // ----- Facts about runs of characters -----

  lemma {:induction false} RunLengthAtLeast(s: bytes, cl: CharClass, n: nat)
    requires n <= |s| && AllIn(s[..n], cl)
    ensures RunLength(s, cl) >= n
  {
    if n > 0 {
      assert s[0] == s[..n][0];
      assert s[1..][..n - 1] == s[..n][1..];
      RunLengthAtLeast(s[1..], cl, n - 1);
    }
  }

  /** The text between quotes, escapes removed. */
  function Unescape(s: bytes): bytes {
    if s == [] then []
    else if s[0] == BACKSLASH && |s| >= 2 then [s[1]] + Unescape(s[2..])
    else [s[0]] + Unescape(s[1..])
  }

  /** Well-formed text between quotes, and how many escapes it holds. */
  function EscapeCount(s: bytes): Option<nat> {
    if s == [] then Some(0)
    else if s[0] == BACKSLASH then
      if |s| < 2 || !NeedsEscape(s[1]) || EscapeCount(s[2..]).None? then None else Some(1 + EscapeCount(s[2..]).value)
    else if s[0] == DQUOTE || !IsPrintable(s[0]) then None
    else EscapeCount(s[1..])
  }

  lemma {:induction false} EscapeCountConcat(s: bytes, t: bytes)
    requires EscapeCount(s).Some? && EscapeCount(t).Some?
    ensures EscapeCount(s + t) == Some(EscapeCount(s).value + EscapeCount(t).value)
  {
    if s == [] {
      assert s + t == t;
    } else if s[0] == BACKSLASH {
      assert (s + t)[2..] == s[2..] + t;
      EscapeCountConcat(s[2..], t);
    } else {
      assert (s + t)[1..] == s[1..] + t;
      EscapeCountConcat(s[1..], t);
    }
  }

  lemma {:induction false} UnescapeLength(s: bytes)
    requires EscapeCount(s).Some?
    ensures |Unescape(s)| + EscapeCount(s).value == |s|
    ensures EscapeCount(s).value == 0 ==> Unescape(s) == s
  {
    if s == [] {
    } else if s[0] == BACKSLASH {
      UnescapeLength(s[2..]);
    } else {
      UnescapeLength(s[1..]);
      assert [s[0]] + s[1..] == s;
    }
  }

  /** Reading past well-formed text only puts the unescaped text in front. */
  lemma {:induction false} ReadTextConcat(s: bytes, t: bytes)
    requires EscapeCount(s).Some?
    ensures ReadText(t).Declined? ==> ReadText(s + t).Declined?
    ensures ReadText(t).Parsed? ==> ReadText(s + t) == Parsed(Unescape(s) + ReadText(t).value, ReadText(t).rest)
  {
    if s == [] {
      assert s + t == t;
      if ReadText(t).Parsed? {
        assert Unescape(s) + ReadText(t).value == ReadText(t).value;
      }
    } else if s[0] == BACKSLASH {
      assert (s + t)[2..] == s[2..] + t;
      ReadTextConcat(s[2..], t);
      PrependConcat(s[1], Unescape(s[2..]), ReadText(t));
    } else {
      assert (s + t)[1..] == s[1..] + t;
      ReadTextConcat(s[1..], t);
      PrependConcat(s[0], Unescape(s[1..]), ReadText(t));
    }
  }

  lemma PrependConcat(c: byte, u: bytes, r: Parse<bytes>)
    ensures r.Parsed? ==> Prepend(c, Parsed(u + r.value, r.rest)) == Parsed([c] + u + r.value, r.rest)
  {
    if r.Parsed? {
      assert [c] + (u + r.value) == [c] + u + r.value;
    }
  }

  lemma EscapeCountEmpty(s: bytes)
    requires s == []
    ensures EscapeCount(s) == Some(0)
  {
  }

  lemma TextStops(t: bytes)
    requires t == [] || (t[0] == BACKSLASH && (|t| < 2 || !NeedsEscape(t[1])))
             || (t[0] != DQUOTE && t[0] != BACKSLASH && !IsPrintable(t[0]))
    ensures ReadText(t).Declined?
  {
  }

  /** One step of copying: past the backslash if there is one, then one character. */
  lemma CopyStep(s: bytes, p: nat)
    requires p < |s| && EscapeCount(s[p..]).Some?
    ensures var q := if s[p] == BACKSLASH then p + 1 else p;
      && q < |s| && EscapeCount(s[q + 1..]).Some?
      && Unescape(s[p..]) == [s[q]] + Unescape(s[q + 1..])
  {
    assert s[p..][1..] == s[p + 1..];
    if s[p] == BACKSLASH {
      assert s[p..][2..] == s[p + 2..];
    }
  }

  lemma DigitsTakeNone(s: bytes)
    ensures AllIn(s[..0], DigitClass) && DigitsValue(s[..0]) == 0 && Pow10(0) == 1
  {
  }

  /** One more digit, with the accumulator still far from the 64-bit limit. */
  lemma DigitsTake(s: bytes, n: nat)
    requires n < |s| && AllIn(s[..n], DigitClass) && IsDigit(s[n])
    ensures AllIn(s[..n + 1], DigitClass)
    ensures DigitsValue(s[..n + 1]) == DigitsValue(s[..n]) * 10 + (s[n] as int - 0x30)
    ensures DigitsValue(s[..n]) < Pow10(n) && DigitsValue(s[..n + 1]) < Pow10(n + 1)
    ensures n < 15 ==> Pow10(n + 1) <= MAX_NUMBER + 1
  {
    var next := s[..n + 1];
    assert next[..|next| - 1] == s[..n] && InClass(next[n], DigitClass);
    DigitsValueBound(s[..n]);
    DigitsValueBound(next);
    Magnitudes();
    if n < 15 {
      Pow10Monotone(n + 1, 15);
    }
  }

  class Reader {
    const input: bytes
    var pos: nat
    var depth: nat

    ghost predicate Valid()
      reads this
    {
      pos <= |input|
    }

    ghost function Unread(): bytes
      reads this
      requires Valid()
    {
      input[pos..]
    }

    constructor (input: bytes)
      ensures Valid() && this.input == input && Unread() == input && depth == 0
    {
      this.input := input;
      pos := 0;
      depth := 0;
    }

    method SkipClass(cl: CharClass)
      requires Valid()
      modifies `pos
      ensures Valid() && pos == old(pos) + RunLength(old(Unread()), cl)
    {
      ghost var start := pos;
      while pos < |input| && InClass(input[pos], cl)
        invariant start <= pos <= |input|
        invariant AllIn(input[start..pos], cl)
      {
        assert input[start..pos + 1] == input[start..pos] + [input[pos]];
        pos := pos + 1;
      }
      assert input[start..] == input[start..pos] + input[pos..];
      RunLengthConcat(input[start..pos], input[pos..], cl);
    }

    method SkipSp()
      requires Valid()
      modifies `pos
      ensures Valid() && Unread() == SkipSpaces(old(Unread()))
    {
      while pos < |input| && input[pos] == SPACE
        invariant Valid() && SkipSpaces(Unread()) == SkipSpaces(old(Unread()))
      {
        assert Unread()[1..] == input[pos + 1..];
        pos := pos + 1;
      }
    }

    method SkipOptionalSpace()
      requires Valid()
      modifies `pos
      ensures Valid() && Unread() == SkipBlank(old(Unread()))
    {
      while pos < |input| && Blank(input[pos])
        invariant Valid() && SkipBlank(Unread()) == SkipBlank(old(Unread()))
      {
        assert Unread()[1..] == input[pos + 1..];
        pos := pos + 1;
      }
    }

    method TakeKey() returns (r: Option<bytes>)
      requires Valid()
      modifies `pos
      ensures Valid() && Agrees(r, ReadKey(old(Unread())), Unread())
    {
      if pos >= |input| || !IsKeyStart(input[pos]) {
        return None;
      }
      var start := pos;
      pos := pos + 1;
      assert input[start..][1..] == input[pos..];
      SkipClass(KeyClass);
      ghost var n := pos - start;
      assert input[start..][..n] == input[start..pos] && input[start..][n..] == input[pos..];
      return Some(input[start..pos]);
    }

    method TakeToken() returns (r: Option<bytes>)
      requires Valid()
      modifies `pos
      ensures Valid() && Agrees(r, ReadToken(old(Unread())), Unread())
    {
      if pos >= |input| || !IsTokenStart(input[pos]) {
        return None;
      }
      var start := pos;
      pos := pos + 1;
      assert input[start..][1..] == input[pos..];
      SkipClass(TokenClass);
      ghost var n := pos - start;
      assert input[start..][..n] == input[start..pos] && input[start..][n..] == input[pos..];
      return Some(input[start..pos]);
    }

    /** First pass over a string: finds the closing quote and counts the escapes. */
    method ScanText() returns (r: Option<nat>)
      requires Valid()
      modifies `pos
      ensures Valid() && old(pos) <= pos
      ensures r.None? ==> ReadText(old(Unread())).Declined?
      ensures r.Some? ==> StartsWith(Unread(), DQUOTE) && EscapeCount(input[old(pos)..pos]) == r
    {
      hide ReadText, EscapeCount, Unescape;
      ghost var start := pos;
      var escapes := 0;
      assert EscapeCount(input[start..pos]) == Some(0) by { EscapeCountEmpty(input[start..pos]); }
      while true
        invariant start <= pos <= |input|
        invariant EscapeCount(input[start..pos]) == Some(escapes)
        decreases |input| - pos
      {
        assert input[start..] == input[start..pos] + input[pos..];
        ReadTextConcat(input[start..pos], input[pos..]);
        if pos >= |input| {
          TextStops(input[pos..]);
          return None;
        }
        var c := input[pos];
        if c == DQUOTE {
          return Some(escapes);
        }
        if c == BACKSLASH {
          if pos + 1 >= |input| || !NeedsEscape(input[pos + 1]) {
            TextStops(input[pos..]);
            return None;
          }
          Extend(input, start, pos, pos + 2, 1);
          escapes := escapes + 1;
          pos := pos + 2;
        } else {
          if !IsPrintable(c) {
            TextStops(input[pos..]);
            return None;
          }
          Extend(input, start, pos, pos + 1, 0);
          pos := pos + 1;
        }
      }
    }

    static lemma Extend(s: bytes, start: nat, mid: nat, end: nat, k: nat)
      requires start <= mid < end <= |s| && EscapeCount(s[start..mid]).Some?
      requires k == 0 ==> end == mid + 1 && s[mid] != BACKSLASH && s[mid] != DQUOTE && IsPrintable(s[mid])
      requires k != 0 ==> k == 1 && end == mid + 2 && s[mid] == BACKSLASH && NeedsEscape(s[mid + 1])
      ensures EscapeCount(s[start..end]) == Some(EscapeCount(s[start..mid]).value + k)
    {
      var t := s[mid..end];
      assert s[start..end] == s[start..mid] + t;
      assert EscapeCount(t) == Some(k) by {
        if k == 0 {
          assert t[1..] == [];
        } else {
          assert t[2..] == [];
        }
      }
      EscapeCountConcat(s[start..mid], t);
    }

    /** A string: in place when it holds no escape, else copied into a buffer sized for it. */
    method TakeText() returns (r: Option<bytes>)
      requires Valid()
      modifies `pos
      ensures Valid() && Agrees(r, ReadText(old(Unread())), Unread())
    {
      hide ReadText, EscapeCount, Unescape;
      var start := pos;
      var scanned := ScanText();
      if scanned.None? {
        return None;
      }
      TextSpan(input, start, pos, scanned.value);
      var copied := input[start..pos];
      if scanned.value > 0 {
        copied := CopyUnescaped(input[start..pos], scanned.value);
      }
      pos := pos + 1;
      return Some(copied);
    }

    /** The scanned span, its quote, and what it unescapes to. */
    static lemma TextSpan(s: bytes, start: nat, end: nat, escapes: nat)
      requires start <= end < |s| && s[end] == DQUOTE && EscapeCount(s[start..end]) == Some(escapes)
      ensures ReadText(s[start..]) == Parsed(Unescape(s[start..end]), s[end + 1..])
      ensures escapes == 0 ==> Unescape(s[start..end]) == s[start..end]
    {
      hide Unescape, EscapeCount;
      var text := s[start..end];
      assert s[start..] == text + s[end..];
      ReadTextConcat(text, s[end..]);
      UnescapeLength(text);
      QuoteEnds(s, end);
      assert Unescape(text) + [] == Unescape(text);
    }

    static lemma QuoteEnds(s: bytes, end: nat)
      requires end < |s| && s[end] == DQUOTE
      ensures ReadText(s[end..]) == Parsed([], s[end + 1..])
    {
      assert s[end..][1..] == s[end + 1..];
    }

    /** Second pass over a string with escapes; the buffer is exactly as long as needed. */
    static method CopyUnescaped(text: bytes, escapes: nat) returns (r: bytes)
      requires EscapeCount(text) == Some(escapes)
      ensures r == Unescape(text)
    {
      hide EscapeCount, Unescape;
      UnescapeLength(text);
      var buf := new byte[|text| - escapes];
      var p, d := 0, 0;
      assert text[p..] == text;
      while p < |text|
        invariant 0 <= p <= |text| && 0 <= d <= buf.Length
        invariant EscapeCount(text[p..]).Some?
        invariant buf[..d] + Unescape(text[p..]) == Unescape(text)
      {
        CopyStep(text, p);
        if text[p] == BACKSLASH {
          p := p + 1;
        }
        d := PutNext(buf, d, text[p], text[p + 1..], text);
        p := p + 1;
      }
      CopyEnd(text, p, buf[..d]);
      r := buf[..d];
    }

    static lemma CopyEnd(text: bytes, p: nat, done: bytes)
      requires p == |text|
      ensures done + Unescape(text[p..]) == done
    {
      assert text[p..] == [];
    }

    static lemma CopyRoom(done: bytes, c: byte, more: bytes)
      ensures done + ([c] + more) == done + [c] + more
      ensures |done| < |done + ([c] + more)|
    {
    }

    /** Writes the next unescaped byte; `more` is what is still to be unescaped. */
    static method PutNext(buf: array<byte>, d: nat, c: byte, ghost more: bytes, ghost text: bytes) returns (e: nat)
      requires d <= buf.Length == |Unescape(text)| && buf[..d] + ([c] + Unescape(more)) == Unescape(text)
      modifies buf
      ensures e == d + 1 <= buf.Length && buf[..e] + Unescape(more) == Unescape(text)
    {
      hide Unescape;
      CopyRoom(buf[..d], c, Unescape(more));
      ghost var was := buf[..d];
      buf[d] := c;
      e := d + 1;
      assert buf[..e] == was + [c];
    }

    /** A byte sequence, after its opening `:`. */
    method TakeContent() returns (r: Option<bytes>)
      requires Valid()
      modifies `pos
      ensures Valid() && Agrees(r, ReadContent(old(Unread())), Unread())
    {
      var start := pos;
      while pos < |input| && input[pos] != COLON
        invariant start <= pos <= |input|
        invariant forall i :: start <= i < pos ==> input[i] != COLON
      {
        pos := pos + 1;
      }
      ghost var s := input[start..];
      assert IndexOfByte(s, COLON) == pos - start by {
        if pos < |input| {
          assert s[pos - start] == COLON;
        }
        assert forall i :: 0 <= i < pos - start ==> s[i] == input[start + i];
      }
      assert s[..pos - start] == input[start..pos];
      if pos >= |input| {
        return None;
      }
      var encoded := input[start..pos];
      assert s[pos - start + 1..] == input[pos + 1..];
      pos := pos + 1;
      var padded := CheckPadding(encoded);
      if !padded {
        return None;
      }
      r := Base64.DecodeBytes(encoded);
    }

    /** Counts trailing `=` and refuses any other character after one. */
    static method CheckPadding(s: bytes) returns (ok: bool)
      ensures ok == Base64.PaddingOk(s)
    {
      var pad := 0;
      ghost var u := |Base64.Unpadded(s)|;
      for i := 0 to |s|
        invariant pad == if i <= u then 0 else i - u
        invariant forall k :: u <= k < i ==> s[k] == EQUALS
      {
        if s[i] == EQUALS {
          pad := pad + 1;
        } else if pad > 0 {
          return false;
        }
      }
      ok := pad <= 2;
    }

    /** Digits into a 64-bit accumulator, refusing one more than `limit`. */
    method TakeDigits(limit: nat) returns (digits: nat, value: int64, ok: bool)
      requires Valid() && limit <= 15
      modifies `pos
      ensures Valid() && old(pos) <= pos
      ensures ok == (RunLength(old(Unread()), DigitClass) <= limit)
      ensures ok ==> digits == RunLength(old(Unread()), DigitClass) && pos == old(pos) + digits
      ensures ok ==> AllIn(old(Unread())[..digits], DigitClass)
                     && value as int == DigitsValue(old(Unread())[..digits]) && value as int < Pow10(digits)
    {
      hide RunLength, DigitsValue, Pow10;
      ghost var start, s := pos, input[pos..];
      digits, value := 0, 0;
      DigitsTakeNone(s);
      while pos < |input| && IsDigit(input[pos])
        invariant start <= pos <= |input| && pos == start + digits && digits <= limit
        invariant AllIn(s[..digits], DigitClass) && value as int == DigitsValue(s[..digits])
        invariant 0 <= value as int < Pow10(digits)
      {
        DigitsTake(s, digits);
        if digits == limit {
          RunLengthAtLeast(s, DigitClass, digits + 1);
          return digits, value, false;
        }
        value := value * 10 + (input[pos] as int64 - 0x30);
        digits := digits + 1;
        pos := pos + 1;
      }
      assert s == s[..digits] + input[pos..];
      RunLengthConcat(s[..digits], input[pos..], DigitClass);
      ok := true;
    }

    method TakeNumber() returns (r: Option<Bare>)
      requires Valid()
      modifies `pos
      ensures Valid() && Agrees(r, ReadNumber(old(Unread())), Unread())
    {
      var negative := false;
      if pos < |input| && input[pos] == MINUS {
        negative := true;
        assert input[pos..][1..] == input[pos + 1..];
        pos := pos + 1;
      }
      r := TakeMagnitude(negative);
    }

    method TakeMagnitude(negative: bool) returns (r: Option<Bare>)
      requires Valid()
      modifies `pos
      ensures Valid() && Agrees(r, ReadMagnitude(old(Unread()), if negative then -1 else 1), Unread())
    {
      hide RunLength, DigitsValue, Pow10, ReadMagnitude, FractionValue, AllIn;
      ghost var s := Unread();
      var digits, value, ok := TakeDigits(15);
      MagnitudeCases(s, negative);
      if !ok || digits == 0 {
        return None;
      }
      assert s[digits..] == Unread();
      Magnitudes();
      Pow10Monotone(digits, 15);
      if pos >= |input| || input[pos] != DOT {
        return Some(Integer((if negative then -value else value) as int));
      }
      if digits > 12 {
        return None;
      }
      Pow10Monotone(digits, 12);
      assert s[digits + 1..] == input[pos + 1..];
      pos := pos + 1;
      var thousandths := TakeFraction();
      if thousandths.None? {
        return None;
      }
      var scaled := value * 1000 + thousandths.value;
      return Some(Decimal((if negative then -scaled else scaled) as int));
    }

    /** The cases of a number, by its runs of digits. */
    static lemma MagnitudeCases(s: bytes, negative: bool)
      ensures var n := RunLength(s, DigitClass);
        var r := ReadMagnitude(s, if negative then -1 else 1);
        && (n == 0 || n > 15 ==> r.Declined?)
        && (0 < n <= 15 && !StartsWith(s[n..], DOT) ==>
              r == Parsed(Integer(Signed(negative, DigitsValue(s[..n]))), s[n..]))
        && (12 < n <= 15 && StartsWith(s[n..], DOT) ==> r.Declined?)
        && (0 < n <= 12 && StartsWith(s[n..], DOT) ==>
              var t := s[n + 1..];
              var k := RunLength(t, DigitClass);
              if k == 0 || k > 3 then r.Declined?
              else r == Parsed(Decimal(Signed(negative, DigitsValue(s[..n]) * 1000 + FractionValue(t[..k]))), t[k..]))
    {
      hide RunLength, DigitsValue, FractionValue;
    }

    method TakeFraction() returns (r: Option<int64>)
      requires Valid()
      modifies `pos
      ensures Valid()
      ensures var k := RunLength(old(Unread()), DigitClass);
        && r.Some? == (1 <= k <= 3)
        && (r.Some? ==>
          pos == old(pos) + k && r.value as int == FractionValue(old(Unread())[..k]) && 0 <= r.value < 1000)
    {
      hide RunLength, DigitsValue;
      var digits, value, ok := TakeDigits(3);
      if !ok || digits == 0 {
        return None;
      }
      assert Pow10(1) == 10 && Pow10(2) == 100 && Pow10(3) == 1000;
      ghost var read, was := digits, value;
      while digits < 3
        invariant read <= digits <= 3
        invariant value as int ==
          was as int * (if digits - read == 0 then 1 else if digits - read == 1 then 10 else 100)
      {
        value := value * 10;
        digits := digits + 1;
      }
      return Some(value);
    }

    method TakeBare() returns (r: Option<Bare>)
      requires Valid()
      modifies `pos
      ensures Valid() && Agrees(r, ReadBare(old(Unread())), Unread())
    {
      hide ReadNumber, ReadText, ReadContent, ReadToken;
      if pos >= |input| {
        return None;
      }
      var c := input[pos];
      ghost var s := Unread();
      if c == MINUS || IsDigit(c) {
        r := TakeNumber();
      } else if c == DQUOTE {
        assert s[1..] == input[pos + 1..];
        pos := pos + 1;
        var text := TakeText();
        r := if text.Some? then Some(String(text.value)) else None;
      } else if c == COLON {
        assert s[1..] == input[pos + 1..];
        pos := pos + 1;
        var content := TakeContent();
        r := if content.Some? then Some(ByteSequence(content.value)) else None;
      } else if c == QUESTION {
        if pos + 1 >= |input| || (input[pos + 1] != 0x30 && input[pos + 1] != 0x31) {
          return None;
        }
        assert s[2..] == input[pos + 2..];
        pos := pos + 2;
        r := Some(Boolean(input[pos - 1] == 0x31));
      } else if IsTokenStart(c) {
        var token := TakeToken();
        r := if token.Some? then Some(Token(token.value)) else None;
      } else {
        r := None;
      }
    }

    static method Find<V>(ps: seq<Keyed<V>>, key: bytes) returns (i: nat)
      ensures i == IndexOf(ps, key)
    {
      i := 0;
      while i < |ps| && ps[i].key != key
        invariant 0 <= i <= |ps|
        invariant forall j :: 0 <= j < i ==> ps[j].key != key
      {
        i := i + 1;
      }
    }

    /** One parameter, after its `;`: the key, the slot it goes to, then its value. */
    method TakeParam(params: seq<Param>) returns (r: Option<seq<Param>>)
      requires Valid() && StartsWith(Unread(), SEMICOLON) && |params| <= MAX_PARAMS
      modifies `pos
      ensures Valid()
      ensures var all := LimitParams(params, ReadRawParams(old(Unread())));
        if r.None? then all.Declined?
        else all == LimitParams(r.value, ReadRawParams(Unread())) && |r.value| <= MAX_PARAMS && pos > old(pos)
    {
      hide ReadKey, ReadBare, SkipSpaces, IndexOf, ReadRawParams, LimitParams, Fold;
      ParamsStep(params, Unread());
      assert Unread()[1..] == input[pos + 1..];
      pos := pos + 1;
      SkipSp();
      var key := TakeKey();
      if key.None? {
        return None;
      }
      var i := Find(params, key.value);
      if i == |params| && |params| >= MAX_PARAMS {
        return None;
      }
      var value := TakeValue();
      if value.None? {
        return None;
      }
      var param := Keyed(key.value, value.value);
      r := Some(if i < |params| then params[i := param] else params + [param]);
    }

    method TakeValue() returns (r: Option<Bare>)
      requires Valid()
      modifies `pos
      ensures Valid() && Agrees(r, ReadValue(old(Unread())), Unread())
    {
      hide ReadBare;
      if pos < |input| && input[pos] == EQUALS {
        assert Unread()[1..] == input[pos + 1..];
        pos := pos + 1;
        r := TakeBare();
      } else {
        r := Some(Boolean(true));
      }
    }

    /** Parameters into a growing array: a repeated key overwrites, the limit stops early. */
    method TakeParams() returns (r: Option<seq<Param>>)
      requires Valid()
      modifies `pos
      ensures Valid() && Agrees(r, ReadParams(old(Unread())), Unread())
    {
      hide ReadRawParams, LimitParams;
      var params: seq<Param> := [];
      ghost var all := Unread();
      while pos < |input| && input[pos] == SEMICOLON
        invariant Valid() && |params| <= MAX_PARAMS
        invariant ReadParams(all) == LimitParams(params, ReadRawParams(Unread()))
        decreases |input| - pos
      {
        var taken := TakeParam(params);
        if taken.None? {
          return None;
        }
        params := taken.value;
      }
      ParamsDone(params, Unread());
      return Some(params);
    }

    method TakeItem() returns (r: Option<Item>)
      requires Valid()
      modifies `pos
      ensures Valid() && Agrees(r, ReadItem(old(Unread())), Unread())
    {
      hide ReadBare, ReadParams;
      var bare := TakeBare();
      if bare.None? {
        return None;
      }
      var params := TakeParams();
      r := if params.Some? then Some(Item(bare.value, params.value)) else None;
    }

    /** The items of an inner list, one at a time, up to its `)`. */
    method TakeItems() returns (r: Option<seq<Item>>)
      requires Valid()
      modifies `pos
      ensures Valid()
      ensures var spec := ReadItems(old(Unread()));
        if spec.Declined? || |spec.value| > MAX_ITEMS then r.None? else r == Some(spec.value) && Unread() == spec.rest
    {
      hide ReadItem, ReadItems, SkipSpaces, ItemsSoFar;
      var items: seq<Item> := [];
      ghost var all := Unread();
      ItemsStart(all);
      while pos < |input| && input[pos] != RPAREN
        invariant Valid() && |items| <= MAX_ITEMS
        invariant ItemsSoFar(ReadItems(all), items, ReadItems(Unread()))
        decreases |input| - pos
      {
        ItemsStep(ReadItems(all), items, Unread());
        if |items| >= MAX_ITEMS {
          return None;
        }
        var item := TakeItem();
        if item.None? {
          return None;
        }
        items := items + [item.value];
        if pos < |input| && input[pos] == RPAREN {
          assert Unread()[1..] == input[pos + 1..];
          pos := pos + 1;
          return Some(items);
        }
        if pos >= |input| || input[pos] != SPACE {
          return None;
        }
        SkipSp();
      }
      ItemsEnd(ReadItems(all), items, Unread());
      if pos >= |input| {
        return None;
      }
      assert Unread()[1..] == input[pos + 1..];
      pos := pos + 1;
      return Some(items);
    }

    /** An inner list, after its `(`. */
    method TakeInnerList() returns (r: Option<InnerList>)
      requires Valid()
      modifies `pos
      ensures Valid() && Agrees(r, ReadInnerList(old(Unread())), Unread())
    {
      hide ReadItems, ReadParams, SkipSpaces;
      SkipSp();
      var items := TakeItems();
      if items.None? {
        return None;
      }
      var params := TakeParams();
      r := if params.Some? then Some(InnerList(items.value, params.value)) else None;
    }

    /** The depth guard is there, and never fires: an inner list holds no members. */
    method TakeMember() returns (r: Option<Member>)
      requires Valid() && depth == 0
      modifies this
      ensures Valid() && depth == 0 && Agrees(r, ReadMember(old(Unread())), Unread())
    {
      hide ReadItem, ReadInnerList;
      if depth >= MAX_DEPTH {
        return None;
      }
      depth := depth + 1;
      if pos < |input| && input[pos] == LPAREN {
        assert Unread()[1..] == input[pos + 1..];
        pos := pos + 1;
        var list := TakeInnerList();
        r := if list.Some? then Some(ListMember(list.value)) else None;
      } else {
        var item := TakeItem();
        r := if item.Some? then Some(ItemMember(item.value)) else None;
      }
      depth := depth - 1;
    }

    method TakeEntryValue() returns (r: Option<Member>)
      requires Valid() && depth == 0
      modifies this
      ensures Valid() && depth == 0 && Agrees(r, ReadEntryValue(old(Unread())), Unread())
    {
      hide ReadMember, ReadParams;
      if pos < |input| && input[pos] == EQUALS {
        assert Unread()[1..] == input[pos + 1..];
        pos := pos + 1;
        r := TakeMember();
      } else {
        var params := TakeParams();
        r := if params.Some? then Some(ItemMember(Item(Boolean(true), params.value))) else None;
      }
    }

    /** Entries into a growing array; a repeated key overwrites in place and raises the flag. */
    /** Behind an entry: the input ends, or a comma and a further entry come. */
    method TakeComma() returns (ended: bool, more: bool)
      requires Valid()
      modifies `pos
      ensures Valid() && pos >= old(pos)
      ensures var t := SkipBlank(old(Unread()));
        && ended == (t == []) && more == (t != [] && t[0] == COMMA && SkipBlank(t[1..]) != [])
        && (ended ==> Unread() == []) && (more ==> Unread() == SkipBlank(t[1..]) && pos > old(pos))
    {
      hide SkipBlank;
      SkipOptionalSpace();
      if pos >= |input| {
        return true, false;
      }
      if input[pos] != COMMA {
        return false, false;
      }
      assert Unread()[1..] == input[pos + 1..];
      pos := pos + 1;
      SkipOptionalSpace();
      return false, pos < |input|;
    }

    method TakeDictionary() returns (r: Option<Dictionary>)
      requires Valid() && depth == 0
      modifies this
      ensures Valid() && r == ReadDictionary(old(Unread()))
      ensures r.Some? ==> Unread() == []
    {
      hide ReadKey, ReadEntryValue, SkipBlank, IndexOf, ReadRawEntries, EntriesSoFar, DistinctKeys, Fold;
      EntriesEmpty();
      var entries: seq<Entry>, duplicate := [], false;
      ghost var all, read := Unread(), [];
      EntriesStart(all);
      while pos < |input|
        invariant Valid() && depth == 0 && |entries| <= MAX_ITEMS
        invariant entries == Fold([], read) && duplicate == !DistinctKeys(read)
        invariant EntriesSoFar(ReadRawEntries(all), read, ReadRawEntries(Unread()))
        decreases |input| - pos
      {
        ghost var s := Unread();
        EntriesMore(ReadRawEntries(all), read, s);
        var key := TakeKey();
        if key.None? {
          return None;
        }
        var i := Find(entries, key.value);
        if i < |entries| {
          duplicate := true;
        } else if |entries| >= MAX_ITEMS {
          TooManyEntries(ReadRawEntries(all), read, s);
          return None;
        }
        var value := TakeEntryValue();
        if value.None? {
          return None;
        }
        var entry := Keyed(key.value, value.value);
        assert ReadEntry(s) == Parsed(entry, Unread());
        EntriesStep(read, entries, entry);
        read := read + [entry];
        entries := if i < |entries| then entries[i := entry] else entries + [entry];
        var ended, more := TakeComma();
        if ended {
          return Some(Dictionary(entries, duplicate));
        }
        if !more {
          return None;
        }
      }
      assert Unread() == [];
      EntriesEnd(ReadRawEntries(all), read);
      return Some(Dictionary(entries, duplicate));
    }
  }

  function Signed(negative: bool, v: int): int { if negative then -v else v }

  // ----- Facts about the loops -----

  /** One turn of the parameter loop, including its early stop at the limit. */
  lemma ParamsStep(acc: seq<Param>, s: bytes)
    requires StartsWith(s, SEMICOLON) && |acc| <= MAX_PARAMS
    ensures var key := ReadKey(SkipSpaces(s[1..]));
      && (key.Declined? ==> LimitParams(acc, ReadRawParams(s)).Declined?)
      && (key.Parsed? && IndexOf(acc, key.value) == |acc| && |acc| >= MAX_PARAMS ==>
            LimitParams(acc, ReadRawParams(s)).Declined?)
      && (key.Parsed? && ReadValue(key.rest).Declined? ==> LimitParams(acc, ReadRawParams(s)).Declined?)
      && (key.Parsed? && ReadValue(key.rest).Parsed? ==>
            var v := ReadValue(key.rest);
            LimitParams(acc, ReadRawParams(s)) == LimitParams(Put(acc, Keyed(key.value, v.value)),
              ReadRawParams(v.rest)))
  {
    hide ReadKey, ReadValue, SkipSpaces;
    var p := ReadParam(s[1..]);
    if p.Parsed? {
      var more := ReadRawParams(p.rest);
      if more.Parsed? {
        var raw := [p.value] + more.value;
        assert raw[1..] == more.value;
        FoldGrows(Put(acc, p.value), more.value);
      }
    }
  }

  lemma ParamsDone(acc: seq<Param>, s: bytes)
    requires !StartsWith(s, SEMICOLON) && |acc| <= MAX_PARAMS
    ensures LimitParams(acc, ReadRawParams(s)) == Parsed(acc, s)
  {
  }

  /** `whole` is what was read so far followed by what is still to come. */
  ghost predicate ItemsSoFar(whole: Parse<seq<Item>>, read: seq<Item>, more: Parse<seq<Item>>) {
    if more.Declined? then whole.Declined? else whole == Parsed(read + more.value, more.rest)
  }

  lemma ItemsStart(s: bytes)
    ensures ItemsSoFar(ReadItems(s), [], ReadItems(s))
  {
    if ReadItems(s).Parsed? {
      assert [] + ReadItems(s).value == ReadItems(s).value;
    }
  }

  lemma ItemsStep(whole: Parse<seq<Item>>, read: seq<Item>, s: bytes)
    requires ItemsSoFar(whole, read, ReadItems(s)) && s != [] && s[0] != RPAREN
    ensures whole.Parsed? ==> |whole.value| > |read|
    ensures var x := ReadItem(s);
      && (x.Declined? ==> whole.Declined?)
      && (x.Parsed? && StartsWith(x.rest, RPAREN) ==> whole == Parsed(read + [x.value], x.rest[1..]))
      && (x.Parsed? && !StartsWith(x.rest, RPAREN) && !StartsWith(x.rest, SPACE) ==> whole.Declined?)
      && (x.Parsed? && StartsWith(x.rest, SPACE) ==>
            ItemsSoFar(whole, read + [x.value], ReadItems(SkipSpaces(x.rest))))
  {
    hide ReadItem, SkipSpaces;
    var x := ReadItem(s);
    if x.Parsed? && StartsWith(x.rest, SPACE) {
      var more := ReadItems(SkipSpaces(x.rest));
      if more.Parsed? {
        assert read + [x.value] + more.value == read + ([x.value] + more.value);
      }
    }
  }

  lemma ItemsEnd(whole: Parse<seq<Item>>, read: seq<Item>, s: bytes)
    requires ItemsSoFar(whole, read, ReadItems(s)) && (s == [] || s[0] == RPAREN)
    ensures s == [] ==> whole.Declined?
    ensures s != [] ==> whole == Parsed(read, s[1..])
  {
    assert read + [] == read;
  }

  ghost predicate EntriesSoFar(whole: Option<seq<Entry>>, read: seq<Entry>, more: Option<seq<Entry>>) {
    if more.None? then whole.None? else whole == Some(read + more.value)
  }

  lemma EntriesStart(s: bytes)
    ensures EntriesSoFar(ReadRawEntries(s), [], ReadRawEntries(s))
  {
    if ReadRawEntries(s).Some? {
      assert [] + ReadRawEntries(s).value == ReadRawEntries(s).value;
    }
  }

  lemma EntriesMore(whole: Option<seq<Entry>>, read: seq<Entry>, s: bytes)
    requires EntriesSoFar(whole, read, ReadRawEntries(s)) && s != []
    ensures ReadEntry(s).Declined? ==> whole.None?
    ensures ReadEntry(s).Parsed? ==>
      var e, t := ReadEntry(s).value, SkipBlank(ReadEntry(s).rest);
      && (t == [] ==> whole == Some(read + [e]))
      && (t != [] && t[0] != COMMA ==> whole.None?)
      && (t != [] && t[0] == COMMA && SkipBlank(t[1..]) == [] ==> whole.None?)
      && (t != [] && t[0] == COMMA && SkipBlank(t[1..]) != [] ==>
            EntriesSoFar(whole, read + [e], ReadRawEntries(SkipBlank(t[1..]))))
  {
    hide ReadEntry, SkipBlank;
    if ReadEntry(s).Parsed? {
      var e, t := ReadEntry(s).value, SkipBlank(ReadEntry(s).rest);
      if t != [] && t[0] == COMMA && SkipBlank(t[1..]) != [] {
        var more := ReadRawEntries(SkipBlank(t[1..]));
        if more.Some? {
          assert read + [e] + more.value == read + ([e] + more.value);
        }
      }
    }
  }

  lemma EntriesEnd(whole: Option<seq<Entry>>, read: seq<Entry>)
    requires EntriesSoFar(whole, read, ReadRawEntries([]))
    ensures whole == Some(read)
  {
    assert read + [] == read;
  }

  lemma EntriesStep(read: seq<Entry>, entries: seq<Entry>, entry: Entry)
    requires entries == Fold([], read)
    ensures Fold([], read + [entry]) == Put(entries, entry)
    ensures DistinctKeys(read + [entry]) <==> DistinctKeys(read) && IndexOf(entries, entry.key) == |entries|
  {
    hide IndexOf, LastValue, Get;
    FoldSnoc([], read, entry);
    FoldMerges(read);
    assert LastValue(read, entry.key) == Get(entries, entry.key);
    LastValueNone(read, entry.key);
    GetNone(entries, entry.key);
    DistinctSnoc(read, entry);
  }

  lemma DistinctSnoc<V>(ps: seq<Keyed<V>>, p: Keyed<V>)
    ensures DistinctKeys(ps + [p]) <==> DistinctKeys(ps) && IndexOf(ps, p.key) == |ps|
  {
    var all := ps + [p];
    var i := IndexOf(ps, p.key);
    assert forall k :: 0 <= k < |ps| ==> all[k] == ps[k];
    assert all[|ps|] == p;
    if i < |ps| {
      assert all[i].key == all[|ps|].key;
    }
  }

  lemma EntriesEmpty()
    ensures Fold<Member>([], []) == [] && DistinctKeys<Member>([])
  {
  }

  lemma TooManyEntries(whole: Option<seq<Entry>>, read: seq<Entry>, s: bytes)
    requires EntriesSoFar(whole, read, ReadRawEntries(s)) && s != []
    requires ReadKey(s).Parsed? && |Fold([], read)| >= MAX_ITEMS
    requires IndexOf(Fold([], read), ReadKey(s).value) == |Fold([], read)|
    ensures whole.None? || |Fold([], whole.value)| > MAX_ITEMS
  {
    if whole.Some? {
      var more := ReadRawEntries(s).value;
      assert more[0].key == ReadKey(s).value;
      FoldConcat([], read, more);
      FoldGrows(Put(Fold([], read), more[0]), more[1..]);
    }
  }

  lemma {:induction false} FoldConcat<V>(acc: seq<Keyed<V>>, a: seq<Keyed<V>>, b: seq<Keyed<V>>)
    ensures Fold(acc, a + b) == Fold(Fold(acc, a), b)
    decreases |a|
  {
    if a == [] {
      assert a + b == b;
    } else {
      assert (a + b)[1..] == a[1..] + b;
      FoldConcat(Put(acc, a[0]), a[1..], b);
    }
  }

  // ----- Entry points -----

  method ParseDictionaryText(input: bytes) returns (r: Option<Dictionary>)
    ensures r == ParseDictionary(input)
  {
    if |input| > MAX_LENGTH {
      return None;
    }
    var reader := new Reader(input);
    reader.SkipSp();
    r := reader.TakeDictionary();
    if r.Some? {
      reader.SkipSp();
      if reader.pos != |input| {
        return None;
      }
    }
  }

  method ParseItemText(input: bytes) returns (r: Option<Item>)
    ensures r == ParseItem(input)
  {
    hide ReadItem, SkipSpaces;
    if |input| > MAX_LENGTH {
      return None;
    }
    var reader := new Reader(input);
    reader.SkipSp();
    r := reader.TakeItem();
    if r.Some? {
      reader.SkipSp();
      if reader.pos != |input| {
        return None;
      }
    }
  }
}
