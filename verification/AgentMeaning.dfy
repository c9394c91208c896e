/** Which URL Signature-Agent yields, said by positions in its lines and in their entries. */
module AgentMeaning {
  import opened AgentUrl
  import opened Bytes
  import opened HostName
  import opened Sfv
  import opened SfvSoundness

  const TYPE := Ascii("type")
  const DIRECTORY := Ascii("directory")

  /** The member is the string `u`, and a directory as far as its type says. */
  predicate Carries(m: Member, u: bytes) {
    && m.ItemMember? && m.item.bare == String(u)
    && (Get(m.item.params, TYPE).None? || Get(m.item.params, TYPE) == Some(Token(DIRECTORY)))
  }

  /** Line `i` is a dictionary whose entry `k` is the label's and carries `u`. */
  ghost predicate LabelEntry(lines: seq<bytes>, member: bytes, i: nat, k: nat, u: bytes) {
    && i < |lines| && ParseDictionary(lines[i]).Some?
    && var es := ParseDictionary(lines[i]).value.entries;
       k < |es| && es[k].key == member && Carries(es[k].value, u)
  }

  /** The label's URL: an entry of its own on a line, and none on an earlier line. */
  ghost predicate FromLabel(lines: seq<bytes>, member: bytes, u: bytes) {
    exists i: nat, k: nat ::
      && LabelEntry(lines, member, i, k, u)
      && forall j: nat, m: nat, v :: j < i ==> !LabelEntry(lines, member, j, m, v)
  }

  /** Entry `k` of a dictionary is the first that carries anything. */
  ghost predicate FirstCarrier(es: seq<Entry>, k: nat, u: bytes) {
    k < |es| && Carries(es[k].value, u) && forall m, v :: 0 <= m < k ==> !Carries(es[m].value, v)
  }

  /** What a line offers without regard to the label: a carrier, a string, or itself. */
  ghost predicate Offers(line: bytes, u: bytes) {
    && 0 < |line| <= 8192
    && if ParseDictionary(line).Some? then exists k: nat :: FirstCarrier(ParseDictionary(line).value.entries, k, u)
       else if ParseItem(line).Some? && ParseItem(line).value.bare.String? then ParseItem(line).value.bare == String(u)
       else u == line
  }

  /** The first line that offers anything offers `u`. */
  ghost predicate FromFirstOffer(lines: seq<bytes>, u: bytes) {
    exists i: nat :: i < |lines| && Offers(lines[i], u) && forall j, v :: 0 <= j < i ==> !Offers(lines[j], v)
  }

  ghost predicate NoLabelEntry(lines: seq<bytes>, member: bytes) {
    forall i: nat, k: nat, v :: !LabelEntry(lines, member, i, k, v)
  }

  // ----- One dictionary -----

  lemma CarriesExactly(m: Member, u: bytes)
    ensures Carries(m, u) <==> Usable(m) && m.item.bare.text == u
  {
    hide Get, Ascii;
    assert TYPE == Ascii("type") && DIRECTORY == Ascii("directory");
  }

  /** Entry `k` is one the scan looks for. */
  predicate Wanted(e: Entry, key: Option<bytes>) { Usable(e.value) && (key.None? || e.key == key.value) }

  /** Where the scan of a dictionary stops: at the first wanted entry, or at the end. */
  lemma {:induction false} ScanStops(es: seq<Entry>, key: Option<bytes>) returns (k: nat)
    ensures k <= |es| && (forall m :: 0 <= m < k ==> !Wanted(es[m], key))
    ensures k < |es| ==> Wanted(es[k], key) && FirstUsable(es, key) == Some(es[k].value.item.bare.text)
    ensures k == |es| ==> FirstUsable(es, key).None?
  {
    hide Usable;
    k := 0;
    if es != [] && !Wanted(es[0], key) {
      k := ScanStops(es[1..], key);
      assert forall m :: 1 <= m < |es| ==> es[m] == es[1..][m - 1];
      k := k + 1;
    } else if es != [] {
      UsableText(es[0].value);
    }
  }

  /** Labels are distinct and not empty, so at most one entry of a line is the label's. */
  lemma OneLabelEntry(lines: seq<bytes>, member: bytes, i: nat, k: nat, u: bytes, m: nat, v: bytes)
    requires LabelEntry(lines, member, i, k, u) && LabelEntry(lines, member, i, m, v)
    ensures k == m && u == v && member != []
  {
    hide ParseDictionary, ValidMember, Carries;
    DictionarySound(lines[i]);
    CarriesExactly(ParseDictionary(lines[i]).value.entries[k].value, u);
    CarriesExactly(ParseDictionary(lines[i]).value.entries[k].value, v);
  }

  // ----- One line -----

  /** A line's match for the label is its label's entry. */
  lemma LineMatchExactly(lines: seq<bytes>, member: bytes, i: nat)
    requires i < |lines|
    ensures forall k: nat, u :: LabelEntry(lines, member, i, k, u) ==> LineMatch(lines[i], member) == Some(u)
    ensures LineMatch(lines[i], member).Some? ==>
      exists k: nat :: LabelEntry(lines, member, i, k, LineMatch(lines[i], member).value)
  {
    hide ParseDictionary, Carries, Usable, FirstUsable;
    var line := lines[i];
    if ParseDictionary(line).Some? {
      var es := ParseDictionary(line).value.entries;
      var k := ScanStops(es, Some(member));
      LongRefused(line);
      if k < |es| {
        UsableText(es[k].value);
        CarriesExactly(es[k].value, es[k].value.item.bare.text);
        assert LabelEntry(lines, member, i, k, es[k].value.item.bare.text);
      }
      forall m: nat, u | LabelEntry(lines, member, i, m, u)
        ensures LineMatch(line, member) == Some(u)
      {
        CarriesExactly(es[m].value, u);
        assert Wanted(es[m], Some(member));
        OneLabelEntry(lines, member, i, k, es[k].value.item.bare.text, m, u);
      }
    }
  }

  /** A dictionary is never longer than the limit, and an empty line has no entries. */
  lemma LongRefused(line: bytes)
    ensures ParseDictionary(line).Some? ==> |line| <= MAX_LENGTH
    ensures line == [] && ParseDictionary(line).Some? ==> ParseDictionary(line).value.entries == []
  {
  }

  /** A line offers what the fallback takes from it, and nothing else. */
  lemma FallbackExactly(line: bytes, u: bytes)
    ensures LineFallback(line) == Some(u) <==> Offers(line, u)
  {
    hide ParseDictionary, ParseItem, Carries, Usable, FirstUsable;
    if ParseDictionary(line).Some? {
      var es := ParseDictionary(line).value.entries;
      var k := ScanStops(es, None);
      if k < |es| {
        UsableText(es[k].value);
        CarriesExactly(es[k].value, es[k].value.item.bare.text);
        forall m, v | 0 <= m < k
          ensures !Carries(es[m].value, v)
        {
          CarriesExactly(es[m].value, v);
          assert !Wanted(es[m], None);
        }
        assert FirstCarrier(es, k, es[k].value.item.bare.text);
      }
      forall m: nat | FirstCarrier(es, m, u)
        ensures k == m && es[k].value.item.bare.text == u
      {
        CarriesExactly(es[m].value, u);
        assert Wanted(es[m], None);
        assert k < |es|;
        CarriesExactly(es[k].value, es[k].value.item.bare.text);
      }
    }
  }

  // ----- All lines -----

  lemma {:induction false} FirstMatchAt(lines: seq<bytes>, member: bytes) returns (i: nat)
    ensures i <= |lines| && forall j :: 0 <= j < i ==> LineMatch(lines[j], member).None?
    ensures i < |lines| ==>
      LineMatch(lines[i], member).Some? && FirstMatch(lines, member) == LineMatch(lines[i], member)
    ensures i == |lines| ==> FirstMatch(lines, member).None?
  {
    hide LineMatch;
    i := 0;
    if lines != [] && LineMatch(lines[0], member).None? {
      i := FirstMatchAt(lines[1..], member);
      assert forall j :: 1 <= j < |lines| ==> lines[j] == lines[1..][j - 1];
      i := i + 1;
    }
  }

  lemma {:induction false} FirstFallbackAt(lines: seq<bytes>) returns (i: nat)
    ensures i <= |lines| && forall j :: 0 <= j < i ==> LineFallback(lines[j]).None?
    ensures i < |lines| ==> LineFallback(lines[i]).Some? && FirstFallback(lines) == LineFallback(lines[i])
    ensures i == |lines| ==> FirstFallback(lines).None?
  {
    hide LineFallback;
    i := 0;
    if lines != [] && LineFallback(lines[0]).None? {
      i := FirstFallbackAt(lines[1..]);
      assert forall j :: 1 <= j < |lines| ==> lines[j] == lines[1..][j - 1];
      i := i + 1;
    }
  }

  lemma MatchExactly(lines: seq<bytes>, member: bytes, u: bytes)
    ensures FirstMatch(lines, member) == Some(u) <==> FromLabel(lines, member, u)
    ensures FirstMatch(lines, member).None? <==> NoLabelEntry(lines, member)
  {
    hide LineMatch, FirstMatch, LabelEntry;
    var i := FirstMatchAt(lines, member);
    forall j: nat, m: nat, v
      ensures LabelEntry(lines, member, j, m, v) ==> j < |lines| && LineMatch(lines[j], member) == Some(v)
    {
      LabelInside(lines, member, j, m, v);
      if j < |lines| { LineMatchExactly(lines, member, j); }
    }
    if i < |lines| {
      LineMatchExactly(lines, member, i);
      var k: nat :| LabelEntry(lines, member, i, k, LineMatch(lines[i], member).value);
      assert FromLabel(lines, member, LineMatch(lines[i], member).value);
    }
    if FromLabel(lines, member, u) {
      var j: nat, m: nat :| LabelEntry(lines, member, j, m, u)
        && forall n: nat, l: nat, v :: n < j ==> !LabelEntry(lines, member, n, l, v);
      assert j == i;
    }
  }

  lemma LabelInside(lines: seq<bytes>, member: bytes, j: nat, m: nat, v: bytes)
    ensures LabelEntry(lines, member, j, m, v) ==> j < |lines|
  {
    hide ParseDictionary, Carries;
  }

  lemma OfferExactly(lines: seq<bytes>, u: bytes)
    ensures FirstFallback(lines) == Some(u) <==> FromFirstOffer(lines, u)
  {
    hide LineFallback, FirstFallback, Offers;
    var i := FirstFallbackAt(lines);
    forall j, v | 0 <= j < |lines|
      ensures LineFallback(lines[j]) == Some(v) <==> Offers(lines[j], v)
    {
      FallbackExactly(lines[j], v);
    }
    if i < |lines| {
      assert Offers(lines[i], LineFallback(lines[i]).value);
      forall j, v | 0 <= j < i
        ensures !Offers(lines[j], v)
      {
        FallbackExactly(lines[j], v);
      }
      assert FromFirstOffer(lines, LineFallback(lines[i]).value);
    }
    if FromFirstOffer(lines, u) {
      var j: nat :| j < |lines| && Offers(lines[j], u) && forall n, v :: 0 <= n < j ==> !Offers(lines[n], v);
      assert LineFallback(lines[j]) == Some(u);
      assert j == i;
    }
  }

  /**
   * The URL is the label's, from the first line that has an entry of its own for it; when no line
   * has, it is what the first line that offers anything offers.
   */
  lemma UrlExactly(lines: seq<bytes>, member: bytes, u: bytes)
    ensures UrlOf(lines, member) == Some(u) <==>
      FromLabel(lines, member, u) || (NoLabelEntry(lines, member) && FromFirstOffer(lines, u))
  {
    hide FirstMatch, FirstFallback, FromLabel, NoLabelEntry, FromFirstOffer;
    MatchExactly(lines, member, u);
    OfferExactly(lines, u);
  }

  // ----- The host -----

  /**
   * The host of that URL in lower case; nothing when there is no URL, or none with an authority of
   * the allowed form.
   */
  lemma HostExactly(lines: seq<bytes>, member: bytes)
    ensures forall u, b :: UrlOf(lines, member) == Some(u) && IsBounds(u, b) ==>
      b.host <= |b.authority| && AgentHost(lines, member) == Lower(b.authority[..b.host])
    ensures (forall u, b :: UrlOf(lines, member) == Some(u) ==> !IsBounds(u, b)) ==> AgentHost(lines, member) == []
  {
    hide UrlOf, IsBounds;
    forall u, b | UrlOf(lines, member) == Some(u) && IsBounds(u, b)
      ensures b.host <= |b.authority| && AgentHost(lines, member) == Lower(b.authority[..b.host])
    {
      BoundsInside(u, b);
      BoundsUnique(u, b, BoundsOf(u).value);
      assert Lower(b.authority[..b.host]) == Lower(b.authority)[..b.host];
    }
  }
}
