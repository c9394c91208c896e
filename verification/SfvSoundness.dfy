/**
 * Everything the reader accepts is well formed, so it can be serialized, and serializing
 * it is a canonical form: reading that form gives the same value again.
 */
module SfvSoundness {
  import opened Bytes
  import opened Sfv
  import opened SfvRoundTrip

  // ----- Numbers stay within fifteen digits -----

  lemma {:induction false} DigitsValueBound(s: bytes)
    requires AllIn(s, DigitClass)
    ensures DigitsValue(s) < Pow10(|s|)
  {
    if s != [] {
      DigitsValueBound(s[..|s| - 1]);
      assert InClass(s[|s| - 1], DigitClass);
    }
  }

  lemma {:induction false} Pow10Monotone(j: nat, k: nat)
    requires j <= k
    ensures Pow10(j) <= Pow10(k)
  {
    if j < k {
      Pow10Monotone(j, k - 1);
    }
  }

  lemma FractionBound(s: bytes)
    requires AllIn(s, DigitClass) && 1 <= |s| <= 3
    ensures FractionValue(s) < 1000
  {
    DigitsValueBound(s);
    assert Pow10(1) == 10 && Pow10(2) == 100 && Pow10(3) == 1000;
  }

  lemma MagnitudeSound(s: bytes, sign: int)
    requires ReadMagnitude(s, sign).Parsed? && (sign == 1 || sign == -1)
    ensures ValidBare(ReadMagnitude(s, sign).value)
  {
    hide DigitsValue, FractionValue;
    var n := RunLength(s, DigitClass);
    Magnitudes();
    DigitsValueBound(s[..n]);
    Pow10Monotone(n, 15);
    if StartsWith(s[n..], DOT) {
      Pow10Monotone(n, 12);
      var t := s[n + 1..];
      FractionBound(t[..RunLength(t, DigitClass)]);
    }
  }

  lemma BareSound(s: bytes)
    requires ReadBare(s).Parsed?
    ensures ValidBare(ReadBare(s).value)
  {
    hide ReadText, ReadContent, ReadMagnitude, RunLength;
    if s[0] == MINUS || IsDigit(s[0]) {
      if s[0] == MINUS {
        MagnitudeSound(s[1..], -1);
      } else {
        MagnitudeSound(s, 1);
      }
    }
  }

  // ----- Parameters -----

  predicate EachValid(ps: seq<Param>) { forall i :: 0 <= i < |ps| ==> ValidParam(ps[i]) }

  lemma ParamSound(s: bytes)
    requires ReadParam(s).Parsed?
    ensures ValidParam(ReadParam(s).value)
  {
    hide ReadBare, ReadKey, SkipSpaces;
    var k := ReadKey(SkipSpaces(s));
    if StartsWith(k.rest, EQUALS) {
      BareSound(k.rest[1..]);
    }
  }

  lemma {:induction false} RawParamsSound(s: bytes)
    requires ReadRawParams(s).Parsed?
    ensures EachValid(ReadRawParams(s).value)
    decreases |s|
  {
    hide ReadParam;
    if StartsWith(s, SEMICOLON) {
      ParamSound(s[1..]);
      RawParamsSound(ReadParam(s[1..]).rest);
    }
  }

  // ----- Merging repeated keys -----

  lemma PutDistinct<V>(ps: seq<Keyed<V>>, p: Keyed<V>)
    requires DistinctKeys(ps)
    ensures DistinctKeys(Put(ps, p))
  {
  }

  lemma {:induction false} FoldKeepsDistinct<V>(acc: seq<Keyed<V>>, raw: seq<Keyed<V>>)
    requires DistinctKeys(acc)
    ensures DistinctKeys(Fold(acc, raw))
    decreases |raw|
  {
    if raw != [] {
      PutDistinct(acc, raw[0]);
      FoldKeepsDistinct(Put(acc, raw[0]), raw[1..]);
    }
  }

  lemma {:induction false} FoldMembers<V>(acc: seq<Keyed<V>>, raw: seq<Keyed<V>>)
    ensures forall i :: 0 <= i < |Fold(acc, raw)| ==> Fold(acc, raw)[i] in acc || Fold(acc, raw)[i] in raw
    decreases |raw|
  {
    if raw != [] {
      FoldMembers(Put(acc, raw[0]), raw[1..]);
    }
  }

  lemma {:induction false} FoldGrows<V>(acc: seq<Keyed<V>>, raw: seq<Keyed<V>>)
    ensures |acc| <= |Fold(acc, raw)| <= |acc| + |raw|
    decreases |raw|
  {
    if raw != [] {
      FoldGrows(Put(acc, raw[0]), raw[1..]);
    }
  }

  lemma {:induction false} FoldSnoc<V>(acc: seq<Keyed<V>>, raw: seq<Keyed<V>>, p: Keyed<V>)
    ensures Fold(acc, raw + [p]) == Put(Fold(acc, raw), p)
    decreases |raw|
  {
    if raw == [] {
      assert raw + [p] == [p];
      assert Fold(Put(acc, p), []) == Put(acc, p);
      assert [p][1..] == [];
    } else {
      assert (raw + [p])[1..] == raw[1..] + [p];
      FoldSnoc(Put(acc, raw[0]), raw[1..], p);
    }
  }

  /** The value a key had at its last occurrence. */
  function LastValue<V>(raw: seq<Keyed<V>>, key: bytes): Option<V> {
    if raw == [] then None
    else if raw[|raw| - 1].key == key then Some(raw[|raw| - 1].value)
    else LastValue(raw[..|raw| - 1], key)
  }

  lemma IndexOfSnoc<V>(raw: seq<Keyed<V>>, p: Keyed<V>, key: bytes)
    ensures IndexOf(raw + [p], key) ==
            if IndexOf(raw, key) < |raw| then IndexOf(raw, key) else if p.key == key then |raw| else |raw| + 1
  {
    var all := raw + [p];
    var i, j := IndexOf(raw, key), IndexOf(all, key);
    assert forall k :: 0 <= k < |raw| ==> all[k] == raw[k];
    assert all[|raw|] == p;
  }

  /** What merging means, without saying how it is done. */
  ghost predicate Merged<V>(raw: seq<Keyed<V>>, out: seq<Keyed<V>>) {
    && DistinctKeys(out)
    && (forall k :: LastValue(raw, k) == Get(out, k))
    && (forall i :: 0 <= i < |out| ==> IndexOf(raw, out[i].key) < |raw|)
    && (forall i, j :: 0 <= i < j < |out| ==> IndexOf(raw, out[i].key) < IndexOf(raw, out[j].key))
  }

  lemma {:induction false} IndexOfSameKeys<V>(ps: seq<Keyed<V>>, qs: seq<Keyed<V>>, key: bytes)
    requires |ps| == |qs| && forall i :: 0 <= i < |ps| ==> ps[i].key == qs[i].key
    ensures IndexOf(ps, key) == IndexOf(qs, key)
  {
    if ps != [] {
      IndexOfSameKeys(ps[1..], qs[1..], key);
    }
  }

  lemma GetPut<V>(ps: seq<Keyed<V>>, p: Keyed<V>, k: bytes)
    ensures Get(Put(ps, p), k) == if k == p.key then Some(p.value) else Get(ps, k)
  {
    var i := IndexOf(ps, p.key);
    if i < |ps| {
      IndexOfSameKeys(ps[i := p], ps, k);
    } else {
      IndexOfSnoc(ps, p, k);
    }
  }

  lemma {:induction false} LastValueNone<V>(raw: seq<Keyed<V>>, key: bytes)
    ensures LastValue(raw, key).None? <==> IndexOf(raw, key) == |raw|
  {
    if raw != [] {
      var n := |raw| - 1;
      LastValueNone(raw[..n], key);
      assert raw[..n] + [raw[n]] == raw;
      IndexOfSnoc(raw[..n], raw[n], key);
    }
  }

  lemma LastValueSnoc<V>(raw: seq<Keyed<V>>, p: Keyed<V>, k: bytes)
    ensures LastValue(raw + [p], k) == if p.key == k then Some(p.value) else LastValue(raw, k)
  {
    assert (raw + [p])[..|raw + [p]| - 1] == raw;
  }

  lemma MergedStep<V>(raw: seq<Keyed<V>>, out: seq<Keyed<V>>, p: Keyed<V>)
    requires Merged(raw, out)
    ensures Merged(raw + [p], Put(out, p))
  {
    hide Get, LastValue, IndexOf;
    var raw', out' := raw + [p], Put(out, p);
    PutDistinct(out, p);
    forall k ensures LastValue(raw', k) == Get(out', k) {
      LastValueSnoc(raw, p, k);
      GetPut(out, p, k);
      assert LastValue(raw, k) == Get(out, k);
    }
    forall k
      ensures IndexOf(raw', k) ==
        if IndexOf(raw, k) < |raw| then IndexOf(raw, k) else if p.key == k then |raw| else |raw| + 1
    {
      IndexOfSnoc(raw, p, k);
    }
    LastValueNone(raw, p.key);
    GetNone(out, p.key);
    assert LastValue(raw, p.key) == Get(out, p.key);
  }

  lemma GetNone<V>(ps: seq<Keyed<V>>, key: bytes)
    ensures Get(ps, key).None? <==> IndexOf(ps, key) == |ps|
  {
  }

  /**
   * Merging keeps one pair per key, in order of first occurrence, each with the value of
   * its last occurrence.
   */
  lemma {:induction false} FoldMerges<V>(raw: seq<Keyed<V>>)
    ensures Merged(raw, Fold([], raw))
  {
    if raw != [] {
      var n := |raw| - 1;
      FoldMerges(raw[..n]);
      assert raw[..n] + [raw[n]] == raw;
      FoldSnoc([], raw[..n], raw[n]);
      MergedStep(raw[..n], Fold([], raw[..n]), raw[n]);
    }
  }

  // ----- Items, inner lists, dictionaries -----

  lemma ParamsSound(s: bytes)
    requires ReadParams(s).Parsed?
    ensures ValidParams(ReadParams(s).value)
  {
    hide ReadRawParams;
    RawParamsSound(s);
    var raw := ReadRawParams(s).value;
    FoldKeepsDistinct([], raw);
    FoldMembers([], raw);
  }

  lemma ItemSound(s: bytes)
    requires ReadItem(s).Parsed?
    ensures ValidItem(ReadItem(s).value)
  {
    hide ReadBare, ReadParams;
    BareSound(s);
    ParamsSound(ReadBare(s).rest);
  }

  lemma {:induction false} ItemsSound(s: bytes)
    requires ReadItems(s).Parsed?
    ensures forall i :: 0 <= i < |ReadItems(s).value| ==> ValidItem(ReadItems(s).value[i])
    decreases |s|
  {
    hide ReadItem, SkipSpaces;
    if s[0] != RPAREN {
      ItemSound(s);
      var x := ReadItem(s);
      if !StartsWith(x.rest, RPAREN) {
        ItemsSound(SkipSpaces(x.rest));
      }
    }
  }

  lemma InnerListSound(s: bytes)
    requires ReadInnerList(s).Parsed?
    ensures ValidInnerList(ReadInnerList(s).value)
  {
    hide ReadItems, ReadParams, SkipSpaces;
    var t := SkipSpaces(s);
    ItemsSound(t);
    ParamsSound(ReadItems(t).rest);
  }

  lemma MemberSound(s: bytes)
    requires ReadMember(s).Parsed?
    ensures ValidMember(ReadMember(s).value)
  {
    hide ReadItem, ReadInnerList;
    if StartsWith(s, LPAREN) {
      InnerListSound(s[1..]);
    } else {
      ItemSound(s);
    }
  }

  predicate ValidEntry(e: Entry) { ValidKey(e.key) && ValidMember(e.value) }

  lemma EntrySound(s: bytes)
    requires ReadEntry(s).Parsed?
    ensures ValidEntry(ReadEntry(s).value)
  {
    hide ReadKey, ReadMember, ReadParams;
    var k := ReadKey(s);
    if StartsWith(k.rest, EQUALS) {
      MemberSound(k.rest[1..]);
    } else {
      ParamsSound(k.rest);
    }
  }

  lemma {:induction false} RawEntriesSound(s: bytes)
    requires ReadRawEntries(s).Some?
    ensures forall i :: 0 <= i < |ReadRawEntries(s).value| ==> ValidEntry(ReadRawEntries(s).value[i])
    decreases |s|
  {
    hide ReadEntry, SkipBlank;
    if s != [] {
      EntrySound(s);
      var t := SkipBlank(ReadEntry(s).rest);
      if t != [] {
        RawEntriesSound(SkipBlank(t[1..]));
      }
    }
  }

  /** Every dictionary the parser returns is well formed, and flags repeats exactly. */
  lemma DictionarySound(s: bytes)
    requires ParseDictionary(s).Some?
    ensures ValidDictionary(ParseDictionary(s).value)
    ensures exists raw: seq<Entry> ::
      && ReadRawEntries(SkipSpaces(s)) == Some(raw)
      && Merged(raw, ParseDictionary(s).value.entries)
      && (ParseDictionary(s).value.duplicateKeys <==> exists i, j :: 0 <= i < j < |raw| && raw[i].key == raw[j].key)
  {
    hide ReadRawEntries, SkipSpaces;
    var t := SkipSpaces(s);
    RawEntriesSound(t);
    var raw := ReadRawEntries(t).value;
    FoldMerges(raw);
    FoldMembers([], raw);
  }

  /** Serializing what was read gives a canonical form that reads back unchanged. */
  lemma Canonical(s: bytes)
    requires ReadMember(s).Parsed?
    ensures ReadMember(WriteMember(ReadMember(s).value)) == Parsed(ReadMember(s).value, [])
  {
    hide ReadMember, WriteMember;
    var m := ReadMember(s).value;
    MemberSound(s);
    MemberRoundTrip(m, []);
    assert WriteMember(m) + [] == WriteMember(m);
  }
}
