/** The profile checks as they run: loops over entries, parameters, components and header lines. */
module ProfileCheck {
  import opened BaseBuilder
  import opened Bytes
  import opened Profile
  import opened Sfv
  import opened SfvReader
  import opened SfvSoundness
  import opened SignatureBase

  method PickEntry(entries: seq<Entry>, tag: bytes) returns (r: Option<Entry>)
    ensures r == SelectEntry(entries, tag)
  {
    hide TaggedFor;
    var i := 0;
    assert entries[0..] == entries;
    while i < |entries|
      invariant i <= |entries| && SelectEntry(entries[i..], tag) == SelectEntry(entries, tag)
    {
      var tagged := HasTag(entries[i].value, tag);
      if tagged {
        return Some(entries[i]);
      }
      assert entries[i..][1..] == entries[i + 1..];
      i := i + 1;
    }
    return None;
  }

  method HasTag(m: Member, tag: bytes) returns (tagged: bool)
    ensures tagged == TaggedFor(m, tag)
  {
    var ps := if m.ListMember? then m.list.params else m.item.params;
    var found := Param(ps, Ascii("tag"));
    tagged := found.Some? && found.value.String? && found.value.text == tag;
  }

  method Param(ps: seq<Keyed<Bare>>, name: bytes) returns (r: Option<Bare>)
    ensures r == Get(ps, name)
  {
    var i := Reader.Find(ps, name);
    r := if i < |ps| then Some(ps[i].value) else None;
  }

  method ReadInteger(ps: seq<Keyed<Bare>>, name: bytes) returns (ok: bool, v: Option<int>)
    ensures (ok, v) == IntegerParam(ps, name)
  {
    var found := Param(ps, name);
    if found.None? {
      return true, None;
    }
    if !found.value.Integer? {
      return false, None;
    }
    return true, Some(found.value.value);
  }

  method ReadString(ps: seq<Keyed<Bare>>, name: bytes) returns (ok: bool, v: Option<bytes>)
    ensures (ok, v) == StringParam(ps, name)
  {
    var found := Param(ps, name);
    if found.None? {
      return true, None;
    }
    if !found.value.String? {
      return false, None;
    }
    return true, Some(found.value.text);
  }

  /** The known parameters in turn; the first of a wrong type ends it. */
  method ReadFields(ps: seq<Keyed<Bare>>) returns (r: Option<Fields>)
    ensures r == ExtractFields(ps)
  {
    hide IntegerParam, StringParam;
    var ok, created := ReadInteger(ps, Ascii("created"));
    if !ok { return None; }
    var expires;
    ok, expires := ReadInteger(ps, Ascii("expires"));
    if !ok { return None; }
    var keyid;
    ok, keyid := ReadString(ps, Ascii("keyid"));
    if !ok { return None; }
    var alg;
    ok, alg := ReadString(ps, Ascii("alg"));
    if !ok { return None; }
    var nonce;
    ok, nonce := ReadString(ps, Ascii("nonce"));
    if !ok { return None; }
    var tag;
    ok, tag := ReadString(ps, Ascii("tag"));
    if !ok { return None; }
    return Some(Fields(created, expires, keyid, alg, nonce, tag));
  }

  lemma CoveredSnoc(items: seq<Item>, x: Item)
    ensures Covered(items + [x]) == Covered(items) + (if x.bare.String? then ComponentBit(x.bare.text) else {})
  {
    hide ComponentBit;
    if items == [] {
      assert items + [x] == [x];
    } else {
      assert (items + [x])[1..] == items[1..] + [x];
      CoveredSnoc(items[1..], x);
    }
  }

  method CoveredBits(items: seq<Item>) returns (covered: set<Comp>)
    ensures covered == Covered(items)
  {
    hide ComponentBit;
    covered := {};
    var i := 0;
    while i < |items|
      invariant i <= |items| && covered == Covered(items[..i])
    {
      assert items[..i + 1] == items[..i] + [items[i]];
      CoveredSnoc(items[..i], items[i]);
      if items[i].bare.String? {
        covered := covered + ComponentBit(items[i].bare.text);
      }
      i := i + 1;
    }
    assert items[..i] == items;
  }

  /** Times and tolerances small enough that sums of two stay in 64 bits. */
  const TIME_LIMIT: int := 0x2000_0000_0000_0000

  /** The time window, in 64-bit arithmetic: with fifteen-digit times no step can overflow. */
  method CheckWindow(created: Option<int64>, expires: Option<int64>, now: int64, skew: int64, expiresMax: int64)
      returns (ok: bool)
    requires 0 <= (now as int) < TIME_LIMIT && 0 <= (skew as int) < TIME_LIMIT
    requires created.Some? ==> -MAX_NUMBER <= created.value as int <= MAX_NUMBER
    requires expires.Some? ==> -MAX_NUMBER <= expires.value as int <= MAX_NUMBER
    ensures ok == InWindow(
                    Fields(Lift(created), Lift(expires), None, None, None, None),
                    Window(now as int, skew as int, expiresMax as int))
  {
    if created.Some? && created.value > now + skew {
      return false;
    }
    if expires.Some? {
      if expires.value < now - skew {
        return false;
      }
      if created.Some? && (expires.value < created.value || expires.value - created.value > expiresMax) {
        return false;
      }
    }
    return true;
  }

  function Lift(v: Option<int64>): Option<int> { if v.None? then None else Some(v.value as int) }

  function Narrow(v: Option<int>): Option<int64>
    requires v.Some? ==> -MAX_NUMBER <= v.value <= MAX_NUMBER
  {
    if v.None? then None else Some(v.value as int64)
  }

  /** Every value of one field, in receipt order. */
  method CollectLines(headers: seq<Header>, name: bytes) returns (lines: seq<bytes>)
    ensures lines == FieldLines(headers, name)
  {
    lines := [];
    var i := 0;
    while i < |headers|
      invariant i <= |headers| && lines == FieldLines(headers[..i], name)
    {
      FieldTurn(headers, i, name);
      if headers[i].name == name {
        lines := lines + [headers[i].value];
      }
      i := i + 1;
    }
    assert headers[..i] == headers;
  }

  method JoinedLength(lines: seq<bytes>) returns (len: nat)
    ensures len == |Join(lines)|
  {
    hide Join;
    len := 0;
    NoLines([], []);
    for i := 0 to |lines|
      invariant len == |Join(lines[..i])|
    {
      assert lines[..i + 1] == lines[..i] + [lines[i]];
      JoinSnoc(lines[..i], lines[i]);
      if i > 0 {
        len := len + 2;
      }
      len := len + |lines[i]|;
    }
    assert lines[..|lines|] == lines;
  }

  /** The lines joined with a comma and a space: measured, then copied. */
  method JoinLines(lines: seq<bytes>) returns (text: bytes)
    ensures text == Join(lines)
  {
    hide Join;
    var len := JoinedLength(lines);
    var buf := new Buffer(len);
    NoLines([], []);
    for i := 0 to |lines|
      invariant buf.Valid() && fresh(buf.data) && buf.data.Length == len
      invariant buf.Contents() == Join(lines[..i])
    {
      assert lines[..i + 1] == lines[..i] + [lines[i]];
      assert lines == lines[..i + 1] + lines[i + 1..];
      JoinSnoc(lines[..i], lines[i]);
      JoinPrefix(lines[..i + 1], lines[i + 1..]);
      if i > 0 {
        var room := buf.Put(COMMA_SPACE);
      }
      var room := buf.Put(lines[i]);
    }
    assert lines[..|lines|] == lines;
    text := buf.Snapshot();
  }

  /** The pre-check. */
  method ChooseLabel(rules: Rules, inputLines: seq<bytes>) returns (r: Option<Selected>)
    ensures r == SelectLabel(rules, inputLines)
  {
    hide ParseDictionary, Join, SelectEntry, ExtractFields, Covered, Matches;
    if inputLines == [] {
      return None;
    }
    var text := JoinLines(inputLines);
    var dict := ParseDictionaryText(text);
    if dict.None? || dict.value.duplicateKeys {
      return None;
    }
    var e := PickEntry(dict.value.entries, rules.tag);
    if e.None? || !e.value.value.ListMember? {
      return None;
    }
    var f := ReadFields(e.value.value.list.params);
    if f.None? {
      return None;
    }
    var covered := CoveredBits(e.value.value.list.items);
    if !Matches(rules, f.value, covered) {
      return None;
    }
    if rules.requireAgentCovered && SignatureAgent !in covered {
      return None;
    }
    return Some(Selected(e.value.key, if f.value.keyid.Some? then f.value.keyid.value else []));
  }

  /** Fifteen verification steps, in their order. */
  method VerifyRequest(rules: Rules, now: int64, skew: int64, expiresMax: int64, req: Request, check: KeyCheck)
      returns (r: Result)
    requires 0 <= (now as int) < TIME_LIMIT && 0 <= (skew as int) < TIME_LIMIT
    ensures r == Verify(rules, Window(now as int, skew as int, expiresMax as int), req, check)
  {
    hide FieldValue, ParseDictionary, SelectEntry, VerifyEntry;
    var input := FieldText(req.headers, SIGNATURE_INPUT);
    if input.None? {
      return NotSigned;
    }
    var sigs := FieldText(req.headers, SIGNATURE);
    if sigs.None? {
      return ParseError;
    }
    var inputDict := ParseDictionaryText(input.value);
    if inputDict.None? {
      return ParseError;
    }
    var sigDict := ParseDictionaryText(sigs.value);
    if sigDict.None? || inputDict.value.duplicateKeys || sigDict.value.duplicateKeys {
      return ParseError;
    }
    var e := PickEntry(inputDict.value.entries, rules.tag);
    if e.None? {
      return NotSigned;
    }
    if !e.value.value.ListMember? {
      return ParseError;
    }
    DictionarySound(input.value);
    SelectEntryIn(inputDict.value.entries, rules.tag);
    EntryValid(inputDict.value, e.value);
    r := VerifySelected(rules, now, skew, expiresMax, req, check, e.value.key, e.value.value.list,
      sigDict.value.entries);
  }

  method VerifySelected(rules: Rules, now: int64, skew: int64, expiresMax: int64, req: Request, check: KeyCheck,
                        member: bytes, list: InnerList, sigs: seq<Entry>) returns (r: Result)
    requires 0 <= (now as int) < TIME_LIMIT && 0 <= (skew as int) < TIME_LIMIT && ValidInnerList(list)
    ensures r == VerifyEntry(rules, Window(now as int, skew as int, expiresMax as int), req, check, member, list, sigs)
  {
    hide ExtractFields, Covered, Matches, Build, ValidInnerList, FieldLines, Get;
    var f := ReadFields(list.params);
    if f.None? {
      return ParseError;
    }
    ExtractValid(list, f.value);
    var covered := CoveredBits(list.items);
    if !Matches(rules, f.value, covered) {
      return ProfileMismatch;
    }
    var agents := CollectLines(req.headers, SIGNATURE_AGENT);
    if rules.requireAgentCovered && agents != [] && SignatureAgent !in covered {
      return ProfileMismatch;
    }
    var inWindow := CheckWindow(Narrow(f.value.created), Narrow(f.value.expires), now, skew, expiresMax);
    if !inWindow {
      return Expired;
    }
    var i := Reader.Find(sigs, member);
    AtIndex(sigs, member);
    if i == |sigs| || !sigs[i].value.ItemMember? || !sigs[i].value.item.bare.ByteSequence? {
      return ParseError;
    }
    var base := BuildBase(req, list);
    if base.Refused? {
      return ParseError;
    }
    var keyid := if f.value.keyid.Some? then f.value.keyid.value else [];
    var value := sigs[i].value.item.bare.content;
    var v := check(keyid, base.value, value);
    r := if v.Some? then Unverified(v.value) else Verified(Profile.Signature(member, f.value, list, value, base.value));
  }

  lemma AtIndex<V>(ps: seq<Keyed<V>>, key: bytes)
    ensures var i := IndexOf(ps, key); Get(ps, key) == if i < |ps| then Some(ps[i].value) else None
  {
  }
}
