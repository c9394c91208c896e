/**
 * What each answer of the profile verification says of the message itself: which components an
 * accepted signature covers, which parameters it has, when it is in time, and which failure is
 * reported when.
 */
module ProfileMeaning {
  import opened Bytes
  import opened Profile
  import opened Sfv
  import opened SignatureBase

  const INPUT_FIELD := Ascii("signature-input")
  const VALUE_FIELD := Ascii("signature")
  const AGENT_FIELD := Ascii("signature-agent")
  const TAG_PARAM := Ascii("tag")
  const ALG_PARAM := Ascii("alg")
  const TARGET_URI_NAME := Ascii("@target-uri")
  const AUTHORITY_NAME := Ascii("@authority")
  const WEB_TAG := Ascii("web-bot-auth")

  // ----- Components and parameters by name -----

  function NameOf(c: Comp): bytes {
    match c
    case Verb => Ascii("@method")
    case TargetUriComp => Ascii("@target-uri")
    case AuthorityComp => Ascii("@authority")
    case SchemeComp => Ascii("@scheme")
    case RequestTarget => Ascii("@request-target")
    case Path => Ascii("@path")
    case Query => Ascii("@query")
    case SignatureAgent => Ascii("signature-agent")
  }

  function ParamName(k: ParamKind): bytes {
    match k
    case Created => Ascii("created")
    case Expires => Ascii("expires")
    case Keyid => Ascii("keyid")
    case Alg => Ascii("alg")
    case Nonce => Ascii("nonce")
    case Tag => Ascii("tag")
  }

  /** Times are integers, everything else is a string. */
  predicate TypedFor(k: ParamKind, v: Bare) { if k == Created || k == Expires then v.Integer? else v.String? }

  /** Some item is the string `name`, whatever its parameters. */
  predicate Names(items: seq<Item>, name: bytes) { exists i :: 0 <= i < |items| && items[i].bare == String(name) }

  /** The names differ in length, or in their first or second byte. */
  lemma NamesApart()
    ensures |NameOf(Verb)| == |NameOf(SchemeComp)| == 7 && NameOf(Verb)[1] != NameOf(SchemeComp)[1]
    ensures |NameOf(AuthorityComp)| == 10 && |NameOf(Path)| == 5 && |NameOf(Query)| == 6
      && |NameOf(TargetUriComp)| == 11
    ensures |NameOf(RequestTarget)| == |NameOf(SignatureAgent)| == 15
    ensures NameOf(RequestTarget)[0] != NameOf(SignatureAgent)[0]
  {
  }

  lemma CompNames(name: bytes, c: Comp)
    ensures c in ComponentBit(name) <==> name == NameOf(c)
  {
    hide Ascii;
    NamesApart();
  }

  /** A component is covered exactly when an item names it. */
  lemma {:induction false} CoveredExactly(items: seq<Item>, c: Comp)
    ensures c in Covered(items) <==> Names(items, NameOf(c))
  {
    hide ComponentBit, NameOf;
    if items != [] {
      CoveredExactly(items[1..], c);
      if items[0].bare.String? { CompNames(items[0].bare.text, c); }
      assert forall i :: 1 <= i < |items| ==> items[i] == items[1..][i - 1];
      if Names(items[1..], NameOf(c)) {
        var i :| 0 <= i < |items| - 1 && items[1..][i].bare == String(NameOf(c));
        assert items[i + 1].bare == String(NameOf(c));
      }
    }
  }

  /** Every known parameter that is there has its type. */
  ghost predicate WellTyped(ps: seq<Param>) { forall k: ParamKind :: TypedAt(ps, k) }

  predicate TypedAt(ps: seq<Param>, k: ParamKind) {
    Get(ps, ParamName(k)).Some? ==> TypedFor(k, Get(ps, ParamName(k)).value)
  }

  function IntegerAt(ps: seq<Param>, k: ParamKind): Option<int> {
    var v := Get(ps, ParamName(k));
    if v.Some? && v.value.Integer? then Some(v.value.value) else None
  }

  function TextAt(ps: seq<Param>, k: ParamKind): Option<bytes> {
    var v := Get(ps, ParamName(k));
    if v.Some? && v.value.String? then Some(v.value.text) else None
  }

  lemma FieldsExactly(ps: seq<Param>)
    ensures ExtractFields(ps).Some? <==> WellTyped(ps)
    ensures ExtractFields(ps).Some? ==>
      ExtractFields(ps).value ==
        Fields(IntegerAt(ps, Created), IntegerAt(ps, Expires), TextAt(ps, Keyid), TextAt(ps, Alg), TextAt(ps, Nonce),
               TextAt(ps, Tag))
  {
    hide Get, Ascii;
    assert WellTyped(ps) ==> TypedAt(ps, Created) && TypedAt(ps, Expires) && TypedAt(ps, Keyid);
    assert WellTyped(ps) ==> TypedAt(ps, Alg) && TypedAt(ps, Nonce) && TypedAt(ps, Tag);
    if ExtractFields(ps).Some? {
      forall k: ParamKind
        ensures TypedAt(ps, k)
      {
        match k
        case Created =>
        case Expires =>
        case Keyid =>
        case Alg =>
        case Nonce =>
        case Tag =>
      }
    }
  }

  lemma PresentExactly(ps: seq<Param>, k: ParamKind)
    requires ExtractFields(ps).Some?
    ensures k in Present(ExtractFields(ps).value) <==> Get(ps, ParamName(k)).Some?
  {
    hide Get, Ascii, ExtractFields;
    FieldsExactly(ps);
    assert TypedAt(ps, k);
  }

  // ----- What the profile asks for -----

  /** The steps seven to nine, over the message. */
  ghost predicate Fits(rules: Rules, list: InnerList) {
    && (forall k :: k in rules.required ==> Get(list.params, ParamName(k)).Some?)
    && (rules.alg != [] && Get(list.params, ALG_PARAM).Some? ==>
          var v := Get(list.params, ALG_PARAM).value; v.String? && Lower(v.text) == Lower(rules.alg))
    && (rules.anyOf != {} ==> exists c :: c in rules.anyOf && Names(list.items, NameOf(c)))
    && (forall c :: c in rules.allOf ==> Names(list.items, NameOf(c)))
  }

  /** Step ten: a Signature-Agent that is there is covered, when the profile asks for it. */
  predicate AgentCovered(rules: Rules, req: Request, list: InnerList) {
    rules.requireAgentCovered && (exists i :: 0 <= i < |req.headers| && req.headers[i].name == AGENT_FIELD) ==>
      Names(list.items, AGENT_FIELD)
  }

  /** Step eleven: not made in the future, not run out, and of an allowed lifetime. */
  predicate InTime(ps: seq<Param>, w: Window) {
    var created, expires := IntegerAt(ps, Created), IntegerAt(ps, Expires);
    && (created.Some? ==> created.value - w.skew <= w.now)
    && (expires.Some? ==> w.now <= expires.value + w.skew)
    && (created.Some? && expires.Some? ==> created.value <= expires.value <= created.value + w.expiresMax)
  }

  lemma MatchesExactly(rules: Rules, list: InnerList)
    requires ExtractFields(list.params).Some?
    ensures Matches(rules, ExtractFields(list.params).value, Covered(list.items)) <==> Fits(rules, list)
  {
    hide ExtractFields, Get, Present, Covered, Ascii, Lower, Names, NameOf;
    FieldsExactly(list.params);
    forall k: ParamKind
      ensures k in Present(ExtractFields(list.params).value) <==> Get(list.params, ParamName(k)).Some?
    {
      PresentExactly(list.params, k);
    }
    forall c: Comp
      ensures c in Covered(list.items) <==> Names(list.items, NameOf(c))
    {
      CoveredExactly(list.items, c);
    }
    assert ParamName(Alg) == ALG_PARAM;
    assert TypedAt(list.params, Alg);
    if rules.anyOf != {} && exists c :: c in rules.anyOf && Names(list.items, NameOf(c)) {
      var c :| c in rules.anyOf && Names(list.items, NameOf(c));
      assert c in Covered(list.items) * rules.anyOf;
    }
    if rules.anyOf != {} && Covered(list.items) * rules.anyOf != {} {
      var c :| c in Covered(list.items) * rules.anyOf;
      assert c in rules.anyOf && Names(list.items, NameOf(c));
    }
  }

  // ----- Which signature is tried -----

  predicate TaggedWith(m: Member, tag: bytes) {
    var ps := match m case ItemMember(x) => x.params case ListMember(l) => l.params;
    Get(ps, TAG_PARAM) == Some(String(tag))
  }

  /** A header field that parses as a dictionary without repeated labels. */
  predicate Labelled(req: Request, name: bytes, entries: seq<Entry>) {
    var v := FieldValue(req.headers, name);
    v.Some? && ParseDictionary(v.value) == Some(Dictionary(entries, false))
  }

  /** Entry `i` is the first tagged one. */
  predicate FirstTagged(entries: seq<Entry>, tag: bytes, i: nat) {
    && i < |entries| && TaggedWith(entries[i].value, tag)
    && forall j :: 0 <= j < i ==> !TaggedWith(entries[j].value, tag)
  }

  ghost predicate FirstIs(entries: seq<Entry>, tag: bytes, e: Entry) {
    exists i: nat :: FirstTagged(entries, tag, i) && entries[i] == e
  }

  /** The signature the profile tries: a well-typed list under the first tagged label. */
  ghost predicate Tried(rules: Rules, req: Request, member: bytes, list: InnerList) {
    && (exists sigs :: Labelled(req, VALUE_FIELD, sigs))
    && (exists entries ::
          Labelled(req, INPUT_FIELD, entries) && FirstIs(entries, rules.tag, Keyed(member, ListMember(list))))
    && WellTyped(list.params)
  }

  lemma {:induction false} SelectExactly(entries: seq<Entry>, tag: bytes)
    ensures SelectEntry(entries, tag).None? <==> forall i :: 0 <= i < |entries| ==> !TaggedWith(entries[i].value, tag)
    ensures forall e :: SelectEntry(entries, tag) == Some(e) <==> FirstIs(entries, tag, e)
  {
    hide TaggedFor, TaggedWith;
    forall i | 0 <= i < |entries|
      ensures TaggedFor(entries[i].value, tag) == TaggedWith(entries[i].value, tag)
    {
      SameTag(entries[i].value, tag);
    }
    SelectEntryIn(entries, tag);
    if SelectEntry(entries, tag).Some? {
      var i: nat :| i < |entries| && entries[i] == SelectEntry(entries, tag).value && TaggedFor(entries[i].value, tag)
        && forall j :: 0 <= j < i ==> !TaggedFor(entries[j].value, tag);
      assert FirstTagged(entries, tag, i);
    }
  }

  lemma SameTag(m: Member, tag: bytes)
    ensures TaggedFor(m, tag) == TaggedWith(m, tag)
  {
    hide Get, Ascii;
  }

  // ----- What each answer means -----

  lemma AgentRule(rules: Rules, req: Request, list: InnerList)
    ensures AgentCovered(rules, req, list) <==>
      (rules.requireAgentCovered && AgentPresent(req) ==> SignatureAgent in Covered(list.items))
  {
    hide Covered, Names, Ascii, FieldLines;
    CoveredExactly(list.items, SignatureAgent);
    assert NameOf(SignatureAgent) == AGENT_FIELD == SIGNATURE_AGENT;
    LinesOfPresent(req.headers, SIGNATURE_AGENT);
  }

  lemma {:induction false} LinesOfPresent(headers: seq<Header>, name: bytes)
    ensures FieldLines(headers, name) != [] <==> exists i :: 0 <= i < |headers| && headers[i].name == name
  {
    if headers != [] {
      LinesOfPresent(headers[1..], name);
      assert forall i :: 1 <= i < |headers| ==> headers[i] == headers[1..][i - 1];
      if exists i :: 0 <= i < |headers| - 1 && headers[1..][i].name == name {
        var i :| 0 <= i < |headers| - 1 && headers[1..][i].name == name;
        assert headers[i + 1].name == name;
      }
    }
  }

  lemma InTimeExactly(ps: seq<Param>, w: Window)
    requires ExtractFields(ps).Some?
    ensures InWindow(ExtractFields(ps).value, w) <==> InTime(ps, w)
  {
    hide ExtractFields, Get, IntegerAt;
    FieldsExactly(ps);
  }

  /** The signature bytes under a label: a byte sequence, on its own or with parameters. */
  predicate ValueUnder(req: Request, member: bytes, value: bytes) {
    var v := FieldValue(req.headers, VALUE_FIELD);
    v.Some? && ParseDictionary(v.value).Some? &&
    var m := Get(ParseDictionary(v.value).value.entries, member);
    m.Some? && m.value.ItemMember? && m.value.item.bare == ByteSequence(value)
  }

  lemma TriedIs(rules: Rules, req: Request, member: bytes, list: InnerList)
    ensures Tried(rules, req, member, list) <==>
      && FieldValue(req.headers, SIGNATURE).Some? && ParseDictionary(FieldValue(req.headers, SIGNATURE).value).Some?
      && !ParseDictionary(FieldValue(req.headers, SIGNATURE).value).value.duplicateKeys
      && AcceptedEntry(rules, req, member, list) && ExtractFields(list.params).Some?
  {
    hide FieldValue, ParseDictionary, SelectEntry, ExtractFields, WellTyped, FirstIs, Ascii;
    FieldsExactly(list.params);
    var v, u := FieldValue(req.headers, INPUT_FIELD), FieldValue(req.headers, VALUE_FIELD);
    assert INPUT_FIELD == SIGNATURE_INPUT && VALUE_FIELD == SIGNATURE;
    if u.Some? && ParseDictionary(u.value).Some? && !ParseDictionary(u.value).value.duplicateKeys {
      assert Labelled(req, VALUE_FIELD, ParseDictionary(u.value).value.entries);
    }
    if v.Some? && ParseDictionary(v.value).Some? && !ParseDictionary(v.value).value.duplicateKeys {
      var entries := ParseDictionary(v.value).value.entries;
      assert Labelled(req, INPUT_FIELD, entries);
      SelectExactly(entries, rules.tag);
    }
  }

  /** The profile does not match exactly when the signature it tries asks for too little. */
  lemma MismatchExactly(rules: Rules, w: Window, req: Request, check: KeyCheck)
    ensures Verify(rules, w, req, check) == ProfileMismatch <==>
      exists member, list :: Tried(rules, req, member, list) && !(Fits(rules, list) && AgentCovered(rules, req, list))
  {
    hide *;
    forall member, list | Tried(rules, req, member, list)
      ensures !(Fits(rules, list) && AgentCovered(rules, req, list))
        <==> Verify(rules, w, req, check) == ProfileMismatch
    {
      Outcomes(rules, w, req, check, member, list);
    }
    if Verify(rules, w, req, check) == ProfileMismatch {
      var member, list := SomethingTried(rules, w, req, check);
    }
  }

  /** A signature that would match is out of time exactly when that is what is answered. */
  lemma ExpiredExactly(rules: Rules, w: Window, req: Request, check: KeyCheck)
    ensures Verify(rules, w, req, check) == Expired <==>
      exists member, list ::
        Tried(rules, req, member, list) && Fits(rules, list) && AgentCovered(rules, req, list)
          && !InTime(list.params, w)
  {
    hide *;
    forall member, list | Tried(rules, req, member, list)
      ensures Fits(rules, list) && AgentCovered(rules, req, list) && !InTime(list.params, w) <==>
              Verify(rules, w, req, check) == Expired
    {
      Outcomes(rules, w, req, check, member, list);
    }
    if Verify(rules, w, req, check) == Expired {
      var member, list := SomethingTried(rules, w, req, check);
    }
  }

  /** Nothing is signed for the profile: no Signature-Input, or no tagged label in one that can be read. */
  lemma NotSignedExactly(rules: Rules, w: Window, req: Request, check: KeyCheck)
    ensures Verify(rules, w, req, check) == NotSigned <==>
      || FieldLines(req.headers, INPUT_FIELD) == []
      || exists entries: seq<Entry>, sigs: seq<Entry> ::
           && Labelled(req, INPUT_FIELD, entries) && Labelled(req, VALUE_FIELD, sigs)
           && forall i :: 0 <= i < |entries| ==> !TaggedWith(entries[i].value, rules.tag)
  {
    hide FieldLines, FieldValue, ParseDictionary, SelectEntry, VerifyEntry, TaggedWith, Ascii;
    assert INPUT_FIELD == SIGNATURE_INPUT && VALUE_FIELD == SIGNATURE;
    var v, u := FieldValue(req.headers, INPUT_FIELD), FieldValue(req.headers, VALUE_FIELD);
    JoinedIsValue(req.headers, INPUT_FIELD);
    if v.Some? && ParseDictionary(v.value).Some? {
      SelectExactly(ParseDictionary(v.value).value.entries, rules.tag);
      VerifyEntrySigned();
      if u.Some? && ParseDictionary(u.value).Some? {
        assert !ParseDictionary(v.value).value.duplicateKeys ==>
            Labelled(req, INPUT_FIELD, ParseDictionary(v.value).value.entries);
        assert !ParseDictionary(u.value).value.duplicateKeys ==>
            Labelled(req, VALUE_FIELD, ParseDictionary(u.value).value.entries);
      }
    }
  }

  lemma VerifyEntrySigned()
    ensures forall rules, w, req, check, member, list, sigs ::
      VerifyEntry(rules, w, req, check, member, list, sigs) != NotSigned
  {
    hide ExtractFields, Matches, Covered, InWindow, SignatureBytes, Build, AgentPresent;
  }

  lemma SomethingTried(rules: Rules, w: Window, req: Request, check: KeyCheck) returns (member: bytes, list: InnerList)
    requires var r := Verify(rules, w, req, check); r == ProfileMismatch || r == Expired
    ensures Tried(rules, req, member, list)
  {
    hide FieldValue, ParseDictionary, SelectEntry, ExtractFields, Matches, Covered, InWindow, SignatureBytes, Build,
      AgentPresent, Tried;
    var input := ParseDictionary(FieldValue(req.headers, SIGNATURE_INPUT).value).value.entries;
    var e := SelectEntry(input, rules.tag).value;
    member, list := e.key, e.value.list;
    TriedIs(rules, req, member, list);
  }

  /** What becomes of the signature that is tried. */
  lemma Outcomes(rules: Rules, w: Window, req: Request, check: KeyCheck, member: bytes, list: InnerList)
    requires Tried(rules, req, member, list)
    ensures var r := Verify(rules, w, req, check);
      && (r == ProfileMismatch <==> !(Fits(rules, list) && AgentCovered(rules, req, list)))
      && (r == Expired <==> Fits(rules, list) && AgentCovered(rules, req, list) && !InTime(list.params, w))
      && r != NotSigned
  {
    hide FieldValue, ParseDictionary, SelectEntry, ExtractFields, Matches, Covered, InWindow, SignatureBytes, Build,
      AgentPresent, Tried, Fits, AgentCovered, InTime;
    TriedIs(rules, req, member, list);
    MatchesExactly(rules, list);
    AgentRule(rules, req, list);
    InTimeExactly(list.params, w);
  }

  /** Everything the profile asks for holds of the very message, and the key agrees or gives its reason. */
  ghost predicate Accepts(rules: Rules, w: Window, req: Request, check: KeyCheck, sig: Signature,
                          verdict: Option<nat>) {
    var ps := sig.list.params;
    var keyid := TextAt(ps, Keyid);
    && Tried(rules, req, sig.member, sig.list) && Fits(rules, sig.list) && AgentCovered(rules, req, sig.list)
    && InTime(ps, w) && ValueUnder(req, sig.member, sig.value) && Build(req, sig.list) == Ok(sig.base)
    && check(if keyid.Some? then keyid.value else [], sig.base, sig.value) == verdict
    && sig.fields.created == IntegerAt(ps, Created) && sig.fields.expires == IntegerAt(ps, Expires)
    && sig.fields.keyid == keyid && sig.fields.alg == TextAt(ps, Alg)
    && sig.fields.nonce == TextAt(ps, Nonce) && sig.fields.tag == TextAt(ps, Tag)
  }

  /** A signature verifies exactly when all of that holds; the key alone refuses it exactly when all else does. */
  lemma VerifiedMeans(rules: Rules, w: Window, req: Request, check: KeyCheck, sig: Signature, reason: nat)
    ensures Verify(rules, w, req, check) == Verified(sig) <==> Accepts(rules, w, req, check, sig, None)
    ensures Verify(rules, w, req, check) == Unverified(reason) <==>
      exists sig :: Accepts(rules, w, req, check, sig, Some(reason))
  {
    hide *;
    AcceptsWhenVerified(rules, w, req, check, sig);
    if Accepts(rules, w, req, check, sig, None) {
      VerifiedWhenAccepts(rules, w, req, check, sig, None);
    }
    forall sig | Accepts(rules, w, req, check, sig, Some(reason))
      ensures Verify(rules, w, req, check) == Unverified(reason)
    {
      VerifiedWhenAccepts(rules, w, req, check, sig, Some(reason));
    }
    if Verify(rules, w, req, check) == Unverified(reason) {
      AcceptsWhenUnverified(rules, w, req, check, reason);
    }
  }

  lemma AcceptsWhenVerified(rules: Rules, w: Window, req: Request, check: KeyCheck, sig: Signature)
    ensures Verify(rules, w, req, check) == Verified(sig) ==> Accepts(rules, w, req, check, sig, None)
  {
    hide FieldValue, ParseDictionary, SelectEntry, ExtractFields, Matches, Covered, InWindow, SignatureBytes, Build,
      AgentPresent, Tried, Fits, AgentCovered, InTime, ValueUnder, IntegerAt, TextAt, AcceptedEntry;
    if Verify(rules, w, req, check) == Verified(sig) {
      VerifiedExactly(rules, w, req, check, sig);
      TriedWhenVerified(rules, w, req, check, sig);
      MatchesExactly(rules, sig.list);
      AgentRule(rules, req, sig.list);
      InTimeExactly(sig.list.params, w);
      FieldsExactly(sig.list.params);
      ValueIs(req, sig.member, sig.value);
    }
  }

  /** From there on only the signature bytes, the base and the key are left to fail. */
  lemma VerifiedWhenAccepts(rules: Rules, w: Window, req: Request, check: KeyCheck, sig: Signature,
                            verdict: Option<nat>)
    requires Accepts(rules, w, req, check, sig, verdict)
    ensures Verify(rules, w, req, check) == if verdict.None? then Verified(sig) else Unverified(verdict.value)
  {
    hide FieldValue, ParseDictionary, SelectEntry, ExtractFields, Matches, Covered, InWindow, SignatureBytes, Build,
      AgentPresent, Tried, Fits, AgentCovered, InTime, ValueUnder, IntegerAt, TextAt;
    TriedIs(rules, req, sig.member, sig.list);
    MatchesExactly(rules, sig.list);
    AgentRule(rules, req, sig.list);
    InTimeExactly(sig.list.params, w);
    FieldsExactly(sig.list.params);
    ValueGives(req, sig.member, sig.value);
    assert ExtractFields(sig.list.params).value == sig.fields;
  }

  lemma AcceptsWhenUnverified(rules: Rules, w: Window, req: Request, check: KeyCheck, reason: nat)
    requires Verify(rules, w, req, check) == Unverified(reason)
    ensures exists sig :: Accepts(rules, w, req, check, sig, Some(reason))
  {
    hide FieldValue, ParseDictionary, SelectEntry, ExtractFields, Matches, Covered, InWindow, SignatureBytes, Build,
      AgentPresent, Tried, Fits, AgentCovered, InTime, ValueUnder, IntegerAt, TextAt, Accepts;
    var input := ParseDictionary(FieldValue(req.headers, SIGNATURE_INPUT).value).value.entries;
    var e := SelectEntry(input, rules.tag).value;
    var sigs := ParseDictionary(FieldValue(req.headers, SIGNATURE).value).value.entries;
    var list := e.value.list;
    var sig := Signature(e.key, ExtractFields(list.params).value, list, SignatureBytes(sigs, e.key).value,
                         Build(req, list).value);
    AcceptsAll(rules, w, req, check, sig, reason, sigs);
  }

  lemma AcceptsAll(rules: Rules, w: Window, req: Request, check: KeyCheck, sig: Signature, reason: nat,
                   sigs: seq<Entry>)
    requires AcceptedEntry(rules, req, sig.member, sig.list) && ExtractFields(sig.list.params) == Some(sig.fields)
    requires var v := FieldValue(req.headers, SIGNATURE);
      v.Some? && ParseDictionary(v.value) == Some(Dictionary(sigs, false))
    requires SignatureBytes(sigs, sig.member) == Some(sig.value) && Build(req, sig.list) == Ok(sig.base)
    requires Matches(rules, sig.fields, Covered(sig.list.items)) && InWindow(sig.fields, w)
    requires rules.requireAgentCovered && AgentPresent(req) ==> SignatureAgent in Covered(sig.list.items)
    requires check(KeyidOf(sig.fields), sig.base, sig.value) == Some(reason)
    ensures Accepts(rules, w, req, check, sig, Some(reason))
  {
    hide FieldValue, ParseDictionary, SelectEntry, ExtractFields, Matches, Covered, InWindow, SignatureBytes, Build,
      AgentPresent, Tried, Fits, AgentCovered, InTime, ValueUnder, IntegerAt, TextAt, AcceptedEntry;
    TriedIs(rules, req, sig.member, sig.list);
    MatchesExactly(rules, sig.list);
    AgentRule(rules, req, sig.list);
    InTimeExactly(sig.list.params, w);
    FieldsExactly(sig.list.params);
    ValueIs(req, sig.member, sig.value);
  }

  lemma ValueGives(req: Request, member: bytes, value: bytes)
    requires ValueUnder(req, member, value)
    ensures SignatureBytes(ParseDictionary(FieldValue(req.headers, SIGNATURE).value).value.entries, member)
      == Some(value)
  {
    hide FieldValue, ParseDictionary, Get, Ascii;
    assert VALUE_FIELD == SIGNATURE;
  }

  lemma TriedWhenVerified(rules: Rules, w: Window, req: Request, check: KeyCheck, sig: Signature)
    requires IsVerified(rules, w, req, check, sig)
    ensures Tried(rules, req, sig.member, sig.list)
  {
    hide FieldValue, ParseDictionary, SelectEntry, ExtractFields, Matches, Covered, InWindow, SignatureBytes, Build,
      AgentPresent, Tried;
    TriedIs(rules, req, sig.member, sig.list);
  }

  lemma ValueIs(req: Request, member: bytes, value: bytes)
    requires HasSignature(req, member, value)
    ensures ValueUnder(req, member, value)
  {
    hide FieldValue, ParseDictionary, Get, Ascii;
    assert VALUE_FIELD == SIGNATURE;
  }

  /** What is tried has times of fifteen digits at most, and a printable key id, algorithm, nonce and tag. */
  lemma TriedBounds(rules: Rules, req: Request, member: bytes, list: InnerList)
    requires Tried(rules, req, member, list)
    ensures forall k :: k == Created || k == Expires ==>
      var v := IntegerAt(list.params, k); v.Some? ==> -999_999_999_999_999 <= v.value <= 999_999_999_999_999
    ensures forall k :: k != Created && k != Expires ==>
      var v := TextAt(list.params, k); v.Some? ==> forall i :: 0 <= i < |v.value| ==> 0x20 <= v.value[i] <= 0x7E
  {
    hide ExtractFields, Get, AcceptedEntry, ValidInnerList, Tried, ParamName, FieldValue, ParseDictionary;
    TriedIs(rules, req, member, list);
    SelectedValid(rules, req, member, list);
    forall k
      ensures Get(list.params, ParamName(k)).Some? ==> ValidBare(Get(list.params, ParamName(k)).value)
    {
      ParamBounded(list, k);
    }
  }

  lemma ParamBounded(list: InnerList, k: ParamKind)
    requires ValidInnerList(list)
    ensures Get(list.params, ParamName(k)).Some? ==> ValidBare(Get(list.params, ParamName(k)).value)
  {
    hide ParamName, ValidItem;
  }

  // ----- The pre-check -----

  /** A Signature-Input in these lines has the label, first tagged, well typed and asking for enough. */
  ghost predicate Selectable(rules: Rules, lines: seq<bytes>, member: bytes, list: InnerList) {
    && lines != []
    && (exists entries ::
          && ParseDictionary(Join(lines)) == Some(Dictionary(entries, false))
          && FirstIs(entries, rules.tag, Keyed(member, ListMember(list))))
    && WellTyped(list.params) && Fits(rules, list)
    && (rules.requireAgentCovered ==> Names(list.items, AGENT_FIELD))
  }

  /** The pre-check selects exactly that label, with the key id of its list. */
  lemma SelectedExactly(rules: Rules, lines: seq<bytes>, r: Selected)
    ensures SelectLabel(rules, lines) == Some(r) <==>
      exists list ::
        && Selectable(rules, lines, r.member, list)
        && r.keyid == (if TextAt(list.params, Keyid).Some? then TextAt(list.params, Keyid).value else [])
  {
    hide ParseDictionary, Join, SelectEntry, ExtractFields, Matches, Covered, Fits, WellTyped, Names, TextAt, IntegerAt,
      FirstIs, Ascii;
    if lines != [] && ParseDictionary(Join(lines)).Some? {
      var d := ParseDictionary(Join(lines)).value;
      SelectExactly(d.entries, rules.tag);
      forall list: InnerList
        ensures ExtractFields(list.params).Some? <==> WellTyped(list.params)
        ensures ExtractFields(list.params).Some? ==>
          && (Matches(rules, ExtractFields(list.params).value, Covered(list.items)) <==> Fits(rules, list))
          && ExtractFields(list.params).value.keyid == TextAt(list.params, Keyid)
        ensures SignatureAgent in Covered(list.items) <==> Names(list.items, AGENT_FIELD)
      {
        FieldsExactly(list.params);
        if ExtractFields(list.params).Some? { MatchesExactly(rules, list); }
        CoveredExactly(list.items, SignatureAgent);
        assert NameOf(SignatureAgent) == AGENT_FIELD;
      }
      if SelectEntry(d.entries, rules.tag).Some? && SelectEntry(d.entries, rules.tag).value.value.ListMember? {
        var e := SelectEntry(d.entries, rules.tag).value;
        assert !d.duplicateKeys ==> d == Dictionary(d.entries, false);
        if SelectLabel(rules, lines) == Some(r) {
          assert Selectable(rules, lines, e.key, e.value.list);
        }
      }
    }
  }

  /** Under the built-in profile: bound to its target, timed, named, and bound to its agent when there is one. */
  lemma WebBotAuthMeans(w: Window, req: Request, check: KeyCheck, sig: Signature)
    requires Verify(WEB_BOT_AUTH, w, req, check) == Verified(sig)
    ensures Names(sig.list.items, TARGET_URI_NAME) || Names(sig.list.items, AUTHORITY_NAME)
    ensures sig.fields.created.Some? && sig.fields.expires.Some? && sig.fields.keyid.Some?
    ensures sig.fields.created.value - w.skew <= w.now <= sig.fields.expires.value + w.skew
    ensures sig.fields.created.value <= sig.fields.expires.value <= sig.fields.created.value + w.expiresMax
    ensures Get(sig.list.params, TAG_PARAM) == Some(String(WEB_TAG))
    ensures (exists i :: 0 <= i < |req.headers| && req.headers[i].name == AGENT_FIELD) ==>
      Names(sig.list.items, AGENT_FIELD)
  {
    hide Verify, Get, Names, Ascii, Build, ValueUnder, FirstIs, Labelled;
    AcceptsWhenVerified(WEB_BOT_AUTH, w, req, check, sig);
    WebBotAuthAsks();
    assert TypedAt(sig.list.params, Created) && TypedAt(sig.list.params, Expires) && TypedAt(sig.list.params, Keyid);
    var c :| c in WEB_BOT_AUTH.anyOf && Names(sig.list.items, NameOf(c));
    assert TaggedWith(ListMember(sig.list), WEB_BOT_AUTH.tag)
      by { TriedTagged(WEB_BOT_AUTH, req, sig.member, sig.list); }
  }

  lemma TriedTagged(rules: Rules, req: Request, member: bytes, list: InnerList)
    requires Tried(rules, req, member, list)
    ensures TaggedWith(ListMember(list), rules.tag)
  {
    hide Labelled, WellTyped, TaggedWith;
    var entries :| Labelled(req, INPUT_FIELD, entries)
      && FirstIs(entries, rules.tag, Keyed(member, ListMember(list)));
  }

  lemma WebBotAuthAsks()
    ensures WEB_BOT_AUTH.anyOf == {TargetUriComp, AuthorityComp} && Created in WEB_BOT_AUTH.required
    ensures Expires in WEB_BOT_AUTH.required && Keyid in WEB_BOT_AUTH.required && WEB_BOT_AUTH.requireAgentCovered
    ensures WEB_BOT_AUTH.tag == WEB_TAG
    ensures NameOf(TargetUriComp) == TARGET_URI_NAME && NameOf(AuthorityComp) == AUTHORITY_NAME
  {
  }
}
