/**
 * Checking a request against the web-bot-auth profile: which signature is selected, what it
 * must carry and cover, when it is valid, and the cheaper pre-check made before any key
 * directory is fetched.
 */
module Profile {
  import opened Bytes
  import opened Sfv
  import opened SfvSoundness
  import opened SignatureBase
  import WireRequest

  datatype ParamKind = Created | Expires | Keyid | Alg | Nonce | Tag

  datatype Comp = Verb | TargetUriComp | AuthorityComp | SchemeComp | RequestTarget | Path | Query | SignatureAgent

  /** What a profile demands. */
  datatype Rules = Rules(
    tag: bytes,
    required: set<ParamKind>,
    anyOf: set<Comp>,
    allOf: set<Comp>,
    requireAgentCovered: bool,
    alg: bytes)

  const WEB_BOT_AUTH := Rules(Ascii("web-bot-auth"), {Created, Expires, Keyid, Tag}, {TargetUriComp, AuthorityComp}, {},
                              true, Ascii("ed25519"))

  /** The parameters of a selected signature; absent ones are None. */
  datatype Fields = Fields(
    created: Option<int>,
    expires: Option<int>,
    keyid: Option<bytes>,
    alg: Option<bytes>,
    nonce: Option<bytes>,
    tag: Option<bytes>)

  /** The key id, empty when there is none. */
  function KeyidOf(f: Fields): bytes { if f.keyid.Some? then f.keyid.value else [] }

  datatype Result =
    | NotSigned
    | ParseError
    | ProfileMismatch
    | Expired
    | Verified(sig: Signature)
    | Unverified(reason: nat)

  datatype Signature = Signature(member: bytes, fields: Fields, list: InnerList, value: bytes, base: bytes)

  const SIGNATURE_INPUT := Ascii("signature-input")
  const SIGNATURE := Ascii("signature")

  // ----- Selecting the signature -----

  function MemberParams(m: Member): seq<Param> { if m.ListMember? then m.list.params else m.item.params }

  predicate TaggedFor(m: Member, tag: bytes) { Get(MemberParams(m), Ascii("tag")) == Some(String(tag)) }

  /** The first entry with the tag. */
  function SelectEntry(entries: seq<Entry>, tag: bytes): (r: Option<Entry>)
  {
    if entries == [] then None
    else if TaggedFor(entries[0].value, tag) then Some(entries[0])
    else SelectEntry(entries[1..], tag)
  }

  function IntegerParam(ps: seq<Param>, name: bytes): (bool, Option<int>) {
    var v := Get(ps, name);
    if v.None? then (true, None) else if v.value.Integer? then (true, Some(v.value.value)) else (false, None)
  }

  function StringParam(ps: seq<Param>, name: bytes): (bool, Option<bytes>) {
    var v := Get(ps, name);
    if v.None? then (true, None) else if v.value.String? then (true, Some(v.value.text)) else (false, None)
  }

  /** Every known parameter, or nothing when one has the wrong type. */
  function ExtractFields(ps: seq<Param>): Option<Fields> {
    var (ok1, created) := IntegerParam(ps, Ascii("created"));
    var (ok2, expires) := IntegerParam(ps, Ascii("expires"));
    var (ok3, keyid) := StringParam(ps, Ascii("keyid"));
    var (ok4, alg) := StringParam(ps, Ascii("alg"));
    var (ok5, nonce) := StringParam(ps, Ascii("nonce"));
    var (ok6, tag) := StringParam(ps, Ascii("tag"));
    if ok1 && ok2 && ok3 && ok4 && ok5 && ok6 then Some(Fields(created, expires, keyid, alg, nonce, tag)) else None
  }

  function Present(f: Fields): set<ParamKind> {
    (if f.created.Some? then {Created} else {}) + (if f.expires.Some? then {Expires} else {})
    + (if f.keyid.Some? then {Keyid} else {}) + (if f.alg.Some? then {Alg} else {})
    + (if f.nonce.Some? then {Nonce} else {}) + (if f.tag.Some? then {Tag} else {})
  }

  function ComponentBit(name: bytes): set<Comp> {
    if name == Ascii("@method") then {Verb}
    else if name == Ascii("@target-uri") then {TargetUriComp}
    else if name == Ascii("@authority") then {AuthorityComp}
    else if name == Ascii("@scheme") then {SchemeComp}
    else if name == Ascii("@request-target") then {RequestTarget}
    else if name == Ascii("@path") then {Path}
    else if name == Ascii("@query") then {Query}
    else if name == SIGNATURE_AGENT then {SignatureAgent}
    else {}
  }

  function Covered(items: seq<Item>): set<Comp> {
    if items == [] then {}
    else (if items[0].bare.String? then ComponentBit(items[0].bare.text) else {}) + Covered(items[1..])
  }

  predicate Matches(rules: Rules, f: Fields, covered: set<Comp>) {
    && rules.required <= Present(f)
    && (f.alg.Some? && rules.alg != [] ==> Lower(f.alg.value) == Lower(rules.alg))
    && (rules.anyOf != {} ==> covered * rules.anyOf != {})
    && rules.allOf <= covered
  }

  // ----- The pre-check -----

  datatype Selected = Selected(member: bytes, keyid: bytes)

  /** A signature that could pass the profile on a request that carries Signature-Agent. */
  function SelectLabel(rules: Rules, inputLines: seq<bytes>): Option<Selected> {
    if inputLines == [] then None
    else
      var dict := ParseDictionary(Join(inputLines));
      if dict.None? || dict.value.duplicateKeys then None
      else
        var e := SelectEntry(dict.value.entries, rules.tag);
        if e.None? || !e.value.value.ListMember? then None
        else
          var f := ExtractFields(e.value.value.list.params);
          var covered := Covered(e.value.value.list.items);
          if f.None? || !Matches(rules, f.value, covered) then None
          else if rules.requireAgentCovered && SignatureAgent !in covered then None
          else Some(Selected(e.value.key, KeyidOf(f.value)))
  }

  // ----- The verification -----

  /** Clock and tolerances. */
  datatype Window = Window(now: int, skew: int, expiresMax: int)

  predicate InWindow(f: Fields, w: Window) {
    && (f.created.Some? ==> f.created.value <= w.now + w.skew)
    && (f.expires.Some? ==>
          && f.expires.value >= w.now - w.skew
          && (f.created.Some? ==> 0 <= f.expires.value - f.created.value <= w.expiresMax))
  }

  /** The bytes of the matching Signature member. */
  function SignatureBytes(entries: seq<Entry>, member: bytes): Option<bytes> {
    var m := Get(entries, member);
    if m.None? || !m.value.ItemMember? || !m.value.item.bare.ByteSequence? then None
    else Some(m.value.item.bare.content)
  }

  /** The key check: the verdict on a key id, a base and a signature; None when it verifies. */
  type KeyCheck = (bytes, bytes, bytes) -> Option<nat>

  function Verify(rules: Rules, w: Window, req: Request, check: KeyCheck): Result {
    var input := FieldValue(req.headers, SIGNATURE_INPUT);
    if input.None? then NotSigned
    else
      var sigs := FieldValue(req.headers, SIGNATURE);
      if sigs.None? then ParseError
      else VerifyDictionaries(rules, w, req, check, ParseDictionary(input.value), ParseDictionary(sigs.value))
  }

  function VerifyDictionaries(rules: Rules, w: Window, req: Request, check: KeyCheck, input: Option<Dictionary>,
                              sigs: Option<Dictionary>): Result {
    if input.None? || sigs.None? || input.value.duplicateKeys || sigs.value.duplicateKeys then ParseError
    else
      var e := SelectEntry(input.value.entries, rules.tag);
      if e.None? then NotSigned
      else if !e.value.value.ListMember? then ParseError
      else VerifyEntry(rules, w, req, check, e.value.key, e.value.value.list, sigs.value.entries)
  }

  predicate AgentPresent(req: Request) { FieldLines(req.headers, SIGNATURE_AGENT) != [] }

  function VerifyEntry(rules: Rules, w: Window, req: Request, check: KeyCheck, member: bytes, list: InnerList,
                       sigs: seq<Entry>): Result {
    var f := ExtractFields(list.params);
    if f.None? then ParseError
    else
      var covered := Covered(list.items);
      if !Matches(rules, f.value, covered) then ProfileMismatch
      else if rules.requireAgentCovered && AgentPresent(req) && SignatureAgent !in covered then ProfileMismatch
      else if !InWindow(f.value, w) then Expired
      else
        var value := SignatureBytes(sigs, member);
        if value.None? then ParseError
        else
          var base := Build(req, list);
          if base.Refused? then ParseError
          else
            var v := check(KeyidOf(f.value), base.value, value.value);
            if v.Some? then Unverified(v.value) else Verified(Signature(member, f.value, list, value.value, base.value))
  }

  // ----- The pre-check agrees with the verification -----

  /** The lines of a field joined are its value: the pre-check parses the bytes verification parses. */
  lemma JoinedIsValue(headers: seq<Header>, name: bytes)
    ensures FieldValue(headers, name).None? <==> FieldLines(headers, name) == []
    ensures FieldValue(headers, name).Some? ==> FieldValue(headers, name).value == Join(FieldLines(headers, name))
  {
  }

  /**
   * On every request that carries Signature-Agent: a signature that verifies was selected by the
   * pre-check, under the same label and key id; and a selected one can then fail only for its
   * time window, its Signature field, its base or its key.
   */
  lemma PrecheckAgrees(rules: Rules, w: Window, req: Request, check: KeyCheck)
    requires AgentPresent(req)
    ensures var sel := SelectLabel(rules, FieldLines(req.headers, SIGNATURE_INPUT));
      var res := Verify(rules, w, req, check);
      && (res.Verified? ==> sel == Some(Selected(res.sig.member, KeyidOf(res.sig.fields))))
      && (sel.None? ==> res == NotSigned || res == ParseError || res == ProfileMismatch)
      && (sel.Some? ==> res != NotSigned && res != ProfileMismatch)
  {
    hide ParseDictionary, FieldLines, Join, SelectEntry, ExtractFields, Covered, Matches, InWindow, Build,
      SignatureBytes;
    JoinedIsValue(req.headers, SIGNATURE_INPUT);
  }

  /**
   * The same from the request on the wire: the pre-check collects its lines from the raw head,
   * verification reads the built request.
   */
  lemma PrecheckAgreesOnWire(rules: Rules, win: Window, w: WireRequest.Wire, check: KeyCheck)
    requires WireRequest.Collected(w.headers, SIGNATURE_AGENT) != []
    ensures var sel := SelectLabel(rules, WireRequest.Collected(w.headers, SIGNATURE_INPUT));
      var res := Verify(rules, win, WireRequest.Of(w), check);
      && (res.Verified? ==> sel == Some(Selected(res.sig.member, KeyidOf(res.sig.fields))))
      && (sel.None? ==> res == NotSigned || res == ParseError || res == ProfileMismatch)
      && (sel.Some? ==> res != NotSigned && res != ProfileMismatch)
  {
    hide SelectLabel, Verify, WireRequest.Collected, WireRequest.CleanHeaders;
    LowerNames();
    WireRequest.CollectedAreLines(w.headers, SIGNATURE_INPUT);
    WireRequest.CollectedAreLines(w.headers, SIGNATURE_AGENT);
    PrecheckAgrees(rules, win, WireRequest.Of(w), check);
  }

  lemma LowerNames()
    ensures Lower(SIGNATURE_INPUT) == SIGNATURE_INPUT && Lower(SIGNATURE_AGENT) == SIGNATURE_AGENT
  {
  }

  // ----- What a verified signature is -----

  /** Everything that verification establishes, without the order of its steps. */
  ghost predicate IsVerified(rules: Rules, w: Window, req: Request, check: KeyCheck, sig: Signature) {
    && AcceptedEntry(rules, req, sig.member, sig.list)
    && ExtractFields(sig.list.params) == Some(sig.fields)
    && Matches(rules, sig.fields, Covered(sig.list.items))
    && (rules.requireAgentCovered && AgentPresent(req) ==> SignatureAgent in Covered(sig.list.items))
    && InWindow(sig.fields, w)
    && HasSignature(req, sig.member, sig.value)
    && Build(req, sig.list) == Ok(sig.base)
    && check(KeyidOf(sig.fields), sig.base, sig.value) == None
  }

  /** The label and list of the first tagged member of a Signature-Input without repeated labels. */
  ghost predicate AcceptedEntry(rules: Rules, req: Request, member: bytes, list: InnerList) {
    var input := FieldValue(req.headers, SIGNATURE_INPUT);
    input.Some? &&
    var d := ParseDictionary(input.value);
    d.Some? && !d.value.duplicateKeys && SelectEntry(d.value.entries, rules.tag)
      == Some(Keyed(member, ListMember(list)))
  }

  ghost predicate HasSignature(req: Request, member: bytes, value: bytes) {
    var sigs := FieldValue(req.headers, SIGNATURE);
    sigs.Some? &&
    var d := ParseDictionary(sigs.value);
    d.Some? && !d.value.duplicateKeys && SignatureBytes(d.value.entries, member) == Some(value)
  }

  /** Verification succeeds exactly on such a signature, and it reports it. */
  lemma VerifiedExactly(rules: Rules, w: Window, req: Request, check: KeyCheck, sig: Signature)
    ensures Verify(rules, w, req, check) == Verified(sig) <==> IsVerified(rules, w, req, check, sig)
  {
    hide ParseDictionary, FieldValue, SelectEntry, ExtractFields, Covered, Matches, InWindow, Build, SignatureBytes;
    if IsVerified(rules, w, req, check, sig) {
      var d := ParseDictionary(FieldValue(req.headers, SIGNATURE_INPUT).value).value;
      assert SelectEntry(d.entries, rules.tag).value == Keyed(sig.member, ListMember(sig.list));
    }
  }

  lemma {:induction false} SelectEntryIn(entries: seq<Entry>, tag: bytes)
    ensures SelectEntry(entries, tag).Some? ==>
      exists i :: 0 <= i < |entries| && entries[i] == SelectEntry(entries, tag).value
        && TaggedFor(entries[i].value, tag)
        && forall j :: 0 <= j < i ==> !TaggedFor(entries[j].value, tag)
    ensures SelectEntry(entries, tag).None? ==> forall i :: 0 <= i < |entries| ==> !TaggedFor(entries[i].value, tag)
  {
    hide TaggedFor;
    if entries != [] && !TaggedFor(entries[0].value, tag) {
      SelectEntryIn(entries[1..], tag);
      if SelectEntry(entries, tag).Some? {
        var i :| 0 <= i < |entries| - 1 && entries[1..][i] == SelectEntry(entries[1..], tag).value
          && TaggedFor(entries[1..][i].value, tag)
          && forall j :: 0 <= j < i ==> !TaggedFor(entries[1..][j].value, tag);
        assert entries[i + 1] == entries[1..][i];
        forall j | 0 <= j < i + 1
          ensures !TaggedFor(entries[j].value, tag)
        {
          assert j > 0 ==> entries[j] == entries[1..][j - 1];
        }
      }
    }
  }

  /** A selected list is well formed: its serialization cannot fail and its fields are in range. */
  lemma SelectedValid(rules: Rules, req: Request, member: bytes, list: InnerList)
    requires AcceptedEntry(rules, req, member, list)
    ensures ValidInnerList(list)
    ensures ExtractFields(list.params).Some? ==> FieldsValid(ExtractFields(list.params).value)
  {
    hide FieldValue, SelectEntry, ExtractFields, ValidInnerList, ParseDictionary, FieldsValid;
    var d := ParseDictionary(FieldValue(req.headers, SIGNATURE_INPUT).value).value;
    DictionarySound(FieldValue(req.headers, SIGNATURE_INPUT).value);
    SelectEntryIn(d.entries, rules.tag);
    EntryValid(d, Keyed(member, ListMember(list)));
    if ExtractFields(list.params).Some? {
      ExtractValid(list, ExtractFields(list.params).value);
    }
  }

  lemma EntryValid(d: Dictionary, e: Entry)
    requires ValidDictionary(d) && e.value.ListMember? && exists i :: 0 <= i < |d.entries| && d.entries[i] == e
    ensures ValidInnerList(e.value.list)
  {
    hide ValidInnerList;
  }

  /** Integers have fifteen digits at most; texts are printable, so none holds a NUL. */
  predicate FieldsValid(f: Fields) {
    && (f.created.Some? ==> -MAX_NUMBER <= f.created.value <= MAX_NUMBER)
    && (f.expires.Some? ==> -MAX_NUMBER <= f.expires.value <= MAX_NUMBER)
    && (f.keyid.Some? ==> AllPrintable(f.keyid.value))
    && (f.nonce.Some? ==> AllPrintable(f.nonce.value))
  }

  lemma GetValid(ps: seq<Param>, name: bytes)
    requires ValidParams(ps)
    ensures Get(ps, name).Some? ==> ValidBare(Get(ps, name).value)
  {
    hide ValidBare;
  }

  lemma ExtractValid(list: InnerList, f: Fields)
    requires ValidInnerList(list) && ExtractFields(list.params) == Some(f)
    ensures FieldsValid(f)
  {
    hide Get, ValidParams;
    GetValid(list.params, Ascii("created"));
    GetValid(list.params, Ascii("expires"));
    GetValid(list.params, Ascii("keyid"));
    GetValid(list.params, Ascii("nonce"));
  }
}
