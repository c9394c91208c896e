/**
 * The signature base string (section 2.5 of RFC 9421): one line per covered component and
 * a closing line carrying the covered-components list itself.
 */
module SignatureBase {
  import opened Bytes
  import opened Sfv
  import opened SfvRoundTrip
  import opened SfvSoundness
  import Base64
  import FormUrl

  const MAX_BASE_LENGTH := 16384

  datatype Header = Header(name: bytes, value: bytes)

  /** What the base string can depend on; `query` has no leading `?`. */
  datatype Request = Request(
    verb: bytes,
    scheme: bytes,
    authority: bytes,
    path: bytes,
    query: bytes,
    hasQuery: bool,
    requestTarget: bytes,
    targetDefined: bool,
    headers: seq<Header>)

  datatype Reason = UnknownComponent | UnsupportedParam | DuplicateComponent | MissingField | UndefinedTarget | TooLong

  datatype Outcome = Ok(value: bytes) | Refused(reason: Reason)

  const SIGNATURE_AGENT := Ascii("signature-agent")

  // ----- Header fields -----

  /** The values of one field, in receipt order. */
  function FieldLines(headers: seq<Header>, name: bytes): seq<bytes> {
    if headers == [] then []
    else (if headers[0].name == name then [headers[0].value] else []) + FieldLines(headers[1..], name)
  }

  const COMMA_SPACE: bytes := [COMMA, SPACE]

  function Join(lines: seq<bytes>): bytes {
    if lines == [] then []
    else if |lines| == 1 then lines[0]
    else lines[0] + COMMA_SPACE + Join(lines[1..])
  }

  function FieldValue(headers: seq<Header>, name: bytes): Option<bytes> {
    var lines := FieldLines(headers, name);
    if lines == [] then None else Some(Join(lines))
  }

  // ----- Component values -----

  function EffectivePath(req: Request): bytes { if req.path == [] then [SLASH] else req.path }

  function TargetUri(req: Request): bytes {
    var query := if req.hasQuery then [QUESTION] + req.query else [];
    req.scheme + Ascii("://") + req.authority + EffectivePath(req) + query
  }

  function FromOption(o: Option<bytes>): Outcome {
    match o
    case Some(v) => Ok(v)
    case None => Refused(MissingField)
  }

  function QueryParamComponent(req: Request, params: seq<Param>): Outcome {
    var name := Get(params, Ascii("name"));
    if name.None? || !name.value.String? then Refused(UnknownComponent)
    else if |params| != 1 then Refused(UnsupportedParam)
    else FromOption(FormUrl.QueryParam(req.query, name.value.text))
  }

  /** A derived component: one of the `@` names the module supports. */
  function Derived(req: Request, name: bytes, params: seq<Param>): Outcome {
    if name == Ascii("@query-param") then
      if !req.targetDefined then Refused(UndefinedTarget) else QueryParamComponent(req, params)
    else if !IsDerivedName(name) then Refused(UnknownComponent)
    else if params != [] then Refused(UnsupportedParam)
    else if NeedsTarget(name) && !req.targetDefined then Refused(UndefinedTarget)
    else Ok(DerivedValue(req, name))
  }

  predicate IsDerivedName(name: bytes) {
    || name == Ascii("@method") || name == Ascii("@scheme") || name == Ascii("@authority")
    || name == Ascii("@request-target") || NeedsTarget(name)
  }

  predicate NeedsTarget(name: bytes) {
    name == Ascii("@path") || name == Ascii("@query") || name == Ascii("@target-uri")
  }

  function DerivedValue(req: Request, name: bytes): bytes {
    if name == Ascii("@method") then req.verb
    else if name == Ascii("@scheme") then req.scheme
    else if name == Ascii("@authority") then req.authority
    else if name == Ascii("@path") then EffectivePath(req)
    else if name == Ascii("@query") then [QUESTION] + req.query
    else if name == Ascii("@request-target") then req.requestTarget
    else TargetUri(req)
  }

  /** The `key` parameter of a `signature-agent` component, alone or with a true `sf`. */
  function AgentKey(name: bytes, params: seq<Param>): Option<bytes> {
    if name != SIGNATURE_AGENT || params == [] || |params| > 2 then None
    else
      var key := Get(params, Ascii("key"));
      if key.None? || !key.value.String? then None
      else if |params| == 2 && Get(params, Ascii("sf")) != Some(Boolean(true)) then None
      else Some(key.value.text)
  }

  /** One member of the Signature-Agent dictionary, in its canonical form. */
  function AgentMember(req: Request, key: bytes): Option<bytes> {
    var raw := FieldValue(req.headers, SIGNATURE_AGENT);
    if raw.None? then None
    else
      var dict := ParseDictionary(raw.value);
      if dict.None? || Get(dict.value.entries, key).None? then None
      else Some(WriteMember(Get(dict.value.entries, key).value))
  }

  function Field(req: Request, name: bytes, params: seq<Param>): Outcome {
    if exists i :: 0 <= i < |name| && IsUpper(name[i]) then Refused(UnknownComponent)
    else
      var key := AgentKey(name, params);
      if key.Some? then FromOption(AgentMember(req, key.value))
      else if params != [] then Refused(UnsupportedParam)
      else FromOption(FieldValue(req.headers, name))
  }

  function Component(req: Request, item: Item): Outcome {
    if !item.bare.String? then Refused(UnknownComponent)
    else if StartsWith(item.bare.text, AT) then Derived(req, item.bare.text, item.params)
    else Field(req, item.bare.text, item.params)
  }

  // ----- Assembling the base -----

  const COLON_SPACE: bytes := [COLON, SPACE]

  function Line(id: bytes, value: bytes): bytes { id + COLON_SPACE + value + [LF] }

  predicate Repeated(items: seq<Item>, i: nat)
    requires i < |items|
  {
    exists j :: 0 <= j < i && WriteItem(items[j]) == WriteItem(items[i])
  }

  /** The lines from component `i` on, appended to `buf`; the first refusal wins. */
  function BuildLines(req: Request, items: seq<Item>, i: nat, buf: bytes): Outcome
    requires i <= |items|
    decreases |items| - i
  {
    if i == |items| then Ok(buf)
    else if !items[i].bare.String? then Refused(UnknownComponent)
    else if Repeated(items, i) then Refused(DuplicateComponent)
    else
      var v := Component(req, items[i]);
      if v.Refused? then v
      else
        var next := buf + Line(WriteItem(items[i]), v.value);
        if |next| > MAX_BASE_LENGTH then Refused(TooLong) else BuildLines(req, items, i + 1, next)
  }

  const PARAMS_LABEL := Ascii("\"@signature-params\": ")

  function Build(req: Request, list: InnerList): Outcome {
    if |list.items| > MAX_ITEMS then Refused(TooLong)
    else
      var lines := BuildLines(req, list.items, 0, []);
      if lines.Refused? then lines
      else
        var out := lines.value + (PARAMS_LABEL + WriteInnerList(list));
        if |out| > MAX_BASE_LENGTH then Refused(TooLong) else Ok(out)
  }

  // ----- What the base is, without saying how it is assembled -----

  /** Every component has a value, and no label occurs twice. */
  ghost predicate Coverable(req: Request, items: seq<Item>) {
    && (forall i :: 0 <= i < |items| ==> Component(req, items[i]).Ok?)
    && (forall i, j :: 0 <= i < j < |items| ==> WriteItem(items[i]) != WriteItem(items[j]))
  }

  function Lines(req: Request, items: seq<Item>): bytes
    requires forall i :: 0 <= i < |items| ==> Component(req, items[i]).Ok?
  {
    if items == [] then []
    else Line(WriteItem(items[0]), Component(req, items[0]).value) + Lines(req, items[1..])
  }

  function Ideal(req: Request, list: InnerList): bytes
    requires forall i :: 0 <= i < |list.items| ==> Component(req, list.items[i]).Ok?
  {
    Lines(req, list.items) + (PARAMS_LABEL + WriteInnerList(list))
  }

  lemma NamedByString(req: Request, item: Item)
    ensures Component(req, item).Ok? ==> item.bare.String?
  {
  }

  lemma {:induction false} BuildLinesExact(req: Request, items: seq<Item>, i: nat, buf: bytes)
    requires i <= |items| && |buf| <= MAX_BASE_LENGTH
    ensures BuildLines(req, items, i, buf).Ok? ==>
      && (forall k :: i <= k < |items| ==> Component(req, items[k]).Ok? && !Repeated(items, k))
      && BuildLines(req, items, i, buf).value == buf + Lines(req, items[i..])
    ensures (forall k :: i <= k < |items| ==> Component(req, items[k]).Ok? && !Repeated(items, k)) ==>
      && (|buf + Lines(req, items[i..])| <= MAX_BASE_LENGTH ==> BuildLines(req, items, i, buf).Ok?)
    decreases |items| - i
  {
    hide Component, Line, WriteItem;
    if i == |items| {
      assert buf + [] == buf;
    } else {
      var v := Component(req, items[i]);
      NamedByString(req, items[i]);
      if v.Ok? {
        var line := Line(WriteItem(items[i]), v.value);
        var rest := items[i + 1..];
        assert items[i..] == [items[i]] + rest;
        if |buf + line| <= MAX_BASE_LENGTH {
          BuildLinesExact(req, items, i + 1, buf + line);
        }
        if forall k :: i + 1 <= k < |items| ==> Component(req, items[k]).Ok? {
          assert forall k :: 0 <= k < |rest| ==> rest[k] == items[i + 1 + k];
          assert Lines(req, items[i..]) == line + Lines(req, rest);
          assert buf + line + Lines(req, rest) == buf + (line + Lines(req, rest));
        }
      }
    }
  }

  /**
   * The base exists exactly when there are at most 64 components, each has a value, no label
   * repeats, and the text fits in 16384 bytes; it is then that text.
   */
  lemma BuildExact(req: Request, list: InnerList)
    ensures Build(req, list).Ok? <==>
      && |list.items| <= MAX_ITEMS && Coverable(req, list.items)
      && |Ideal(req, list)| <= MAX_BASE_LENGTH
    ensures Build(req, list).Ok? ==> Build(req, list).value == Ideal(req, list)
  {
    hide Component, WriteItem, WriteInnerList, BuildLines, Lines;
    BuildLinesExact(req, list.items, 0, []);
    assert list.items[0..] == list.items;
    NoRepeats(list.items);
    if forall k :: 0 <= k < |list.items| ==> Component(req, list.items[k]).Ok? {
      assert [] + Lines(req, list.items) == Lines(req, list.items);
    }
  }

  lemma NoRepeats(items: seq<Item>)
    ensures (forall k :: 0 <= k < |items| ==> !Repeated(items, k)) <==>
            (forall i, j :: 0 <= i < j < |items| ==> WriteItem(items[i]) != WriteItem(items[j]))
  {
    hide WriteItem;
    if forall k :: 0 <= k < |items| ==> !Repeated(items, k) {
      forall i, j | 0 <= i < j < |items| ensures WriteItem(items[i]) != WriteItem(items[j]) {
        assert !Repeated(items, j);
      }
    }
  }

  // ----- The base determines what was covered -----

  predicate NoLf(s: bytes) { forall i :: 0 <= i < |s| ==> s[i] != LF }

  /** No part of the request holds a line feed: nginx refuses one anywhere in a request head. */
  predicate OneLineParts(req: Request) {
    && NoLf(req.verb) && NoLf(req.scheme) && NoLf(req.authority) && NoLf(req.path) && NoLf(req.query)
    && NoLf(req.requestTarget)
    && forall i :: 0 <= i < |req.headers| ==> NoLf(req.headers[i].value)
  }

  lemma {:induction false} FieldLinesQuiet(headers: seq<Header>, name: bytes)
    requires forall i :: 0 <= i < |headers| ==> NoLf(headers[i].value)
    ensures forall i :: 0 <= i < |FieldLines(headers, name)| ==> NoLf(FieldLines(headers, name)[i])
  {
    if headers != [] {
      FieldLinesQuiet(headers[1..], name);
    }
  }

  lemma {:induction false} JoinQuiet(lines: seq<bytes>)
    requires forall i :: 0 <= i < |lines| ==> NoLf(lines[i])
    ensures NoLf(Join(lines))
  {
    if |lines| > 1 {
      JoinQuiet(lines[1..]);
    }
  }

  lemma {:induction false} EscapePrintable(t: bytes)
    requires AllPrintable(t)
    ensures AllPrintable(Escape(t))
  {
    if t != [] {
      EscapePrintable(t[1..]);
    }
  }

  lemma ClassPrintable(s: bytes, cl: CharClass)
    requires AllIn(s, cl)
    ensures AllPrintable(s)
  {
    forall i | 0 <= i < |s| ensures IsPrintable(s[i]) {
      assert InClass(s[i], cl);
    }
  }

  lemma BarePrintable(b: Bare)
    requires ValidBare(b)
    ensures AllPrintable(WriteBare(b))
  {
    hide Base64.Encode, Digits, Fraction, Escape;
    match b
    case Integer(v) => ClassPrintable(Digits(Abs(v)), DigitClass);
    case Decimal(v) =>
      ClassPrintable(Digits(Abs(v) / 1000), DigitClass);
      ClassPrintable(Fraction(Abs(v) % 1000), DigitClass);
    case String(t) => EscapePrintable(t);
    case Token(t) => ClassPrintable(t[1..], TokenClass);
    case ByteSequence(c) => Base64.RoundTrip(c);
    case Boolean(_) =>
  }

  lemma {:induction false} ParamsPrintable(ps: seq<Param>)
    requires EachValid(ps)
    ensures AllPrintable(WriteParams(ps))
  {
    hide WriteBare;
    if ps != [] {
      ClassPrintable(ps[0].key[1..], KeyClass);
      BarePrintable(ps[0].value);
      ParamsPrintable(ps[1..]);
    }
  }

  lemma ItemPrintable(x: Item)
    requires ValidItem(x)
    ensures AllPrintable(WriteItem(x))
  {
    hide WriteBare, WriteParams;
    BarePrintable(x.bare);
    ParamsPrintable(x.params);
  }

  lemma {:induction false} ItemsPrintable(xs: seq<Item>)
    requires forall i :: 0 <= i < |xs| ==> ValidItem(xs[i])
    ensures AllPrintable(WriteItems(xs))
  {
    hide WriteItem;
    if xs != [] {
      ItemPrintable(xs[0]);
      ItemsPrintable(xs[1..]);
    }
  }

  lemma InnerListPrintable(l: InnerList)
    requires ValidInnerList(l)
    ensures AllPrintable(WriteInnerList(l))
  {
    hide WriteItems, WriteParams;
    ItemsPrintable(l.items);
    ParamsPrintable(l.params);
  }

  lemma QuietQueryParam(query: bytes, name: bytes)
    ensures FormUrl.QueryParam(query, name).Some? ==> NoLf(FormUrl.QueryParam(query, name).value)
  {
    hide FormUrl.Decode, FormUrl.Encode, FormUrl.UniqueMatch;
    var g := FormUrl.UniqueMatch(FormUrl.Segments(query), FormUrl.Decode(name));
    if g.Some? {
      FormUrl.EncodeIsQuiet(FormUrl.Decode(FormUrl.SegmentValue(g.value)));
    }
  }

  lemma AgentMemberQuiet(req: Request, key: bytes)
    ensures AgentMember(req, key).Some? ==> NoLf(AgentMember(req, key).value)
  {
    hide WriteItem, WriteInnerList, ParseDictionary;
    if AgentMember(req, key).Some? {
      var raw := FieldValue(req.headers, SIGNATURE_AGENT).value;
      DictionarySound(raw);
      match Get(ParseDictionary(raw).value.entries, key).value
      case ItemMember(x) => ItemPrintable(x);
      case ListMember(l) => InnerListPrintable(l);
    }
  }

  lemma FieldValueQuiet(req: Request, name: bytes)
    requires OneLineParts(req)
    ensures FieldValue(req.headers, name).Some? ==> NoLf(FieldValue(req.headers, name).value)
  {
    FieldLinesQuiet(req.headers, name);
    JoinQuiet(FieldLines(req.headers, name));
  }

  lemma DerivedQuiet(req: Request, name: bytes)
    requires OneLineParts(req)
    ensures NoLf(DerivedValue(req, name))
  {
  }

  /** A component value of a one-line request is itself one line. */
  lemma ComponentQuiet(req: Request, item: Item)
    requires OneLineParts(req)
    ensures Component(req, item).Ok? ==> NoLf(Component(req, item).value)
  {
    hide FormUrl.QueryParam, AgentMember, FieldValue, DerivedValue;
    if item.bare.String? {
      var name := item.bare.text;
      DerivedQuiet(req, name);
      FieldValueQuiet(req, name);
      var key := AgentKey(name, item.params);
      if key.Some? {
        AgentMemberQuiet(req, key.value);
      }
      var p := Get(item.params, Ascii("name"));
      if p.Some? && p.value.String? {
        QuietQueryParam(req.query, p.value.text);
      }
    }
  }

  lemma LinesEnd(req: Request, items: seq<Item>)
    requires forall i :: 0 <= i < |items| ==> Component(req, items[i]).Ok?
    ensures Lines(req, items) == [] || Lines(req, items)[|Lines(req, items)| - 1] == LF
  {
    hide Component, WriteItem;
  }

  /** The last line feed separates the lines from the closing line. */
  lemma SplitAtLastLf(a: bytes, b: bytes, a': bytes, b': bytes)
    requires a + b == a' + b' && NoLf(b) && NoLf(b')
    requires a == [] || a[|a| - 1] == LF
    requires a' == [] || a'[|a'| - 1] == LF
    ensures a == a' && b == b'
  {
    var s := a + b;
    assert a != [] ==> s[|a| - 1] == LF;
    assert a' != [] ==> s[|a'| - 1] == LF;
    assert forall k :: |a| <= k < |s| ==> s[k] == b[k - |a|];
    assert forall k :: |a'| <= k < |s| ==> s[k] == b'[k - |a'|];
    assert a == s[..|a|] && a' == s[..|a'|];
    assert b == s[|a|..] && b' == s[|a'|..];
  }

  /** The first line feed after a one-line prefix ends it. */
  lemma SplitAtFirstLf(v: bytes, r: bytes, v': bytes, r': bytes)
    requires NoLf(v) && NoLf(v') && v + ([LF] + r) == v' + ([LF] + r')
    ensures v == v' && r == r'
  {
    var s := v + ([LF] + r);
    assert s[|v|] == LF && s[|v'|] == LF;
    assert forall k :: 0 <= k < |v| ==> s[k] == v[k];
    assert forall k :: 0 <= k < |v'| ==> s[k] == v'[k];
    assert v == s[..|v|] && v' == s[..|v'|];
    assert r == s[|v| + 1..] && r' == s[|v'| + 1..];
  }

  lemma {:induction false} LinesDetermineValues(req: Request, req': Request, items: seq<Item>)
    requires OneLineParts(req) && OneLineParts(req')
    requires forall i :: 0 <= i < |items| ==> Component(req, items[i]).Ok? && Component(req', items[i]).Ok?
    requires Lines(req, items) == Lines(req', items)
    ensures forall i :: 0 <= i < |items| ==> Component(req, items[i]) == Component(req', items[i])
  {
    hide Component, WriteItem;
    if items != [] {
      var id := WriteItem(items[0]);
      var v, v' := Component(req, items[0]).value, Component(req', items[0]).value;
      var r, r' := Lines(req, items[1..]), Lines(req', items[1..]);
      ComponentQuiet(req, items[0]);
      ComponentQuiet(req', items[0]);
      var p := id + COLON_SPACE;
      assert Line(id, v) + r == p + (v + ([LF] + r));
      assert Line(id, v') + r' == p + (v' + ([LF] + r'));
      assert v + ([LF] + r) == (p + (v + ([LF] + r)))[|p|..];
      assert v' + ([LF] + r') == (p + (v' + ([LF] + r')))[|p|..];
      SplitAtFirstLf(v, r, v', r');
      LinesDetermineValues(req, req', items[1..]);
    }
  }

  lemma LabelQuiet()
    ensures NoLf(PARAMS_LABEL)
  {
  }

  /**
   * A base string is unambiguous: two requests yield the same base exactly when they cover
   * the same components, with the same parameters, and give each of them the same value.
   */
  lemma BaseIsUnambiguous(req: Request, list: InnerList, req': Request, list': InnerList)
    requires OneLineParts(req) && OneLineParts(req')
    requires ValidInnerList(list) && ValidInnerList(list')
    requires Build(req, list).Ok? && Build(req', list').Ok?
    ensures Build(req, list) == Build(req', list') <==>
      && list == list'
      && forall i :: 0 <= i < |list.items| ==> Component(req, list.items[i]) == Component(req', list.items[i])
  {
    hide Build, Component, WriteInnerList, Lines, OneLineParts;
    BuildExact(req, list);
    BuildExact(req', list');
    var a, a' := Lines(req, list.items), Lines(req', list'.items);
    if Build(req, list) == Build(req', list') {
      ClosingLine(list);
      ClosingLine(list');
      LinesEnd(req, list.items);
      LinesEnd(req', list'.items);
      var b, b' := PARAMS_LABEL + WriteInnerList(list), PARAMS_LABEL + WriteInnerList(list');
      SplitAtLastLf(a, b, a', b');
      assert WriteInnerList(list) == b[|PARAMS_LABEL|..] && WriteInnerList(list') == b'[|PARAMS_LABEL|..];
      SameText(list, list');
      LinesDetermineValues(req, req', list.items);
    } else if list == list'
      && forall i :: 0 <= i < |list.items| ==> Component(req, list.items[i]) == Component(req', list.items[i])
    {
      SameLines(req, req', list.items);
    }
  }

  lemma ClosingLine(l: InnerList)
    requires ValidInnerList(l)
    ensures NoLf(PARAMS_LABEL + WriteInnerList(l))
  {
    hide WriteInnerList;
    LabelQuiet();
    InnerListPrintable(l);
  }

  lemma SameText(l: InnerList, l': InnerList)
    requires ValidInnerList(l) && ValidInnerList(l') && WriteInnerList(l) == WriteInnerList(l')
    ensures l == l'
  {
    hide WriteInnerList;
    MemberInjective(ListMember(l), [], ListMember(l'), []);
  }

  lemma {:induction false} SameLines(req: Request, req': Request, items: seq<Item>)
    requires forall i :: 0 <= i < |items| ==>
      Component(req, items[i]).Ok? && Component(req, items[i]) == Component(req', items[i])
    ensures Lines(req, items) == Lines(req', items)
  {
    hide Component, WriteItem;
    if items != [] {
      SameLines(req, req', items[1..]);
    }
  }
}
