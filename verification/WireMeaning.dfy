/**
 * What each derived component stands for, from the request on the wire: the value of every `@`
 * name, how the target URI is made of the others, and what two requests with one signature base
 * have in common.
 */
module WireMeaning {
  import opened Bytes
  import opened Sfv
  import opened SignatureBase
  import opened WireRequest
  import FormUrl

  const METHOD := Item(String(Ascii("@method")), [])
  const SCHEME := Item(String(Ascii("@scheme")), [])
  const AUTHORITY := Item(String(Ascii("@authority")), [])
  const TARGET := Item(String(Ascii("@request-target")), [])
  const PATH := Item(String(Ascii("@path")), [])
  const QUERY := Item(String(Ascii("@query")), [])

  /** The value of a component, empty when it has none. */
  function ValueOf(r: Request, item: Item): bytes {
    var v := Component(r, item);
    if v.Ok? then v.value else []
  }

  lemma AsciiApart(s: string, t: string)
    requires forall i :: 0 <= i < |s| ==> s[i] as int < 0x80
    requires forall i :: 0 <= i < |t| ==> t[i] as int < 0x80
    requires s != t
    ensures Ascii(s) != Ascii(t)
  {
    if |s| == |t| {
      var i :| 0 <= i < |s| && s[i] != t[i];
      assert Ascii(s)[i] as int == s[i] as int != Ascii(t)[i] as int;
    }
  }

  /** No two of the supported names are one text, and each begins with an at sign. */
  lemma NamesApart()
    ensures Ascii("@method") != Ascii("@scheme")
    ensures |Ascii("@method")| == 7 && |Ascii("@scheme")| == 7 && |Ascii("@authority")| == 10
    ensures |Ascii("@request-target")| == 15 && |Ascii("@path")| == 5 && |Ascii("@query")| == 6
    ensures |Ascii("@target-uri")| == 11 && |Ascii("@query-param")| == 12
    ensures StartsWith(Ascii("@method"), AT) && StartsWith(Ascii("@scheme"), AT) && StartsWith(Ascii("@authority"), AT)
    ensures StartsWith(Ascii("@request-target"), AT) && StartsWith(Ascii("@path"), AT)
    ensures StartsWith(Ascii("@query"), AT) && StartsWith(Ascii("@target-uri"), AT)
  {
    AsciiApart("@method", "@scheme");
  }

  /** The names whose value is there on every request. */
  lemma AlwaysThere(w: Wire)
    ensures Component(Of(w), METHOD) == Ok(w.verb)
    ensures Component(Of(w), SCHEME) == Ok(w.scheme)
    ensures Component(Of(w), TARGET) == Ok(w.target)
    ensures Component(Of(w), AUTHORITY) == Ok(Authority(w.scheme, w.host))
  {
    hide Ascii, Field, QueryParamComponent, TargetUri, Authority, PathAndQuery, CleanHeaders;
    NamesApart();
  }

  const HTTP := Ascii("http")
  const HTTPS := Ascii("https")
  const PORT_80 := Ascii(":80")
  const PORT_443 := Ascii(":443")

  /** The host in lower case, without the port its scheme implies unless that is all there is. */
  lemma AuthorityExactly(scheme: bytes, host: bytes)
    ensures forall h :: h != [] && Lower(scheme) == HTTP && Lower(host) == h + PORT_80 ==> Authority(scheme, host) == h
    ensures forall h :: h != [] && Lower(scheme) == HTTPS && Lower(host) == h + PORT_443 ==>
      Authority(scheme, host) == h
    ensures (forall h :: h != [] && Lower(scheme) == HTTP ==> Lower(host) != h + PORT_80) &&
            (forall h :: h != [] && Lower(scheme) == HTTPS ==> Lower(host) != h + PORT_443) ==>
              Authority(scheme, host) == Lower(host)
  {
    hide Lower;
    AsciiApart("http", "https");
    CutPort(Lower(host), PORT_80);
    CutPort(Lower(host), PORT_443);
    assert Lower(host)[..|Lower(host)|] == Lower(host);
  }

  lemma CutPort(a: bytes, port: bytes)
    ensures forall h :: h != [] && a == h + port ==> WithoutPort(a, port) == h
    ensures (forall h :: h != [] ==> a != h + port) ==> WithoutPort(a, port) == a
  {
    if |a| > |port| && a[|a| - |port|..] == port {
      assert a == a[..|a| - |port|] + port;
    }
  }

  /** A request has a target unless it is CONNECT or asks for the asterisk. */
  predicate Targeted(w: Wire) { !w.isConnect && w.target != [0x2A] }

  lemma TargetedExactly(w: Wire)
    ensures Of(w).targetDefined == HasTarget(w) == Targeted(w)
  {
    hide PathAndQuery, Authority, CleanHeaders;
  }

  /** Path and query of a target in either form, and nothing of them when there is none. */
  lemma TargetParts(w: Wire, prefix: bytes, path: bytes, query: Option<bytes>)
    requires IsPrefix(prefix, path + AfterPath(query)) && QUESTION !in path
    requires w.target == prefix + (path + AfterPath(query)) && Targeted(w)
    ensures Component(Of(w), PATH) == Ok(if path == [] then [SLASH] else path)
    ensures Component(Of(w), QUERY) == Ok([QUESTION] + (if query.Some? then query.value else []))
    ensures Of(w).hasQuery == query.Some?
  {
    hide Component, PathAndQuery, Authority, CleanHeaders, IsPrefix;
    TargetedExactly(w);
    var rest := path + AfterPath(query);
    TargetRest(w.target, prefix, path, query);
    CutAtQuery(rest, path, query);
    PathValue(Of(w));
    QueryValue(Of(w));
  }

  lemma CutAtQuery(rest: bytes, path: bytes, query: Option<bytes>)
    requires rest == path + AfterPath(query) && QUESTION !in path
    ensures IndexOfByte(rest, QUESTION) == |path| && rest[..|path|] == path
    ensures if query.Some? then |path| < |rest| && rest[|path| + 1..] == query.value else |path| == |rest|
  {
    IndexOfByteIs(rest, QUESTION, |path|);
  }

  function AfterPath(query: Option<bytes>): bytes { if query.Some? then [QUESTION] + query.value else [] }

  predicate SchemeByte(c: byte) {
    0x30 <= c <= 0x39 || 0x41 <= c <= 0x5A || 0x61 <= c <= 0x7A || c == 0x2B || c == 0x2D || c == 0x2E
  }

  predicate SchemeText(s: bytes) { s != [] && forall i :: 0 <= i < |s| ==> SchemeByte(s[i]) }

  /** A text that begins with a scheme and its mark. */
  ghost predicate HasScheme(t: bytes) { exists scheme, more :: SchemeText(scheme) && t == scheme + SCHEME_MARK + more }

  const SCHEME_MARK := Ascii("://")

  /** A scheme and an authority before any path and query, or nothing before a text that has no scheme. */
  ghost predicate IsPrefix(prefix: bytes, rest: bytes) {
    if prefix == [] then !HasScheme(rest)
    else
      && (rest == [] || rest[0] == SLASH || rest[0] == QUESTION)
      && exists scheme, authority :: IsOrigin(scheme, authority, prefix)
  }

  ghost predicate IsOrigin(scheme: bytes, authority: bytes, prefix: bytes) {
    && SchemeText(scheme)
    && (forall i :: 0 <= i < |authority| ==> authority[i] != SLASH && authority[i] != QUESTION)
    && prefix == scheme + SCHEME_MARK + authority
  }

  /** What begins with a slash has no scheme. */
  lemma SlashHasNone(t: bytes)
    requires StartsWith(t, SLASH)
    ensures !HasScheme(t)
  {
    forall scheme, more | SchemeText(scheme)
      ensures t != scheme + SCHEME_MARK + more
    {
      assert (scheme + SCHEME_MARK + more)[0] == scheme[0];
    }
  }

  lemma AbsoluteHasScheme(t: bytes)
    ensures IsAbsolute(t) ==> HasScheme(t)
  {
    hide SchemeLength;
    if IsAbsolute(t) {
      var n := SchemeLength(t);
      assert SCHEME_MARK == MARK;
      assert t[n..] == MARK + t[n + 3..];
      assert t == t[..n] + SCHEME_MARK + t[n + 3..];
      assert forall i :: 0 <= i < n ==> t[..n][i] == t[i];
    }
  }

  lemma TargetRest(target: bytes, prefix: bytes, path: bytes, query: Option<bytes>)
    requires IsPrefix(prefix, path + AfterPath(query)) && target == prefix + (path + AfterPath(query))
    ensures PathAndQuery(target) == path + AfterPath(query)
  {
    hide IsAbsolute, HasScheme, SchemeLength, AuthorityLength;
    var rest := path + AfterPath(query);
    if prefix == [] {
      assert target == rest;
      AbsoluteHasScheme(target);
    } else {
      var scheme, authority :| IsOrigin(scheme, authority, prefix);
      assert SCHEME_MARK == MARK;
      AbsoluteRest(scheme, authority, rest);
      assert target == scheme + MARK + authority + rest;
    }
  }

  /** Without a target nothing that is made of it has a value. */
  lemma NoTarget(w: Wire, params: seq<Param>)
    requires !Targeted(w)
    ensures Component(Of(w), PATH) == Refused(UndefinedTarget)
    ensures Component(Of(w), QUERY) == Refused(UndefinedTarget)
    ensures Component(Of(w), TARGET_URI_ITEM) == Refused(UndefinedTarget)
    ensures Component(Of(w), Item(String(Ascii("@query-param")), params)) == Refused(UndefinedTarget)
  {
    hide Ascii, Field, QueryParamComponent, TargetUri, Authority, PathAndQuery, CleanHeaders;
    NamesApart();
    TargetedExactly(w);
    assert StartsWith(Ascii("@query-param"), AT) by { AtFirst(); }
  }

  lemma AtFirst()
    ensures StartsWith(Ascii("@query-param"), AT)
  {
  }

  /** The target URI is the other components put together. */
  lemma UriOfParts(w: Wire)
    requires Targeted(w)
    ensures var r := Of(w);
      && Component(r, TARGET_URI_ITEM).Ok? && Component(r, PATH).Ok? && Component(r, QUERY).Ok?
      && ValueOf(r, TARGET_URI_ITEM) == ValueOf(r, SCHEME) + Ascii("://") + ValueOf(r, AUTHORITY) + ValueOf(r, PATH)
                                        + (if r.hasQuery then ValueOf(r, QUERY) else [])
  {
    hide Ascii, Field, QueryParamComponent, Authority, PathAndQuery, CleanHeaders;
    NamesApart();
    TargetedExactly(w);
  }

  /** A derived component with parameters has no value, but `@query-param`. */
  lemma ParamsRefused(w: Wire, name: bytes, params: seq<Param>)
    requires StartsWith(name, AT) && params != [] && name != Ascii("@query-param")
    ensures !Component(Of(w), Item(String(name), params)).Ok?
  {
    hide Ascii, Field, QueryParamComponent, TargetUri, Of;
  }

  /** Names the module does not know have no value. */
  lemma UnknownRefused(w: Wire, name: bytes, params: seq<Param>)
    requires StartsWith(name, AT)
    requires name !in {Ascii("@method"), Ascii("@scheme"), Ascii("@authority"), Ascii("@path"), Ascii("@query"),
                       Ascii("@target-uri"), Ascii("@request-target"), Ascii("@query-param")}
    ensures Component(Of(w), Item(String(name), params)) == Refused(UnknownComponent)
  {
    hide Ascii, Field, QueryParamComponent, TargetUri, Of;
  }

  /** What two requests share when they have one base: each covered part of the target. */
  lemma SameBaseSameParts(w: Wire, list: InnerList, w': Wire, list': InnerList)
    requires OneLine(w) && OneLine(w') && ValidInnerList(list) && ValidInnerList(list')
    requires Build(Of(w), list).Ok? && Build(Of(w), list) == Build(Of(w'), list')
    ensures list == list'
    ensures METHOD in list.items ==> w.verb == w'.verb
    ensures SCHEME in list.items ==> w.scheme == w'.scheme
    ensures TARGET in list.items ==> w.target == w'.target
    ensures AUTHORITY in list.items ==> Authority(w.scheme, w.host) == Authority(w'.scheme, w'.host)
    ensures PATH in list.items ==> EffectivePath(Of(w)) == EffectivePath(Of(w'))
    ensures QUERY in list.items ==> Of(w).query == Of(w').query
  {
    hide *;
    BuiltOneLine(w);
    BuiltOneLine(w');
    BaseIsUnambiguous(Of(w), list, Of(w'), list');
    BuildExact(Of(w), list);
    Covering(Of(w), list);
    AlwaysThere(w);
    AlwaysThere(w');
    SamePath(Of(w), Of(w'));
  }

  lemma Covering(r: Request, list: InnerList)
    requires Coverable(r, list.items)
    ensures forall x :: x in list.items ==> Component(r, x).Ok?
  {
    hide Component;
  }

  lemma SamePath(r: Request, s: Request)
    ensures Component(r, PATH) == Component(s, PATH) && Component(r, PATH).Ok? ==> EffectivePath(r) == EffectivePath(s)
    ensures Component(r, QUERY) == Component(s, QUERY) && Component(r, QUERY).Ok? ==> r.query == s.query
  {
    hide Component;
    PathValue(r);
    PathValue(s);
    QueryValue(r);
    QueryValue(s);
    assert r.query == ([QUESTION] + r.query)[1..] && s.query == ([QUESTION] + s.query)[1..];
  }

  lemma PathValue(r: Request)
    ensures Component(r, PATH) == if r.targetDefined then Ok(EffectivePath(r)) else Refused(UndefinedTarget)
  {
    hide Ascii, Field, QueryParamComponent, TargetUri;
    NamesApart();
  }

  lemma QueryValue(r: Request)
    ensures Component(r, QUERY) == if r.targetDefined then Ok([QUESTION] + r.query) else Refused(UndefinedTarget)
  {
    hide Ascii, Field, QueryParamComponent, TargetUri;
    NamesApart();
  }

  // ----- Fields and parameters of the query -----

  const AGENT := Ascii("signature-agent")
  const KEY := Ascii("key")
  const SF := Ascii("sf")
  const NAME := Ascii("name")
  const QUERY_PARAM := Ascii("@query-param")
  const SEPARATOR := Ascii(", ")

  /** Several lines of a field are one value, with a comma and a space between them. */
  lemma JoinExactly(lines: seq<bytes>, last: bytes)
    ensures Join([]) == [] && Join([last]) == last
    ensures lines != [] ==> Join(lines + [last]) == Join(lines) + SEPARATOR + last
    decreases |lines|
  {
    assert SEPARATOR == COMMA_SPACE;
    if |lines| > 1 {
      JoinExactly(lines[1..], last);
      assert (lines + [last])[1..] == lines[1..] + [last];
      assert lines[0] + COMMA_SPACE + (Join(lines[1..]) + COMMA_SPACE + last) == Join(lines) + COMMA_SPACE + last;
    } else if |lines| == 1 {
      assert (lines + [last])[1..] == [last];
    }
  }

  predicate HasUpper(name: bytes) { exists i :: 0 <= i < |name| && 0x41 <= name[i] <= 0x5A }

  lemma LowerIs(name: bytes)
    requires !HasUpper(name)
    ensures Lower(name) == name
  {
  }

  /** A plain field: its lines as they came, joined; names with capitals and absent fields have no value. */
  lemma FieldOnWire(w: Wire, name: bytes)
    requires !StartsWith(name, 0x40)
    ensures Component(Of(w), Item(String(name), [])) ==
      if HasUpper(name) then Refused(UnknownComponent)
      else if Collected(w.headers, name) == [] then Refused(MissingField)
      else Ok(Join(Collected(w.headers, name)))
  {
    hide Join, FieldLines, Collected, CleanHeaders, Authority, PathAndQuery, AgentMember, Ascii, Lower;
    if !HasUpper(name) {
      LowerIs(name);
      CollectedAreLines(w.headers, name);
    }
  }

  /** The parameters by which a member of Signature-Agent is picked: a key, alone or with a true `sf`. */
  ghost predicate PicksMember(params: seq<Param>, key: bytes) {
    var k, sf := Keyed(KEY, String(key)), Keyed(SF, Boolean(true));
    params == [k] || params == [k, sf] || params == [sf, k]
  }

  lemma AgentKeyExactly(params: seq<Param>, key: bytes)
    ensures AgentKey(AGENT, params) == Some(key) <==> PicksMember(params, key)
    ensures forall name :: name != AGENT ==> AgentKey(name, params).None?
  {
    assert |KEY| != |SF|;
    assert AGENT == SIGNATURE_AGENT && KEY == Ascii("key") && SF == Ascii("sf");
    if |params| == 1 {
      assert params == [params[0]];
      OneParam(params);
    } else if |params| == 2 {
      assert params == [params[0], params[1]];
      TwoParams(params, KEY);
      TwoParams(params, SF);
    }
  }

  lemma OneParam(params: seq<Param>)
    requires |params| == 1
    ensures forall k :: Get(params, k) == if params[0].key == k then Some(params[0].value) else None
  {
  }

  lemma TwoParams(params: seq<Param>, k: bytes)
    requires |params| == 2
    ensures Get(params, k) ==
      if params[0].key == k then Some(params[0].value) else if params[1].key == k then Some(params[1].value) else None
  {
  }

  /** A member of Signature-Agent: in its canonical form, when the joined lines are a dictionary that has it. */
  lemma AgentMemberOnWire(w: Wire, params: seq<Param>, key: bytes)
    requires PicksMember(params, key)
    ensures var lines := Collected(w.headers, AGENT);
      var d := ParseDictionary(Join(lines));
      Component(Of(w), Item(String(AGENT), params)) ==
        if lines != [] && d.Some? && Get(d.value.entries, key).Some? then
          Ok(WriteMember(Get(d.value.entries, key).value))
        else Refused(MissingField)
  {
    hide Join, FieldLines, Collected, CleanHeaders, Authority, PathAndQuery, Lower, ParseDictionary, WriteMember, Get,
      PicksMember, AgentKey;
    AgentKeyExactly(params, key);
    AgentName();
    LowerIs(AGENT);
    CollectedAreLines(w.headers, AGENT);
  }

  lemma AgentName()
    ensures !HasUpper(AGENT) && !StartsWith(AGENT, AT) && AGENT == SIGNATURE_AGENT
  {
  }

  /** Any other parameter of a field leaves it without a value. */
  lemma FieldParamsRefused(w: Wire, name: bytes, params: seq<Param>)
    requires !StartsWith(name, 0x40) && params != []
    requires name != AGENT || forall key :: !PicksMember(params, key)
    ensures !Component(Of(w), Item(String(name), params)).Ok?
  {
    hide Of, AgentMember, FieldValue, PicksMember, AgentKey, Ascii;
    forall key
      ensures AgentKey(AGENT, params) == Some(key) <==> PicksMember(params, key)
    {
      AgentKeyExactly(params, key);
    }
    AgentKeyExactly(params, []);
  }

  /** A parameter of the query: asked for by `name` and nothing else, found when it is there exactly once. */
  lemma QueryParamOnWire(w: Wire, name: bytes)
    requires Targeted(w)
    ensures var v := FormUrl.QueryParam(Of(w).query, name);
      Component(Of(w), Item(String(QUERY_PARAM), [Keyed(NAME, String(name))])) ==
        if v.Some? then Ok(v.value) else Refused(MissingField)
    ensures forall params: seq<Param> :: (forall n :: params != [Keyed(NAME, String(n))]) ==>
      !Component(Of(w), Item(String(QUERY_PARAM), params)).Ok?
  {
    hide FormUrl.QueryParam, CleanHeaders, Authority, PathAndQuery, Field;
    QueryParamName();
    TargetedExactly(w);
    assert NAME == Ascii("name") && QUERY_PARAM == Ascii("@query-param");
    forall params: seq<Param> | Component(Of(w), Item(String(QUERY_PARAM), params)).Ok?
      ensures exists n :: params == [Keyed(NAME, String(n))]
    {
      assert |params| == 1 && params == [params[0]];
      OneParam(params);
      assert params == [Keyed(NAME, String(params[0].value.text))];
    }
    OneParam([Keyed(NAME, String(name))]);
  }

  lemma QueryParamName()
    ensures StartsWith(QUERY_PARAM, AT)
  {
  }

  /** Only strings name components. */
  lemma OnlyStrings(r: Request, x: Item)
    ensures !x.bare.String? ==> Component(r, x) == Refused(UnknownComponent)
  {
  }
}
