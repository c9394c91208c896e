/**
 * From the request on the wire to what the signature base can depend on: the authority without
 * its default port, the target cut into path and query, field names and values normalized.
 */
module WireRequest {
  import opened Bytes
  import opened Sfv
  import opened SignatureBase
  import CacheTtl
  import DirectoryHost
  import FormUrl

  /** A request head as nginx hands it over; `host` is the Host field or the server name. */
  datatype Wire = Wire(verb: bytes, isConnect: bool, scheme: bytes, host: bytes, target: bytes, headers: seq<Header>)

  // ----- The authority -----

  /** The port a scheme implies, with its colon. */
  function DefaultPort(scheme: bytes): bytes {
    if Lower(scheme) == Ascii("http") then Ascii(":80")
    else if Lower(scheme) == Ascii("https") then Ascii(":443")
    else []
  }

  function WithoutPort(a: bytes, port: bytes): bytes {
    if |a| > |port| && DirectoryHost.HasSuffix(a, port) then a[..|a| - |port|] else a
  }

  function Authority(scheme: bytes, host: bytes): bytes { WithoutPort(Lower(host), DefaultPort(scheme)) }

  // ----- The target -----

  predicate IsSchemeChar(c: byte) { IsAlpha(c) || IsDigit(c) || c == PLUS || c == MINUS || c == DOT }

  function SchemeLength(s: bytes): (n: nat)
    ensures n <= |s| && (n < |s| ==> !IsSchemeChar(s[n])) && forall i :: 0 <= i < n ==> IsSchemeChar(s[i])
  {
    if s == [] || !IsSchemeChar(s[0]) then 0 else 1 + SchemeLength(s[1..])
  }

  /** Where an authority ends: at the first slash or question mark. */
  predicate EndsOrigin(c: byte) { c == SLASH || c == QUESTION }

  function AuthorityLength(s: bytes): (n: nat)
    ensures n <= |s| && (n < |s| ==> EndsOrigin(s[n])) && forall i :: 0 <= i < n ==> !EndsOrigin(s[i])
  {
    if s == [] || EndsOrigin(s[0]) then 0 else 1 + AuthorityLength(s[1..])
  }

  const MARK: bytes := [COLON, SLASH, SLASH]

  /** The target is a URI of its own: `scheme://` and the rest. */
  predicate IsAbsolute(target: bytes) { SchemeLength(target) > 0 && MARK <= target[SchemeLength(target)..] }

  /** Path and query, without the scheme and authority an absolute target begins with. */
  function PathAndQuery(target: bytes): bytes {
    if !IsAbsolute(target) then target
    else
      var rest := target[SchemeLength(target) + 3..];
      rest[AuthorityLength(rest)..]
  }

  predicate HasTarget(w: Wire) { !w.isConnect && w.target != [STAR] }

  function CleanHeaders(hs: seq<Header>): (r: seq<Header>)
    ensures |r| == |hs|
    ensures forall i :: 0 <= i < |hs| ==> r[i] == Header(Lower(hs[i].name), CacheTtl.Trim(hs[i].value))
  {
    seq(|hs|, i requires 0 <= i < |hs| => Header(Lower(hs[i].name), CacheTtl.Trim(hs[i].value)))
  }

  function Of(w: Wire): Request {
    var pq := if HasTarget(w) then PathAndQuery(w.target) else [];
    var n := IndexOfByte(pq, QUESTION);
    var query := if n < |pq| then pq[n + 1..] else [];
    Request(w.verb, w.scheme, Authority(w.scheme, w.host), pq[..n], query, n < |pq|, w.target, HasTarget(w),
            CleanHeaders(w.headers))
  }

  // ----- Normalization changes nothing that matters -----

  /** A port the scheme implies makes no difference, whatever the case of the host. */
  lemma DefaultPortIrrelevant(scheme: bytes, host: bytes)
    requires host != []
    ensures Authority(scheme, host + DefaultPort(scheme)) == Lower(host)
    ensures !DirectoryHost.HasSuffix(Lower(host), DefaultPort(scheme)) ==> Authority(scheme, host) == Lower(host)
  {
    var port := DefaultPort(scheme);
    var a := Lower(host + port);
    assert Lower(port) == port;
    assert a == Lower(host) + port;
    assert a[|a| - |port|..] == port;
  }

  predicate Blanks(s: bytes) { forall i :: 0 <= i < |s| ==> Blank(s[i]) }

  lemma {:induction false} SkipBlankExact(l: bytes, u: bytes)
    requires Blanks(l) && (u == [] || !Blank(u[0]))
    ensures SkipBlank(l + u) == u
  {
    if l != [] {
      assert (l + u)[1..] == l[1..] + u;
      SkipBlankExact(l[1..], u);
    } else {
      assert l + u == u;
    }
  }

  lemma {:induction false} TrimEndExact(u: bytes, r: bytes)
    requires Blanks(r) && (u == [] || !Blank(u[|u| - 1]))
    ensures CacheTtl.TrimEnd(u + r) == u
  {
    if r != [] {
      var n := |r| - 1;
      assert (u + r)[..|u| + n] == u + r[..n] && (u + r)[|u| + n] == r[n];
      TrimEndExact(u, r[..n]);
    } else {
      assert u + r == u;
    }
  }

  /** Trimming takes blanks away from both ends, all of them and nothing else. */
  lemma TrimExact(l: bytes, v: bytes, r: bytes)
    requires Blanks(l) && Blanks(r)
    requires v == [] || (!Blank(v[0]) && !Blank(v[|v| - 1]))
    ensures CacheTtl.Trim(l + v + r) == v
  {
    hide SkipBlank, CacheTtl.TrimEnd;
    if v == [] {
      SkipBlankExact(l + r, []);
      assert l + v + r == l + r + [];
      TrimEndExact(v, v);
      assert v + v == v;
    } else {
      SkipBlankExact(l, v + r);
      assert l + v + r == l + (v + r);
      TrimEndExact(v, r);
    }
  }

  /** The first byte of a class ends what comes before it. */
  lemma LengthsAt(a: bytes, r: bytes)
    ensures (forall i :: 0 <= i < |a| ==> IsSchemeChar(a[i])) && (r == [] || !IsSchemeChar(r[0])) ==>
      SchemeLength(a + r) == |a|
    ensures (forall i :: 0 <= i < |a| ==> !EndsOrigin(a[i])) && (r == [] || EndsOrigin(r[0])) ==>
      AuthorityLength(a + r) == |a|
  {
    var s := a + r;
    assert forall i :: 0 <= i < |a| ==> s[i] == a[i];
    assert r != [] ==> s[|a|] == r[0];
  }

  lemma AbsoluteRest(scheme: bytes, authority: bytes, rest: bytes)
    requires scheme != [] && forall i :: 0 <= i < |scheme| ==> IsSchemeChar(scheme[i])
    requires forall i :: 0 <= i < |authority| ==> !EndsOrigin(authority[i])
    requires rest == [] || EndsOrigin(rest[0])
    ensures var t := scheme + MARK + authority + rest; IsAbsolute(t) && PathAndQuery(t) == rest
  {
    hide *;
    var t := scheme + MARK + authority + rest;
    assert t == scheme + (MARK + (authority + rest));
    BehindMark(scheme, authority + rest);
    LengthsAt(authority, rest);
    assert (authority + rest)[|authority|..] == rest;
    Behind(t, authority + rest);
  }

  lemma Behind(target: bytes, rest: bytes)
    requires IsAbsolute(target) && target[SchemeLength(target) + 3..] == rest
    ensures PathAndQuery(target) == rest[AuthorityLength(rest)..]
  {
    assert rest == target[SchemeLength(target) + 3..];
  }

  lemma BehindMark(scheme: bytes, tail: bytes)
    requires scheme != [] && forall i :: 0 <= i < |scheme| ==> IsSchemeChar(scheme[i])
    ensures var t := scheme + (MARK + tail); IsAbsolute(t) && SchemeLength(t) == |scheme| && t[|scheme| + 3..] == tail
  {
    hide SchemeLength;
    LengthsAt(scheme, MARK + tail);
    assert (scheme + (MARK + tail))[|scheme|..] == MARK + tail;
  }

  /** Both forms of one target lead to the same path, query and target URI. */
  lemma FormsAgree(w: Wire, scheme: bytes, authority: bytes, rest: bytes)
    requires !w.isConnect && scheme != [] && forall i :: 0 <= i < |scheme| ==> IsSchemeChar(scheme[i])
    requires forall i :: 0 <= i < |authority| ==> !EndsOrigin(authority[i])
    requires rest == [] || EndsOrigin(rest[0])
    ensures var a := Of(w.(target := scheme + MARK + authority + rest));
            var o := Of(w.(target := if StartsWith(rest, SLASH) then rest else [SLASH] + rest));
      && EffectivePath(a) == EffectivePath(o) && a.query == o.query && a.hasQuery == o.hasQuery
      && TargetUri(a) == TargetUri(o)
  {
    hide CleanHeaders, Authority, PathAndQuery, IsAbsolute, TargetUri;
    var origin := if StartsWith(rest, SLASH) then rest else [SLASH] + rest;
    AbsoluteRest(scheme, authority, rest);
    OriginForm(origin);
    if !StartsWith(rest, SLASH) {
      CutBehindSlash(rest);
    }
    SameUri(Of(w.(target := scheme + MARK + authority + rest)), Of(w.(target := origin)));
  }

  lemma SameUri(a: Request, b: Request)
    requires a.scheme == b.scheme && a.authority == b.authority && EffectivePath(a) == EffectivePath(b)
    requires a.query == b.query && a.hasQuery == b.hasQuery
    ensures TargetUri(a) == TargetUri(b)
  {
    hide EffectivePath, Ascii;
  }

  lemma OriginForm(target: bytes)
    requires StartsWith(target, SLASH)
    ensures PathAndQuery(target) == target
  {
    assert SchemeLength(target) == 0;
  }

  lemma CutBehindSlash(s: bytes)
    requires s == [] || s[0] == QUESTION
    ensures IndexOfByte(s, QUESTION) == 0 && IndexOfByte([SLASH] + s, QUESTION) == 1
  {
    var o := [SLASH] + s;
    assert o[1..] == s;
  }

  // ----- The raw head and the built request agree -----

  /** The values of one field in the raw head, trimmed, whatever the case of its name. */
  function Collected(headers: seq<Header>, name: bytes): seq<bytes> {
    if headers == [] then []
    else
      var first := if Lower(headers[0].name) == Lower(name) then [CacheTtl.Trim(headers[0].value)] else [];
      first + Collected(headers[1..], name)
  }

  /** Collecting a field from the raw head yields the lines of the built request. */
  lemma {:induction false} CollectedAreLines(headers: seq<Header>, name: bytes)
    requires Lower(name) == name
    ensures Collected(headers, name) == FieldLines(CleanHeaders(headers), name)
  {
    hide Lower, CacheTtl.Trim;
    if headers != [] {
      CollectedAreLines(headers[1..], name);
      assert CleanHeaders(headers)[1..] == CleanHeaders(headers[1..]);
    } else {
      assert CleanHeaders(headers) == [];
    }
  }

  // ----- The target URI stands for all of its parts -----

  /** Nothing in a part can be taken for the beginning of the next. */
  predicate PartsApart(req: Request) {
    && COLON !in req.scheme && SLASH !in req.authority
    && (req.path == [] || req.path[0] == SLASH) && QUESTION !in req.path
    && (!req.hasQuery ==> req.query == [])
  }

  /** No colon in the scheme, no slash in the host, and a target that is absolute or begins with a slash. */
  predicate Separated(w: Wire) {
    && COLON !in w.scheme && SLASH !in w.host
    && (HasTarget(w) ==> IsAbsolute(w.target) || StartsWith(w.target, SLASH))
  }

  lemma BuiltApart(w: Wire)
    requires Separated(w)
    ensures PartsApart(Of(w))
  {
    hide CleanHeaders, DefaultPort, IsAbsolute;
    var r := Of(w);
    assert forall i :: 0 <= i < |r.authority| ==> r.authority[i] == ToLower(w.host[i]);
    var pq := if HasTarget(w) then PathAndQuery(w.target) else [];
    assert pq == [] || EndsOrigin(pq[0]);
  }

  /** What precedes the first byte of a set is determined by the text. */
  lemma SplitAtFirst(a: bytes, r: bytes, a': bytes, r': bytes, stop: set<byte>)
    requires a + r == a' + r'
    requires forall c :: c in stop ==> c !in a && c !in a'
    requires (r == [] || r[0] in stop) && (r' == [] || r'[0] in stop)
    ensures a == a' && r == r'
  {
    var s := a + r;
    assert r != [] ==> s[|a|] == r[0];
    assert r' != [] ==> s[|a'|] == r'[0];
    assert forall k :: 0 <= k < |a| ==> s[k] == a[k];
    assert forall k :: 0 <= k < |a'| ==> s[k] == a'[k];
    assert a == s[..|a|] && a' == s[..|a'|];
    assert r == s[|a|..] && r' == s[|a'|..];
  }

  function QueryPart(req: Request): bytes { if req.hasQuery then [QUESTION] + req.query else [] }

  /** The text of a target URI determines its parts, each ended by the first byte that may follow it. */
  lemma UriParts(s: bytes, a: bytes, p: bytes, q: bytes, s': bytes, a': bytes, p': bytes, q': bytes)
    requires s + (MARK + (a + (p + q))) == s' + (MARK + (a' + (p' + q')))
    requires COLON !in s && COLON !in s' && QUESTION !in p && QUESTION !in p'
    requires SLASH !in a && SLASH !in a'
    requires StartsWith(p, SLASH) && StartsWith(p', SLASH)
    requires (q == [] || q[0] == QUESTION) && (q' == [] || q'[0] == QUESTION)
    ensures s == s' && a == a' && p == p' && q == q'
  {
    SplitAtFirst(s, MARK + (a + (p + q)), s', MARK + (a' + (p' + q')), {COLON});
    assert a + (p + q) == (MARK + (a + (p + q)))[3..];
    assert a' + (p' + q') == (MARK + (a' + (p' + q')))[3..];
    SplitAtFirst(a, p + q, a', p' + q', {SLASH});
    SplitAtFirst(p, q, p', q', {QUESTION});
  }

  lemma TargetUriText(r: Request)
    ensures TargetUri(r) == r.scheme + (MARK + (r.authority + (EffectivePath(r) + QueryPart(r))))
  {
    assert Ascii("://") == MARK;
  }

  /** Equal target URIs mean equal scheme, authority, path and query. */
  lemma TargetUriDetermines(a: Request, b: Request)
    requires PartsApart(a) && PartsApart(b)
    ensures TargetUri(a) == TargetUri(b) <==>
      && a.scheme == b.scheme && a.authority == b.authority && EffectivePath(a) == EffectivePath(b)
      && a.hasQuery == b.hasQuery && a.query == b.query
  {
    hide TargetUri;
    TargetUriText(a);
    TargetUriText(b);
    if TargetUri(a) == TargetUri(b) {
      UriParts(a.scheme, a.authority, EffectivePath(a), QueryPart(a), b.scheme, b.authority, EffectivePath(b),
        QueryPart(b));
      assert a.hasQuery ==> a.query == QueryPart(a)[1..];
      assert b.hasQuery ==> b.query == QueryPart(b)[1..];
    }
  }

  // ----- Two requests under one signature base -----

  predicate OneLine(w: Wire) {
    && NoLf(w.verb) && NoLf(w.scheme) && NoLf(w.host) && NoLf(w.target)
    && forall i :: 0 <= i < |w.headers| ==> NoLf(w.headers[i].value)
  }

  lemma {:induction false} SkipBlankQuiet(s: bytes)
    requires NoLf(s)
    ensures NoLf(SkipBlank(s))
  {
    if s != [] && Blank(s[0]) {
      SkipBlankQuiet(s[1..]);
    }
  }

  lemma {:induction false} TrimEndQuiet(s: bytes)
    requires NoLf(s)
    ensures NoLf(CacheTtl.TrimEnd(s))
  {
    if s != [] && Blank(s[|s| - 1]) {
      TrimEndQuiet(s[..|s| - 1]);
    }
  }

  lemma AuthorityQuiet(scheme: bytes, host: bytes)
    requires NoLf(host)
    ensures NoLf(Authority(scheme, host))
  {
    hide DefaultPort;
    assert forall i :: 0 <= i < |host| ==> Lower(host)[i] == ToLower(host[i]) != LF;
  }

  lemma TargetQuiet(target: bytes)
    requires NoLf(target)
    ensures NoLf(PathAndQuery(target))
  {
    hide SchemeLength, AuthorityLength;
    if IsAbsolute(target) {
      var rest := target[SchemeLength(target) + 3..];
      assert NoLf(rest);
    }
  }

  lemma BuiltOneLine(w: Wire)
    requires OneLine(w)
    ensures OneLineParts(Of(w))
  {
    hide CleanHeaders, Authority, PathAndQuery, SkipBlank, CacheTtl.TrimEnd;
    AuthorityQuiet(w.scheme, w.host);
    forall i | 0 <= i < |w.headers| ensures NoLf(Of(w).headers[i].value) {
      SkipBlankQuiet(w.headers[i].value);
      TrimEndQuiet(SkipBlank(w.headers[i].value));
    }
    TargetQuiet(w.target);
  }

  const TARGET_URI_ITEM := Item(String(Ascii("@target-uri")), [])

  lemma TargetUriValue(req: Request)
    ensures Component(req, TARGET_URI_ITEM).Ok? ==> Component(req, TARGET_URI_ITEM).value == TargetUri(req)
  {
    hide Field, QueryParamComponent, TargetUri;
    assert StartsWith(Ascii("@target-uri"), AT);
    NoOtherName();
  }

  /** No other derived component has a name of this length. */
  lemma NoOtherName()
    ensures forall s ::
      s in {"@query-param", "@method", "@scheme", "@authority", "@path", "@query", "@request-target"} ==>
      |s| != |"@target-uri"|
  {
  }

  /**
   * Two requests on the wire with one signature base that covers the target URI ask for the
   * same thing at the same place: scheme, authority, path and query are the same.
   */
  lemma SameBaseSameTarget(w: Wire, list: InnerList, w': Wire, list': InnerList)
    requires OneLine(w) && OneLine(w') && Separated(w) && Separated(w')
    requires ValidInnerList(list) && ValidInnerList(list') && TARGET_URI_ITEM in list.items
    requires Build(Of(w), list).Ok? && Build(Of(w), list) == Build(Of(w'), list')
    ensures list == list'
    ensures var a, b := Of(w), Of(w');
      && a.scheme == b.scheme && a.authority == b.authority && EffectivePath(a) == EffectivePath(b)
      && a.hasQuery == b.hasQuery && a.query == b.query
  {
    hide Of, Build, Component, ValidInnerList, PartsApart, OneLineParts, TargetUri, EffectivePath, Separated, OneLine;
    var a, b := Of(w), Of(w');
    BuiltOneLine(w);
    BuiltOneLine(w');
    BuiltApart(w);
    BuiltApart(w');
    BaseIsUnambiguous(a, list, b, list');
    BuildExact(a, list);
    var i :| 0 <= i < |list.items| && list.items[i] == TARGET_URI_ITEM;
    assert Component(a, list.items[i]) == Component(b, list.items[i]);
    TargetUriValue(a);
    TargetUriValue(b);
    TargetUriDetermines(a, b);
  }

  // ----- As it runs -----

  method SkipScheme(s: bytes) returns (n: nat)
    ensures n == SchemeLength(s)
  {
    n := 0;
    while n < |s| && IsSchemeChar(s[n])
      invariant n <= |s| && forall i :: 0 <= i < n ==> IsSchemeChar(s[i])
    {
      n := n + 1;
    }
  }

  method SkipAuthority(s: bytes) returns (n: nat)
    ensures n == AuthorityLength(s)
  {
    n := 0;
    while n < |s| && !EndsOrigin(s[n])
      invariant n <= |s| && forall i :: 0 <= i < n ==> !EndsOrigin(s[i])
    {
      n := n + 1;
    }
  }

  /** Skips `scheme://authority` of an absolute target. */
  method SkipOrigin(target: bytes) returns (pq: bytes)
    ensures pq == PathAndQuery(target)
  {
    hide SchemeLength, AuthorityLength;
    pq := target;
    var n := SkipScheme(target);
    if n > 0 && |target| - n >= 3 && target[n] == COLON && target[n + 1] == SLASH && target[n + 2] == SLASH {
      pq := target[n + 3..];
      var m := SkipAuthority(pq);
      pq := pq[m..];
    }
  }

  lemma {:induction false} CollectedSnoc(headers: seq<Header>, i: nat, name: bytes)
    requires i < |headers|
    ensures Collected(headers[..i + 1], name) == Collected(headers[..i], name) +
      if Lower(headers[i].name) == Lower(name) then [CacheTtl.Trim(headers[i].value)] else []
  {
    hide Lower, CacheTtl.Trim;
    if i > 0 {
      CollectedSnoc(headers[1..], i - 1, name);
      assert headers[..i + 1][1..] == headers[1..][..i] && headers[..i][1..] == headers[1..][..i - 1];
    } else {
      assert headers[..1] == [headers[0]];
    }
  }

  method CollectHeader(headers: seq<Header>, name: bytes) returns (lines: seq<bytes>)
    ensures lines == Collected(headers, name)
  {
    hide Lower, CacheTtl.Trim, Collected;
    lines := [];
    assert headers[..0] == [];
    NoneCollected(name);
    for i := 0 to |headers|
      invariant lines == Collected(headers[..i], name)
    {
      CollectedSnoc(headers, i, name);
      if Lower(headers[i].name) == Lower(name) {
        var value := CacheTtl.TrimToken(headers[i].value);
        lines := lines + [value];
      }
    }
    assert headers[..|headers|] == headers;
  }

  lemma NoneCollected(name: bytes)
    ensures Collected([], name) == []
  {
  }

  method LowerText(s: bytes) returns (r: bytes)
    ensures r == Lower(s)
  {
    r := [];
    for i := 0 to |s|
      invariant |r| == i && forall k :: 0 <= k < i ==> r[k] == ToLower(s[k])
    {
      r := r + [ToLower(s[i])];
    }
  }

  lemma PortAt(scheme: bytes, host: bytes, schemes: seq<bytes>, ports: seq<bytes>)
    requires schemes == [Ascii("http"), Ascii("https")] && ports == [Ascii(":80"), Ascii(":443")]
    ensures forall k :: 0 <= k < 2 && Lower(scheme) == schemes[k] ==>
      Authority(scheme, host) == WithoutPort(Lower(host), ports[k])
    ensures Lower(scheme) !in schemes ==> Authority(scheme, host) == Lower(host)
    ensures schemes[0] != schemes[1]
  {
    assert |Ascii("http")| != |Ascii("https")|;
    if Lower(scheme) !in schemes {
      assert Lower(scheme) != schemes[0] && Lower(scheme) != schemes[1];
      assert DefaultPort(scheme) == [];
      assert Lower(host)[..|Lower(host)|] == Lower(host);
    }
  }

  method StripDefaultPort(scheme: bytes, host: bytes) returns (a: bytes)
    ensures a == Authority(scheme, host)
  {
    hide Authority, Lower, DefaultPort, Ascii;
    a := LowerText(host);
    var schemes, ports := [Ascii("http"), Ascii("https")], [Ascii(":80"), Ascii(":443")];
    PortAt(scheme, host, schemes, ports);
    for k := 0 to 2
      invariant a == Lower(host)
      invariant Lower(scheme) in schemes[..k] ==> Authority(scheme, host) == a
    {
      assert schemes[..k + 1] == schemes[..k] + [schemes[k]];
      if Lower(scheme) == schemes[k] && |a| > |ports[k]| && a[|a| - |ports[k]|..] == ports[k] {
        a := a[..|a| - |ports[k]|];
        return;
      }
    }
    assert schemes[..2] == schemes;
  }

  /** Builds the request the signature base is computed from. */
  method BuildRequest(w: Wire) returns (req: Request)
    ensures req == Of(w)
  {
    hide PathAndQuery, Authority, CacheTtl.Trim, Lower;
    var authority := StripDefaultPort(w.scheme, w.host);
    var pq := [];
    if HasTarget(w) {
      pq := SkipOrigin(w.target);
    }
    var n := FormUrl.FindByte(pq, QUESTION);
    var headers: seq<Header> := [];
    for i := 0 to |w.headers|
      invariant |headers| == i
      invariant forall k :: 0 <= k < i ==>
        headers[k] == Header(Lower(w.headers[k].name), CacheTtl.Trim(w.headers[k].value))
    {
      var name := LowerText(w.headers[i].name);
      var value := CacheTtl.TrimToken(w.headers[i].value);
      headers := headers + [Header(name, value)];
    }
    assert headers == CleanHeaders(w.headers);
    req := Request(w.verb, w.scheme, authority, pq[..n], if n < |pq| then pq[n + 1..] else [], n < |pq|, w.target,
                   HasTarget(w), headers);
  }
}
