/** Signature base assembly as it runs: bounded buffers and size-then-copy passes. */
module BaseBuilder {
  import opened Bytes
  import opened Sfv
  import opened SignatureBase
  import SfvReader
  import SfvSoundness
  import SfvWriter
  import FormUrl

  /** A byte buffer of fixed capacity; an append that does not fit changes nothing. */
  class Buffer {
    const data: array<byte>
    var len: nat

    ghost predicate Valid()
      reads this, data
    {
      len <= data.Length
    }

    ghost function Contents(): bytes
      reads this, data
      requires Valid()
    {
      data[..len]
    }

    constructor (cap: nat)
      ensures Valid() && fresh(data) && data.Length == cap && Contents() == []
    {
      data := new byte[cap];
      len := 0;
    }

    method Put(s: bytes) returns (ok: bool)
      requires Valid()
      modifies this, data
      ensures Valid() && ok == (|old(Contents())| + |s| <= data.Length)
      ensures Contents() == if ok then old(Contents()) + s else old(Contents())
    {
      if len + |s| > data.Length {
        return false;
      }
      for i := 0 to |s|
        invariant len == old(len) && data[..len] == old(Contents()) && len + |s| <= data.Length
        invariant data[len..len + i] == s[..i]
      {
        data[len + i] := s[i];
        assert data[len..len + i + 1] == data[len..len + i] + [s[i]];
      }
      len := len + |s|;
      assert data[..len] == data[..old(len)] + data[old(len)..len];
      ok := true;
    }

    method Snapshot() returns (s: bytes)
      requires Valid()
      ensures s == Contents()
    {
      s := data[..len];
    }
  }

  // ----- Header fields -----

  lemma {:induction false} FieldLinesSnoc(headers: seq<Header>, h: Header, name: bytes)
    ensures FieldLines(headers + [h], name) == FieldLines(headers, name) + (if h.name == name then [h.value] else [])
  {
    if headers == [] {
      assert headers + [h] == [h] && [h][1..] == [];
    } else {
      assert (headers + [h])[1..] == headers[1..] + [h];
      FieldLinesSnoc(headers[1..], h, name);
    }
  }

  lemma {:induction false} JoinSnoc(lines: seq<bytes>, v: bytes)
    ensures Join(lines + [v]) == if lines == [] then v else Join(lines) + COMMA_SPACE + v
  {
    if lines == [] {
      assert lines + [v] == [v];
    } else {
      assert (lines + [v])[1..] == lines[1..] + [v];
      JoinSnoc(lines[1..], v);
      if |lines| > 1 {
        assert lines[0] + COMMA_SPACE + (Join(lines[1..]) + COMMA_SPACE + v)
            == lines[0] + COMMA_SPACE + Join(lines[1..]) + COMMA_SPACE + v;
      }
    }
  }

  lemma {:induction false} JoinPrefix(lines: seq<bytes>, more: seq<bytes>)
    ensures |Join(lines)| <= |Join(lines + more)|
  {
    if more == [] {
      assert lines + more == lines;
    } else {
      var n := |more| - 1;
      assert lines + more == lines + more[..n] + [more[n]];
      JoinPrefix(lines, more[..n]);
      JoinSnoc(lines + more[..n], more[n]);
    }
  }

  lemma FieldTurn(headers: seq<Header>, i: nat, name: bytes)
    requires i < |headers|
    ensures FieldLines(headers[..i + 1], name) ==
            if headers[i].name == name then FieldLines(headers[..i], name) + [headers[i].value]
            else FieldLines(headers[..i], name)
  {
    assert headers[..i + 1] == headers[..i] + [headers[i]];
    FieldLinesSnoc(headers[..i], headers[i], name);
  }

  /** First pass sums the length, second pass copies; both walk every header. */
  method FieldText(headers: seq<Header>, name: bytes) returns (r: Option<bytes>)
    ensures r == FieldValue(headers, name)
  {
    hide FieldLines, Join;
    var count, len := 0, 0;
    NoLines(headers, name);
    for i := 0 to |headers|
      invariant count == |FieldLines(headers[..i], name)| && len == |Join(FieldLines(headers[..i], name))|
    {
      FieldTurn(headers, i, name);
      if headers[i].name == name {
        JoinSnoc(FieldLines(headers[..i], name), headers[i].value);
        if count > 0 {
          len := len + 2;
        }
        len := len + |headers[i].value|;
        count := count + 1;
      }
    }
    assert headers[..|headers|] == headers;
    if count == 0 {
      return None;
    }
    var text := CopyField(headers, name, len);
    r := Some(text);
  }

  lemma NoLines(headers: seq<Header>, name: bytes)
    ensures FieldLines(headers[..0], name) == [] && Join([]) == []
  {
  }

  method CopyField(headers: seq<Header>, name: bytes, len: nat) returns (text: bytes)
    requires len == |Join(FieldLines(headers, name))|
    ensures text == Join(FieldLines(headers, name))
  {
    hide FieldLines, Join;
    var buf := new Buffer(len);
    var count := 0;
    NoLines(headers, name);
    for i := 0 to |headers|
      invariant buf.Valid() && fresh(buf.data) && buf.data.Length == len
      invariant count == |FieldLines(headers[..i], name)| && buf.Contents() == Join(FieldLines(headers[..i], name))
    {
      FieldTurn(headers, i, name);
      if headers[i].name == name {
        ghost var before := FieldLines(headers[..i], name);
        JoinSnoc(before, headers[i].value);
        FieldLinesSplit(headers, i + 1, name);
        JoinPrefix(FieldLines(headers[..i + 1], name), FieldLines(headers[i + 1..], name));
        if count > 0 {
          var room := buf.Put(COMMA_SPACE);
        }
        var room := buf.Put(headers[i].value);
        count := count + 1;
      }
    }
    assert headers[..|headers|] == headers;
    text := buf.Snapshot();
  }

  lemma {:induction false} FieldLinesSplit(headers: seq<Header>, i: nat, name: bytes)
    requires i <= |headers|
    ensures FieldLines(headers, name) == FieldLines(headers[..i], name) + FieldLines(headers[i..], name)
  {
    if i > 0 {
      var t := headers[1..];
      FieldLinesSplit(t, i - 1, name);
      assert headers[..i][1..] == t[..i - 1] && headers[i..] == t[i - 1..];
    } else {
      assert headers[0..] == headers;
    }
  }

  // ----- Component values -----

  /** `scheme://authority/path?query` into a buffer of exactly that length. */
  method TargetUriText(req: Request) returns (uri: bytes)
    ensures uri == TargetUri(req)
  {
    hide TargetUri, Ascii;
    var path, sep := if req.path == [] then [SLASH] else req.path, Ascii("://");
    var tail := if req.hasQuery then 1 + |req.query| else 0;
    var buf := new Buffer(|req.scheme| + |sep| + |req.authority| + |path| + tail);
    PutWhole(buf, req.scheme);
    PutWhole(buf, sep);
    PutWhole(buf, req.authority);
    PutWhole(buf, path);
    if req.hasQuery {
      PutWhole(buf, [QUESTION]);
      PutWhole(buf, req.query);
    }
    uri := buf.Snapshot();
    PutTogether(req, path, sep);
  }

  lemma PutTogether(req: Request, path: bytes, sep: bytes)
    requires path == EffectivePath(req) && sep == Ascii("://")
    ensures var front := [] + req.scheme + sep + req.authority + path;
      TargetUri(req) == if req.hasQuery then front + [QUESTION] + req.query else front
  {
    hide Ascii;
    assert [] + req.scheme == req.scheme;
    assert req.scheme + sep + req.authority + path + [QUESTION] + req.query
        == req.scheme + sep + req.authority + path + ([QUESTION] + req.query);
  }

  /** An append into room already reserved. */
  method PutWhole(buf: Buffer, s: bytes)
    requires buf.Valid() && |buf.Contents()| + |s| <= buf.data.Length
    modifies buf, buf.data
    ensures buf.Valid() && buf.Contents() == old(buf.Contents()) + s
  {
    var ok := buf.Put(s);
  }

  method DerivedText(req: Request, name: bytes, params: seq<Param>) returns (r: Outcome)
    ensures r == Derived(req, name, params)
  {
    hide FormUrl.QueryParam, TargetUri, IndexOf;
    if name == Ascii("@query-param") {
      if !req.targetDefined {
        return Refused(UndefinedTarget);
      }
      var i := SfvReader.Reader.Find(params, Ascii("name"));
      if i == |params| || !params[i].value.String? {
        return Refused(UnknownComponent);
      }
      if |params| != 1 {
        return Refused(UnsupportedParam);
      }
      var v := FormUrl.FindQueryParam(req.query, params[i].value.text);
      return FromOption(v);
    }
    if !IsDerivedName(name) {
      return Refused(UnknownComponent);
    }
    if params != [] {
      return Refused(UnsupportedParam);
    }
    if NeedsTarget(name) && !req.targetDefined {
      return Refused(UndefinedTarget);
    }
    if name == Ascii("@target-uri") {
      var uri := TargetUriText(req);
      return Ok(uri);
    }
    return Ok(DerivedValue(req, name));
  }

  method AgentMemberText(req: Request, key: bytes) returns (r: Option<bytes>)
    ensures r == AgentMember(req, key)
  {
    hide ParseDictionary, WriteItem, WriteInnerList, FieldValue, IndexOf;
    var raw := FieldText(req.headers, SIGNATURE_AGENT);
    if raw.None? {
      return None;
    }
    var dict := SfvReader.ParseDictionaryText(raw.value);
    if dict.None? {
      return None;
    }
    SfvSoundness.DictionarySound(raw.value);
    var i := SfvReader.Reader.Find(dict.value.entries, key);
    if i == |dict.value.entries| {
      return None;
    }
    match dict.value.entries[i].value
    case ListMember(l) =>
      var text := SfvWriter.SerializeInnerList(l);
      r := Some(text);
    case ItemMember(x) =>
      var text := SfvWriter.SerializeItem(x);
      r := Some(text);
  }

  method HasUpper(name: bytes) returns (found: bool)
    ensures found == exists i :: 0 <= i < |name| && IsUpper(name[i])
  {
    for i := 0 to |name|
      invariant forall k :: 0 <= k < i ==> !IsUpper(name[k])
    {
      if IsUpper(name[i]) {
        return true;
      }
    }
    found := false;
  }

  method ComponentText(req: Request, item: Item) returns (r: Outcome)
    requires item.bare.String?
    ensures r == Component(req, item)
  {
    hide Derived, AgentMember, FieldValue;
    var name := item.bare.text;
    if name != [] && name[0] == AT {
      r := DerivedText(req, name, item.params);
      return;
    }
    var upper := HasUpper(name);
    if upper {
      return Refused(UnknownComponent);
    }
    var key := AgentKey(name, item.params);
    if key.Some? {
      var member := AgentMemberText(req, key.value);
      return FromOption(member);
    }
    if item.params != [] {
      return Refused(UnsupportedParam);
    }
    var value := FieldText(req.headers, name);
    r := FromOption(value);
  }

  // ----- The base -----

  method SeenBefore(ids: seq<bytes>, id: bytes) returns (seen: bool)
    ensures seen == exists j :: 0 <= j < |ids| && ids[j] == id
  {
    for j := 0 to |ids|
      invariant forall k :: 0 <= k < j ==> ids[k] != id
    {
      if ids[j] == id {
        return true;
      }
    }
    seen := false;
  }

  /** One line, in four appends; the first that does not fit ends the build. */
  method PutLine(buf: Buffer, id: bytes, value: bytes) returns (ok: bool)
    requires buf.Valid()
    modifies buf, buf.data
    ensures buf.Valid() && ok == (|old(buf.Contents())| + |Line(id, value)| <= buf.data.Length)
    ensures ok ==> buf.Contents() == old(buf.Contents()) + Line(id, value)
  {
    ok := buf.Put(id);
    if ok {
      ok := buf.Put(COLON_SPACE);
    }
    if ok {
      ok := buf.Put(value);
    }
    if ok {
      ok := buf.Put([LF]);
    }
  }

  /** One component: its label, its value, its line; or the reason to stop. */
  method AddComponent(req: Request, items: seq<Item>, i: nat, ids: seq<bytes>, buf: Buffer)
    returns (id: bytes, refusal: Option<Reason>)
    requires buf.Valid() && buf.data.Length == MAX_BASE_LENGTH
    requires i < |items| && |ids| == i && ValidItem(items[i])
    requires forall k :: 0 <= k < i ==> ids[k] == WriteItem(items[k])
    modifies buf, buf.data
    ensures buf.Valid()
    ensures refusal.Some? ==> BuildLines(req, items, i, old(buf.Contents())) == Refused(refusal.value)
    ensures refusal.None? ==> id == WriteItem(items[i])
    ensures refusal.None? ==>
      BuildLines(req, items, i, old(buf.Contents())) == BuildLines(req, items, i + 1, buf.Contents())
  {
    hide Component, Line, WriteItem, BuildLines;
    BuildTurn(req, items, i, buf.Contents());
    if !items[i].bare.String? {
      return [], Some(UnknownComponent);
    }
    id := SfvWriter.SerializeItem(items[i]);
    var seen := SeenBefore(ids, id);
    if seen {
      return id, Some(DuplicateComponent);
    }
    var value := ComponentText(req, items[i]);
    if value.Refused? {
      return id, Some(value.reason);
    }
    var ok := PutLine(buf, id, value.value);
    refusal := if ok then None else Some(TooLong);
  }

  /** The whole base, for any covered list the parser can return. */
  method BuildBase(req: Request, list: InnerList) returns (r: Outcome)
    requires ValidInnerList(list)
    ensures r == Build(req, list)
  {
    hide Component, Line, WriteItem, WriteInnerList, BuildLines, ValidItem;
    if |list.items| > MAX_ITEMS {
      return Refused(TooLong);
    }
    var buf := new Buffer(MAX_BASE_LENGTH);
    var ids: seq<bytes> := [];
    for i := 0 to |list.items|
      invariant buf.Valid() && fresh(buf.data) && buf.data.Length == MAX_BASE_LENGTH
      invariant |ids| == i && forall k :: 0 <= k < i ==> ids[k] == WriteItem(list.items[k])
      invariant BuildLines(req, list.items, 0, []) == BuildLines(req, list.items, i, buf.Contents())
    {
      var id, refusal := AddComponent(req, list.items, i, ids, buf);
      if refusal.Some? {
        return Refused(refusal.value);
      }
      ids := ids + [id];
    }
    BuildEnd(req, list.items, buf.Contents());
    r := CloseBase(buf, list);
  }

  method CloseBase(buf: Buffer, list: InnerList) returns (r: Outcome)
    requires buf.Valid() && buf.data.Length == MAX_BASE_LENGTH && ValidInnerList(list)
    modifies buf, buf.data
    ensures var out := old(buf.Contents()) + (PARAMS_LABEL + WriteInnerList(list));
      r == if |out| > MAX_BASE_LENGTH then Refused(TooLong) else Ok(out)
  {
    hide WriteInnerList;
    ghost var lines := buf.Contents();
    var params := SfvWriter.SerializeInnerList(list);
    assert lines + PARAMS_LABEL + params == lines + (PARAMS_LABEL + params);
    var ok := buf.Put(PARAMS_LABEL);
    if ok {
      ok := buf.Put(params);
    }
    if !ok {
      return Refused(TooLong);
    }
    var out := buf.Snapshot();
    r := Ok(out);
  }

  lemma BuildTurn(req: Request, items: seq<Item>, i: nat, buf: bytes)
    requires i < |items|
    ensures BuildLines(req, items, i, buf) ==
      if !items[i].bare.String? then Refused(UnknownComponent)
      else if Repeated(items, i) then Refused(DuplicateComponent)
      else
        var v := Component(req, items[i]);
        if v.Refused? then v
        else
          var next := buf + Line(WriteItem(items[i]), v.value);
          if |next| > MAX_BASE_LENGTH then Refused(TooLong) else BuildLines(req, items, i + 1, next)
  {
  }

  lemma BuildEnd(req: Request, items: seq<Item>, buf: bytes)
    ensures BuildLines(req, items, |items|, buf) == Ok(buf)
  {
  }
}
