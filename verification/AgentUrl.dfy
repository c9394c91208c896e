/**
 * The URL and host an agent names in Signature-Agent: a dictionary member for the selected
 * label, else the first usable member, string or raw line, over all lines of the field.
 */
module AgentUrl {
  import opened Bytes
  import opened HostName
  import opened ProfileCheck
  import opened Sfv
  import opened SfvReader
  import DirectoryHost

  predicate TypeOk(ps: seq<Param>) {
    var t := Get(ps, Ascii("type"));
    t.None? || t.value == Token(Ascii("directory"))
  }

  predicate Usable(m: Member) { m.ItemMember? && m.item.bare.String? && TypeOk(m.item.params) }

  /** The first usable member, under the given key when there is one. */
  function FirstUsable(entries: seq<Entry>, key: Option<bytes>): Option<bytes> {
    if entries == [] then None
    else if Usable(entries[0].value) && (key.None? || entries[0].key == key.value) then
      Some(entries[0].value.item.bare.text)
    else FirstUsable(entries[1..], key)
  }

  predicate Skipped(line: bytes) { line == [] || |line| > MAX_LENGTH }

  /** What a line offers for the label. */
  function LineMatch(line: bytes, member: bytes): Option<bytes> {
    if Skipped(line) || member == [] || ParseDictionary(line).None? then None
    else FirstUsable(ParseDictionary(line).value.entries, Some(member))
  }

  /** What a line offers otherwise: a dictionary is never read as anything else. */
  function LineFallback(line: bytes): Option<bytes> {
    if Skipped(line) then None
    else if ParseDictionary(line).Some? then FirstUsable(ParseDictionary(line).value.entries, None)
    else if ParseItem(line).Some? && ParseItem(line).value.bare.String? then Some(ParseItem(line).value.bare.text)
    else Some(line)
  }

  function FirstMatch(lines: seq<bytes>, member: bytes): Option<bytes> {
    if lines == [] then None
    else if LineMatch(lines[0], member).Some? then LineMatch(lines[0], member)
    else FirstMatch(lines[1..], member)
  }

  function FirstFallback(lines: seq<bytes>): Option<bytes> {
    if lines == [] then None
    else if LineFallback(lines[0]).Some? then LineFallback(lines[0])
    else FirstFallback(lines[1..])
  }

  /** A match on any line comes before a fallback on every line. */
  function UrlOf(lines: seq<bytes>, member: bytes): Option<bytes> {
    if FirstMatch(lines, member).Some? then FirstMatch(lines, member) else FirstFallback(lines)
  }

  ghost function BoundsOf(url: bytes): Option<Bounds> {
    if exists b :: IsBounds(url, b) then
      var b :| IsBounds(url, b);
      Some(b)
    else None
  }

  /** The lower-cased host of the agent's URL; empty when it names none. */
  ghost function AgentHost(lines: seq<bytes>, member: bytes): bytes {
    var url := UrlOf(lines, member);
    if url.None? || BoundsOf(url.value).None? then []
    else
      var b := BoundsOf(url.value).value;
      Lower(b.authority)[..b.host]
  }

  /** An agent host holds no NUL, and is the TLS name of the directory its keys come from. */
  lemma AgentHostIsServerName(lines: seq<bytes>, member: bytes)
    ensures 0 !in AgentHost(lines, member)
    ensures var url := UrlOf(lines, member);
      url.Some? && BoundsOf(url.value).Some? ==>
        var n := DirectoryHost.NormalizeHost(Lower(BoundsOf(url.value).value.authority));
        n.Host? && DirectoryHost.Hostname(n.name) == AgentHost(lines, member)
  {
    hide UrlOf, Authority, DirectoryHost.NormalizeHost, DirectoryHost.Hostname;
    var url := UrlOf(lines, member);
    if url.Some? && BoundsOf(url.value).Some? {
      var b := BoundsOf(url.value).value;
      DirectoryHost.Pipeline(url.value, b);
      DirectoryHost.LowerAuthority(b.authority, b.host);
      forall i: nat | i < |b.authority|
        ensures Lower(b.authority)[i] != 0
      {
        DirectoryHost.AuthorityBytes(Lower(b.authority), b.host, i);
      }
    }
  }

  // ----- As it runs -----

  method IsTypeOk(ps: seq<Param>) returns (ok: bool)
    ensures ok == TypeOk(ps)
  {
    var t := ProfileCheck.Param(ps, Ascii("type"));
    if t.None? {
      return true;
    }
    return t.value.Token? && t.value.name == Ascii("directory");
  }

  function Or(a: Option<bytes>, b: Option<bytes>): Option<bytes> { if a.Some? then a else b }

  /** Scans one dictionary for both; what an earlier line found stays. */
  method ScanEntries(entries: seq<Entry>, member: bytes, m0: Option<bytes>, f0: Option<bytes>)
    returns (found: Option<bytes>, fallback: Option<bytes>)
    ensures found == Or(m0, if member == [] then None else FirstUsable(entries, Some(member)))
    ensures fallback == Or(f0, FirstUsable(entries, None))
  {
    hide Usable;
    found, fallback := m0, f0;
    var i := 0;
    assert entries[0..] == entries;
    while i < |entries|
      invariant i <= |entries|
      invariant Or(found, if member == [] then None else FirstUsable(entries[i..], Some(member)))
             == Or(m0, if member == [] then None else FirstUsable(entries, Some(member)))
      invariant Or(fallback, FirstUsable(entries[i..], None)) == Or(f0, FirstUsable(entries, None))
    {
      var e := entries[i];
      var usable := IsUsable(e.value);
      assert entries[i..][1..] == entries[i + 1..];
      if usable {
        UsableText(e.value);
        if fallback.None? {
          fallback := Some(e.value.item.bare.text);
        }
        if found.None? && member != [] && e.key == member {
          found := Some(e.value.item.bare.text);
        }
      }
      i := i + 1;
    }
  }

  lemma UsableText(m: Member)
    requires Usable(m)
    ensures m.ItemMember? && m.item.bare.String?
  {
  }

  method IsUsable(m: Member) returns (usable: bool)
    ensures usable == Usable(m)
  {
    if !m.ItemMember? || !m.item.bare.String? {
      return false;
    }
    usable := IsTypeOk(m.item.params);
  }

  /** Tries every line as a dictionary, then a string, then raw; a match for the label ends it. */
  method FindUrl(lines: seq<bytes>, member: bytes) returns (r: Option<bytes>)
    ensures r == UrlOf(lines, member)
  {
    hide ParseDictionary, ParseItem, FirstUsable, LineMatch, LineFallback;
    var found, fallback := None, None;
    var i := 0;
    assert lines[0..] == lines;
    while i < |lines|
      invariant i <= |lines| && found == None
      invariant FirstMatch(lines[i..], member) == FirstMatch(lines, member)
      invariant Or(fallback, FirstFallback(lines[i..])) == FirstFallback(lines)
    {
      assert lines[i..][1..] == lines[i + 1..];
      found, fallback := ScanLine(lines[i], member, fallback);
      if found.Some? {
        break;
      }
      i := i + 1;
    }
    r := if found.Some? then found else fallback;
  }

  method ScanLine(line: bytes, member: bytes, f0: Option<bytes>) returns (found: Option<bytes>, fallback: Option<bytes>)
    ensures found == LineMatch(line, member) && fallback == Or(f0, LineFallback(line))
  {
    hide ParseDictionary, ParseItem, FirstUsable;
    found, fallback := None, f0;
    if line == [] || |line| > MAX_LENGTH {
      return;
    }
    var dict := ParseDictionaryText(line);
    if dict.Some? {
      found, fallback := ScanEntries(dict.value.entries, member, found, fallback);
      return;
    }
    var item := ParseItemText(line);
    if item.Some? && item.value.bare.String? {
      if fallback.None? {
        fallback := Some(item.value.bare.text);
      }
      return;
    }
    if fallback.None? {
      fallback := Some(line);
    }
  }

  method FindHost(lines: seq<bytes>, member: bytes) returns (host: bytes)
    ensures host == AgentHost(lines, member)
  {
    hide UrlOf, IsBounds;
    var url := FindUrl(lines, member);
    if url.None? {
      return [];
    }
    var b := FindBounds(url.value);
    if b.None? {
      return [];
    }
    ghost var c := BoundsOf(url.value);
    BoundsUnique(url.value, b.value, c.value);
    BoundsInside(url.value, b.value);
    host := Lower(b.value.authority[..b.value.host]);
    assert host == Lower(b.value.authority)[..b.value.host];
  }

  lemma BoundsInside(url: bytes, b: Bounds)
    requires IsBounds(url, b)
    ensures b.host <= |b.authority|
  {
  }
}
