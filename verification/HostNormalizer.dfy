/** Host normalization and the TLS name as they run: one pass over the bytes for each check. */
module HostNormalizer {
  import opened Bytes
  import opened DirectoryHost
  import HN = HostName

  method HasSchemeMark(s: bytes) returns (found: bool)
    ensures found <==> Contains(s, SCHEME_MARK)
  {
    var i := 0;
    while i + 3 <= |s|
      invariant 0 <= i && forall j :: 0 <= j < i && j <= |s| - 3 ==> s[j..][..3] != SCHEME_MARK
    {
      MarkAt(s, i);
      if s[i] == COLON && s[i + 1] == SLASH && s[i + 2] == SLASH {
        assert s[i..][..|SCHEME_MARK|] == SCHEME_MARK;
        return true;
      }
      i := i + 1;
    }
    return false;
  }

  lemma MarkAt(s: bytes, i: nat)
    requires i + 3 <= |s|
    ensures s[i..][..3] == SCHEME_MARK <==> s[i] == COLON && s[i + 1] == SLASH && s[i + 2] == SLASH
  {
    var t := s[i..][..3];
    assert t[0] == s[i] && t[1] == s[i + 1] && t[2] == s[i + 2];
  }

  method HasWildcard(s: bytes) returns (found: bool)
    ensures found <==> STAR in s
  {
    var i := 0;
    while i < |s|
      invariant i <= |s| && STAR !in s[..i]
    {
      if s[i] == STAR {
        return true;
      }
      assert s[..i + 1] == s[..i] + [s[i]];
      i := i + 1;
    }
    assert s[..i] == s;
    return false;
  }

  method CheckForm(s: bytes) returns (ok: bool)
    requires s != []
    ensures ok <==> WellFormed(s)
  {
    var i := 0;
    if s[0] == HN.LBRACKET {
      i := 1;
      while i < |s| && s[i] != HN.RBRACKET
        invariant 1 <= i <= |s| && forall j :: 1 <= j < i ==> HN.IsIpv6Char(s[j])
      {
        if !HN.IsIpv6Char(s[i]) {
          RunAt(s, i);
          return false;
        }
        i := i + 1;
      }
      RunAt(s, i);
      if i >= |s| || i == 1 {
        return false;
      }
      i := i + 1;
    }
    ghost var start := i;
    while i < |s|
      invariant start <= i <= |s| && forall j :: start <= j < i ==> HN.IsHostChar(s[j])
    {
      if !HN.IsHostChar(s[i]) {
        assert s[start..][i - start] == s[i];
        return false;
      }
      i := i + 1;
    }
    return true;
  }

  /** Where the run of address characters after the bracket stops. */
  lemma RunAt(s: bytes, i: nat)
    requires s != [] && 1 <= i <= |s| && (forall j :: 1 <= j < i ==> HN.IsIpv6Char(s[j]))
    requires i < |s| ==> !HN.IsIpv6Char(s[i])
    ensures Ipv6Run(s[1..]) == i - 1
  {
    var t := s[1..];
    assert forall j :: 0 <= j < i - 1 ==> t[j] == s[j + 1];
    if i < |s| {
      assert t[i - 1] == s[i];
      RunStops(t, i - 1);
    }
  }

  method CopyLower(s: bytes) returns (r: bytes)
    ensures r == Lower(s)
  {
    var out := new byte[|s|];
    var i := 0;
    while i < |s|
      invariant i <= |s| && forall j :: 0 <= j < i ==> out[j] == ToLower(s[j])
    {
      out[i] := ToLower(s[i]);
      i := i + 1;
    }
    r := out[..];
  }

  method Normalize(s: bytes) returns (r: Normalized)
    ensures r == NormalizeHost(s)
  {
    if s == [] {
      return Rejected(Empty);
    }
    var scheme := HasSchemeMark(s);
    if scheme {
      return Rejected(HasScheme);
    }
    var star := HasWildcard(s);
    if star {
      return Rejected(Wildcard);
    }
    var ok := CheckForm(s);
    if !ok {
      return Rejected(InvalidChar);
    }
    var out := CopyLower(s);
    if |out| > 4 && out[|out| - 4..] == HN.DEFAULT_PORT {
      out := out[..|out| - 4];
    }
    return Host(out);
  }

  method IsPortSuffix(p: bytes) returns (ok: bool)
    ensures ok <==> HN.PortSuffix(p)
  {
    if |p| < 2 || p[0] != COLON {
      return false;
    }
    var i := 1;
    while i < |p|
      invariant 1 <= i <= |p| && forall j :: 0 < j < i ==> IsDigit(p[j])
    {
      if !IsDigit(p[i]) {
        return false;
      }
      i := i + 1;
    }
    return true;
  }

  method TlsName(host: bytes) returns (r: bytes)
    ensures r == Hostname(host)
  {
    if host == [] {
      return host;
    }
    var i := 0;
    if host[0] == HN.LBRACKET {
      i := 1;
      while i < |host| && host[i] != HN.RBRACKET
        invariant 1 <= i <= |host| && forall j :: 0 <= j < i ==> host[j] != HN.RBRACKET
      {
        i := i + 1;
      }
      if i == |host| {
        return host;
      }
      AfterBracketFirst(host, i);
      i := i + 1;
      var port := IsPortSuffix(host[i..]);
      if i == |host| || port {
        assert i == |host| ==> host[..i] == host;
        return host[..i];
      }
      return host;
    }
    while i < |host|
      invariant i <= |host| && forall j :: 0 <= j < i ==> host[j] != COLON
    {
      if host[i] == COLON {
        var port := IsPortSuffix(host[i..]);
        return if port then host[..i] else host;
      }
      i := i + 1;
    }
    return host;
  }
}
