/**
 * From an agent's URL to the host its keys are fetched from: the authority is cut out of the
 * URL, normalized for the allow-list, and stripped of its port for the TLS server name.
 */
module HostName {
  import opened Bytes

  const HTTPS := Ascii("https://")
  const DEFAULT_PORT := Ascii(":443")
  const LBRACKET: byte := 0x5B
  const RBRACKET: byte := 0x5D
  const HASH: byte := 0x23

  predicate IsNameChar(c: byte) { IsAlpha(c) || IsDigit(c) || c == MINUS || c == DOT }

  predicate IsIpv6Char(c: byte) { IsDigit(c) || 0x61 <= c <= 0x66 || 0x41 <= c <= 0x46 || c == COLON }

  predicate IsHostChar(c: byte) { IsNameChar(c) || c == COLON }

  predicate EndsAuthority(c: byte) { c == SLASH || c == QUESTION || c == HASH }

  // ----- What a host and an authority are -----

  predicate Bracketed(x: bytes) {
    |x| >= 3 && x[0] == LBRACKET && x[|x| - 1] == RBRACKET && forall i :: 0 < i < |x| - 1 ==> IsIpv6Char(x[i])
  }

  predicate Name(x: bytes) { x != [] && forall i :: 0 <= i < |x| ==> IsNameChar(x[i]) }

  predicate Host(x: bytes) { Bracketed(x) || Name(x) }

  predicate PortSuffix(x: bytes) { |x| >= 2 && x[0] == COLON && forall i :: 0 < i < |x| ==> IsDigit(x[i]) }

  /** A host of `h` bytes, then nothing or a port. */
  predicate Authority(a: bytes, h: nat) { h <= |a| && Host(a[..h]) && (a[h..] == [] || PortSuffix(a[h..])) }

  // ----- Cutting the authority out of a URL -----

  function AuthorityEnd(s: bytes): (n: nat)
    ensures n <= |s| && (n < |s| ==> EndsAuthority(s[n])) && forall i :: 0 <= i < n ==> !EndsAuthority(s[i])
  {
    if s == [] || EndsAuthority(s[0]) then 0 else 1 + AuthorityEnd(s[1..])
  }

  /** What follows the last `@`, or everything when there is none. */
  function AfterUserinfo(s: bytes): (r: bytes)
    ensures AT !in r
  {
    if AT !in s then s else AfterUserinfo(s[1..])
  }

  function AuthorityOf(url: bytes): bytes
    requires |url| >= 8
  {
    AfterUserinfo(url[8..][..AuthorityEnd(url[8..])])
  }

  predicate IsHttps(url: bytes) { |url| >= 8 && Lower(url[..8]) == HTTPS }

  /** The authority of an https URL, with the length of its host. */
  datatype Bounds = Bounds(authority: bytes, host: nat)

  ghost predicate IsBounds(url: bytes, b: Bounds) {
    IsHttps(url) && b.authority == AuthorityOf(url) && Authority(b.authority, b.host)
  }

  /** The same by position in the authority. */
  lemma HostChars(a: bytes, h: nat)
    requires Authority(a, h)
    ensures 0 < h <= |a| && a[..h][0] == a[0]
    ensures a[0] == LBRACKET ==> h >= 3 && a[h - 1] == RBRACKET && forall i :: 0 < i < h - 1 ==> IsIpv6Char(a[i])
    ensures a[0] != LBRACKET ==> forall i :: 0 <= i < h ==> IsNameChar(a[i])
    ensures h < |a| ==> a[h] == COLON && h + 1 < |a| && forall i :: h < i < |a| ==> IsDigit(a[i])
  {
    var x, y := a[..h], a[h..];
    assert forall i :: 0 <= i < h ==> x[i] == a[i];
    assert forall i :: h <= i < |a| ==> a[i] == y[i - h];
  }

  /** A host ends at one place only. */
  lemma HostUnique(a: bytes, h: nat, k: nat)
    requires Authority(a, h) && Authority(a, k)
    ensures h == k
  {
    var x, y := a[..h], a[..k];
    assert x[0] == a[0] == y[0];
    if a[0] == LBRACKET {
      BracketEnds(a, h, k);
      BracketEnds(a, k, h);
    } else {
      NameEnds(a, h, k);
      NameEnds(a, k, h);
    }
  }

  lemma BracketEnds(a: bytes, h: nat, k: nat)
    requires h <= |a| && k <= |a| && Bracketed(a[..h]) && Bracketed(a[..k])
    ensures h <= k
  {
    assert a[..k][k - 1] == a[k - 1];
    assert forall i :: 0 < i < h - 1 ==> a[..h][i] == a[i];
  }

  lemma NameEnds(a: bytes, h: nat, k: nat)
    requires Authority(a, h) && Authority(a, k) && Name(a[..h]) && Name(a[..k])
    ensures h <= k
  {
    HostChars(a, h);
    HostChars(a, k);
  }

  lemma BoundsUnique(url: bytes, b: Bounds, c: Bounds)
    requires IsBounds(url, b) && IsBounds(url, c)
    ensures b == c
  {
    HostUnique(b.authority, b.host, c.host);
  }

  // ----- As it runs -----

  method FindAuthorityEnd(s: bytes) returns (n: nat)
    ensures n == AuthorityEnd(s)
  {
    n := 0;
    assert s[0..] == s;
    while n < |s| && !EndsAuthority(s[n])
      invariant n <= |s| && n + AuthorityEnd(s[n..]) == AuthorityEnd(s)
    {
      assert s[n..][1..] == s[n + 1..];
      n := n + 1;
    }
  }

  /** Looks for the last `@` from the end. */
  method SkipUserinfo(s: bytes) returns (r: bytes)
    ensures r == AfterUserinfo(s)
  {
    var p := |s|;
    while p > 0 && s[p - 1] != AT
      invariant 0 <= p <= |s| && AT !in s[p..]
    {
      assert s[p - 1..] == [s[p - 1]] + s[p..];
      p := p - 1;
    }
    r := s[p..];
    if p > 0 {
      LastAt(s, p - 1);
    } else {
      assert s[0..] == s;
    }
  }

  lemma {:induction false} LastAt(s: bytes, i: nat)
    requires i < |s| && s[i] == AT && AT !in s[i + 1..]
    ensures AfterUserinfo(s) == s[i + 1..]
  {
    if i > 0 {
      assert s[1..][i - 1] == AT && s[1..][i..] == s[i + 1..];
      LastAt(s[1..], i - 1);
    } else {
      assert s[0] in s;
    }
  }

  /** Length of the host at the front of an authority. */
  method ScanHost(a: bytes) returns (r: Option<nat>)
    requires a != []
    ensures r.Some? ==>
      r.value <= |a| && Host(a[..r.value]) && (a[0] != LBRACKET ==> r.value == |a| || a[r.value] == COLON)
    ensures r.None? ==> forall h :: !Authority(a, h)
  {
    var p := 0;
    if a[0] == LBRACKET {
      p := 1;
      while p < |a| && a[p] != RBRACKET
        invariant 1 <= p <= |a| && forall i :: 1 <= i < p ==> IsIpv6Char(a[i])
      {
        if !IsIpv6Char(a[p]) {
          NotBracketed(a, p);
          return None;
        }
        p := p + 1;
      }
      if p >= |a| || p == 1 {
        NotBracketed(a, p);
        return None;
      }
      return Some(p + 1);
    }
    while p < |a| && a[p] != COLON
      invariant p <= |a| && forall i :: 0 <= i < p ==> IsNameChar(a[i])
    {
      if !IsNameChar(a[p]) {
        NotNamed(a, p);
        return None;
      }
      p := p + 1;
    }
    if p == 0 {
      NotNamed(a, p);
      return None;
    }
    return Some(p);
  }

  /** No host where the brackets close too soon, too late or around something else. */
  lemma NotBracketed(a: bytes, p: nat)
    requires a != [] && a[0] == LBRACKET && 1 <= p <= |a| && forall i :: 1 <= i < p ==> IsIpv6Char(a[i])
    requires p < |a| ==> !IsIpv6Char(a[p]) && (a[p] == RBRACKET ==> p == 1)
    ensures forall h :: !Authority(a, h)
  {
    forall h: nat | Authority(a, h)
      ensures false
    {
      HostChars(a, h);
    }
  }

  lemma NotNamed(a: bytes, p: nat)
    requires p < |a| && a[0] != LBRACKET && !IsNameChar(a[p]) && (a[p] == COLON ==> p == 0)
    requires forall i :: 0 <= i < p ==> IsNameChar(a[i])
    ensures forall h :: !Authority(a, h)
  {
    forall h: nat | Authority(a, h)
      ensures false
    {
      HostChars(a, h);
    }
  }

  method FindBounds(url: bytes) returns (r: Option<Bounds>)
    ensures r.Some? ==> IsBounds(url, r.value)
    ensures r.None? ==> forall b :: !IsBounds(url, b)
  {
    if |url| < 8 || Lower(url[..8]) != HTTPS {
      return None;
    }
    var n := FindAuthorityEnd(url[8..]);
    var a := SkipUserinfo(url[8..][..n]);
    if a == [] {
      return None;
    }
    var h := ScanHost(a);
    if h.None? {
      return None;
    }
    var stop := h.value;
    if stop < |a| {
      if a[stop] != COLON || stop + 1 == |a| {
        NoPort(a, stop, stop);
        return None;
      }
      var p := stop + 1;
      while p < |a|
        invariant stop < p <= |a| && forall i :: stop < i < p ==> IsDigit(a[i])
      {
        if !IsDigit(a[p]) {
          NoPort(a, stop, p);
          return None;
        }
        p := p + 1;
      }
      assert PortSuffix(a[stop..]);
    }
    return Some(Bounds(a, stop));
  }

  /** With its host known, an authority whose rest is not a port is none. */
  lemma NoPort(a: bytes, h: nat, p: nat)
    requires a != [] && h <= p < |a| && Host(a[..h]) && (a[0] != LBRACKET ==> a[h] == COLON)
    requires if p == h then a[h] != COLON || h + 1 == |a| else !IsDigit(a[p])
    ensures forall k :: !Authority(a, k)
  {
    forall k: nat | Authority(a, k)
      ensures false
    {
      HostChars(a, k);
      HostOnly(a, h);
    }
  }

  lemma HostOnly(a: bytes, h: nat)
    requires h <= |a| && Host(a[..h])
    ensures 0 < h && a[..h][0] == a[0]
    ensures a[0] == LBRACKET ==> h >= 3 && a[h - 1] == RBRACKET && forall i :: 0 < i < h - 1 ==> IsIpv6Char(a[i])
    ensures a[0] != LBRACKET ==> forall i :: 0 <= i < h ==> IsNameChar(a[i])
  {
    assert forall i :: 0 <= i < h ==> a[..h][i] == a[i];
  }
}
