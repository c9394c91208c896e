/** Hosts, authorities and URLs written out: which texts are accepted, and what is made of them. */
module HostMeaning {
  import opened Bytes
  import opened DirectoryHost
  import opened HostName

  const HTTPS_MARK := Ascii("https://")
  const PORT_443 := Ascii(":443")
  const MARK := Ascii("://")

  /** Lower case changes the capital letters, each to its small one, and nothing else. */
  lemma LowerExactly(s: bytes, i: nat)
    requires i < |s|
    ensures |Lower(s)| == |s| && Lower(s)[i] == if 0x41 <= s[i] <= 0x5A then s[i] + 0x20 else s[i]
  {
  }

  // ----- Hosts -----

  /** The letters, digits, hyphens and dots of a name. */
  predicate NameByte(c: byte) {
    0x30 <= c <= 0x39 || 0x41 <= c <= 0x5A || 0x61 <= c <= 0x7A || c == 0x2D || c == 0x2E
  }

  /** The hexadecimal digits and colons of a bracketed address. */
  predicate AddressByte(c: byte) { 0x30 <= c <= 0x3A || 0x41 <= c <= 0x46 || 0x61 <= c <= 0x66 }

  ghost predicate NameText(x: bytes) { x != [] && forall i :: 0 <= i < |x| ==> NameByte(x[i]) }

  ghost predicate AddressText(x: bytes) {
    exists a: bytes :: a != [] && x == [0x5B] + a + [0x5D] && forall i :: 0 <= i < |a| ==> AddressByte(a[i])
  }

  /** Nothing, or a colon and digits. */
  ghost predicate PortText(x: bytes) {
    x == [] || exists d: bytes :: d != [] && x == [0x3A] + d && forall i :: 0 <= i < |d| ==> 0x30 <= d[i] <= 0x39
  }

  lemma ByteClasses(c: byte)
    ensures NameByte(c) == IsNameChar(c) && AddressByte(c) == IsIpv6Char(c)
  {
  }

  lemma NameIs(x: bytes)
    ensures Name(x) <==> NameText(x)
  {
    hide NameByte, IsNameChar;
    forall c
      ensures NameByte(c) == IsNameChar(c)
    {
      ByteClasses(c);
    }
  }

  lemma BracketRead(x: bytes)
    requires Bracketed(x)
    ensures AddressText(x)
  {
    hide AddressByte, IsIpv6Char;
    var a := x[1..|x| - 1];
    assert x == [0x5B] + a + [0x5D];
    forall i | 0 <= i < |a|
      ensures AddressByte(a[i])
    {
      assert a[i] == x[i + 1];
      ByteClasses(a[i]);
    }
  }

  lemma BracketAccepted(a: bytes)
    requires a != [] && forall i :: 0 <= i < |a| ==> AddressByte(a[i])
    ensures Bracketed([0x5B] + a + [0x5D])
  {
    hide AddressByte, IsIpv6Char;
    var x := [0x5B] + a + [0x5D];
    forall i | 0 < i < |x| - 1
      ensures IsIpv6Char(x[i])
    {
      assert x[i] == a[i - 1];
      ByteClasses(x[i]);
    }
  }

  lemma HostIs(x: bytes)
    ensures HostName.Host(x) <==> NameText(x) || AddressText(x)
  {
    hide Name, NameText, Bracketed, AddressByte;
    NameIs(x);
    if Bracketed(x) { BracketRead(x); }
    forall a: bytes | a != [] && x == [0x5B] + a + [0x5D] && forall i :: 0 <= i < |a| ==> AddressByte(a[i])
      ensures Bracketed(x)
    {
      BracketAccepted(a);
    }
  }

  lemma PortIs(x: bytes)
    ensures x == [] || PortSuffix(x) <==> PortText(x)
  {
    if x != [] {
      assert x == [x[0]] + x[1..];
      if PortSuffix(x) {
        assert forall i :: 0 <= i < |x| - 1 ==> x[1..][i] == x[i + 1];
      }
      forall d: bytes | d != [] && x == [0x3A] + d && forall i :: 0 <= i < |d| ==> 0x30 <= d[i] <= 0x39
        ensures PortSuffix(x)
      {
        assert forall i :: 0 < i < |x| ==> x[i] == d[i - 1];
      }
    }
  }

  /** An authority is a name or a bracketed address, and a port or none. */
  lemma AuthorityIs(a: bytes, h: nat)
    ensures Authority(a, h) <==> h <= |a| && (NameText(a[..h]) || AddressText(a[..h])) && PortText(a[h..])
  {
    hide NameText, AddressText, PortText, HostName.Host, PortSuffix;
    if h <= |a| {
      HostIs(a[..h]);
      PortIs(a[h..]);
    }
  }

  // ----- URLs -----

  predicate EndByte(c: byte) { c == 0x2F || c == 0x3F || c == 0x23 }

  /**
   * `https://` in any case, user information up to its at sign or none, the authority, and what a
   * slash, question or number sign begins.
   */
  predicate IsUrl(url: bytes, authority: bytes, p: bytes, u: bytes, t: bytes) {
    && Lower(p) == HTTPS_MARK && url == p + (u + (authority + t))
    && (u == [] || u[|u| - 1] == 0x40) && 0x40 !in authority
    && (forall i :: 0 <= i < |u| ==> !EndByte(u[i])) && (forall i :: 0 <= i < |authority| ==> !EndByte(authority[i]))
    && (t == [] || EndByte(t[0]))
  }

  lemma {:induction false} AfterLastAt(u: bytes, a: bytes)
    requires (u == [] || u[|u| - 1] == 0x40) && 0x40 !in a
    ensures AfterUserinfo(u + a) == a
  {
    if u == [] {
      assert u + a == a;
    } else {
      assert AT in u + a by { assert (u + a)[|u| - 1] == AT; }
      assert (u + a)[1..] == u[1..] + a;
      AfterLastAt(u[1..], a);
    }
  }

  lemma {:induction false} BeforeAuthority(s: bytes) returns (u: bytes)
    ensures s == u + AfterUserinfo(s) && (u == [] || u[|u| - 1] == 0x40)
  {
    u := [];
    if AT in s {
      var v := BeforeAuthority(s[1..]);
      u := [s[0]] + v;
      if v == [] {
        assert s[1..] == AfterUserinfo(s[1..]);
        assert s == [s[0]] + s[1..];
      }
    }
  }

  lemma EndsAt(s: bytes, t: bytes)
    requires (forall i :: 0 <= i < |s| ==> !EndByte(s[i])) && (t == [] || EndByte(t[0]))
    ensures AuthorityEnd(s + t) == |s| && (s + t)[..|s|] == s
  {
    var n := AuthorityEnd(s + t);
    assert forall i :: 0 <= i < |s| ==> (s + t)[i] == s[i];
    assert t != [] ==> (s + t)[|s|] == t[0];
  }

  lemma UrlAccepted(url: bytes, authority: bytes, p: bytes, u: bytes, t: bytes)
    requires IsUrl(url, authority, p, u, t)
    ensures |url| >= 8 && IsHttps(url) && AuthorityOf(url) == authority
  {
    hide AuthorityEnd, AfterUserinfo, Lower, EndByte;
    MarkLength();
    LowerLength(p);
    var rest := u + authority;
    assert url == p + (rest + t);
    assert url[..8] == p && url[8..] == rest + t;
    forall i | 0 <= i < |rest|
      ensures !EndByte(rest[i])
    {
      assert rest[i] == if i < |u| then u[i] else authority[i - |u|];
    }
    EndsAt(rest, t);
    AfterLastAt(u, authority);
  }

  lemma UrlRead(url: bytes) returns (u: bytes, t: bytes)
    requires IsHttps(url)
    ensures IsUrl(url, AuthorityOf(url), url[..8], u, t)
  {
    hide AuthorityEnd, AfterUserinfo, Lower;
    MarkLength();
    var n := AuthorityEnd(url[8..]);
    var rest := url[8..][..n];
    t := url[8..][n..];
    u := BeforeAuthority(rest);
    PartsQuiet(rest, u, AuthorityOf(url));
    assert url[8..] == rest + t && url == url[..8] + url[8..];
    assert rest + t == u + (AuthorityOf(url) + t);
  }

  lemma PartsQuiet(rest: bytes, u: bytes, a: bytes)
    requires rest == u + a && forall i :: 0 <= i < |rest| ==> !EndsAuthority(rest[i])
    ensures (forall i :: 0 <= i < |u| ==> !EndByte(u[i])) && forall i :: 0 <= i < |a| ==> !EndByte(a[i])
  {
    assert forall i :: 0 <= i < |u| ==> u[i] == rest[i];
    assert forall i :: 0 <= i < |a| ==> a[i] == rest[|u| + i];
  }

  /** The authority of a URL is what its parts say. */
  lemma UrlIs(url: bytes, authority: bytes)
    ensures IsHttps(url) && AuthorityOf(url) == authority <==> exists p, u, t :: IsUrl(url, authority, p, u, t)
  {
    hide IsHttps, AuthorityOf, IsUrl;
    forall p, u, t | IsUrl(url, authority, p, u, t)
      ensures |url| >= 8 && IsHttps(url) && AuthorityOf(url) == authority
    {
      UrlAccepted(url, authority, p, u, t);
    }
    if |url| < 8 {
      Short(url);
    } else if IsHttps(url) && AuthorityOf(url) == authority {
      var u, t := UrlRead(url);
    }
  }

  lemma MarkLength()
    ensures |HTTPS_MARK| == 8 && HTTPS_MARK == HTTPS
  {
  }

  lemma LowerLength(p: bytes)
    ensures |Lower(p)| == |p|
  {
  }

  /** The bounds found are those of a URL with such an authority, and no other. */
  lemma BoundsExactly(url: bytes, b: Bounds)
    ensures IsBounds(url, b) <==>
      && (exists p, u, t :: IsUrl(url, b.authority, p, u, t))
      && b.host <= |b.authority| && (NameText(b.authority[..b.host]) || AddressText(b.authority[..b.host]))
      && PortText(b.authority[b.host..])
  {
    hide NameText, AddressText, PortText, Authority, IsHttps, AuthorityOf, IsUrl;
    UrlIs(url, b.authority);
    AuthorityIs(b.authority, b.host);
    if |url| < 8 {
      assert !IsHttps(url) by { Short(url); }
    }
  }

  lemma Short(url: bytes)
    requires |url| < 8
    ensures !IsHttps(url)
  {
  }

  // ----- Normalized hosts -----

  /** An address first or none, and then letters, digits, hyphens, dots and colons only. */
  ghost predicate HostText(s: bytes) {
    exists a, r :: IsHostText(s, a, r)
  }

  /** An address first or none, and the bytes that may follow it. */
  ghost predicate IsHostText(s: bytes, a: bytes, r: bytes) {
    s == a + r && (a == [] || AddressText(a)) && forall i :: 0 <= i < |r| ==> NameByte(r[i]) || r[i] == 0x3A
  }

  lemma WellFormedIs(s: bytes)
    requires s != []
    ensures WellFormed(s) <==> HostText(s)
  {
    hide WellFormed, IsHostText;
    forall a, r | IsHostText(s, a, r)
      ensures WellFormed(s)
    {
      TextWellFormed(s, a, r);
    }
    if WellFormed(s) {
      var a, r := WellFormedText(s);
    }
  }

  lemma TextWellFormed(s: bytes, a: bytes, r: bytes)
    requires s != [] && IsHostText(s, a, r)
    ensures WellFormed(s)
  {
    hide AddressText, BracketLength;
    if a == [] {
      assert s == r;
    } else {
      LengthOf(a, r);
      assert (a + r)[|a|..] == r;
    }
  }

  lemma WellFormedText(s: bytes) returns (a: bytes, r: bytes)
    requires s != [] && WellFormed(s)
    ensures IsHostText(s, a, r)
  {
    hide BracketLength, AddressText, NameText, Bracketed;
    a, r := [], s;
    if s[0] == LBRACKET {
      var n := BracketLength(s).value;
      a, r := s[..n], s[n..];
      assert s == a + r;
      FrontIsAddress(s, n);
    } else {
      assert s == [] + s;
    }
  }

  lemma FrontIsAddress(s: bytes, n: nat)
    requires s != [] && s[0] == LBRACKET && n <= |s| && Bracketed(s[..n])
    ensures AddressText(s[..n])
  {
    hide AddressText;
    HostIs(s[..n]);
    NotName(s[..n]);
  }

  lemma NotName(x: bytes)
    requires x != [] && x[0] == LBRACKET
    ensures !NameText(x)
  {
    assert !NameByte(x[0]);
  }

  lemma AddressParts(a: bytes) returns (x: bytes)
    requires AddressText(a)
    ensures x != [] && a == [0x5B] + x + [0x5D] && forall i :: 0 <= i < |x| ==> AddressByte(x[i])
  {
    x :| x != [] && a == [0x5B] + x + [0x5D] && forall i :: 0 <= i < |x| ==> AddressByte(x[i]);
  }

  lemma LengthOf(a: bytes, r: bytes)
    requires AddressText(a)
    ensures a + r != [] && (a + r)[0] == LBRACKET && BracketLength(a + r) == Some(|a|)
  {
    hide AddressText;
    var x := AddressParts(a);
    var s := a + r;
    assert s == [0x5B] + (x + ([0x5D] + r));
    RunOfAddress(x, [0x5D] + r);
    FoundLength(s, x, r);
  }

  lemma FoundLength(s: bytes, x: bytes, r: bytes)
    requires s == [0x5B] + (x + ([0x5D] + r)) && x != [] && Ipv6Run(x + ([0x5D] + r)) == |x|
    ensures BracketLength(s) == Some(|x| + 2)
  {
    hide Ipv6Run, Bracketed;
    assert s[1..] == x + ([0x5D] + r);
  }

  lemma RunOfAddress(x: bytes, r: bytes)
    requires (forall i :: 0 <= i < |x| ==> AddressByte(x[i])) && r != [] && r[0] == RBRACKET
    ensures Ipv6Run(x + r) == |x|
  {
    hide Ipv6Run;
    var t := x + r;
    assert forall i :: 0 <= i < |x| ==> t[i] == x[i];
    assert t[|x|] == r[0];
    RunStops(t, |x|);
  }

  lemma ContainsIs(s: bytes)
    ensures Contains(s, SCHEME_MARK) <==> exists a, b :: s == a + MARK + b
  {
    assert SCHEME_MARK == MARK && |MARK| == 3;
    if Contains(s, SCHEME_MARK) {
      var i :| 0 <= i <= |s| - 3 && s[i..][..3] == MARK;
      assert s == s[..i] + MARK + s[i + 3..];
    }
    forall a, b | s == a + MARK + b
      ensures Contains(s, SCHEME_MARK)
    {
      assert s[|a|..][..3] == MARK;
    }
  }

  /** Each answer of normalization exactly when it is given, the first reason first. */
  lemma NormalizedExactly(s: bytes)
    ensures var marked := exists a, b :: s == a + MARK + b;
      && (NormalizeHost(s) == Rejected(Empty) <==> s == [])
      && (NormalizeHost(s) == Rejected(HasScheme) <==> marked)
      && (NormalizeHost(s) == Rejected(Wildcard) <==> !marked && 0x2A in s)
      && (NormalizeHost(s) == Rejected(InvalidChar) <==> s != [] && !marked && 0x2A !in s && !HostText(s))
      && (NormalizeHost(s).Host? <==> s != [] && !marked && 0x2A !in s && HostText(s))
  {
    hide WellFormed, HostText, Contains, StripPort, Lower;
    ContainsIs(s);
    if s == [] {
      assert forall a, b :: |a + MARK + b| >= 3 by { assert |MARK| == 3; }
    } else {
      WellFormedIs(s);
    }
  }

  /** An accepted host is the text in lower case, without `:443` at its end unless that is all there is. */
  lemma NameExactly(s: bytes)
    requires NormalizeHost(s).Host?
    ensures forall h :: h != [] && Lower(s) == h + PORT_443 ==> NormalizeHost(s).name == h
    ensures (forall h :: h != [] ==> Lower(s) != h + PORT_443) ==> NormalizeHost(s).name == Lower(s)
  {
    hide WellFormed, Contains, Lower;
    assert PORT_443 == DEFAULT_PORT && |PORT_443| == 4;
    var a := Lower(s);
    if |a| > 4 && a[|a| - 4..] == PORT_443 {
      assert a == a[..|a| - 4] + PORT_443;
    }
    forall h | h != [] && a == h + PORT_443
      ensures NormalizeHost(s).name == h
    {
      assert a[|a| - 4..] == PORT_443 && a[..|a| - 4] == h;
    }
  }

  // ----- TLS names -----

  /** A host that names a server: something without a colon that opens no bracket, or an address. */
  ghost predicate ServerText(x: bytes) { (x != [] && x[0] != 0x5B && 0x3A !in x) || AddressText(x) }

  /** A well-formed port behind the host is cut off; anything else behind it leaves the text as it is. */
  lemma ServerNameExactly(x: bytes, y: bytes)
    requires ServerText(x) && (!AddressText(x) && y != [] ==> y[0] == 0x3A)
    ensures Hostname(x + y) == if PortText(y) then x else x + y
  {
    hide PortText, PortSuffix, AddressText, AfterBracket;
    var s := x + y;
    assert s[|x|..] == y && s[..|x|] == x;
    PortIs(y);
    if AddressText(x) {
      AddressEnds(x, y);
    } else {
      IndexOfByteIs(s, COLON, |x|);
    }
    assert y == [] ==> x + y == x;
  }

  lemma AddressEnds(x: bytes, r: bytes)
    requires AddressText(x)
    ensures x + r != [] && (x + r)[0] == LBRACKET && AfterBracket(x + r) == |x|
  {
    var a: bytes :| a != [] && x == [0x5B] + a + [0x5D] && forall i :: 0 <= i < |a| ==> AddressByte(a[i]);
    var s := x + r;
    assert forall i :: 0 < i < |x| - 1 ==> s[i] == a[i - 1];
    assert s[|x| - 1] == RBRACKET;
    AfterBracketFirst(s, |x| - 1);
  }
}
