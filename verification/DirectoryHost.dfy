/** The host a key directory is fetched from: normalized for the allow-list, and its TLS server name. */
module DirectoryHost {
  import opened Bytes
  import opened HostName

  datatype HostReason = Empty | HasScheme | Wildcard | InvalidChar

  datatype Normalized = Host(name: bytes) | Rejected(reason: HostReason)

  const SCHEME_MARK := Ascii("://")

  predicate Contains(s: bytes, t: bytes) { exists i :: 0 <= i <= |s| - |t| && s[i..][..|t|] == t }

  /** Bytes a bracketed literal at the front takes, with both brackets; nothing when it is not well formed. */
  function BracketLength(s: bytes): (n: Option<nat>)
    requires s != [] && s[0] == LBRACKET
    ensures n.Some? ==> n.value <= |s| && Bracketed(s[..n.value])
  {
    var k := Ipv6Run(s[1..]);
    if k == 0 || k + 1 >= |s| || s[k + 1] != RBRACKET then None
    else
      assert forall i :: 0 <= i < k + 2 ==> s[..k + 2][i] == s[i];
      assert forall i :: 0 < i < k + 1 ==> s[i] == s[1..][i - 1];
      Some(k + 2)
  }

  function Ipv6Run(s: bytes): (n: nat)
    ensures n <= |s| && (forall i :: 0 <= i < n ==> IsIpv6Char(s[i])) && (n < |s| ==> !IsIpv6Char(s[n]))
  {
    if s == [] || !IsIpv6Char(s[0]) then 0 else 1 + Ipv6Run(s[1..])
  }

  /** Only a bracketed literal at the front may hold anything but host characters. */
  predicate WellFormed(s: bytes)
    requires s != []
  {
    if s[0] == LBRACKET then BracketLength(s).Some? && HostNameChars(s[BracketLength(s).value..]) else HostNameChars(s)
  }

  predicate HostNameChars(s: bytes) { forall i :: 0 <= i < |s| ==> IsHostChar(s[i]) }

  predicate HasSuffix(s: bytes, t: bytes) { |s| >= |t| && s[|s| - |t|..] == t }

  /** Lower case, and without the default port. */
  function StripPort(s: bytes): bytes {
    if |s| > 4 && HasSuffix(s, DEFAULT_PORT) then s[..|s| - 4] else s
  }

  function NormalizeHost(s: bytes): Normalized {
    if s == [] then Rejected(Empty)
    else if Contains(s, SCHEME_MARK) then Rejected(HasScheme)
    else if STAR in s then Rejected(Wildcard)
    else if !WellFormed(s) then Rejected(InvalidChar)
    else Host(StripPort(Lower(s)))
  }

  /** Everything up to a well-formed port; the whole text when what follows is not one. */
  function Hostname(host: bytes): (r: bytes)
    ensures r <= host
  {
    if host == [] then host
    else
      var i := if host[0] == LBRACKET then AfterBracket(host) else IndexOfByte(host, COLON);
      if i < |host| && PortSuffix(host[i..]) then host[..i] else host
  }

  /** One past the first `]`, or the length. */
  function AfterBracket(s: bytes): (n: nat)
    ensures n <= |s| && (forall i :: 0 <= i < n - 1 ==> s[i] != RBRACKET)
    ensures n == |s| || (0 < n && s[n - 1] == RBRACKET)
  {
    if s == [] then 0 else if s[0] == RBRACKET then 1 else
      var k := AfterBracket(s[1..]);
      1 + k
  }

  // ----- From an accepted URL to a host -----

  lemma LowerTwice(s: bytes)
    ensures Lower(Lower(s)) == Lower(s)
  {
  }

  lemma AuthorityFrom(a: bytes, h: nat)
    requires 0 < h <= |a|
    requires a[0] == LBRACKET ==> h >= 3 && a[h - 1] == RBRACKET && forall i :: 0 < i < h - 1 ==> IsIpv6Char(a[i])
    requires a[0] != LBRACKET ==> forall i :: 0 <= i < h ==> IsNameChar(a[i])
    requires h < |a| ==> a[h] == COLON && h + 1 < |a| && forall i :: h < i < |a| ==> IsDigit(a[i])
    ensures Authority(a, h)
  {
    var x, y := a[..h], a[h..];
    assert forall i :: 0 <= i < h ==> x[i] == a[i];
    assert forall i :: 0 <= i < |y| ==> y[i] == a[h + i];
  }

  lemma LowerAuthority(a: bytes, h: nat)
    requires Authority(a, h)
    ensures Authority(Lower(a), h)
  {
    HostName.HostChars(a, h);
    AuthorityFrom(Lower(a), h);
  }

  /** No byte of an authority is one that normalization refuses. */
  lemma AuthorityBytes(a: bytes, h: nat, i: nat)
    requires Authority(a, h) && i < |a|
    ensures a[i] != SLASH && a[i] != STAR && a[i] != 0
    ensures i >= h || a[0] != LBRACKET ==> IsHostChar(a[i])
  {
    HostName.HostChars(a, h);
  }

  lemma Accepts(a: bytes, h: nat)
    requires Authority(a, h)
    ensures NormalizeHost(a) == Host(StripPort(Lower(a)))
  {
    hide StripPort, Authority;
    HostName.HostChars(a, h);
    forall i: nat | i < |a|
      ensures a[i] != SLASH && a[i] != STAR
    {
      AuthorityBytes(a, h, i);
    }
    NoScheme(a);
    AuthorityWellFormed(a, h);
  }

  lemma NoScheme(a: bytes)
    requires forall i :: 0 <= i < |a| ==> a[i] != SLASH
    ensures !Contains(a, SCHEME_MARK)
  {
    forall i | 0 <= i <= |a| - 3
      ensures a[i..][..3] != SCHEME_MARK
    {
      assert a[i..][..3][1] == a[i + 1];
    }
  }

  lemma AuthorityWellFormed(a: bytes, h: nat)
    requires Authority(a, h)
    ensures a != [] && WellFormed(a)
  {
    HostName.HostChars(a, h);
    forall i: nat | i < |a| && (i >= h || a[0] != LBRACKET)
      ensures IsHostChar(a[i])
    {
      AuthorityBytes(a, h, i);
    }
    if a[0] == LBRACKET {
      RunStops(a[1..], h - 2);
      assert a[1..][h - 2] == a[h - 1];
      assert forall i :: 0 <= i < |a[h..]| ==> a[h..][i] == a[h + i];
    }
  }

  lemma {:induction false} RunStops(s: bytes, n: nat)
    requires n < |s| && (forall i :: 0 <= i < n ==> IsIpv6Char(s[i])) && !IsIpv6Char(s[n])
    ensures Ipv6Run(s) == n
  {
    if n > 0 {
      assert forall i :: 0 <= i < n - 1 ==> s[1..][i] == s[i + 1];
      RunStops(s[1..], n - 1);
    }
  }

  /** Only a port of exactly 443 is stripped, and only once. */
  lemma StripAuthority(a: bytes, h: nat)
    requires Authority(a, h)
    ensures StripPort(a) == if a[h..] == DEFAULT_PORT then a[..h] else a
    ensures Authority(StripPort(a), h) && StripPort(a)[..h] == a[..h]
    ensures StripPort(StripPort(a)) == StripPort(a)
  {
    HostName.HostChars(a, h);
    SuffixIsPort(a, h);
    if a[h..] == DEFAULT_PORT {
      var b := a[..h];
      assert b[..h] == b && b[h..] == [];
      SuffixIsPort(b, h);
    }
  }

  lemma SuffixIsPort(a: bytes, h: nat)
    requires Authority(a, h)
    ensures |a| > 4 && HasSuffix(a, DEFAULT_PORT) <==> a[h..] == DEFAULT_PORT
  {
    HostName.HostChars(a, h);
    if |a| > 4 && HasSuffix(a, DEFAULT_PORT) {
      var k := |a| - 4;
      assert a[k..][0] == a[k] && a[k..][1] == a[k + 1] && a[k..][2] == a[k + 2] && a[k..][3] == a[k + 3];
      assert a[k] == COLON && a[k + 3] == 0x33;
      assert k == h;
    }
  }

  /** The TLS name of an authority is its host. */
  lemma HostnameAuthority(a: bytes, h: nat)
    requires Authority(a, h)
    ensures Hostname(a) == a[..h]
  {
    HostName.HostChars(a, h);
    if a[0] == LBRACKET {
      BracketAt(a, h);
    } else {
      ColonAtHost(a, h);
    }
    if h == |a| {
      assert a[..h] == a;
    }
  }

  lemma BracketAt(a: bytes, h: nat)
    requires Authority(a, h) && a[0] == LBRACKET
    ensures AfterBracket(a) == h
  {
    HostName.HostChars(a, h);
    assert a[h - 1] == RBRACKET;
    var n := AfterBracket(a);
    AfterBracketFirst(a, h - 1);
  }

  lemma {:induction false} AfterBracketFirst(s: bytes, k: nat)
    requires k < |s| && s[k] == RBRACKET && forall i :: 0 <= i < k ==> s[i] != RBRACKET
    ensures AfterBracket(s) == k + 1
  {
    if k > 0 {
      assert forall i :: 0 <= i < k - 1 ==> s[1..][i] == s[i + 1];
      AfterBracketFirst(s[1..], k - 1);
    }
  }

  lemma ColonAtHost(a: bytes, h: nat)
    requires Authority(a, h) && a[0] != LBRACKET
    ensures IndexOfByte(a, COLON) == h
  {
    HostName.HostChars(a, h);
  }

  /**
   * For every URL whose authority is accepted, normalization succeeds, keeps the port unless it
   * is exactly 443, changes nothing when repeated, and its TLS name is the lower-cased host,
   * for names and bracketed addresses alike.
   */
  lemma Pipeline(url: bytes, b: Bounds)
    requires IsBounds(url, b)
    ensures var low, n := Lower(b.authority), NormalizeHost(Lower(b.authority));
      && n == Host(if b.authority[b.host..] == DEFAULT_PORT then low[..b.host] else low)
      && NormalizeHost(n.name) == n
      && Hostname(n.name) == low[..b.host]
      && NormalizeHost(b.authority) == n
  {
    hide Authority, AuthorityOf, StripPort, NormalizeHost, Hostname;
    var a, h := b.authority, b.host;
    var low := Lower(a);
    LowerAuthority(a, h);
    LowerTwice(a);
    Accepts(a, h);
    Accepts(low, h);
    StripAuthority(low, h);
    LowerPort(a, h);
    var n := StripPort(low);
    LowerPrefix(low, n);
    Accepts(n, h);
    HostnameAuthority(n, h);
  }

  lemma LowerPort(a: bytes, h: nat)
    requires Authority(a, h)
    ensures h <= |a| && (a[h..] == DEFAULT_PORT <==> Lower(a)[h..] == DEFAULT_PORT)
  {
    HostName.HostChars(a, h);
    assert Lower(a)[h..] == a[h..];
  }

  lemma LowerPrefix(low: bytes, n: bytes)
    requires Lower(low) == low && n <= low
    ensures Lower(n) == n
  {
    assert forall i :: 0 <= i < |n| ==> n[i] == low[i] == ToLower(low[i]);
  }

  // ----- On any other input -----

  /** With a second default port behind the first, normalizing twice strips twice, whatever the name. */
  lemma NotIdempotent(x: bytes)
    requires Name(x) && Lower(x) == x
    ensures NormalizeHost(x + DEFAULT_PORT + DEFAULT_PORT) == Host(x + DEFAULT_PORT)
    ensures NormalizeHost(x + DEFAULT_PORT) == Host(x) && x + DEFAULT_PORT != x
  {
    hide NormalizeHost, StripPort, Name;
    NamedPort(x);
    Accepts(x + DEFAULT_PORT, |x|);
    StripAuthority(x + DEFAULT_PORT, |x|);
    assert (x + DEFAULT_PORT)[|x|..] == DEFAULT_PORT && (x + DEFAULT_PORT)[..|x|] == x;
    TwoPorts(x);
  }

  lemma NamedPort(x: bytes)
    requires Name(x) && Lower(x) == x
    ensures Authority(x + DEFAULT_PORT, |x|) && Lower(x + DEFAULT_PORT) == x + DEFAULT_PORT
    ensures Lower(x + DEFAULT_PORT + DEFAULT_PORT) == x + DEFAULT_PORT + DEFAULT_PORT
  {
    LowerConcat(x, DEFAULT_PORT);
    LowerConcat(x + DEFAULT_PORT, DEFAULT_PORT);
    assert Lower(DEFAULT_PORT) == DEFAULT_PORT;
    assert (x + DEFAULT_PORT)[..|x|] == x && (x + DEFAULT_PORT)[|x|..] == DEFAULT_PORT;
  }

  lemma LowerConcat(x: bytes, y: bytes)
    ensures Lower(x + y) == Lower(x) + Lower(y)
  {
  }

  lemma TwoPorts(x: bytes)
    requires Name(x) && Lower(x) == x
    ensures NormalizeHost(x + DEFAULT_PORT + DEFAULT_PORT) == Host(x + DEFAULT_PORT)
  {
    NamedPort(x);
    var s := x + DEFAULT_PORT + DEFAULT_PORT;
    PortBytes();
    forall i | 0 <= i < |s|
      ensures IsHostChar(s[i])
    {
      if i >= |x| {
        assert s[i] == DEFAULT_PORT[(i - |x|) % 4];
      }
    }
    NoScheme(s);
    assert s[|s| - 4..] == DEFAULT_PORT && s[..|s| - 4] == x + DEFAULT_PORT;
  }

  lemma PortBytes()
    ensures forall i :: 0 <= i < 4 ==> IsHostChar(DEFAULT_PORT[i])
  {
  }

  const TWICE := Ascii(":443:443")

  /** Normalizing an accepted host again changes it exactly when the host ends in the default port twice. */
  lemma IdempotentExactly(s: bytes)
    requires NormalizeHost(s).Host?
    ensures NormalizeHost(NormalizeHost(s).name) == NormalizeHost(s) <==> !(|s| > 8 && HasSuffix(s, TWICE))
  {
    hide WellFormed, Contains;
    var low := Lower(s);
    var n := StripPort(low);
    StrippedTwice(s);
    LowerTwice(s);
    LowerPrefix(low, n);
    KeepsForm(s);
  }

  lemma StrippedTwice(s: bytes)
    ensures StripPort(StripPort(Lower(s))) == StripPort(Lower(s)) <==> !(|s| > 8 && HasSuffix(s, TWICE))
  {
    var low := Lower(s);
    var k := |s| - 8;
    if |s| > 8 {
      assert TWICE == DEFAULT_PORT + DEFAULT_PORT;
      assert low[..|s| - 4][k..] == low[k..k + 4];
      assert low[k..] == low[k..k + 4] + low[k + 4..];
      SuffixLower(s, TWICE);
      assert low[k + 4..] == low[|s| - 4..];
      TwoHalves(low[k..k + 4], low[k + 4..]);
    }
  }

  lemma TwoHalves(x: bytes, y: bytes)
    requires |x| == |y| == 4
    ensures x + y == DEFAULT_PORT + DEFAULT_PORT <==> x == DEFAULT_PORT && y == DEFAULT_PORT
  {
    assert (x + y)[..4] == x && (x + y)[4..] == y;
    assert (DEFAULT_PORT + DEFAULT_PORT)[..4] == DEFAULT_PORT && (DEFAULT_PORT + DEFAULT_PORT)[4..] == DEFAULT_PORT;
  }

  /** Lowering does not make or break a suffix without letters. */
  lemma SuffixLower(s: bytes, t: bytes)
    requires forall i :: 0 <= i < |t| ==> !IsUpper(t[i]) && !IsLower(t[i])
    ensures HasSuffix(Lower(s), t) <==> HasSuffix(s, t)
  {
    if |s| >= |t| {
      var k := |s| - |t|;
      forall i | 0 <= i < |t|
        ensures Lower(s)[k..][i] == t[i] <==> s[k..][i] == t[i]
      {
        assert Lower(s)[k..][i] == ToLower(s[k + i]);
      }
    }
  }

  /** Lowering and stripping keep a host acceptable. */
  lemma KeepsForm(s: bytes)
    requires NormalizeHost(s).Host?
    ensures var n := StripPort(Lower(s)); n != [] && !Contains(n, SCHEME_MARK) && STAR !in n && WellFormed(n)
  {
    var low := Lower(s);
    var n := StripPort(low);
    WellFormedLower(s);
    WellFormedPrefix(low, n);
    MarkKept(s, n);
    assert forall i :: 0 <= i < |n| ==> n[i] == ToLower(s[i]) && s[i] in s;
  }

  lemma MarkKept(s: bytes, n: bytes)
    requires !Contains(s, SCHEME_MARK) && n <= Lower(s)
    ensures !Contains(n, SCHEME_MARK)
  {
    forall i | 0 <= i <= |n| - 3
      ensures n[i..][..3] != SCHEME_MARK
    {
      assert s[i..][..3] != SCHEME_MARK;
      assert forall j :: 0 <= j < 3 ==> n[i..][..3][j] == ToLower(s[i..][..3][j]);
    }
  }

  lemma {:induction false} RunLower(s: bytes)
    ensures Ipv6Run(Lower(s)) == Ipv6Run(s)
  {
    if s != [] && IsIpv6Char(s[0]) {
      assert Lower(s)[1..] == Lower(s[1..]);
      RunLower(s[1..]);
    }
  }

  lemma WellFormedLower(s: bytes)
    requires s != [] && WellFormed(s)
    ensures WellFormed(Lower(s))
  {
    if s[0] == LBRACKET {
      assert Lower(s)[1..] == Lower(s[1..]);
      RunLower(s[1..]);
      var n := BracketLength(s).value;
      assert Lower(s)[n..] == Lower(s[n..]);
      LowerHostChars(s[n..]);
    } else {
      LowerHostChars(s);
    }
  }

  lemma LowerHostChars(s: bytes)
    requires HostNameChars(s)
    ensures HostNameChars(Lower(s))
  {
  }

  lemma WellFormedPrefix(low: bytes, n: bytes)
    requires low != [] && WellFormed(low) && n == StripPort(low)
    ensures n != [] && WellFormed(n)
  {
    if low[0] == LBRACKET && n != low {
      var k := BracketLength(low).value;
      assert low[k - 1] == RBRACKET;
      var t := low[|low| - 4..];
      assert forall i :: 0 <= i < 4 ==> t[i] == low[|low| - 4 + i];
      assert k <= |n|;
      assert forall i :: 0 <= i < k - 2 ==> low[1..][i] == n[1..][i];
      RunStops(n[1..], k - 2);
      assert forall i :: 0 <= i < |n[k..]| ==> n[k..][i] == low[k..][i];
    }
  }
}
