/** The base64 codec behind Structured Fields byte sequences (section 4 of RFC 4648). */
module Base64 {
  import opened Bytes

  /** The character standing for a six-bit group. */
  function Letter(v: int): byte
    requires 0 <= v < 64
  {
    if v < 26 then (0x41 + v) as byte
    else if v < 52 then (0x61 + v - 26) as byte
    else if v < 62 then (0x30 + v - 52) as byte
    else if v == 62 then PLUS
    else SLASH
  }

  /** The six-bit group a character stands for, or -1 for a character outside the alphabet. */
  function Sextet(c: byte): (v: int)
    ensures -1 <= v < 64
  {
    if IsUpper(c) then c as int - 0x41
    else if IsLower(c) then c as int - 0x61 + 26
    else if IsDigit(c) then c as int - 0x30 + 52
    else if c == PLUS then 62
    else if c == SLASH then 63
    else -1
  }

  lemma SextetOfLetter(v: int)
    requires 0 <= v < 64
    ensures Sextet(Letter(v)) == v
  {
  }

  function Group(a: byte, b: byte, c: byte): bytes {
    [Letter(a as int / 4), Letter(a as int % 4 * 16 + b as int / 16),
     Letter(b as int % 16 * 4 + c as int / 64), Letter(c as int % 64)]
  }

  function Pair(a: byte, b: byte): bytes {
    [Letter(a as int / 4), Letter(a as int % 4 * 16 + b as int / 16), Letter(b as int % 16 * 4)]
  }

  function Single(a: byte): bytes { [Letter(a as int / 4), Letter(a as int % 4 * 16)] }

  /** Padded encoding, three bytes at a time. */
  function Encode(b: bytes): bytes {
    if |b| == 0 then []
    else if |b| == 1 then Single(b[0]) + [EQUALS, EQUALS]
    else if |b| == 2 then Pair(b[0], b[1]) + [EQUALS]
    else Group(b[0], b[1], b[2]) + Encode(b[3..])
  }

  predicate AllLetters(s: bytes) { forall i :: 0 <= i < |s| ==> Sextet(s[i]) >= 0 }

  /** What precedes the first `=`. */
  function Unpadded(s: bytes): (u: bytes)
    ensures |u| <= |s| && u == s[..|u|]
    ensures forall i :: 0 <= i < |u| ==> u[i] != EQUALS
    ensures |u| < |s| ==> s[|u|] == EQUALS
  {
    if s == [] || s[0] == EQUALS then [] else [s[0]] + Unpadded(s[1..])
  }

  /** Feeds characters into a bit buffer holding `bits` pending bits of value `buf`. */
  function Drain(s: bytes, buf: int, bits: int): bytes
    requires AllLetters(s)
    requires Pending(buf, bits)
  {
    if s == [] then []
    else
      var b := buf * 64 + Sextet(s[0]);
      if bits == 0 then Drain(s[1..], b, 6)
      else [(b / Pow2(bits - 2)) as byte] + Drain(s[1..], b % Pow2(bits - 2), bits - 2)
  }

  function Pow2(bits: int): (p: int)
    ensures p > 0
  {
    if bits == 6 then 64 else if bits == 4 then 16 else if bits == 2 then 4 else 1
  }

  predicate Pending(buf: int, bits: int) {
    (bits == 0 || bits == 2 || bits == 4 || bits == 6) && 0 <= buf < Pow2(bits)
  }

  function Decode(s: bytes): Option<bytes> {
    var u := Unpadded(s);
    if !AllLetters(u) || |u| % 4 == 1 then None else Some(Drain(u, 0, 0))
  }

  /** The trailing-padding rule of section 3.3.5 of RFC 8941: `=` only at the end, at most twice. */
  predicate PaddingOk(s: bytes) {
    var u := Unpadded(s);
    |s| - |u| <= 2 && forall i :: |u| <= i < |s| ==> s[i] == EQUALS
  }

  /** One character through the bit buffer. */
  lemma DrainStep(v: int, s: bytes, buf: int, bits: int)
    requires 0 <= v < 64 && AllLetters(s) && Pending(buf, bits)
    ensures AllLetters([Letter(v)] + s)
    ensures bits == 0 ==> Drain([Letter(v)] + s, buf, bits) == Drain(s, v, 6)
    ensures bits != 0 ==>
      var b := buf * 64 + v;
      Drain([Letter(v)] + s, buf, bits) == [(b / Pow2(bits - 2)) as byte] + Drain(s, b % Pow2(bits - 2), bits - 2)
  {
    var t := [Letter(v)] + s;
    SextetOfLetter(v);
    assert t[1..] == s && t[0] == Letter(v);
  }

  /** The sextets of three bytes, put back together. */
  lemma GroupArithmetic(x: int, y: int, z: int)
    requires 0 <= x < 256 && 0 <= y < 256 && 0 <= z < 256
    ensures var b := x / 4 * 64 + (x % 4 * 16 + y / 16); b / 16 == x && b % 16 == y / 16
    ensures var b := y / 16 * 64 + (y % 16 * 4 + z / 64); b / 4 == y && b % 4 == z / 64
    ensures z / 64 * 64 + z % 64 == z
  {
  }

  /** Four characters carry exactly the three bytes they came from. */
  lemma DrainGroup(a: byte, b: byte, c: byte, s: bytes)
    requires AllLetters(s)
    ensures AllLetters(Group(a, b, c) + s)
    ensures Drain(Group(a, b, c) + s, 0, 0) == [a, b, c] + Drain(s, 0, 0)
  {
    hide Drain, Letter, Sextet;
    var x, y, z := a as int, b as int, c as int;
    GroupArithmetic(x, y, z);
    var v1, v2, v3 := x % 4 * 16 + y / 16, y % 16 * 4 + z / 64, z % 64;
    var s3 := [Letter(v3)] + s;
    var s2 := [Letter(v2)] + s3;
    var s1 := [Letter(v1)] + s2;
    assert AllLetters(s3) && Drain(s3, z / 64, 2) == [c] + Drain(s, 0, 0) by { DrainStep(v3, s, z / 64, 2); }
    assert AllLetters(s2) && Drain(s2, y / 16, 4) == [b, c] + Drain(s, 0, 0) by { DrainStep(v2, s3, y / 16, 4); }
    assert AllLetters(s1) && Drain(s1, x / 4, 6) == [a, b, c] + Drain(s, 0, 0) by { DrainStep(v1, s2, x / 4, 6); }
    DrainStep(x / 4, s1, 0, 0);
    assert Group(a, b, c) + s == [Letter(x / 4)] + s1;
  }

  lemma DrainPair(a: byte, b: byte)
    ensures AllLetters(Pair(a, b)) && Drain(Pair(a, b), 0, 0) == [a, b]
  {
    var x, y := a as int, b as int;
    GroupArithmetic(x, y, 0);
    var v1, v2 := x % 4 * 16 + y / 16, y % 16 * 4;
    var s2 := [Letter(v2)] + [];
    var s1 := [Letter(v1)] + s2;
    assert AllLetters(s2) && Drain(s2, y / 16, 4) == [b] by { DrainStep(v2, [], y / 16, 4); }
    assert AllLetters(s1) && Drain(s1, x / 4, 6) == [a, b] by { DrainStep(v1, s2, x / 4, 6); }
    DrainStep(x / 4, s1, 0, 0);
    assert Pair(a, b) == [Letter(x / 4)] + s1;
  }

  lemma DrainSingle(a: byte)
    ensures AllLetters(Single(a)) && Drain(Single(a), 0, 0) == [a]
  {
    var x := a as int;
    GroupArithmetic(x, 0, 0);
    var s1 := [Letter(x % 4 * 16)] + [];
    assert AllLetters(s1) && Drain(s1, x / 4, 6) == [a] by { DrainStep(x % 4 * 16, [], x / 4, 6); }
    DrainStep(x / 4, s1, 0, 0);
    assert Single(a) == [Letter(x / 4)] + s1;
  }

  /** The letters of an encoding, before its padding. */
  function Body(b: bytes): (u: bytes)
    ensures |u| == (|b| * 4 + 2) / 3
  {
    if |b| == 0 then []
    else if |b| == 1 then Single(b[0])
    else if |b| == 2 then Pair(b[0], b[1])
    else Group(b[0], b[1], b[2]) + Body(b[3..])
  }

  function Pad(b: bytes): bytes {
    if |b| % 3 == 1 then [EQUALS, EQUALS] else if |b| % 3 == 2 then [EQUALS] else []
  }

  lemma {:induction false} EncodeIsPaddedBody(b: bytes)
    ensures Encode(b) == Body(b) + Pad(b)
  {
    hide Letter, Group, Single, Pair;
    if |b| >= 3 {
      var more := b[3..];
      EncodeIsPaddedBody(more);
      assert |b| % 3 == |more| % 3;
      var g := Group(b[0], b[1], b[2]);
      assert g + (Body(more) + Pad(more)) == g + Body(more) + Pad(more);
    }
  }

  lemma {:induction false} BodyDrains(b: bytes)
    ensures AllLetters(Body(b)) && Drain(Body(b), 0, 0) == b
  {
    if |b| == 0 {
    } else if |b| == 1 {
      DrainSingle(b[0]);
    } else if |b| == 2 {
      DrainPair(b[0], b[1]);
    } else {
      BodyDrains(b[3..]);
      DrainGroup(b[0], b[1], b[2], Body(b[3..]));
      assert b == [b[0], b[1], b[2]] + b[3..];
    }
  }

  lemma LettersAreQuiet(c: byte)
    requires Sextet(c) >= 0
    ensures c != EQUALS && c != COLON && IsPrintable(c)
  {
  }

  lemma UnpaddedConcat(u: bytes, pad: bytes)
    requires forall i :: 0 <= i < |u| ==> u[i] != EQUALS
    requires pad == [] || pad[0] == EQUALS
    ensures Unpadded(u + pad) == u
  {
    var s, w := u + pad, Unpadded(u + pad);
    assert s[..|u|] == u;
  }

  /**
   * Decoding an encoding gives the bytes back; the encoding passes the trailing-padding
   * rule and never contains the `:` that delimits it.
   */
  lemma RoundTrip(b: bytes)
    ensures Decode(Encode(b)) == Some(b)
    ensures PaddingOk(Encode(b))
    ensures forall i :: 0 <= i < |Encode(b)| ==> Encode(b)[i] != COLON && IsPrintable(Encode(b)[i])
  {
    hide Encode, Body, Drain, Sextet, Unpadded;
    EncodeIsPaddedBody(b);
    BodyDrains(b);
    var u, p := Body(b), Pad(b);
    forall i | 0 <= i < |u| ensures u[i] != EQUALS && u[i] != COLON && IsPrintable(u[i]) {
      LettersAreQuiet(u[i]);
    }
    UnpaddedConcat(u, p);
    BodyLength(|b|);
  }

  lemma BodyLength(n: nat)
    ensures (n * 4 + 2) / 3 % 4 != 1
  {
    assert (n * 4 + 2) / 3 == n / 3 * 4 + (n % 3 * 4 + 2) / 3;
  }

  /** The decoder's output fits the buffer its caller sizes as ((len + 3) / 4) * 3. */
  lemma {:induction false} DrainLength(s: bytes, buf: int, bits: int)
    requires AllLetters(s) && Pending(buf, bits)
    ensures |Drain(s, buf, bits)| == (bits + 6 * |s|) / 8
  {
    if s != [] {
      var b := buf * 64 + Sextet(s[0]);
      if bits == 0 {
        DrainLength(s[1..], b, 6);
      } else {
        DrainLength(s[1..], b % Pow2(bits - 2), bits - 2);
      }
    }
  }

  lemma EncodeStep(b: bytes)
    requires |b| >= 3
    ensures Encode(b) == Group(b[0], b[1], b[2]) + Encode(b[3..])
  {
  }

  /** The encoder, three input bytes per turn. */
  method EncodeBytes(src: bytes) returns (dst: bytes)
    ensures dst == Encode(src)
  {
    hide Group, Pair, Single;
    dst := [];
    var i := 0;
    while |src| - i >= 3
      invariant 0 <= i <= |src|
      invariant dst + Encode(src[i..]) == Encode(src)
    {
      var rest := src[i..];
      EncodeStep(rest);
      assert rest[3..] == src[i + 3..];
      dst := dst + Group(rest[0], rest[1], rest[2]);
      i := i + 3;
    }
    var rest := src[i..];
    if |rest| == 1 {
      dst := dst + (Single(rest[0]) + [EQUALS, EQUALS]);
    } else if |rest| == 2 {
      dst := dst + (Pair(rest[0], rest[1]) + [EQUALS]);
    }
  }

  /** The decoder's first pass: the letters up to the first `=`, or a refusal. */
  method ScanLetters(src: bytes) returns (len: nat, ok: bool)
    ensures ok == AllLetters(Unpadded(src))
    ensures ok ==> len == |Unpadded(src)|
  {
    len := 0;
    while len < |src| && src[len] != EQUALS
      invariant 0 <= len <= |src|
      invariant Unpadded(src) == src[..len] + Unpadded(src[len..])
      invariant AllLetters(src[..len])
    {
      assert src[len..][1..] == src[len + 1..];
      assert src[..len] + [src[len]] == src[..len + 1];
      if Sextet(src[len]) < 0 {
        assert Unpadded(src)[len] == src[len];
        return len, false;
      }
      len := len + 1;
    }
    ok := true;
  }

  /**
   * The decoder: it scans to the first `=`, then shifts six bits at a time through a
   * buffer, writing only inside the caller-sized destination.
   */
  method DecodeBytes(src: bytes) returns (r: Option<bytes>)
    ensures r == Decode(src)
  {
    hide Drain, Sextet, Pow2, Unpadded;
    var len, ok := ScanLetters(src);
    if !ok || len % 4 == 1 {
      return None;
    }
    var out := new byte[(|src| + 3) / 4 * 3];
    ghost var u := Unpadded(src);
    DrainLength(u, 0, 0);
    var i, n, buf, bits := 0, 0, 0, 0;
    while i < len
      invariant 0 <= i <= len && 0 <= n <= out.Length
      invariant Pending(buf, bits) && AllLetters(u[i..])
      invariant out[..n] + Drain(u[i..], buf, bits) == Drain(u, 0, 0)
    {
      DrainUnfold(u[i..], buf, bits);
      assert u[i..][1..] == u[i + 1..] && u[i] == src[i];
      ghost var was := out[..n];
      buf := buf * 64 + Sextet(src[i]);
      bits := bits + 6;
      if bits >= 8 {
        bits := bits - 8;
        out[n] := (buf / Pow2(bits)) as byte;
        n := n + 1;
        assert out[..n] == was + [out[n - 1]];
        buf := buf % Pow2(bits);
      }
      i := i + 1;
    }
    DrainLength(u[i..], buf, bits);
    assert out[..n] == Drain(u, 0, 0);
    return Some(out[..n]);
  }

  lemma DrainUnfold(s: bytes, buf: int, bits: int)
    requires s != [] && AllLetters(s) && Pending(buf, bits)
    ensures var b := buf * 64 + Sextet(s[0]);
      && (bits == 0 ==> Pending(b, 6) && Drain(s, buf, bits) == Drain(s[1..], b, 6))
      && (bits > 0 ==> 0 <= b / Pow2(bits - 2) < 256 && Pending(b % Pow2(bits - 2), bits - 2)
                       && Drain(s, buf, bits)
                           == [(b / Pow2(bits - 2)) as byte] + Drain(s[1..], b % Pow2(bits - 2), bits - 2))
  {
  }
}
