/** What base64 text stands for, byte by byte from its six-bit groups, and which texts decode at all. */
module Base64Meaning {
  import opened Base64
  import opened Bytes

  const CAPITALS := Ascii("ABCDEFGHIJKLMNOPQRSTUVWXYZ")
  const SMALL := Ascii("abcdefghijklmnopqrstuvwxyz")
  const OTHERS := Ascii("0123456789+/")

  const ALPHABET := CAPITALS + SMALL + OTHERS

  /** The letters of the alphabet stand for their places, and nothing else is a letter. */
  lemma SextetExactly(c: byte, v: nat)
    ensures v < 64 ==> (Sextet(c) == v <==> c == ALPHABET[v])
    ensures Sextet(c) >= 0 <==> c in ALPHABET
    ensures v < 64 ==> Letter(v) == ALPHABET[v]
  {
    if v < 64 { PlaceOf(v); }
    if Sextet(c) >= 0 { PlaceOf(Sextet(c)); }
    if c in ALPHABET {
      var i :| 0 <= i < |ALPHABET| && ALPHABET[i] == c;
      PlaceOf(i);
    }
  }

  lemma PlaceOf(v: nat)
    requires v < 64
    ensures |ALPHABET| == 64
    ensures ALPHABET[v] as int ==
      if v < 26 then 0x41 + v
      else if v < 52 then 0x61 + v - 26
      else if v < 62 then 0x30 + v - 52
      else if v == 62 then 0x2B
      else 0x2F
  {
    hide Ascii;
    Capitals();
    Small();
    Others();
    assert ALPHABET[v] == if v < 26 then CAPITALS[v] else if v < 52 then SMALL[v - 26] else OTHERS[v - 52];
  }

  lemma Capitals()
    ensures |CAPITALS| == 26 && forall i :: 0 <= i < 26 ==> CAPITALS[i] as int == 0x41 + i
  {
  }

  lemma Small()
    ensures |SMALL| == 26 && forall i :: 0 <= i < 26 ==> SMALL[i] as int == 0x61 + i
  {
  }

  lemma Others()
    ensures |OTHERS| == 12 && (forall i :: 0 <= i < 10 ==> OTHERS[i] as int == 0x30 + i)
    ensures OTHERS[10] == 0x2B && OTHERS[11] == 0x2F
  {
  }

  /** Six bits of the text. */
  function Six(u: bytes, i: nat): nat
    requires i < |u| && AllLetters(u)
  {
    Sextet(u[i])
  }

  /** Byte `i` of what the text stands for: eight of its bits, from two neighbouring groups. */
  function ByteAt(u: bytes, i: nat): nat
    requires AllLetters(u) && i / 3 * 4 + i % 3 + 1 < |u|
  {
    var j := i / 3 * 4 + i % 3;
    if i % 3 == 0 then Six(u, j) * 4 + Six(u, j + 1) / 16
    else if i % 3 == 1 then Six(u, j) % 16 * 16 + Six(u, j + 1) / 4
    else Six(u, j) % 4 * 64 + Six(u, j + 1)
  }

  /** How many bytes `n` letters hold: three for four, and one or two for two or three left over. */
  function Held(n: nat): nat { n / 4 * 3 + (if n % 4 == 0 then 0 else n % 4 - 1) }

  /** Six bits more in the buffer: what comes out above the mark, and what stays below it. */
  lemma SplitAt(buf: nat, v: nat)
    requires v < 64
    ensures (buf * 64 + v) / 16 == buf * 4 + v / 16 && (buf * 64 + v) % 16 == v % 16
    ensures (buf * 64 + v) / 4 == buf * 16 + v / 4 && (buf * 64 + v) % 4 == v % 4
  {
    assert buf * 64 + v == (buf * 4 + v / 16) * 16 + v % 16;
    assert buf * 64 + v == (buf * 16 + v / 4) * 4 + v % 4;
  }

  lemma First(u: bytes)
    requires u != [] && AllLetters(u)
    ensures AllLetters(u[1..]) && Drain(u, 0, 0) == Drain(u[1..], Sextet(u[0]), 6)
  {
  }

  lemma Second(u: bytes, buf: nat)
    requires u != [] && AllLetters(u) && buf < 64
    ensures var v := Sextet(u[0]);
      AllLetters(u[1..]) && Drain(u, buf, 6) == [(buf * 4 + v / 16) as byte] + Drain(u[1..], v % 16, 4)
  {
    hide Sextet;
    SplitAt(buf, Sextet(u[0]));
  }

  lemma Third(u: bytes, buf: nat)
    requires u != [] && AllLetters(u) && buf < 16
    ensures var v := Sextet(u[0]);
      AllLetters(u[1..]) && Drain(u, buf, 4) == [(buf * 16 + v / 4) as byte] + Drain(u[1..], v % 4, 2)
  {
    hide Sextet;
    SplitAt(buf, Sextet(u[0]));
  }

  lemma Fourth(u: bytes, buf: nat)
    requires u != [] && AllLetters(u) && buf < 4
    ensures var v := Sextet(u[0]);
      AllLetters(u[1..]) && Drain(u, buf, 2) == [(buf * 64 + v) as byte] + Drain(u[1..], 0, 0)
  {
    hide Sextet;
  }

  /** The bytes of the first group. */
  lemma FrontBytes(u: bytes)
    requires AllLetters(u) && |u| >= 2
    ensures ByteAt(u, 0) == Sextet(u[0]) * 4 + Sextet(u[1]) / 16
    ensures |u| >= 3 ==> ByteAt(u, 1) == Sextet(u[1]) % 16 * 16 + Sextet(u[2]) / 4
    ensures |u| >= 4 ==> ByteAt(u, 2) == Sextet(u[2]) % 4 * 64 + Sextet(u[3])
  {
    hide Sextet;
  }

  lemma Front(u: bytes)
    requires AllLetters(u) && |u| >= 2
    ensures var d := Drain(u, 0, 0);
      if |u| == 2 then d == [ByteAt(u, 0) as byte]
      else if |u| == 3 then d == [ByteAt(u, 0) as byte, ByteAt(u, 1) as byte]
      else d == [ByteAt(u, 0) as byte, ByteAt(u, 1) as byte, ByteAt(u, 2) as byte] + Drain(u[4..], 0, 0)
  {
    hide Drain, Sextet, ByteAt;
    FrontBytes(u);
    First(u);
    Second(u[1..], Sextet(u[0]));
    assert u[1..][1..] == u[2..];
    if |u| == 2 {
      Nothing(u[2..], Sextet(u[1]) % 16, 4);
    } else {
      Third(u[2..], Sextet(u[1]) % 16);
      assert u[2..][1..] == u[3..];
      if |u| == 3 {
        Nothing(u[3..], Sextet(u[2]) % 4, 2);
      } else {
        Fourth(u[3..], Sextet(u[2]) % 4);
        assert u[3..][1..] == u[4..];
      }
    }
  }

  lemma Nothing(u: bytes, buf: int, bits: int)
    requires u == [] && Pending(buf, bits)
    ensures Drain(u, buf, bits) == []
  {
  }

  lemma Later(u: bytes, i: nat)
    requires AllLetters(u) && |u| >= 4 && 3 <= i < Held(|u|) && |u| % 4 != 1
    ensures (i - 3) / 3 * 4 + (i - 3) % 3 + 1 < |u[4..]| && i / 3 * 4 + i % 3 + 1 < |u|
    ensures ByteAt(u[4..], i - 3) == ByteAt(u, i)
  {
    hide Sextet;
    assert i / 3 == (i - 3) / 3 + 1 && i % 3 == (i - 3) % 3;
  }

  /** What letters stand for: as many bytes as they hold, each of its own eight bits. */
  lemma {:induction false} DrainExactly(u: bytes)
    requires AllLetters(u) && |u| % 4 != 1
    ensures |Drain(u, 0, 0)| == Held(|u|)
    ensures forall i :: 0 <= i < Held(|u|) ==> i / 3 * 4 + i % 3 + 1 < |u| && Drain(u, 0, 0)[i] as int == ByteAt(u, i)
  {
    hide Drain, Sextet, ByteAt;
    if |u| < 2 {
      Nothing(u, 0, 0);
    } else {
      Front(u);
      if |u| >= 4 {
        DrainExactly(u[4..]);
        forall i | 3 <= i < Held(|u|)
          ensures i / 3 * 4 + i % 3 + 1 < |u| && Drain(u, 0, 0)[i] as int == ByteAt(u, i)
        {
          Later(u, i);
        }
      }
    }
  }

  /** A text decodes exactly when all before its first `=` are letters, not one more than a multiple of four. */
  lemma DecodesExactly(s: bytes, u: bytes, pad: bytes, d: bytes)
    requires s == u + pad && EQUALS !in u && (pad == [] || pad[0] == EQUALS)
    ensures Decode(s).Some? <==> (forall i :: 0 <= i < |u| ==> u[i] in ALPHABET) && |u| % 4 != 1
    ensures Decode(s) == Some(d) ==>
      && AllLetters(u) && |d| == Held(|u|)
      && forall i :: 0 <= i < |d| ==> i / 3 * 4 + i % 3 + 1 < |u| && d[i] as int == ByteAt(u, i)
  {
    hide Drain, Sextet, ByteAt;
    UnpaddedConcat(u, pad);
    forall i | 0 <= i < |u|
      ensures Sextet(u[i]) >= 0 <==> u[i] in ALPHABET
    {
      SextetExactly(u[i], 0);
    }
    if Decode(s).Some? {
      DrainExactly(u);
    }
  }

  /** An encoding is whole groups of four, padded, and leaves no stray bits in its last letter. */
  lemma EncodesExactly(b: bytes)
    ensures |Encode(b)| == (|b| + 2) / 3 * 4
    ensures Encode(b) == Body(b) + (if |b| % 3 == 1 then [0x3D, 0x3D] else if |b| % 3 == 2 then [0x3D] else [])
    ensures |Body(b)| == (|b| * 4 + 2) / 3 && AllLetters(Body(b))
    ensures |b| % 3 == 1 ==> Sextet(Body(b)[|Body(b)| - 1]) % 16 == 0
    ensures |b| % 3 == 2 ==> Sextet(Body(b)[|Body(b)| - 1]) % 4 == 0
  {
    hide *;
    EncodeIsPaddedBody(b);
    PadOf(b);
    Lengths(|b|);
    BodyDrains(b);
    LastLetter(b);
  }

  lemma PadOf(b: bytes)
    ensures Pad(b) == if |b| % 3 == 1 then [0x3D, 0x3D] else if |b| % 3 == 2 then [0x3D] else []
  {
  }

  lemma Lengths(n: nat)
    ensures (n * 4 + 2) / 3 + (if n % 3 == 1 then 2 else if n % 3 == 2 then 1 else 0) == (n + 2) / 3 * 4
  {
    assert n == n / 3 * 3 + n % 3;
  }

  lemma {:induction false} LastLetter(b: bytes)
    ensures |b| % 3 == 1 ==> Sextet(Body(b)[|Body(b)| - 1]) % 16 == 0
    ensures |b| % 3 == 2 ==> Sextet(Body(b)[|Body(b)| - 1]) % 4 == 0
  {
    hide Sextet, Group, Single, Pair;
    if |b| == 1 {
      EndOfSingle(b[0]);
    } else if |b| == 2 {
      EndOfPair(b[0], b[1]);
    } else if |b| > 3 {
      LastLetter(b[3..]);
      LastOf(Group(b[0], b[1], b[2]), Body(b[3..]));
    }
  }

  lemma LastOf(g: bytes, more: bytes)
    requires more != []
    ensures (g + more)[|g + more| - 1] == more[|more| - 1]
  {
  }

  lemma EndOfSingle(a: byte)
    ensures |Single(a)| == 2 && Sextet(Single(a)[1]) % 16 == 0
  {
    hide Sextet, Letter;
    SextetOfLetter(a as int % 4 * 16);
  }

  lemma EndOfPair(a: byte, b: byte)
    ensures |Pair(a, b)| == 3 && Sextet(Pair(a, b)[2]) % 4 == 0
  {
    hide Sextet, Letter;
    SextetOfLetter(b as int % 16 * 4);
  }
}
