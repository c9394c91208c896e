/** Byte strings and the small vocabulary every other module shares. */
module Bytes {

  newtype byte = x: int | 0 <= x < 0x100

  type bytes = seq<byte>

  /** Signed 64-bit machine integers: every operation is checked not to leave the range. */
  newtype int64 = x: int | -0x8000_0000_0000_0000 <= x < 0x8000_0000_0000_0000

  datatype Option<+T> = None | Some(value: T)

  /** A reader either declines its input or consumes a prefix and hands back the unread rest. */
  datatype Parse<+T> = Declined | Parsed(value: T, rest: bytes)

  const TAB: byte := 0x09
  const LF: byte := 0x0A
  const SPACE: byte := 0x20
  const DQUOTE: byte := 0x22
  const PERCENT: byte := 0x25
  const AMPERSAND: byte := 0x26
  const LPAREN: byte := 0x28
  const RPAREN: byte := 0x29
  const STAR: byte := 0x2A
  const PLUS: byte := 0x2B
  const COMMA: byte := 0x2C
  const MINUS: byte := 0x2D
  const DOT: byte := 0x2E
  const SLASH: byte := 0x2F
  const ZERO: byte := 0x30
  const NINE: byte := 0x39
  const COLON: byte := 0x3A
  const SEMICOLON: byte := 0x3B
  const EQUALS: byte := 0x3D
  const QUESTION: byte := 0x3F
  const AT: byte := 0x40
  const BACKSLASH: byte := 0x5C
  const UNDERSCORE: byte := 0x5F

  predicate IsDigit(c: byte) { ZERO <= c <= NINE }

  predicate IsLower(c: byte) { 0x61 <= c <= 0x7A }

  predicate IsUpper(c: byte) { 0x41 <= c <= 0x5A }

  predicate IsAlpha(c: byte) { IsLower(c) || IsUpper(c) }

  /** The printable ASCII range a Structured Fields string may hold. */
  predicate IsPrintable(c: byte) { 0x20 <= c <= 0x7E }

  predicate AllPrintable(s: bytes) { forall i :: 0 <= i < |s| ==> IsPrintable(s[i]) }

  /** `s` starts with a byte for which `c` is the only candidate. */
  predicate StartsWith(s: bytes, c: byte) { |s| > 0 && s[0] == c }

  function ToLower(c: byte): byte { if IsUpper(c) then c + 0x20 else c }

  /** ASCII letters in lower case. */
  function Lower(s: bytes): (r: bytes)
    ensures |r| == |s| && forall i :: 0 <= i < |s| ==> r[i] == ToLower(s[i])
  {
    seq(|s|, i requires 0 <= i < |s| => ToLower(s[i]))
  }

  /** Offset of the first `c`, or the length when there is none. */
  function IndexOfByte(s: bytes, c: byte): (n: nat)
    ensures n <= |s| && (n < |s| ==> s[n] == c)
    ensures forall i :: 0 <= i < n ==> s[i] != c
  {
    if s == [] || s[0] == c then 0 else 1 + IndexOfByte(s[1..], c)
  }

  /** Being the first occurrence, or the length without one, determines the offset. */
  lemma IndexOfByteIs(s: bytes, c: byte, n: nat)
    requires n <= |s| && (n < |s| ==> s[n] == c) && forall i :: 0 <= i < n ==> s[i] != c
    ensures IndexOfByte(s, c) == n
  {
  }

  /** The optional white space of HTTP. */
  predicate Blank(c: byte) { c == SPACE || c == TAB }

  function SkipBlank(s: bytes): (r: bytes)
    ensures |r| <= |s| && (r == [] || !Blank(r[0]))
  {
    if s != [] && Blank(s[0]) then SkipBlank(s[1..]) else s
  }

  function Min(a: int, b: int): int { if a < b then a else b }

  /** Two to the power of `k`. */
  function Power(k: nat): (p: nat)
    ensures p >= 1
  {
    if k == 0 then 1 else 2 * Power(k - 1)
  }

  /** An ASCII literal as bytes. */
  function Ascii(s: string): (b: bytes)
    requires forall i :: 0 <= i < |s| ==> s[i] as int < 0x80
    ensures |b| == |s| && forall i :: 0 <= i < |s| ==> b[i] as int == s[i] as int
  {
    seq(|s|, i requires 0 <= i < |s| => s[i] as int as byte)
  }
}
