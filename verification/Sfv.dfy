/**
 * Structured Field Values: the data model, what the serializer emits and what the reader
 * accepts (sections 4.1 and 4.2 of RFC 8941), as functions on byte strings.
 */
module Sfv {
  import opened Bytes
  import Base64

  const MAX_LENGTH := 8192
  const MAX_ITEMS := 64
  const MAX_DEPTH := 4
  const MAX_PARAMS := 16

  /** Largest magnitude of an Integer, and of a Decimal scaled by 1000: fifteen digits. */
  const MAX_NUMBER := 999_999_999_999_999

  // ----- Data model -----

  datatype Bare =
    | Integer(value: int)
    | Decimal(thousandths: int)
    | String(text: bytes)
    | Token(name: bytes)
    | ByteSequence(content: bytes)
    | Boolean(flag: bool)

  datatype Keyed<+V> = Keyed(key: bytes, value: V)

  type Param = Keyed<Bare>

  datatype Item = Item(bare: Bare, params: seq<Param>)

  datatype InnerList = InnerList(items: seq<Item>, params: seq<Param>)

  datatype Member = ItemMember(item: Item) | ListMember(list: InnerList)

  type Entry = Keyed<Member>

  datatype Dictionary = Dictionary(entries: seq<Entry>, duplicateKeys: bool)

  // ----- Character classes -----

  datatype CharClass = KeyClass | TokenClass | DigitClass

  predicate IsKeyStart(c: byte) { IsLower(c) || c == STAR }

  predicate IsTokenStart(c: byte) { IsAlpha(c) || c == STAR }

  predicate IsTchar(c: byte) {
    || IsAlpha(c) || IsDigit(c)
    || c == 0x21 || 0x23 <= c <= 0x27 || c == STAR || c == PLUS || c == MINUS || c == DOT
    || c == 0x5E || c == UNDERSCORE || c == 0x60 || c == 0x7C || c == 0x7E
  }

  predicate InClass(c: byte, cl: CharClass) {
    match cl
    case KeyClass => IsLower(c) || IsDigit(c) || c == UNDERSCORE || c == MINUS || c == DOT || c == STAR
    case TokenClass => IsTchar(c) || c == COLON || c == SLASH
    case DigitClass => IsDigit(c)
  }

  predicate AllIn(s: bytes, cl: CharClass) { forall i :: 0 <= i < |s| ==> InClass(s[i], cl) }

  /** `s` does not continue a run of class `cl`. */
  predicate Ends(s: bytes, cl: CharClass) { s == [] || !InClass(s[0], cl) }

  /** Length of the longest prefix of class `cl`. */
  function RunLength(s: bytes, cl: CharClass): (n: nat)
    ensures n <= |s| && AllIn(s[..n], cl) && Ends(s[n..], cl)
  {
    if Ends(s, cl) then 0 else 1 + RunLength(s[1..], cl)
  }

  // ----- Well-formed values -----

  predicate ValidKey(k: bytes) { k != [] && IsKeyStart(k[0]) && AllIn(k[1..], KeyClass) }

  predicate ValidToken(t: bytes) { t != [] && IsTokenStart(t[0]) && AllIn(t[1..], TokenClass) }

  predicate ValidBare(b: Bare) {
    match b
    case Integer(v) => -MAX_NUMBER <= v <= MAX_NUMBER
    case Decimal(v) => -MAX_NUMBER <= v <= MAX_NUMBER
    case String(t) => AllPrintable(t)
    case Token(t) => ValidToken(t)
    case ByteSequence(_) => true
    case Boolean(_) => true
  }

  predicate ValidParam(p: Param) { ValidKey(p.key) && ValidBare(p.value) }

  predicate ValidParams(ps: seq<Param>) {
    && |ps| <= MAX_PARAMS
    && (forall i :: 0 <= i < |ps| ==> ValidParam(ps[i]))
    && DistinctKeys(ps)
  }

  predicate DistinctKeys<V>(ps: seq<Keyed<V>>) {
    forall i, j :: 0 <= i < j < |ps| ==> ps[i].key != ps[j].key
  }

  predicate ValidItem(x: Item) { ValidBare(x.bare) && ValidParams(x.params) }

  predicate ValidInnerList(l: InnerList) {
    && |l.items| <= MAX_ITEMS
    && (forall i :: 0 <= i < |l.items| ==> ValidItem(l.items[i]))
    && ValidParams(l.params)
  }

  predicate ValidMember(m: Member) {
    match m
    case ItemMember(x) => ValidItem(x)
    case ListMember(l) => ValidInnerList(l)
  }

  predicate ValidDictionary(d: Dictionary) {
    && |d.entries| <= MAX_ITEMS
    && (forall i :: 0 <= i < |d.entries| ==> ValidKey(d.entries[i].key) && ValidMember(d.entries[i].value))
    && DistinctKeys(d.entries)
  }

  // ----- What the serializer emits -----

  function DigitChar(d: int): byte
    requires 0 <= d < 10
  {
    (0x30 + d) as byte
  }

  function Digits(n: nat): (s: bytes)
    ensures s != [] && AllIn(s, DigitClass)
  {
    if n < 10 then [DigitChar(n)] else Digits(n / 10) + [DigitChar(n % 10)]
  }

  function Abs(v: int): nat { if v < 0 then -v else v }

  function Sign(v: int): bytes { if v < 0 then [MINUS] else [] }

  function WriteInteger(v: int): bytes { Sign(v) + Digits(Abs(v)) }

  /** Three fractional digits with trailing zeros dropped, at least one kept. */
  function Fraction(f: nat): (s: bytes)
    requires f < 1000
    ensures 1 <= |s| <= 3 && AllIn(s, DigitClass)
  {
    if f % 10 != 0 then [DigitChar(f / 100), DigitChar(f / 10 % 10), DigitChar(f % 10)]
    else if f / 10 % 10 != 0 then [DigitChar(f / 100), DigitChar(f / 10 % 10)]
    else [DigitChar(f / 100)]
  }

  function WriteDecimal(v: int): bytes {
    Sign(v) + (Digits(Abs(v) / 1000) + ([DOT] + Fraction(Abs(v) % 1000)))
  }

  predicate NeedsEscape(c: byte) { c == DQUOTE || c == BACKSLASH }

  function Escape(s: bytes): bytes {
    if s == [] then []
    else (if NeedsEscape(s[0]) then [BACKSLASH, s[0]] else [s[0]]) + Escape(s[1..])
  }

  function WriteBare(b: Bare): bytes {
    match b
    case Integer(v) => WriteInteger(v)
    case Decimal(v) => WriteDecimal(v)
    case String(t) => [DQUOTE] + (Escape(t) + [DQUOTE])
    case Token(t) => t
    case ByteSequence(c) => [COLON] + (Base64.Encode(c) + [COLON])
    case Boolean(f) => [QUESTION, if f then 0x31 else 0x30]
  }

  function WriteParam(p: Param): bytes {
    [SEMICOLON] + (p.key + (if p.value == Boolean(true) then [] else [EQUALS] + WriteBare(p.value)))
  }

  function WriteParams(ps: seq<Param>): bytes {
    if ps == [] then [] else WriteParam(ps[0]) + WriteParams(ps[1..])
  }

  function WriteItem(x: Item): bytes { WriteBare(x.bare) + WriteParams(x.params) }

  /** Items separated by single spaces. */
  function WriteItems(xs: seq<Item>): bytes {
    if xs == [] then []
    else if |xs| == 1 then WriteItem(xs[0])
    else WriteItem(xs[0]) + ([SPACE] + WriteItems(xs[1..]))
  }

  function WriteInnerList(l: InnerList): bytes {
    [LPAREN] + (WriteItems(l.items) + ([RPAREN] + WriteParams(l.params)))
  }

  function WriteMember(m: Member): bytes {
    match m
    case ItemMember(x) => WriteItem(x)
    case ListMember(l) => WriteInnerList(l)
  }

  // ----- What the reader accepts -----

  function SkipSpaces(s: bytes): (r: bytes)
    ensures |r| <= |s| && !StartsWith(r, SPACE)
  {
    if StartsWith(s, SPACE) then SkipSpaces(s[1..]) else s
  }

  function ReadKey(s: bytes): (r: Parse<bytes>)
    ensures r.Parsed? ==> ValidKey(r.value) && |r.rest| < |s| && s == r.value + r.rest
  {
    if s == [] || !IsKeyStart(s[0]) then Declined
    else
      var n := 1 + RunLength(s[1..], KeyClass);
      assert s[1..n] == s[1..][..n - 1];
      Parsed(s[..n], s[n..])
  }

  function ReadToken(s: bytes): (r: Parse<bytes>)
    ensures r.Parsed? ==> ValidToken(r.value) && |r.rest| < |s|
  {
    if s == [] || !IsTokenStart(s[0]) then Declined
    else
      var n := 1 + RunLength(s[1..], TokenClass);
      assert s[1..n] == s[1..][..n - 1];
      Parsed(s[..n], s[n..])
  }

  /** The text of a string up to its closing quote, unescaped. */
  function ReadText(s: bytes): (r: Parse<bytes>)
    ensures r.Parsed? ==> AllPrintable(r.value) && |r.rest| < |s|
  {
    if s == [] then Declined
    else if s[0] == DQUOTE then Parsed([], s[1..])
    else if s[0] == BACKSLASH then
      if |s| < 2 || !NeedsEscape(s[1]) then Declined else Prepend(s[1], ReadText(s[2..]))
    else if !IsPrintable(s[0]) then Declined
    else Prepend(s[0], ReadText(s[1..]))
  }

  function Prepend(c: byte, r: Parse<bytes>): Parse<bytes> {
    if r.Parsed? then Parsed([c] + r.value, r.rest) else Declined
  }

  function ReadContent(s: bytes): (r: Parse<bytes>)
    ensures r.Parsed? ==> |r.rest| < |s|
  {
    var n := IndexOfByte(s, COLON);
    if n == |s| || !Base64.PaddingOk(s[..n]) || Base64.Decode(s[..n]) == None then Declined
    else Parsed(Base64.Decode(s[..n]).value, s[n + 1..])
  }

  /** The value of a digit string. */
  function DigitsValue(s: bytes): (v: nat)
    requires AllIn(s, DigitClass)
  {
    if s == [] then 0
    else
      assert InClass(s[|s| - 1], DigitClass);
      DigitsValue(s[..|s| - 1]) * 10 + (s[|s| - 1] as int - 0x30)
  }

  /** At most three fractional digits, in thousandths. */
  function FractionValue(s: bytes): nat
    requires AllIn(s, DigitClass) && 1 <= |s| <= 3
  {
    DigitsValue(s) * (if |s| == 1 then 100 else if |s| == 2 then 10 else 1)
  }

  function ReadNumber(s: bytes): (r: Parse<Bare>)
    ensures r.Parsed? ==> |r.rest| < |s|
  {
    if StartsWith(s, MINUS) then ReadMagnitude(s[1..], -1) else ReadMagnitude(s, 1)
  }

  function ReadMagnitude(s: bytes, sign: int): (r: Parse<Bare>)
    ensures r.Parsed? ==> |r.rest| < |s|
  {
    var n := RunLength(s, DigitClass);
    if n == 0 || n > 15 then Declined
    else if !StartsWith(s[n..], DOT) then Parsed(Integer(sign * DigitsValue(s[..n])), s[n..])
    else if n > 12 then Declined
    else
      var t := s[n + 1..];
      var k := RunLength(t, DigitClass);
      if k == 0 || k > 3 then Declined
      else Parsed(Decimal(sign * (DigitsValue(s[..n]) * 1000 + FractionValue(t[..k]))), t[k..])
  }

  function ReadBare(s: bytes): (r: Parse<Bare>)
    ensures r.Parsed? ==> |r.rest| < |s|
  {
    if s == [] then Declined
    else if s[0] == MINUS || IsDigit(s[0]) then ReadNumber(s)
    else if s[0] == DQUOTE then
      var r := ReadText(s[1..]); if r.Parsed? then Parsed(String(r.value), r.rest) else Declined
    else if s[0] == COLON then
      var r := ReadContent(s[1..]); if r.Parsed? then Parsed(ByteSequence(r.value), r.rest) else Declined
    else if s[0] == QUESTION then
      if |s| < 2 || (s[1] != 0x30 && s[1] != 0x31) then Declined else Parsed(Boolean(s[1] == 0x31), s[2..])
    else if IsTokenStart(s[0]) then
      var r := ReadToken(s); if r.Parsed? then Parsed(Token(r.value), r.rest) else Declined
    else Declined
  }

  /** What follows a key: `=` and a value, or nothing for a true Boolean. */
  function ReadValue(s: bytes): (r: Parse<Bare>)
    ensures r.Parsed? ==> |r.rest| <= |s|
  {
    if StartsWith(s, EQUALS) then ReadBare(s[1..]) else Parsed(Boolean(true), s)
  }

  function ReadParam(s: bytes): (r: Parse<Param>)
    ensures r.Parsed? ==> |r.rest| < |s|
  {
    var k := ReadKey(SkipSpaces(s));
    if k.Declined? then Declined
    else
      var v := ReadValue(k.rest);
      if v.Declined? then Declined else Parsed(Keyed(k.value, v.value), v.rest)
  }

  /** Every `;`-introduced parameter in the order it appears, repeats included. */
  function ReadRawParams(s: bytes): (r: Parse<seq<Param>>)
    ensures r.Parsed? ==> |r.rest| <= |s|
    decreases |s|
  {
    if !StartsWith(s, SEMICOLON) then Parsed([], s)
    else
      var p := ReadParam(s[1..]);
      if p.Declined? then Declined
      else
        var more := ReadRawParams(p.rest);
        if more.Declined? then Declined else Parsed([p.value] + more.value, more.rest)
  }

  /** Index of the first pair with this key, or the length when there is none. */
  function IndexOf<V>(ps: seq<Keyed<V>>, key: bytes): (i: nat)
    ensures i <= |ps| && (i < |ps| ==> ps[i].key == key)
    ensures forall j :: 0 <= j < i ==> ps[j].key != key
  {
    if ps == [] || ps[0].key == key then 0 else 1 + IndexOf(ps[1..], key)
  }

  /** A repeated key overwrites in place; a new one goes last. */
  function Put<V>(ps: seq<Keyed<V>>, p: Keyed<V>): (r: seq<Keyed<V>>)
    ensures |ps| <= |r| <= |ps| + 1
  {
    var i := IndexOf(ps, p.key);
    if i < |ps| then ps[i := p] else ps + [p]
  }

  function Fold<V>(acc: seq<Keyed<V>>, raw: seq<Keyed<V>>): seq<Keyed<V>>
    decreases |raw|
  {
    if raw == [] then acc else Fold(Put(acc, raw[0]), raw[1..])
  }

  function ReadParams(s: bytes): (r: Parse<seq<Param>>)
    ensures r.Parsed? ==> |r.rest| <= |s|
  {
    LimitParams([], ReadRawParams(s))
  }

  /** Folds raw parameters into `acc`; more than MAX_PARAMS distinct keys are refused. */
  function LimitParams(acc: seq<Param>, raw: Parse<seq<Param>>): Parse<seq<Param>> {
    if raw.Declined? || |Fold(acc, raw.value)| > MAX_PARAMS then Declined
    else Parsed(Fold(acc, raw.value), raw.rest)
  }

  function ReadItem(s: bytes): (r: Parse<Item>)
    ensures r.Parsed? ==> |r.rest| < |s|
  {
    var b := ReadBare(s);
    if b.Declined? then Declined
    else
      var ps := ReadParams(b.rest);
      if ps.Declined? then Declined else Parsed(Item(b.value, ps.value), ps.rest)
  }

  /** The items of an inner list up to and including its `)`. */
  function ReadItems(s: bytes): (r: Parse<seq<Item>>)
    ensures r.Parsed? ==> |r.rest| < |s|
    decreases |s|
  {
    if s == [] then Declined
    else if s[0] == RPAREN then Parsed([], s[1..])
    else
      var x := ReadItem(s);
      if x.Declined? then Declined
      else if StartsWith(x.rest, RPAREN) then Parsed([x.value], x.rest[1..])
      else if !StartsWith(x.rest, SPACE) then Declined
      else
        var more := ReadItems(SkipSpaces(x.rest));
        if more.Declined? then Declined else Parsed([x.value] + more.value, more.rest)
  }

  /** An inner list, after its `(`. */
  function ReadInnerList(s: bytes): (r: Parse<InnerList>)
    ensures r.Parsed? ==> |r.rest| < |s|
  {
    var xs := ReadItems(SkipSpaces(s));
    if xs.Declined? || |xs.value| > MAX_ITEMS then Declined
    else
      var ps := ReadParams(xs.rest);
      if ps.Declined? then Declined else Parsed(InnerList(xs.value, ps.value), ps.rest)
  }

  function ReadMember(s: bytes): (r: Parse<Member>)
    ensures r.Parsed? ==> |r.rest| < |s|
  {
    if StartsWith(s, LPAREN) then
      var l := ReadInnerList(s[1..]); if l.Declined? then Declined else Parsed(ListMember(l.value), l.rest)
    else
      var x := ReadItem(s); if x.Declined? then Declined else Parsed(ItemMember(x.value), x.rest)
  }

  /** What follows a dictionary key: `=` and a member, or the parameters of a true Boolean. */
  function ReadEntryValue(s: bytes): (r: Parse<Member>)
    ensures r.Parsed? ==> |r.rest| <= |s|
  {
    if StartsWith(s, EQUALS) then ReadMember(s[1..])
    else
      var ps := ReadParams(s);
      if ps.Declined? then Declined else Parsed(ItemMember(Item(Boolean(true), ps.value)), ps.rest)
  }

  function ReadEntry(s: bytes): (r: Parse<Entry>)
    ensures r.Parsed? ==> |r.rest| < |s|
  {
    var k := ReadKey(s);
    if k.Declined? then Declined
    else
      var m := ReadEntryValue(k.rest);
      if m.Declined? then Declined else Parsed(Keyed(k.value, m.value), m.rest)
  }

  /** Every entry in the order it appears, repeats included; consumes the whole input. */
  function ReadRawEntries(s: bytes): Option<seq<Entry>>
    decreases |s|
  {
    if s == [] then Some([])
    else
      var e := ReadEntry(s);
      if e.Declined? then None
      else
        var t := SkipBlank(e.rest);
        if t == [] then Some([e.value])
        else if t[0] != COMMA then None
        else
          var u := SkipBlank(t[1..]);
          if u == [] then None
          else
            var more := ReadRawEntries(u);
            if more.None? then None else Some([e.value] + more.value)
  }

  /** Entries merged by key; a dictionary of more than MAX_ITEMS distinct keys is refused. */
  function ReadDictionary(s: bytes): Option<Dictionary> {
    var raw := ReadRawEntries(s);
    if raw.None? || |Fold([], raw.value)| > MAX_ITEMS then None
    else Some(Dictionary(Fold([], raw.value), !DistinctKeys(raw.value)))
  }

  // ----- Entry points -----

  function ParseDictionary(input: bytes): Option<Dictionary> {
    if |input| > MAX_LENGTH then None else ReadDictionary(SkipSpaces(input))
  }

  function ParseItem(input: bytes): Option<Item> {
    if |input| > MAX_LENGTH then None
    else
      var x := ReadItem(SkipSpaces(input));
      if x.Declined? || SkipSpaces(x.rest) != [] then None else Some(x.value)
  }

  // ----- Lookups -----

  function Get<V>(ps: seq<Keyed<V>>, key: bytes): Option<V> {
    var i := IndexOf(ps, key);
    if i < |ps| then Some(ps[i].value) else None
  }
}
