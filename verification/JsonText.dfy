/**
 The text form of JSON values: what value::serialize of picojson/picojson.h writes, and what its
 parser accepts at a position of a text. RFC 8259.
 */
module JsonText {
  import opened Bytes
  import opened JsonNumber
  import opened JsonValue

  const QUOTE: byte := '"' as int
  const BACKSLASH: byte := '\\' as int
  const COMMA: byte := ',' as int
  const COLON: byte := ':' as int
  const OPEN_ARRAY: byte := '[' as int
  const CLOSE_ARRAY: byte := ']' as int
  const OPEN_OBJECT: byte := '{' as int
  const CLOSE_OBJECT: byte := '}' as int
  const MINUS: byte := '-' as int
  const ZERO: byte := '0' as int

  /** The number buffer holds 255 characters and a terminator. */
  const MAX_NUMBER_TEXT: nat := 255

  const NULL_TEXT: bytes := ['n' as int, 'u' as int, 'l' as int, 'l' as int]
  const TRUE_TEXT: bytes := ['t' as int, 'r' as int, 'u' as int, 'e' as int]
  const FALSE_TEXT: bytes := ['f' as int, 'a' as int, 'l' as int, 's' as int, 'e' as int]

  // ----- integers -----

  function Digits(n: nat): (r: bytes)
    ensures |r| >= 1
  {
    if n < 10 then [ZERO + n] else Digits(n / 10) + [ZERO + n % 10]
  }

  /** "%.f" of an integral number. */
  function IntegerText(n: int): (r: bytes)
    ensures |r| >= 1
  {
    if n < 0 then [MINUS] + Digits(-n) else Digits(n)
  }

  predicate IsDigit(c: byte) { ZERO <= c <= ZERO + 9 }

  predicate AllDigits(t: bytes) {
    t == [] || (IsDigit(t[|t| - 1]) && AllDigits(t[..|t| - 1]))
  }

  function DigitsValue(t: bytes): (n: nat)
    requires AllDigits(t)
  {
    if t == [] then 0 else 10 * DigitsValue(t[..|t| - 1]) + (t[|t| - 1] - ZERO)
  }

  predicate IsInteger(t: bytes) {
    if t != [] && t[0] == MINUS then |t| > 1 && AllDigits(t[1..]) else t != [] && AllDigits(t)
  }

  function IntegerValue(t: bytes): (n: int)
    requires IsInteger(t)
  {
    if t[0] == MINUS then -(DigitsValue(t[1..]) as int) else DigitsValue(t)
  }

  /** What is left of the text of a number after it went through the buffer. */
  function NumberText(n: int): (r: bytes)
    ensures 1 <= |r| <= MAX_NUMBER_TEXT
  {
    if |IntegerText(n)| <= MAX_NUMBER_TEXT then IntegerText(n) else IntegerText(n)[..MAX_NUMBER_TEXT]
  }

  // ----- numerals with a fraction or an exponent, as strtod accepts them -----

  function SkipDigits(t: bytes, i: nat): (j: nat)
    requires i <= |t|
    ensures i <= j <= |t|
    decreases |t| - i
  {
    if i < |t| && IsDigit(t[i]) then SkipDigits(t, i + 1) else i
  }

  predicate IsSign(c: byte) { c == MINUS || c == '+' as int }

  /** strtod converts the whole of t: optional sign, digits with an optional point, optional exponent. */
  predicate IsNumeral(t: bytes) {
    var i := if t != [] && IsSign(t[0]) then 1 else 0;
    var j := SkipDigits(t, i);
    var point := j < |t| && t[j] == '.' as int;
    var k := if point then SkipDigits(t, j + 1) else j;
    var digits := (j - i) + (if point then k - j - 1 else 0);
    digits > 0 && (k == |t| || IsExponent(t, k))
  }

  predicate IsExponent(t: bytes, k: nat)
    requires k < |t|
  {
    (t[k] == 'e' as int || t[k] == 'E' as int) &&
    var i := if k + 1 < |t| && IsSign(t[k + 1]) then k + 2 else k + 1;
    i < |t| && SkipDigits(t, i) == |t|
  }

  /** strtod is exact for the integers that a double holds, minus zero aside; what it makes of the others is not
      interpreted. */
  function IntegerToken(t: bytes): (r: Value)
    requires IsInteger(t)
  {
    var n := IntegerValue(t);
    if IsDouble(n) && !(n == 0 && t[0] == MINUS) then Number(n) else Numeral(t)
  }

  /** The value of a number token, or None if strtod does not reach its end. */
  function ReadNumeral(t: bytes): (r: Option<Value>) {
    if IsInteger(t) then Some(IntegerToken(t))
    else if IsNumeral(t) then Some(Numeral(t))
    else None
  }

  predicate IsNumberByte(c: byte) {
    IsDigit(c) || IsSign(c) || c == '.' as int || c == 'e' as int || c == 'E' as int
  }

  // ----- strings -----

  function LowerHex(d: nat): (c: byte)
    requires d < 16
  {
    if d < 10 then ZERO + d else 'a' as int + (d - 10)
  }

  /** serialize_str for one byte. */
  function EscapeByte(c: byte): (r: bytes) {
    if c == QUOTE then [BACKSLASH, QUOTE]
    else if c == BACKSLASH then [BACKSLASH, BACKSLASH]
    else if c == '/' as int then [BACKSLASH, '/' as int]
    else if c == 8 then [BACKSLASH, 'b' as int]
    else if c == 12 then [BACKSLASH, 'f' as int]
    else if c == 10 then [BACKSLASH, 'n' as int]
    else if c == 13 then [BACKSLASH, 'r' as int]
    else if c == 9 then [BACKSLASH, 't' as int]
    else if c < 32 || c == 127 then [BACKSLASH, 'u' as int, ZERO, ZERO, LowerHex(c / 16), LowerHex(c % 16)]
    else [c]
  }

  function EscapedBody(s: bytes): (r: bytes) {
    if s == [] then [] else EscapeByte(s[0]) + EscapedBody(s[1..])
  }

  function StringText(s: bytes): (r: bytes) {
    [QUOTE] + (EscapedBody(s) + [QUOTE])
  }

  // ----- serializer -----

  /** What serialize writes for a value whose numbers are integers. */
  function Text(v: Value): (r: bytes)
    requires Integral(v)
    decreases v
  {
    match v
    case Null => NULL_TEXT
    case Boolean(b) => if b then TRUE_TEXT else FALSE_TEXT
    case Number(n) => NumberText(n)
    case String(s) => StringText(s)
    case Array(items) => [OPEN_ARRAY] + ItemsText(items)
    case Object(members) => [OPEN_OBJECT] + MembersText(members)
  }

  /** The elements with commas between them, and the closing bracket. */
  function ItemsText(items: seq<Value>): (r: bytes)
    requires AllIntegral(items)
    decreases items
  {
    if items == [] then [CLOSE_ARRAY]
    else if |items| == 1 then Text(items[0]) + [CLOSE_ARRAY]
    else Text(items[0]) + ([COMMA] + ItemsText(items[1..]))
  }

  function MemberText(m: Member): (r: bytes)
    requires Integral(m.value)
    decreases m
  {
    StringText(m.key) + ([COLON] + Text(m.value))
  }

  function MembersText(members: seq<Member>): (r: bytes)
    requires MembersIntegral(members)
    decreases members
  {
    if members == [] then [CLOSE_OBJECT]
    else if |members| == 1 then MemberText(members[0]) + [CLOSE_OBJECT]
    else MemberText(members[0]) + ([COMMA] + MembersText(members[1..]))
  }

  // ----- parser: each function reads the text s from position p on -----

  predicate IsSpace(c: byte) { c == 32 || c == 9 || c == 10 || c == 13 }

  function SkipSpace(s: bytes, p: nat): (q: nat)
    requires p <= |s|
    ensures p <= q <= |s|
    decreases |s| - p
  {
    if p < |s| && IsSpace(s[p]) then SkipSpace(s, p + 1) else p
  }

  /** The byte c comes next, after white space. */
  predicate Expects(s: bytes, p: nat, c: byte)
    requires p <= |s|
  {
    var q := SkipSpace(s, p);
    q < |s| && s[q] == c
  }

  function HexValue(c: byte): (r: Option<nat>)
    ensures r.Some? ==> r.value < 16
  {
    if '0' as int <= c <= '9' as int then Some(c - '0' as int)
    else if 'A' as int <= c <= 'F' as int then Some(c - 'A' as int + 10)
    else if 'a' as int <= c <= 'f' as int then Some(c - 'a' as int + 10)
    else None
  }

  /** The value of n more hexadecimal digits, with u read so far. */
  function ReadHex(s: bytes, p: nat, n: nat, u: nat): (r: Option<nat>)
    decreases n
  {
    if n == 0 then Some(u)
    else if p < |s| && HexValue(s[p]).Some? then ReadHex(s, p + 1, n - 1, u * 16 + HexValue(s[p]).value)
    else None
  }

  lemma {:induction false} ReadHexBound(s: bytes, p: nat, n: nat, u: nat)
    requires ReadHex(s, p, n, u).Some?
    ensures p + n <= |s| || n == 0
    decreases n
  {
    if n > 0 { ReadHexBound(s, p + 1, n - 1, u * 16 + HexValue(s[p]).value); }
  }

  /** Four hexadecimal digits at p. */
  function QuadHex(s: bytes, p: nat): (r: Option<nat>)
    ensures r.Some? ==> p + 4 <= |s| && r.value < 65536
  {
    if ReadHex(s, p, 4, 0).Some? then
      ReadHexBound(s, p, 4, 0);
      Some(4096 * HexValue(s[p]).value + 256 * HexValue(s[p + 1]).value + 16 * HexValue(s[p + 2]).value +
      HexValue(s[p + 3]).value)
    else None
  }

  lemma QuadHexIsReadHex(s: bytes, p: nat)
    ensures QuadHex(s, p) == ReadHex(s, p, 4, 0)
  {
    if ReadHex(s, p, 4, 0).Some? {
      hide HexValue;
      var a, b, c := HexValue(s[p]).value, HexValue(s[p + 1]).value, HexValue(s[p + 2]).value;
      assert ReadHex(s, p, 4, 0) == ReadHex(s, p + 1, 3, a) == ReadHex(s, p + 2, 2, a * 16 + b);
      assert ReadHex(s, p + 2, 2, a * 16 + b) == ReadHex(s, p + 3, 1, (a * 16 + b) * 16 + c);
      assert ReadHex(s, p + 4, 0, ((a * 16 + b) * 16 + c) * 16 + HexValue(s[p + 3]).value).Some?;
    }
  }

  /** The bytes pushed for a code point. */
  function Utf8(u: nat): (r: bytes)
    requires u < 0x110000
    ensures 1 <= |r| <= 4
  {
    if u < 0x80 then [u]
    else if u < 0x800 then [0xC0 + u / 64, 0x80 + u % 64]
    else if u < 0x10000 then [0xE0 + u / 4096, 0x80 + u / 64 % 64, 0x80 + u % 64]
    else [0xF0 + u / 262144, 0x80 + u / 4096 % 64, 0x80 + u / 64 % 64, 0x80 + u % 64]
  }

  predicate IsHighSurrogate(u: nat) { 0xD800 <= u < 0xDC00 }
  predicate IsLowSurrogate(u: nat) { 0xDC00 <= u <= 0xDFFF }

  /** _parse_codepoint: the text after "\u". */
  function ReadCodepoint(s: bytes, p: nat): (r: Option<(bytes, nat)>)
    ensures r.Some? ==> p < r.value.1 <= |s|
  {
    match QuadHex(s, p)
    case None => None
    case Some(u) =>
      if IsLowSurrogate(u) then None
      else if !IsHighSurrogate(u) then Some((Utf8(u), p + 4))
      else if !(p + 6 <= |s| && s[p + 4] == BACKSLASH && s[p + 5] == 'u' as int) then None
      else
        match QuadHex(s, p + 6)
        case None => None
        case Some(v) =>
          if IsLowSurrogate(v) then Some((Utf8((u - 0xD800) * 1024 + (v - 0xDC00) + 0x10000), p + 10)) else None
  }

  /** The text after a backslash. */
  function ReadEscape(s: bytes, p: nat): (r: Option<(bytes, nat)>)
    ensures r.Some? ==> p < r.value.1 <= |s|
  {
    if p >= |s| then None
    else
      var c := s[p];
      if c == QUOTE || c == BACKSLASH || c == '/' as int then Some(([c], p + 1))
      else if c == 'b' as int then Some(([8], p + 1))
      else if c == 'f' as int then Some(([12], p + 1))
      else if c == 'n' as int then Some(([10], p + 1))
      else if c == 'r' as int then Some(([13], p + 1))
      else if c == 't' as int then Some(([9], p + 1))
      else if c == 'u' as int then ReadCodepoint(s, p + 1)
      else None
  }

  /** One byte or escape of a string body. */
  function ReadChar(s: bytes, p: nat): (r: Option<(bytes, nat)>)
    ensures r.Some? ==> p < r.value.1 <= |s|
  {
    if p >= |s| || s[p] < 32 then None
    else if s[p] == BACKSLASH then ReadEscape(s, p + 1)
    else Some(([s[p]], p + 1))
  }

  /** A string body up to and including the closing quote. */
  function ReadString(s: bytes, p: nat): (r: Option<(bytes, nat)>)
    ensures r.Some? ==> p < r.value.1 <= |s|
    decreases |s| - p
  {
    if p < |s| && s[p] == QUOTE then Some(([], p + 1))
    else
      match ReadChar(s, p)
      case None => None
      case Some((c, q)) =>
        match ReadString(s, q)
        case None => None
        case Some((rest, end)) => Some((c + rest, end))
  }

  function NumberEnd(s: bytes, p: nat): (q: nat)
    requires p <= |s|
    ensures p <= q <= |s|
    ensures p < |s| && IsNumberByte(s[p]) ==> p < q
    decreases |s| - p
  {
    if p < |s| && IsNumberByte(s[p]) then NumberEnd(s, p + 1) else p
  }

  predicate Matches(s: bytes, p: nat, word: bytes) {
    p + |word| <= |s| && s[p..p + |word|] == word
  }

  /** _parse: a value after white space, and the position behind it. */
  function ReadValue(s: bytes, p: nat): (r: Option<(Value, nat)>)
    requires p <= |s|
    ensures r.Some? ==> p < r.value.1 <= |s|
    decreases |s| - p, 1
  {
    var q := SkipSpace(s, p);
    if q == |s| then None
    else if s[q] == 'n' as int then (if Matches(s, q + 1, NULL_TEXT[1..]) then Some((Null, q + 4)) else None)
    else if s[q] == 'f' as int then (if Matches(s, q + 1, FALSE_TEXT[1..]) then Some((Boolean(false), q + 5)) else None)
    else if s[q] == 't' as int then (if Matches(s, q + 1, TRUE_TEXT[1..]) then Some((Boolean(true), q + 4)) else None)
    else if s[q] == QUOTE then
      match ReadString(s, q + 1) {
        case None => None
        case Some((t, e)) => Some((String(t), e))
      }
    else if s[q] == OPEN_ARRAY then ReadArray(s, q + 1)
    else if s[q] == OPEN_OBJECT then ReadObject(s, q + 1)
    else if IsDigit(s[q]) || s[q] == MINUS then
      var e := NumberEnd(s, q);
      match ReadNumeral(s[q..e]) {
        case None => None
        case Some(v) => Some((v, e))
      }
    else None
  }

  /** _parse_array: the text after the opening bracket. */
  function ReadArray(s: bytes, p: nat): (r: Option<(Value, nat)>)
    requires p <= |s|
    ensures r.Some? ==> p < r.value.1 <= |s|
    decreases |s| - p, 4
  {
    if Expects(s, p, CLOSE_ARRAY) then Some((Array([]), SkipSpace(s, p) + 1))
    else
      match ReadItems(s, p)
      case None => None
      case Some((items, e)) => Some((Array(items), e))
  }

  /** The do loop of _parse_array, up to and including the closing bracket. */
  function ReadItems(s: bytes, p: nat): (r: Option<(seq<Value>, nat)>)
    requires p <= |s|
    ensures r.Some? ==> p < r.value.1 <= |s|
    decreases |s| - p, 2
  {
    match ReadValue(s, p)
    case None => None
    case Some((v, q)) =>
      if Expects(s, q, COMMA) then
        match ReadItems(s, SkipSpace(s, q) + 1) {
          case None => None
          case Some((rest, e)) => Some(([v] + rest, e))
        }
      else if Expects(s, q, CLOSE_ARRAY) then Some(([v], SkipSpace(s, q) + 1))
      else None
  }

  /** _parse_object: the text after the opening brace. */
  function ReadObject(s: bytes, p: nat): (r: Option<(Value, nat)>)
    requires p <= |s|
    ensures r.Some? ==> p < r.value.1 <= |s|
    decreases |s| - p, 4
  {
    if Expects(s, p, CLOSE_OBJECT) then Some((Object([]), SkipSpace(s, p) + 1))
    else
      match ReadMembers(s, p, [])
      case None => None
      case Some((members, e)) => Some((Object(members), e))
  }

  /** A key, a colon and a value. */
  function ReadMember(s: bytes, p: nat): (r: Option<(Member, nat)>)
    requires p <= |s|
    ensures r.Some? ==> p < r.value.1 <= |s|
    decreases |s| - p, 2
  {
    if !Expects(s, p, QUOTE) then None
    else
      match ReadString(s, SkipSpace(s, p) + 1)
      case None => None
      case Some((key, q)) =>
        if !Expects(s, q, COLON) then None
        else
          match ReadValue(s, SkipSpace(s, q) + 1)
          case None => None
          case Some((v, e)) => Some((Member(key, v), e))
  }

  /** The do loop of _parse_object; o holds the entries stored so far. */
  function ReadMembers(s: bytes, p: nat, o: seq<Member>): (r: Option<(seq<Member>, nat)>)
    requires p <= |s|
    ensures r.Some? ==> p < r.value.1 <= |s|
    decreases |s| - p, 3
  {
    match ReadMember(s, p)
    case None => None
    case Some((m, q)) =>
      var o' := Put(o, m.key, m.value);
      if Expects(s, q, COMMA) then ReadMembers(s, SkipSpace(s, q) + 1, o')
      else if Expects(s, q, CLOSE_OBJECT) then Some((o', SkipSpace(s, q) + 1))
      else None
  }
}
