/**
 The "\u" escapes of JSON strings against an independent UTF-8 decoder: section 7 of RFC 8259 and
 section 3 of RFC 3629.
 */
module JsonUnicode {
  import opened Bytes
  import opened JsonValue
  import opened JsonText

  predicate IsScalar(u: nat) { u < 0x110000 && !IsHighSurrogate(u) && !IsLowSurrogate(u) }

  predicate IsContinuation(c: byte) { 0x80 <= c < 0xC0 }

  /** The character that a byte sequence of RFC 3629 encodes; over-long forms, surrogates and values
      above 10FFFF are refused. */
  function Utf8Decode(b: bytes): (r: Option<nat>)
    ensures r.Some? ==> IsScalar(r.value)
  {
    if |b| == 1 && b[0] < 0x80 then Some(b[0])
    else if |b| == 2 && 0xC2 <= b[0] < 0xE0 && IsContinuation(b[1]) then Some(Join(b[0] - 0xC0, b[1]))
    else if |b| == 3 && 0xE0 <= b[0] < 0xF0 && IsContinuation(b[1]) && IsContinuation(b[2]) &&
            (b[0] == 0xE0 ==> b[1] >= 0xA0) && (b[0] == 0xED ==> b[1] < 0xA0) then
      Some(Join(Join(b[0] - 0xE0, b[1]), b[2]))
    else if |b| == 4 && 0xF0 <= b[0] < 0xF5 && IsContinuation(b[1]) && IsContinuation(b[2]) && IsContinuation(b[3]) &&
            (b[0] == 0xF0 ==> b[1] >= 0x90) && (b[0] == 0xF4 ==> b[1] < 0x90) then
      Some(Join(Join(Join(b[0] - 0xF0, b[1]), b[2]), b[3]))
    else None
  }

  /** Six more bits, from a continuation byte. */
  function Join(high: nat, c: byte): (n: nat)
    requires IsContinuation(c)
    ensures n / 64 == high && n % 64 == c - 0x80
  {
    high * 64 + (c - 0x80)
  }

  /** What the parser pushes for a scalar value decodes to that value. */
  lemma Utf8RoundTrip(u: nat)
    requires IsScalar(u)
    ensures Utf8Decode(Utf8(u)) == Some(u)
  {
    var a, b := u / 64, u / 4096;
    assert u == a * 64 + u % 64 && a == b * 64 + a % 64 && b == b / 64 * 64 + b % 64;
    assert b == a / 64 && u / 262144 == b / 64;
  }

  /** No other byte sequence decodes to it, so the form pushed is the shortest. */
  lemma Utf8Unique(b: bytes)
    requires Utf8Decode(b).Some?
    ensures b == Utf8(Utf8Decode(b).value)
  {
    hide Join;
    var u := Utf8Decode(b).value;
    if |b| >= 3 {
      Divide64(u);
    }
  }

  lemma Divide64(u: nat)
    ensures u / 4096 == u / 64 / 64 && u / 262144 == u / 64 / 64 / 64
  {
  }

  /** A four-digit escape of a character of the basic plane, in either letter case. */
  lemma BasicEscape(s: bytes, p: nat, u: nat)
    requires QuadHex(s, p) == Some(u) && IsScalar(u)
    ensures ReadCodepoint(s, p).Some? && ReadCodepoint(s, p).value.1 == p + 4
    ensures Utf8Decode(ReadCodepoint(s, p).value.0) == Some(u)
  {
    hide QuadHex, Utf8, Utf8Decode;
    Utf8RoundTrip(u);
  }

  /** The surrogate pair of a character beyond the basic plane. */
  lemma PairEscape(s: bytes, p: nat, u: nat)
    requires 0x10000 <= u < 0x110000 && p + 6 <= |s|
    requires QuadHex(s, p) == Some(0xD800 + (u - 0x10000) / 1024)
    requires s[p + 4] == BACKSLASH && s[p + 5] == 'u' as int
    requires QuadHex(s, p + 6) == Some(0xDC00 + (u - 0x10000) % 1024)
    ensures ReadCodepoint(s, p).Some? && ReadCodepoint(s, p).value.1 == p + 10
    ensures Utf8Decode(ReadCodepoint(s, p).value.0) == Some(u)
  {
    hide QuadHex, Utf8, Utf8Decode;
    Utf8RoundTrip(u);
    var high := (u - 0x10000) / 1024;
    assert high * 1024 + (u - 0x10000) % 1024 + 0x10000 == u;
  }

  /** A high surrogate, "\u" and a low surrogate stand at p. */
  predicate IsPair(s: bytes, p: nat) {
    QuadHex(s, p).Some? && IsHighSurrogate(QuadHex(s, p).value) &&
    p + 6 <= |s| && s[p + 4] == BACKSLASH && s[p + 5] == 'u' as int &&
    QuadHex(s, p + 6).Some? && IsLowSurrogate(QuadHex(s, p + 6).value)
  }

  /** Exactly the scalar values and the complete pairs are accepted, so every unpaired surrogate is
      rejected; and whatever is accepted adds one valid UTF-8 character to the string. */
  lemma EscapesAccepted(s: bytes, p: nat)
    ensures ReadCodepoint(s, p).Some? <==> (QuadHex(s, p).Some? && IsScalar(QuadHex(s, p).value)) || IsPair(s, p)
    ensures ReadCodepoint(s, p).Some? ==> Utf8Decode(ReadCodepoint(s, p).value.0).Some?
  {
    hide QuadHex, Utf8, Utf8Decode;
    if IsPair(s, p) {
      var u, v := QuadHex(s, p).value, QuadHex(s, p + 6).value;
      var c := (u - 0xD800) * 1024 + (v - 0xDC00) + 0x10000;
      assert (c - 0x10000) / 1024 == u - 0xD800 && (c - 0x10000) % 1024 == v - 0xDC00;
      PairEscape(s, p, c);
    } else if QuadHex(s, p).Some? && IsScalar(QuadHex(s, p).value) {
      BasicEscape(s, p, QuadHex(s, p).value);
    }
  }
}
