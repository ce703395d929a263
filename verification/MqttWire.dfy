/**
 The primitives of MQTT/MQTTPacket/MQTTPacket.c: the variable-length "remaining length" field,
 16-bit integers, length-prefixed strings and the fixed header byte.
 Lengths are mathematical integers; bytes are stored modulo 256 where the C code truncates.
 */
module MqttWire {
  import opened Bytes

  const MAX_REMAINING_LENGTH: nat := 268435455
  const BUFFER_TOO_SHORT: int := -2

  const CONNECT: nat := 1
  const CONNACK: nat := 2
  const PUBLISH: nat := 3
  const PUBACK: nat := 4
  const PUBREC: nat := 5
  const SUBSCRIBE: nat := 8
  const SUBACK: nat := 9
  const UNSUBSCRIBE: nat := 10
  const UNSUBACK: nat := 11
  const PINGREQ: nat := 12
  const PINGRESP: nat := 13
  const DISCONNECT: nat := 14

  // ----- the fixed header byte (MQTTHeader bit fields) -----

  function HeaderByte(packetType: nat, dup: nat, qos: nat, retain: nat): (b: byte) {
    packetType % 16 * 16 + dup % 2 * 8 + qos % 4 * 2 + retain % 2
  }

  function HeaderType(b: byte): (t: nat) { b / 16 }
  function HeaderDup(b: byte): (d: nat) { b / 8 % 2 }
  function HeaderQos(b: byte): (q: nat) { b / 2 % 4 }
  function HeaderRetain(b: byte): (r: nat) { b % 2 }

  /** Every assignment of the four bit fields is read back exactly. */
  lemma HeaderFields(packetType: nat, dup: nat, qos: nat, retain: nat)
    requires packetType < 16 && dup < 2 && qos < 4 && retain < 2
    ensures var b := HeaderByte(packetType, dup, qos, retain);
            HeaderType(b) == packetType && HeaderDup(b) == dup && HeaderQos(b) == qos && HeaderRetain(b) == retain
  {
    HeaderSum(packetType, dup, qos, retain);
    HeaderQuotients(HeaderByte(packetType, dup, qos, retain));
    hide HeaderByte, HeaderType, HeaderDup, HeaderQos, HeaderRetain;
    DivMod(packetType, dup * 8 + qos * 2 + retain, 16);
    DivMod(packetType * 2 + dup, qos * 2 + retain, 8);
    DivMod(packetType, dup, 2);
    DivMod(packetType * 8 + dup * 4 + qos, retain, 2);
    DivMod(packetType * 2 + dup, qos, 4);
  }

  lemma HeaderSum(packetType: nat, dup: nat, qos: nat, retain: nat)
    requires packetType < 16 && dup < 2 && qos < 4 && retain < 2
    ensures HeaderByte(packetType, dup, qos, retain) == packetType * 16 + dup * 8 + qos * 2 + retain
  {
    assert packetType % 16 == packetType && dup % 2 == dup && qos % 4 == qos && retain % 2 == retain;
  }

  lemma HeaderQuotients(b: byte)
    ensures HeaderType(b) == b / 16 && HeaderDup(b) == b / 8 % 2 && HeaderQos(b) == b / 2 % 4 &&
            HeaderRetain(b) == b % 2
  {
  }

  /** Taking apart a number put together from a high and a low part. */
  lemma DivMod(hi: nat, lo: nat, d: nat)
    requires d in {2, 4, 8, 16, 32, 64, 128} && lo < d
    ensures (hi * d + lo) / d == hi && (hi * d + lo) % d == lo
  {
    if d == 2 {
    } else if d == 4 {
    } else if d == 8 {
    } else if d == 16 {
    } else if d == 32 {
    } else if d == 64 {
    }
  }

  // ----- the remaining-length field, section 2.2.3 of MQTT 3.1.1 -----

  /** The bytes MQTTPacket_encode writes for a length. */
  function EncodeLength(n: nat): (r: bytes)
    ensures |r| >= 1
  {
    if n < 128 then [n] else [n % 128 + 128] + EncodeLength(n / 128)
  }

  /** A byte string of the shape the standard allows for a remaining length: at most four
      bytes, the continuation bit set on all of them but the last. */
  predicate IsLengthField(f: bytes) {
    1 <= |f| <= 4 && f[|f| - 1] < 128 && forall i :: 0 <= i < |f| - 1 ==> f[i] >= 128
  }

  /** The number a length field stands for, low-order digit first. */
  function FieldValue(f: bytes): (n: nat)
    requires IsLengthField(f)
    decreases |f|
  {
    if |f| == 1 then f[0] else f[0] - 128 + 128 * FieldValue(f[1..])
  }

  datatype Decoded = Decoded(value: nat, len: nat)

  /** The value with one more digit, the continuation bit of its byte left out. */
  function AddDigit(value: nat, c: byte, multiplier: nat): (r: nat) {
    value + c % 128 * multiplier
  }

  /** The result of MQTTPacket_decodeBuf started at s[p], k bytes into the field. The length
      reported for an over-long field is 5, although only four bytes were read. */
  function DecodeFrom(s: bytes, p: nat, k: nat, multiplier: nat, value: nat): (d: Decoded)
    requires k <= 4 && FieldReadable(s, p, k)
    decreases 4 - k
  {
    if k == 4 then Decoded(value, 5)
    else
      var c := s[p + k];
      var v := AddDigit(value, c, multiplier);
      if c < 128 then Decoded(v, k + 1) else DecodeFrom(s, p, k + 1, multiplier * 128, v)
  }

  /** Every byte that the decoder reads from position p + k on lies inside the buffer. */
  predicate FieldReadable(s: bytes, p: nat, k: nat)
    requires k <= 4
    decreases 4 - k
  {
    k == 4 || (p + k < |s| && (s[p + k] < 128 || FieldReadable(s, p, k + 1)))
  }

  function DecodeLength(s: bytes, p: nat): (d: Decoded)
    requires FieldReadable(s, p, 0)
  {
    DecodeFrom(s, p, 0, 1, 0)
  }

  /** One byte of a field. */
  lemma DecodeStep(s: bytes, p: nat, k: nat, multiplier: nat, value: nat)
    requires k < 4 && FieldReadable(s, p, k)
    ensures var c := s[p + k];
            var v := AddDigit(value, c, multiplier);
            if c < 128 then DecodeFrom(s, p, k, multiplier, value) == Decoded(v, k + 1)
            else FieldReadable(s, p, k + 1) &&
                 DecodeFrom(s, p, k, multiplier, value) == DecodeFrom(s, p, k + 1, multiplier * 128, v)
  {
  }

  lemma {:induction false} DecodedLength(s: bytes, p: nat, k: nat, multiplier: nat, value: nat)
    requires k <= 4 && FieldReadable(s, p, k)
    ensures k < DecodeFrom(s, p, k, multiplier, value).len <= 5
    decreases 4 - k
  {
    if k < 4 && s[p + k] >= 128 {
      DecodedLength(s, p, k + 1, multiplier * 128, AddDigit(value, s[p + k], multiplier));
    }
  }

  lemma Distribute(first: nat, rest: nat, multiplier: nat)
    ensures first * multiplier + rest * (multiplier * 128) == (first + 128 * rest) * multiplier
  {
    assert rest * (multiplier * 128) == (128 * rest) * multiplier;
  }

  lemma {:induction false} DecodeFromField(s: bytes, p: nat, k: nat, multiplier: nat, value: nat, f: bytes)
    requires IsLengthField(f) && k + |f| <= 4 && At(s, p + k, f)
    ensures FieldReadable(s, p, k)
    ensures DecodeFrom(s, p, k, multiplier, value) == Decoded(value + FieldValue(f) * multiplier, k + |f|)
    decreases |f|
  {
    hide IsLengthField, FieldValue, At, DecodeFrom, FieldReadable, AddDigit;
    FieldFirst(s, p + k, f);
    FieldDigits(f);
    DecodeUnfold(s, p, k);
    DigitValue(value, f[0], multiplier);
    if |f| > 1 {
      var first: nat := f[0] - 128;
      FieldRest(s, p + k, f);
      DecodeFromField(s, p, k + 1, multiplier * 128, value + first * multiplier, f[1..]);
      Distribute(first, FieldValue(f[1..]), multiplier);
    }
    DecodeStep(s, p, k, multiplier, value);
  }

  lemma DecodeUnfold(s: bytes, p: nat, k: nat)
    requires k < 4 && p + k < |s|
    ensures FieldReadable(s, p, k) <==> s[p + k] < 128 || FieldReadable(s, p, k + 1)
  {
  }

  lemma DigitValue(value: nat, c: byte, multiplier: nat)
    ensures AddDigit(value, c, multiplier) == value + (if c < 128 then c else c - 128) * multiplier
  {
    assert c % 128 == if c < 128 then c else c - 128;
  }

  /** The first byte of a length field, and what it leaves to the others. */
  lemma FieldFirst(s: bytes, q: nat, f: bytes)
    requires IsLengthField(f) && At(s, q, f)
    ensures q < |s| && s[q] == f[0]
  {
    assert s[q] == s[q..q + |f|][0];
  }

  lemma FieldRest(s: bytes, q: nat, f: bytes)
    requires |f| > 1 && At(s, q, f)
    ensures At(s, q + 1, f[1..])
  {
    assert f == [f[0]] + f[1..];
    AtSplit(s, q, [f[0]], f[1..]);
  }

  lemma FieldDigits(f: bytes)
    requires IsLengthField(f)
    ensures 1 <= |f| <= 4 && (|f| == 1 <==> f[0] < 128)
    ensures |f| == 1 ==> FieldValue(f) == f[0]
    ensures |f| > 1 ==> IsLengthField(f[1..]) && FieldValue(f) == f[0] - 128 + 128 * FieldValue(f[1..])
  {
  }

  /** Decoding any legal length field, minimal or not, yields its value and its size. */
  lemma DecodeField(s: bytes, p: nat, f: bytes)
    requires IsLengthField(f) && At(s, p, f)
    ensures FieldReadable(s, p, 0)
    ensures DecodeLength(s, p) == Decoded(FieldValue(f), |f|)
  {
    DecodeFromField(s, p, 0, 1, 0, f);
  }

  /** A field that goes on behind its fourth byte: the size reported is 5, and the value is that of four digits. */
  lemma OverlongField(s: bytes, p: nat)
    requires p + 4 <= |s| && s[p] >= 128 && s[p + 1] >= 128 && s[p + 2] >= 128 && s[p + 3] >= 128
    ensures FieldReadable(s, p, 0) && DecodeLength(s, p).len == 5
    ensures DecodeLength(s, p).value ==
            (s[p] as int - 128) + 128 * (s[p + 1] as int - 128) + 16384 * (s[p + 2] as int - 128) +
            2097152 * (s[p + 3] as int - 128)
  {
    hide DecodeFrom, FieldReadable, AddDigit;
    ReadableFrom(s, p, 4);
    ReadableFrom(s, p, 3);
    ReadableFrom(s, p, 2);
    ReadableFrom(s, p, 1);
    ReadableFrom(s, p, 0);
    var a := AddDigit(0, s[p], 1);
    var b := AddDigit(a, s[p + 1], 128);
    var c := AddDigit(b, s[p + 2], 16384);
    DecodeStep(s, p, 0, 1, 0);
    DecodeStep(s, p, 1, 128, a);
    DecodeStep(s, p, 2, 16384, b);
    DecodeStep(s, p, 3, 2097152, c);
    DigitValue(0, s[p], 1);
    DigitValue(a, s[p + 1], 128);
    DigitValue(b, s[p + 2], 16384);
    DigitValue(c, s[p + 3], 2097152);
    FieldStops(s, p, 268435456, AddDigit(c, s[p + 3], 2097152));
  }

  lemma ReadableFrom(s: bytes, p: nat, k: nat)
    requires k <= 4 && (k < 4 ==> p + k < |s| && FieldReadable(s, p, k + 1))
    ensures FieldReadable(s, p, k)
  {
  }

  lemma FieldStops(s: bytes, p: nat, multiplier: nat, value: nat)
    requires FieldReadable(s, p, 4)
    ensures DecodeFrom(s, p, 4, multiplier, value) == Decoded(value, 5)
  {
  }

  /** The encoder produces a legal field of one to four bytes whose value is the length. */
  lemma {:induction false} EncodedIsField(n: nat)
    requires n <= MAX_REMAINING_LENGTH
    ensures IsLengthField(EncodeLength(n))
    ensures FieldValue(EncodeLength(n)) == n
    ensures |EncodeLength(n)| == if n < 128 then 1 else if n < 16384 then 2 else if n < 2097152 then 3 else 4
  {
    if n >= 128 {
      EncodedIsField(n / 128);
      var e := EncodeLength(n);
      assert e[1..] == EncodeLength(n / 128);
      forall i | 0 <= i < |e| - 1 ensures e[i] >= 128 {
        if i > 0 { assert e[i] == e[1..][i - 1]; }
      }
      assert e[|e| - 1] == e[1..][|e| - 2];
    }
  }

  /** A field of k bytes stands for a number below 128^k. */
  lemma {:induction false} FieldBound(f: bytes)
    requires IsLengthField(f)
    ensures FieldValue(f) < (if |f| == 1 then 128 else if |f| == 2 then 16384 else if |f| == 3 then 2097152
            else 268435456)
    decreases |f|
  {
    if |f| > 1 { FieldBound(f[1..]); }
  }

  /** Round trip and minimality: the decoder inverts the encoder, and no legal field for the
      same number is shorter than the encoder's. */
  lemma RemainingLengthRoundTrip(n: nat, s: bytes, p: nat)
    requires n <= MAX_REMAINING_LENGTH && At(s, p, EncodeLength(n))
    ensures FieldReadable(s, p, 0)
    ensures DecodeLength(s, p) == Decoded(n, |EncodeLength(n)|)
    ensures forall f :: IsLengthField(f) && FieldValue(f) == n ==> |EncodeLength(n)| <= |f|
  {
    EncodedIsField(n);
    DecodeField(s, p, EncodeLength(n));
    forall f | IsLengthField(f) && FieldValue(f) == n ensures |EncodeLength(n)| <= |f| {
      FieldBound(f);
    }
  }

  /** MQTTPacket_len: the buffer size a serializer asks for before it writes. */
  function PacketLen(remaining: nat): (r: nat) {
    var len := remaining + 1;
    if len < 128 then len + 1 else if len < 16384 then len + 2 else if len < 2097151 then len + 3 else len + 4
  }

  /** The estimate is the exact frame size, or one more at exactly four lengths; it is never too small. */
  lemma PacketLenIsSafe(n: nat)
    requires n <= MAX_REMAINING_LENGTH
    ensures var exact := 1 + |EncodeLength(n)| + n;
            PacketLen(n) == if n in {127, 16383, 2097150, 2097151} then exact + 1 else exact
  {
    EncodedIsField(n);
  }

  // ----- MQTTPacket_encode and MQTTPacket_decodeBuf over a buffer -----

  /** One digit of a length, behind those already written. */
  lemma EncodeStep(n: nat, done: bytes)
    ensures if n < 128 then n % 128 == n && n / 128 == 0 && done + EncodeLength(n) == done + [n]
            else n / 128 > 0 && done + EncodeLength(n) == (done + [n % 128 + 128]) + EncodeLength(n / 128)
  {
  }

  method Encode(buf: array<byte>, pos: nat, length: nat) returns (rc: nat)
    requires pos + |EncodeLength(length)| <= buf.Length
    modifies buf
    ensures rc == |EncodeLength(length)|
    ensures buf[..] == Splice(old(buf[..]), pos, EncodeLength(length))
  {
    hide Splice, EncodeLength;
    ghost var start := buf[..];
    rc := 0;
    var rest := length;
    ghost var done: bytes := [];
    SpliceNothing(start, pos);
    assert done + EncodeLength(rest) == EncodeLength(length);
    while true
      invariant rc == |done|
      invariant done + EncodeLength(rest) == EncodeLength(length)
      invariant buf[..] == Splice(start, pos, done)
      decreases rest
    {
      EncodeStep(rest, done);
      var d := rest % 128;
      rest := rest / 128;
      if rest > 0 { d := d + 128; }
      var next := WriteChar(buf, pos + rc, d);
      SpliceTwice(start, pos, done, [d]);
      done := done + [d];
      rc := rc + 1;
      if rest == 0 {
        break;
      }
    }
  }

  method DecodeBuf(buf: array<byte>, pos: nat) returns (value: nat, len: nat)
    requires FieldReadable(buf[..], pos, 0)
    ensures Decoded(value, len) == DecodeLength(buf[..], pos)
  {
    hide AddDigit;
    value, len := 0, 0;
    var multiplier: nat := 1;
    while true
      invariant len <= 4 && FieldReadable(buf[..], pos, len)
      invariant DecodeFrom(buf[..], pos, len, multiplier, value) == DecodeLength(buf[..], pos)
      decreases 4 - len
    {
      len := len + 1;
      if len > 4 { break; }
      var c := buf[pos + len - 1];
      value := AddDigit(value, c, multiplier);
      multiplier := multiplier * 128;
      if c < 128 { break; }
    }
  }

  // ----- 16-bit integers -----

  /** writeInt stores the two low-order bytes, high byte first. */
  function IntBytes(n: nat): (r: bytes)
    ensures |r| == 2
  {
    [n / 256 % 256, n % 256]
  }

  function ReadInt(s: bytes, p: nat): (n: nat)
    requires p + 2 <= |s|
  {
    256 * (s[p] as int) + s[p + 1]
  }

  lemma ReadIntBytes(s: bytes, p: nat, n: nat)
    requires n < 65536 && At(s, p, IntBytes(n))
    ensures ReadInt(s, p) == n
  {
    var w := s[p..p + 2];
    assert s[p] == w[0] && s[p + 1] == w[1];
  }

  /** writeChar. */
  method WriteChar(buf: array<byte>, pos: nat, c: byte) returns (pos': nat)
    requires pos < buf.Length
    modifies buf
    ensures pos' == pos + 1
    ensures buf[..] == Splice(old(buf[..]), pos, [c])
  {
    buf[pos] := c;
    pos' := pos + 1;
  }

  method WriteInt(buf: array<byte>, pos: nat, n: nat) returns (pos': nat)
    requires pos + 2 <= buf.Length
    modifies buf
    ensures pos' == pos + 2
    ensures buf[..] == Splice(old(buf[..]), pos, IntBytes(n))
  {
    buf[pos] := n / 256 % 256;
    buf[pos + 1] := n % 256;
    pos' := pos + 2;
  }

  // ----- MQTT strings -----

  /** An MQTTString: a C string pointer (null is None) and a counted string (a null data
      pointer is None). */
  datatype MqttString = MqttString(cstring: Option<bytes>, lenstring: Option<bytes>) {
    /** The pointer test that decides whether a user name or password is present. */
    predicate Present() { cstring.Some? || lenstring.Some? }

    /** MQTTstrlen, which prefers the C string. */
    function Length(): nat {
      if cstring.Some? then |cstring.value| else if lenstring.Some? then |lenstring.value| else 0
    }

    /** What writeMQTTString writes, which prefers a non-empty counted string. */
    function Text(): bytes {
      if lenstring.Some? && |lenstring.value| > 0 then lenstring.value
      else if cstring.Some? then cstring.value else []
    }

    /** The two forms do not describe strings of different lengths, and the length fits the two-byte prefix. */
    predicate Writable() {
      Length() == |Text()| < 65536
    }
  }

  const NULL_STRING: MqttString := MqttString(None, None)

  function Counted(text: bytes): MqttString { MqttString(None, Some(text)) }

  /** The predicted and the written length of a string agree exactly when the two pointers do
      not describe strings of different lengths. */
  lemma PredictedStringLength(m: MqttString)
    ensures m.Length() == |m.Text()| <==>
            !(m.cstring.Some? && m.lenstring.Some? && m.lenstring.value != [] &&
            |m.cstring.value| != |m.lenstring.value|)
  {
  }

  function StringBytes(text: bytes): (r: bytes)
    ensures |r| == 2 + |text|
  {
    IntBytes(|text|) + text
  }

  /** readMQTTLenString: the text and the position after it, or None when the string would
      run past the end of the data. */
  function ReadString(s: bytes, p: nat, end: nat): (r: Option<(bytes, nat)>)
    requires end <= |s|
    ensures r.Some? ==> p + 2 <= r.value.1 <= end && r.value.0 == s[p + 2..r.value.1]
  {
    if end >= p + 2 && p + 2 + ReadInt(s, p) <= end then
      Some((s[p + 2..p + 2 + ReadInt(s, p)], p + 2 + ReadInt(s, p)))
    else None
  }

  /** A string is read exactly if its two length bytes and all its characters lie in front of the end. */
  lemma StringFits(s: bytes, p: nat, end: nat)
    requires p <= end <= |s|
    ensures ReadString(s, p, end).Some? <==> end - p >= 2 && 256 * (s[p] as nat) + s[p + 1] <= end - p - 2
    ensures ReadString(s, p, end).Some? ==> |ReadString(s, p, end).value.0| == 256 * (s[p] as nat) + s[p + 1]
  {
  }

  /** A string that was read stands there with its two length bytes. */
  lemma StringStands(s: bytes, p: nat, end: nat, text: bytes, q: nat)
    requires p <= end <= |s| && ReadString(s, p, end) == Some((text, q))
    ensures |text| < 65536 && q == p + 2 + |text| && s[p..q] == StringBytes(text)
  {
    var n := ReadInt(s, p);
    assert IntBytes(n) == [s[p], s[p + 1]];
    assert s[p..q] == [s[p], s[p + 1]] + s[p + 2..q];
  }

  lemma ReadStringBytes(s: bytes, p: nat, end: nat, text: bytes)
    requires |text| < 65536 && At(s, p, StringBytes(text)) && p + 2 + |text| <= end <= |s|
    ensures ReadString(s, p, end) == Some((text, p + 2 + |text|))
  {
    AtSplit(s, p, IntBytes(|text|), text);
    ReadIntBytes(s, p, |text|);
  }

  method WriteString(buf: array<byte>, pos: nat, m: MqttString) returns (pos': nat)
    requires pos + 2 + |m.Text()| <= buf.Length
    modifies buf
    ensures pos' == pos + 2 + |m.Text()|
    ensures buf[..] == Splice(old(buf[..]), pos, StringBytes(m.Text()))
  {
    hide Splice, IntBytes;
    ghost var start := buf[..];
    if m.lenstring.Some? && |m.lenstring.value| > 0 {
      pos' := WriteInt(buf, pos, |m.lenstring.value|);
      pos' := WriteBytes(buf, pos', m.lenstring.value);
    } else if m.cstring.Some? {
      pos' := WriteInt(buf, pos, |m.cstring.value|);
      pos' := WriteBytes(buf, pos', m.cstring.value);
    } else {
      pos' := WriteInt(buf, pos, 0);
      SpliceNothing(buf[..], pos');
    }
    SpliceTwice(start, pos, IntBytes(|m.Text()|), m.Text());
  }

  /** One more byte of the data. */
  lemma SpliceOne(start: bytes, pos: nat, data: bytes, i: nat)
    requires i < |data| && pos + |data| <= |start|
    ensures Splice(Splice(start, pos, data[..i]), pos + i, [data[i]]) == Splice(start, pos, data[..i + 1])
  {
    hide Splice;
    SpliceTwice(start, pos, data[..i], [data[i]]);
    assert data[..i + 1] == data[..i] + [data[i]];
  }

  /** memcpy into the buffer. */
  method WriteBytes(buf: array<byte>, pos: nat, data: bytes) returns (pos': nat)
    requires pos + |data| <= buf.Length
    modifies buf
    ensures pos' == pos + |data|
    ensures buf[..] == Splice(old(buf[..]), pos, data)
  {
    hide Splice;
    ghost var start := buf[..];
    SpliceNothing(start, pos);
    for i := 0 to |data|
      invariant buf[..] == Splice(start, pos, data[..i])
    {
      var next := WriteChar(buf, pos + i, data[i]);
      SpliceOne(start, pos, data, i);
    }
    pos' := pos + |data|;
    assert data[..|data|] == data;
  }

  method ReadLenString(buf: array<byte>, pos: nat, end: nat) returns (ok: bool, text: bytes, pos': nat)
    requires pos <= end <= buf.Length
    ensures ok == ReadString(buf[..], pos, end).Some?
    ensures ok ==> ReadString(buf[..], pos, end) == Some((text, pos'))
  {
    ok, text, pos' := false, [], pos;
    if end - pos > 1 {
      var len := 256 * (buf[pos] as int) + buf[pos + 1];
      pos' := pos + 2;
      if pos' + len <= end {
        text := buf[pos'..pos' + len];
        pos' := pos' + len;
        ok := true;
      }
    }
  }
}
