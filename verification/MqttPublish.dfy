/**
 PUBLISH and acknowledgement packets: MQTT/MQTTPacket/MQTTSerializePublish.c and
 MQTT/MQTTPacket/MQTTDeserializePublish.c; sections 3.3 and 3.4 of MQTT 3.1.1.
 */
module MqttPublish {
  import opened Bytes
  import opened MqttWire

  datatype Publish = Publish(dup: nat, qos: nat, retained: nat, id: nat, topic: bytes, payload: bytes)
  {
    /** The field values that fit the wire format. */
    predicate Encodable() {
      dup < 2 && qos < 4 && retained < 2 && id < 65536 && |topic| < 65536 &&
      PublishRemaining(qos, |topic|, |payload|) <= MAX_REMAINING_LENGTH
    }
  }

  /** MQTTSerialize_publishLength. */
  function PublishRemaining(qos: nat, topicLen: nat, payloadLen: nat): (n: nat) {
    2 + topicLen + payloadLen + if qos > 0 then 2 else 0
  }

  /** A whole frame with the shortest length field. */
  function FrameBytes(header: byte, body: bytes): (r: bytes) {
    [header] + EncodeLength(|body|) + body
  }

  function BodyBytes(qos: nat, id: nat, topic: bytes, payload: bytes): (r: bytes)
    ensures |r| == PublishRemaining(qos, |topic|, |payload|)
  {
    StringBytes(topic) + (if qos > 0 then IntBytes(id) else []) + payload
  }

  function PublishBody(m: Publish): (r: bytes)
    ensures |r| == PublishRemaining(m.qos, |m.topic|, |m.payload|)
  {
    BodyBytes(m.qos, m.id, m.topic, m.payload)
  }

  function PublishBytes(m: Publish): (r: bytes) {
    FrameBytes(HeaderByte(PUBLISH, m.dup, m.qos, m.retained), PublishBody(m))
  }

  function AckBytes(packetType: nat, dup: nat, id: nat): (r: bytes) {
    FrameBytes(HeaderByte(packetType, dup, 0, 0), IntBytes(id))
  }

  /** A frame that stands at p decodes to its header, its length and its body. */
  lemma FrameAt(s: bytes, header: byte, body: bytes)
    requires |body| <= MAX_REMAINING_LENGTH && At(s, 0, FrameBytes(header, body))
    ensures s[0] == header
    ensures FieldReadable(s, 1, 0) && DecodeLength(s, 1) == Decoded(|body|, |EncodeLength(|body|)|)
    ensures At(s, 1 + |EncodeLength(|body|)|, body)
  {
    var e := EncodeLength(|body|);
    AtSplit(s, 0, [header] + e, body);
    AtSplit(s, 0, [header], e);
    assert s[0] == s[0..1][0];
    RemainingLengthRoundTrip(|body|, s, 1);
  }

  // ----- serializers -----

  /** The bytes in front of a body of the given length. */
  function FrameHead(header: byte, remaining: nat): (r: bytes) {
    [header] + EncodeLength(remaining)
  }

  lemma SpliceFrame(s: bytes, header: byte, body: bytes)
    requires |FrameBytes(header, body)| <= |s|
    ensures var head := FrameHead(header, |body|);
            Splice(Splice(s, 0, head), |head|, body) == Splice(s, 0, FrameBytes(header, body))
  {
    SpliceTwice(s, 0, FrameHead(header, |body|), body);
  }

  /** The first two writes of every serializer: the header byte and the remaining length. */
  method WriteHeader(buf: array<byte>, header: byte, remaining: nat) returns (pos: nat)
    requires |FrameHead(header, remaining)| <= buf.Length
    modifies buf
    ensures pos == |FrameHead(header, remaining)|
    ensures buf[..] == Splice(old(buf[..]), 0, FrameHead(header, remaining))
  {
    pos := WriteChar(buf, 0, header);
    var n := Encode(buf, pos, remaining);
    SpliceTwice(old(buf[..]), 0, [header], EncodeLength(remaining));
    pos := pos + n;
  }

  /** The last three writes of MQTTSerialize_publish: topic, packet id above QoS 0, payload. */
  method WriteBody(buf: array<byte>, pos: nat, qos: nat, id: nat, topic: MqttString, payload: bytes)
    returns (pos': nat)
    requires pos + PublishRemaining(qos, |topic.Text()|, |payload|) <= buf.Length
    modifies buf
    ensures pos' == pos + PublishRemaining(qos, |topic.Text()|, |payload|)
    ensures buf[..] == Splice(old(buf[..]), pos, BodyBytes(qos, id, topic.Text(), payload))
  {
    hide Splice, StringBytes;
    ghost var start := buf[..];
    pos' := WriteString(buf, pos, topic);
    ghost var written := StringBytes(topic.Text());
    if qos > 0 {
      pos' := WriteInt(buf, pos', id);
      SpliceTwice(start, pos, written, IntBytes(id));
      written := written + IntBytes(id);
    } else {
      assert written + [] == written;
    }
    pos' := WriteBytes(buf, pos', payload);
    SpliceTwice(start, pos, written, payload);
  }

  /** MQTTSerialize_publish. Nothing is written when the buffer is refused; otherwise exactly the
      first rc bytes change and they are the PUBLISH frame. */
  method SerializePublish(buf: array<byte>, dup: nat, qos: nat, retained: nat, id: nat, topic: MqttString,
                          payload: bytes)
    returns (rc: int)
    requires topic.Writable()
    requires PublishRemaining(qos, topic.Length(), |payload|) <= MAX_REMAINING_LENGTH
    modifies buf
    ensures rc < 0 <==> PacketLen(PublishRemaining(qos, |topic.Text()|, |payload|)) > buf.Length
    ensures rc < 0 ==> rc == BUFFER_TOO_SHORT && buf[..] == old(buf[..])
    ensures rc >= 0 ==>
              var frame := PublishBytes(Publish(dup, qos, retained, id, topic.Text(), payload));
              rc == |frame| <= buf.Length && buf[..] == Splice(old(buf[..]), 0, frame)
  {
    hide Splice, HeaderByte, EncodeLength, BodyBytes;
    ghost var start := buf[..];
    ghost var m := Publish(dup, qos, retained, id, topic.Text(), payload);
    var remaining := PublishRemaining(qos, topic.Length(), |payload|);
    PacketLenIsSafe(remaining);
    if PacketLen(remaining) > buf.Length {
      return BUFFER_TOO_SHORT;
    }
    var header := HeaderByte(PUBLISH, dup, qos, retained);
    var pos := WriteHeader(buf, header, remaining);
    pos := WriteBody(buf, pos, qos, id, topic, payload);
    SpliceFrame(start, header, PublishBody(m));
    rc := pos;
  }

  /** MQTTSerialize_ack. */
  method SerializeAck(buf: array<byte>, packetType: nat, dup: nat, id: nat) returns (rc: int)
    modifies buf
    ensures rc < 0 <==> buf.Length < 4
    ensures rc < 0 ==> rc == BUFFER_TOO_SHORT && buf[..] == old(buf[..])
    ensures rc >= 0 ==>
              rc == 4 == |AckBytes(packetType, dup, id)| &&
              buf[..] == Splice(old(buf[..]), 0, AckBytes(packetType, dup, id))
  {
    if buf.Length < 4 {
      return BUFFER_TOO_SHORT;
    }
    ghost var start := buf[..];
    var pos := WriteHeader(buf, HeaderByte(packetType, dup, 0, 0), 2);
    rc := WriteInt(buf, pos, id);
    SpliceFrame(start, HeaderByte(packetType, dup, 0, 0), IntBytes(id));
  }

  function ZeroBytes(packetType: nat): (r: bytes) {
    FrameBytes(HeaderByte(packetType, 0, 0, 0), [])
  }

  /** MQTTSerialize_zero: a packet without a body. */
  method SerializeZero(buf: array<byte>, packetType: nat) returns (rc: int)
    modifies buf
    ensures rc < 0 <==> buf.Length < 2
    ensures rc < 0 ==> rc == BUFFER_TOO_SHORT && buf[..] == old(buf[..])
    ensures rc >= 0 ==>
              rc == |ZeroBytes(packetType)| <= buf.Length && buf[..] == Splice(old(buf[..]), 0, ZeroBytes(packetType))
  {
    if buf.Length < 2 {
      return BUFFER_TOO_SHORT;
    }
    hide HeaderByte;
    rc := WriteHeader(buf, HeaderByte(packetType, 0, 0, 0), 0);
    assert ZeroBytes(packetType) == FrameHead(HeaderByte(packetType, 0, 0, 0), 0);
  }

  // ----- deserializers -----

  /** The outcome of MQTTDeserialize_publish. Truncated carries the size of the length field,
      which is the value the function then returns. The payload length is the distance to the end
      of the frame and is negative when the packet id ran past it. */
  datatype PublishResult =
    | WrongType
    | Truncated(fieldLen: nat)
    | Parsed(m: Publish, payloadLen: int)
  {
    function ReturnCode(): int {
      match this
      case WrongType => 0
      case Truncated(n) => n
      case Parsed(_, _) => 1
    }
  }

  /** The frame body s[start..end] lies in the buffer, and so does every byte looked at. */
  predicate BodyReadable(s: bytes, qos: nat, start: nat, end: nat) {
    end <= |s| &&
    var t := ReadString(s, start, end);
    t.Some? && qos > 0 ==> t.value.1 + 2 <= |s|
  }

  /** The body of a PUBLISH whose header flags are in m0 and whose frame is s[..end]. */
  function ParseBody(s: bytes, m0: Publish, start: nat, end: nat, fieldLen: nat): (r: PublishResult)
    requires BodyReadable(s, m0.qos, start, end)
  {
    match ReadString(s, start, end)
    case None => Truncated(fieldLen)
    case Some((topic, p)) =>
      var q := if m0.qos > 0 then p + 2 else p;
      Parsed(m0.(topic := topic,
                 id := if m0.qos > 0 then ReadInt(s, p) else m0.id,
                 payload := if q <= end then s[q..end] else []),
             end - q)
  }

  function HeaderFlags(b: byte, id0: nat): (m: Publish) {
    Publish(HeaderDup(b), HeaderQos(b), HeaderRetain(b), id0, [], [])
  }

  /** The buffer holds the complete frame that its remaining length announces. */
  predicate PublishReadable(s: bytes) {
    |s| > 0 && (HeaderType(s[0]) == PUBLISH ==>
      FieldReadable(s, 1, 0) &&
      var d := DecodeLength(s, 1);
      BodyReadable(s, HeaderQos(s[0]), 1 + d.len, 1 + d.len + d.value))
  }

  function ParsePublish(s: bytes, id0: nat): (r: PublishResult)
    requires PublishReadable(s)
  {
    if HeaderType(s[0]) != PUBLISH then WrongType
    else
      var d := DecodeLength(s, 1);
      ParseBody(s, HeaderFlags(s[0], id0), 1 + d.len, 1 + d.len + d.value, d.len)
  }

  /** MQTTDeserialize_publish; id0 is the packet id that the caller passed in. */
  method DeserializePublish(buf: array<byte>, id0: nat)
    returns (rc: int, m: Publish, payloadLen: int)
    requires PublishReadable(buf[..])
    ensures rc == ParsePublish(buf[..], id0).ReturnCode()
    ensures ParsePublish(buf[..], id0).Parsed? ==> ParsePublish(buf[..], id0) == Parsed(m, payloadLen)
  {
    hide FieldReadable, DecodeLength, ParseBody, HeaderType, HeaderQos, HeaderDup, HeaderRetain, BodyReadable;
    m, payloadLen := Publish(0, 0, 0, id0, [], []), 0;
    var header := buf[0];
    if HeaderType(header) != PUBLISH {
      return 0, m, payloadLen;
    }
    m := HeaderFlags(header, id0);
    var length, n := DecodeBuf(buf, 1);
    rc, m, payloadLen := ReadBody(buf, m, 1 + n, 1 + n + length, n);
  }

  /** The part of MQTTDeserialize_publish after the length field. */
  method ReadBody(buf: array<byte>, m0: Publish, start: nat, end: nat, fieldLen: nat)
    returns (rc: int, m: Publish, payloadLen: int)
    requires start <= end && BodyReadable(buf[..], m0.qos, start, end)
    ensures var r := ParseBody(buf[..], m0, start, end, fieldLen);
            rc == r.ReturnCode() && (r.Parsed? ==> r == Parsed(m, payloadLen))
  {
    rc, m, payloadLen := fieldLen, m0, 0;
    var ok, topic, cur := ReadLenString(buf, start, end);
    if !ok || end < cur {
      return;
    }
    m := m.(topic := topic);
    if m.qos > 0 {
      m := m.(id := 256 * (buf[cur] as int) + buf[cur + 1]);
      cur := cur + 2;
    }
    payloadLen := end - cur;
    m := m.(payload := if cur <= end then buf[cur..end] else []);
    rc := 1;
  }

  /** The message as the receiver sees it: without a packet id at QoS 0 the caller's value stays. */
  function Received(m: Publish, id0: nat): Publish {
    if m.qos > 0 then m else m.(id := id0)
  }

  /** Round trip: any buffer that begins with the frame of m is readable and gives back all of m. */
  lemma PublishRoundTrip(m: Publish, s: bytes, id0: nat)
    requires m.Encodable() && At(s, 0, PublishBytes(m))
    ensures PublishReadable(s)
    ensures ParsePublish(s, id0) == Parsed(Received(m, id0), |m.payload|)
  {
    HeaderFields(PUBLISH, m.dup, m.qos, m.retained);
    FrameAt(s, HeaderByte(PUBLISH, m.dup, m.qos, m.retained), PublishBody(m));
    ParsePublishFrame(m, s, |EncodeLength(|PublishBody(m)|)|, id0);
  }

  /** The same for a frame whose length field has any size. */
  lemma ParsePublishFrame(m: Publish, s: bytes, fieldLen: nat, id0: nat)
    requires m.Encodable() && |s| > 0
    requires HeaderType(s[0]) == PUBLISH && HeaderDup(s[0]) == m.dup && HeaderQos(s[0]) == m.qos &&
               HeaderRetain(s[0]) == m.retained
    requires FieldReadable(s, 1, 0) && DecodeLength(s, 1) == Decoded(|PublishBody(m)|, fieldLen)
    requires At(s, 1 + fieldLen, PublishBody(m))
    ensures PublishReadable(s)
    ensures ParsePublish(s, id0) == Parsed(Received(m, id0), |m.payload|)
  {
    hide ParseBody, BodyReadable, PublishBody, At, HeaderType, DecodeLength, FieldReadable;
    ParseBodyAt(m, s, HeaderFlags(s[0], id0), 1 + fieldLen, fieldLen);
  }

  /** The body of m, wherever it stands, is parsed back. */
  lemma ParseBodyAt(m: Publish, s: bytes, m0: Publish, start: nat, fieldLen: nat)
    requires m.Encodable() && At(s, start, PublishBody(m)) && m0.qos == m.qos
    ensures var end := start + |PublishBody(m)|;
            BodyReadable(s, m0.qos, start, end) &&
            ParseBody(s, m0, start, end, fieldLen) ==
              Parsed(m0.(topic := m.topic, id := if m.qos > 0 then m.id else m0.id, payload := m.payload), |m.payload|)
  {
    hide StringBytes, IntBytes, ReadString, ReadInt, At;
    var ids := if m.qos > 0 then IntBytes(m.id) else [];
    assert PublishBody(m) == StringBytes(m.topic) + ids + m.payload;
    AtSplit(s, start, StringBytes(m.topic) + ids, m.payload);
    AtSplit(s, start, StringBytes(m.topic), ids);
    ReadStringBytes(s, start, start + |PublishBody(m)|, m.topic);
    if m.qos > 0 { ReadIntBytes(s, start + 2 + |m.topic|, m.id); }
    FoundAt(s, start + 2 + |m.topic| + |ids|, m.payload);
  }

  lemma FoundAt(s: bytes, p: nat, b: bytes)
    requires At(s, p, b)
    ensures p + |b| <= |s| && s[p..p + |b|] == b
  {
  }

  /** The topic is cut short in a frame whose length field is the one byte s[1]. */
  predicate CutShort(s: bytes) {
    |s| > 1 && HeaderType(s[0]) == PUBLISH && s[1] < 128 && (s[1] < 2 || |s| < 4 || 2 + ReadInt(s, 2) > s[1])
  }

  /** The return code 1 says that a PUBLISH was parsed, exactly unless the bytes in front are those of a packet cut
      short; a caller can look at them first. */
  lemma PublishReturnCode(s: bytes, id0: nat)
    requires PublishReadable(s)
    ensures var r := ParsePublish(s, id0);
            ((r.ReturnCode() == 1 <==> r.Parsed?) <==> !CutShort(s)) &&
            (r.ReturnCode() == 1 <==> r.Parsed? || CutShort(s))
  {
    if HeaderType(s[0]) == PUBLISH {
      ShortField(s);
    }
  }

  /** A length field of one byte, or of more. */
  lemma ShortField(s: bytes)
    requires |s| > 1 && FieldReadable(s, 1, 0)
    ensures if s[1] < 128 then DecodeLength(s, 1) == Decoded(s[1], 1) else DecodeLength(s, 1).len > 1
  {
    DecodeStep(s, 1, 0, 1, 0);
    if s[1] >= 128 {
      DecodedLength(s, 1, 1, 128, AddDigit(0, s[1], 1));
    }
  }

  /** A frame whose body is too short for a topic, and for which 1 is returned all the same. */
  lemma TruncatedPublishReturnsOne()
    ensures PublishReadable([48, 1, 0])
    ensures ParsePublish([48, 1, 0], 0) == Truncated(1) && ParsePublish([48, 1, 0], 0).ReturnCode() == 1
  {
    assert DecodeLength([48, 1, 0], 1) == Decoded(1, 1);
  }

  /** A frame that ends inside the packet id: it is parsed, and the payload length is negative. */
  lemma NegativePayload()
    ensures PublishReadable([50, 4, 0, 1, 97, 0, 7])
    ensures ParsePublish([50, 4, 0, 1, 97, 0, 7], 0) == Parsed(Publish(0, 1, 0, 7, [97], []), -1)
  {
    var s: bytes := [50, 4, 0, 1, 97, 0, 7];
    assert DecodeLength(s, 1) == Decoded(4, 1);
    assert s[4..5] == [97];
  }

  datatype AckResult = AckTooShort(fieldLen: nat, packetType: nat) | AckParsed(packetType: nat, dup: nat, id: nat)
  {
    function ReturnCode(): int { if AckTooShort? then fieldLen else 1 }
  }

  predicate AckReadable(s: bytes) {
    |s| > 0 && FieldReadable(s, 1, 0) &&
    var d := DecodeLength(s, 1);
    d.value >= 2 ==> 1 + d.len + 2 <= |s|
  }

  function ParseAck(s: bytes): (r: AckResult)
    requires AckReadable(s)
  {
    var d := DecodeLength(s, 1);
    if d.value < 2 then AckTooShort(d.len, HeaderType(s[0]))
    else AckParsed(HeaderType(s[0]), HeaderDup(s[0]), ReadInt(s, 1 + d.len))
  }

  /** MQTTDeserialize_ack; id0 is the packet id that the caller passed in. */
  method DeserializeAck(buf: array<byte>, id0: nat)
    returns (rc: int, packetType: nat, dup: nat, id: nat)
    requires AckReadable(buf[..])
    ensures var r := ParseAck(buf[..]);
            rc == r.ReturnCode() && packetType == r.packetType && dup == HeaderDup(buf[0]) &&
            id == if r.AckParsed? then r.id else id0
  {
    var header := buf[0];
    dup, packetType, id := HeaderDup(header), HeaderType(header), id0;
    var length, n := DecodeBuf(buf, 1);
    rc := n;
    if length < 2 {
      return;
    }
    id := 256 * (buf[1 + n] as int) + buf[2 + n];
    rc := 1;
  }

  lemma AckRoundTrip(packetType: nat, dup: nat, id: nat, s: bytes)
    requires packetType < 16 && dup < 2 && id < 65536 && At(s, 0, AckBytes(packetType, dup, id))
    ensures AckReadable(s) && ParseAck(s) == AckParsed(packetType, dup, id)
  {
    HeaderFields(packetType, dup, 0, 0);
    FrameAt(s, HeaderByte(packetType, dup, 0, 0), IntBytes(id));
    ReadIntBytes(s, 1 + |EncodeLength(2)|, id);
  }

  /** The return code 1 says that an acknowledgement was parsed, exactly unless a length field of one byte announces
      fewer than two bytes. */
  lemma AckReturnCode(s: bytes)
    requires AckReadable(s)
    ensures ParseAck(s).ReturnCode() == 1 <==> ParseAck(s).AckParsed? || s[1] < 2
    ensures s[1] < 2 ==> !ParseAck(s).AckParsed?
  {
    ShortField(s);
  }
}
