/**
 How the client cuts a byte stream into packets: decodePacket and readPacket of MQTT/MQTTClient.h,
 on streams that consist of well-formed frames.
 */
module MqttFraming {
  import opened Bytes
  import opened MqttWire
  import opened MqttPublish
  import MqttConnect
  import MqttSubscribe

  /** The packets that a broker sends; Other stands for every type that carries nothing the client reads. */
  datatype Packet =
    | Connack(code: nat, sessionPresent: nat)
    | PublishTo(m: Publish)
    | Puback(id: nat)
    | Suback(sid: nat, codes: bytes)
    | Unsuback(uid: nat)
    | Other(header: byte, body: bytes)
  {
    predicate Encodable() {
      match this
      case Connack(c, p) => c < 256 && p < 2
      case PublishTo(m) => m.Encodable()
      case Puback(i) => i < 65536
      case Suback(i, c) => i < 65536 && |c| + 2 <= MAX_REMAINING_LENGTH
      case Unsuback(i) => i < 65536
      case Other(h, b) => HeaderType(h) !in {CONNACK, PUBLISH, PUBACK, SUBACK, UNSUBACK} && |b| <= MAX_REMAINING_LENGTH
    }

    function Header(): byte {
      match this
      case Connack(_, _) => HeaderByte(CONNACK, 0, 0, 0)
      case PublishTo(m) => HeaderByte(PUBLISH, m.dup, m.qos, m.retained)
      case Puback(_) => HeaderByte(PUBACK, 0, 0, 0)
      case Suback(_, _) => HeaderByte(SUBACK, 0, 0, 0)
      case Unsuback(_) => HeaderByte(UNSUBACK, 0, 0, 0)
      case Other(h, _) => h
    }

    function Body(): bytes {
      match this
      case Connack(c, p) => [p % 2 * 128, c % 256]
      case PublishTo(m) => PublishBody(m)
      case Puback(i) => IntBytes(i)
      case Suback(i, c) => IntBytes(i) + c
      case Unsuback(i) => IntBytes(i)
      case Other(_, b) => b
    }
  }

  /** A packet on the wire: its remaining length may be encoded with more bytes than needed. */
  datatype Frame = Frame(field: bytes, packet: Packet)
  {
    predicate WellFormed() {
      packet.Encodable() && IsLengthField(field) && FieldValue(field) == |packet.Body()|
    }

    /** The bytes on the wire. */
    function Raw(): bytes { [packet.Header()] + field + packet.Body() }

    /** The bytes that end up in readbuf, the length field encoded anew. */
    function Stored(): bytes { FrameBytes(packet.Header(), packet.Body()) }
  }

  /** Reading one packet off a stream, when every read is complete: the bytes stored and the number of
      bytes consumed. */
  function NextFrame(s: bytes): (r: Option<(bytes, nat)>)
    ensures r.Some? ==> 0 < r.value.1 <= |s|
  {
    if s == [] || !FieldReadable(s, 1, 0) then None
    else
      var d := DecodeLength(s, 1);
      var start := 1 + if d.len > 4 then 4 else d.len;
      if start + d.value > |s| then None
      else Some((FrameBytes(s[0], s[start..start + d.value]), start + d.value))
  }

  /** The packets stored one after the other until the stream ends. */
  function SplitStream(s: bytes): (r: seq<bytes>)
    decreases |s|
  {
    match NextFrame(s)
    case None => []
    case Some((packet, n)) => [packet] + SplitStream(s[n..])
  }

  function RawStream(frames: seq<Frame>): (r: bytes) {
    if frames == [] then [] else frames[0].Raw() + RawStream(frames[1..])
  }

  predicate AllWellFormed(frames: seq<Frame>) {
    frames == [] || (frames[0].WellFormed() && AllWellFormed(frames[1..]))
  }

  function StoredFrames(frames: seq<Frame>): (r: seq<bytes>) {
    if frames == [] then [] else [frames[0].Stored()] + StoredFrames(frames[1..])
  }

  /** A well-formed frame is read whole, whatever follows it, and stored with a minimal length field. */
  lemma NextFrameIs(f: Frame, rest: bytes)
    requires f.WellFormed()
    ensures NextFrame(f.Raw() + rest) == Some((f.Stored(), |f.Raw()|))
  {
    var header, body := f.packet.Header(), f.packet.Body();
    hide Packet.Header, Packet.Body, Packet.Encodable, DecodeLength, FieldReadable, FrameBytes, FieldValue;
    var s := f.Raw() + rest;
    var k := 1 + |f.field|;
    assert s[1..k] == f.field && s[k..k + |body|] == body;
    DecodeField(s, 1, f.field);
  }

  /** Framing: a stream of well-formed frames is split into exactly those frames, in order. */
  lemma {:induction false} StreamSplits(frames: seq<Frame>)
    requires AllWellFormed(frames)
    ensures SplitStream(RawStream(frames)) == StoredFrames(frames)
  {
    hide Frame.Raw, Frame.Stored, Frame.WellFormed, NextFrame;
    if frames != [] {
      var f, rest := frames[0], RawStream(frames[1..]);
      NextFrameIs(f, rest);
      assert (f.Raw() + rest)[|f.Raw()|..] == rest;
      StreamSplits(frames[1..]);
    } else {
      assert NextFrame([]) == None by { NoFrame(); }
    }
  }

  lemma NoFrame()
    ensures NextFrame([]) == None
  {
  }

  /** A packet as a serializer writes it, with a minimal length field. */
  ghost predicate IsFrame(packet: bytes) {
    exists header: byte, body: bytes :: |body| <= MAX_REMAINING_LENGTH && packet == FrameBytes(header, body)
  }

  ghost predicate AllFrames(packets: seq<bytes>) {
    forall i :: 0 <= i < |packets| ==> IsFrame(packets[i])
  }

  /** Such a packet is read as it is, whatever follows it. */
  lemma NextPacketIs(header: byte, body: bytes, rest: bytes)
    requires |body| <= MAX_REMAINING_LENGTH
    ensures var packet := FrameBytes(header, body); NextFrame(packet + rest) == Some((packet, |packet|))
  {
    hide DecodeLength, FieldReadable, EncodeLength, FieldValue;
    EncodedIsField(|body|);
    var field := EncodeLength(|body|);
    var s := FrameBytes(header, body) + rest;
    assert s == [header] + field + body + rest;
    assert s[1..1 + |field|] == field && s[1 + |field|..1 + |field| + |body|] == body;
    DecodeField(s, 1, field);
  }

  /** What serializers send one after the other is split into the same packets by the peer. */
  lemma {:induction false} PeerSplits(packets: seq<bytes>)
    requires AllFrames(packets)
    ensures SplitStream(Flatten(packets)) == packets
  {
    hide FrameBytes, NextFrame;
    if packets == [] {
      assert NextFrame([]) == None by { NoFrame(); }
    } else {
      var packet, rest := packets[0], Flatten(packets[1..]);
      assert IsFrame(packet);
      var header: byte, body: bytes :| |body| <= MAX_REMAINING_LENGTH && packet == FrameBytes(header, body);
      NextPacketIs(header, body, rest);
      assert (packet + rest)[|packet|..] == rest;
      PeerSplits(packets[1..]);
    }
  }

  // ----- what the deserializers find in a buffer that holds a stored frame -----

  lemma StoredType(p: Packet, s: bytes)
    requires p.Encodable() && At(s, 0, FrameBytes(p.Header(), p.Body()))
    ensures s[0] == p.Header()
    ensures p.Connack? ==> HeaderType(s[0]) == CONNACK
    ensures p.PublishTo? ==> HeaderType(s[0]) == PUBLISH
    ensures p.Puback? ==> HeaderType(s[0]) == PUBACK
    ensures p.Suback? ==> HeaderType(s[0]) == SUBACK
    ensures p.Unsuback? ==> HeaderType(s[0]) == UNSUBACK
    ensures p.Other? ==> HeaderType(s[0]) == HeaderType(p.header)
  {
    hide HeaderByte, HeaderType, Packet.Body, Packet.Encodable;
    var stored := FrameBytes(p.Header(), p.Body());
    assert s[0] == s[0..|stored|][0] == p.Header();
    hide FrameBytes, At;
    match p
    case Connack(_, _) => HeaderFields(CONNACK, 0, 0, 0);
    case PublishTo(m) => PublishType(m);
    case Puback(_) => HeaderFields(PUBACK, 0, 0, 0);
    case Suback(_, _) => HeaderFields(SUBACK, 0, 0, 0);
    case Unsuback(_) => HeaderFields(UNSUBACK, 0, 0, 0);
    case Other(_, _) =>
  }

  lemma PublishType(m: Publish)
    ensures HeaderType(HeaderByte(PUBLISH, m.dup, m.qos, m.retained)) == PUBLISH
  {
  }

  lemma StoredPublish(m: Publish, s: bytes, id0: nat)
    requires m.Encodable() && At(s, 0, FrameBytes(PublishTo(m).Header(), PublishTo(m).Body()))
    ensures PublishReadable(s) && ParsePublish(s, id0) == Parsed(Received(m, id0), |m.payload|)
  {
    PublishRoundTrip(m, s, id0);
  }

  lemma StoredPuback(id: nat, s: bytes)
    requires id < 65536 && At(s, 0, FrameBytes(Puback(id).Header(), Puback(id).Body()))
    ensures AckReadable(s) && ParseAck(s) == AckParsed(PUBACK, 0, id)
  {
    AckRoundTrip(PUBACK, 0, id, s);
  }

  lemma StoredUnsuback(id: nat, s: bytes)
    requires id < 65536 && At(s, 0, FrameBytes(Unsuback(id).Header(), Unsuback(id).Body()))
    ensures AckReadable(s) && ParseAck(s) == AckParsed(UNSUBACK, 0, id)
  {
    AckRoundTrip(UNSUBACK, 0, id, s);
  }

  lemma StoredConnack(code: nat, sessionPresent: nat, s: bytes)
    requires code < 256 && sessionPresent < 2
    requires At(s, 0, FrameBytes(Connack(code, sessionPresent).Header(), Connack(code, sessionPresent).Body()))
    ensures MqttConnect.ConnackReadable(s) &&
            MqttConnect.ParseConnack(s) == MqttConnect.ConnackParsed(sessionPresent, code)
  {
    MqttConnect.ConnackRoundTrip(code, sessionPresent, s);
  }

  lemma StoredSuback(id: nat, codes: bytes, s: bytes, maxCount: nat)
    requires id < 65536 && |codes| + 2 <= MAX_REMAINING_LENGTH
    requires At(s, 0, FrameBytes(Suback(id, codes).Header(), Suback(id, codes).Body()))
    ensures MqttSubscribe.ListReadable(s, SUBACK)
    ensures MqttSubscribe.ParseSuback(s, maxCount) ==
            if |codes| <= maxCount + 1 then MqttSubscribe.SubackParsed(id, codes) else MqttSubscribe.TooMany(id)
  {
    hide HeaderByte, FrameBytes, At, MqttSubscribe.ListReadable, MqttSubscribe.ParseSuback;
    assert MqttSubscribe.CodeBytes(codes) == codes;
    assert At(s, 0, MqttSubscribe.SubackBytes(id, codes));
    MqttSubscribe.SubackRoundTrip(id, codes, s, maxCount);
  }
}
