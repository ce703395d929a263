/**
 The packets that the client sends, and those that it reads, byte by byte: sections 2.2 and 3 of MQTT 3.1.1.
 */
module MqttLayout {
  import opened Bytes
  import opened MqttWire
  import opened MqttPublish
  import opened MqttConnect
  import opened MqttSubscribe
  import opened MqttFraming

  lemma LengthStep(n: nat)
    ensures EncodeLength(n) == if n < 128 then [n] else [128 + n % 128] + EncodeLength(n / 128)
  {
  }

  /** The remaining length, seven bits a byte, the lowest first. */
  lemma LengthLayout(n: nat)
    requires n <= 268435455
    ensures n < 128 ==> EncodeLength(n) == [n]
    ensures 128 <= n < 16384 ==> EncodeLength(n) == [128 + n % 128, n / 128]
    ensures 16384 <= n < 2097152 ==> EncodeLength(n) == [128 + n % 128, 128 + n / 128 % 128, n / 128 / 128]
    ensures 2097152 <= n ==>
              EncodeLength(n) == [128 + n % 128, 128 + n / 128 % 128, 128 + n / 128 / 128 % 128, n / 128 / 128 / 128]
  {
    hide EncodeLength;
    LengthStep(n);
    if 128 <= n < 16384 { TwoBytes(n); }
    if 16384 <= n < 2097152 { ThreeBytes(n); }
    if 2097152 <= n { FourBytes(n); }
  }

  lemma TwoBytes(n: nat)
    requires 128 <= n < 16384
    ensures EncodeLength(n) == [128 + n % 128, n / 128]
  {
    hide EncodeLength;
    LengthStep(n);
    LengthStep(n / 128);
  }

  lemma ThreeBytes(n: nat)
    requires 16384 <= n < 2097152
    ensures EncodeLength(n) == [128 + n % 128, 128 + n / 128 % 128, n / 128 / 128]
  {
    hide EncodeLength;
    var a := n / 128;
    LengthStep(n);
    TwoBytes(a);
  }

  lemma FourBytes(n: nat)
    requires 2097152 <= n <= 268435455
    ensures EncodeLength(n) == [128 + n % 128, 128 + n / 128 % 128, 128 + n / 128 / 128 % 128, n / 128 / 128 / 128]
  {
    hide EncodeLength;
    var a := n / 128;
    LengthStep(n);
    ThreeBytes(a);
  }

  function Short(n: nat): (r: bytes)
    requires n < 65536
  {
    [n / 256, n % 256]
  }

  lemma ShortIs(n: nat)
    requires n < 65536
    ensures IntBytes(n) == Short(n)
  {
  }

  /** Type 1, and the body of MqttConnect.WrittenConnect. */
  lemma ConnectLayout(d: ConnectData)
    requires d.Encodable()
    ensures ConnectBytes(d) == [0x10] + EncodeLength(|ConnectBody(d)|) + ConnectBody(d)
  {
    hide ConnectBody, EncodeLength;
  }

  /** Type 3 with the three flags; the id only above QoS 0. */
  lemma PublishLayout(m: Publish)
    requires m.Encodable()
    ensures var body := Short(|m.topic|) + m.topic + (if m.qos == 0 then [] else Short(m.id)) + m.payload;
            PublishBytes(m) == [0x30 + 8 * m.dup + 2 * m.qos + m.retained] + EncodeLength(|body|) + body
  {
    hide EncodeLength;
    ShortIs(|m.topic|);
    if m.qos > 0 { ShortIs(m.id); }
  }

  /** The other packets of the client: PUBACK, PUBREC, PINGREQ and DISCONNECT. */
  lemma AnswerLayout(id: nat)
    requires id < 65536
    ensures AckBytes(PUBACK, 0, id) == [0x40, 2] + Short(id)
    ensures AckBytes(PUBREC, 0, id) == [0x50, 2] + Short(id)
    ensures ZeroBytes(PINGREQ) == [0xC0, 0] && ZeroBytes(DISCONNECT) == [0xE0, 0]
  {
    ShortIs(id);
    LengthLayout(0);
    LengthLayout(2);
  }

  /** Type 8 with QoS 1 in the header. */
  lemma SubscribeLayout(dup: nat, id: nat, filters: seq<bytes>, qoss: bytes)
    requires dup < 2 && id < 65536 && |filters| == |qoss|
    ensures var body := Short(id) + EntriesBytes(filters, qoss);
            SubscribeBytes(dup, id, filters, qoss) == [0x82 + 8 * dup] + EncodeLength(|body|) + body
  {
    hide EncodeLength, EntriesBytes;
    ShortIs(id);
  }

  /** The entries one after the other: the filter and the requested QoS. */
  lemma EntriesLayout(filters: seq<bytes>, qoss: bytes, f: bytes, q: byte)
    requires |filters| == |qoss| && |f| < 65536
    ensures EntriesBytes([], []) == []
    ensures EntriesBytes(filters + [f], qoss + [q]) == EntriesBytes(filters, qoss) + (Short(|f|) + f + [q])
  {
    ShortIs(|f|);
    EntriesAppend(filters, qoss, f, q);
    hide EntriesBytes;
    assert EntryBytes(f, q) == Short(|f|) + f + [q];
    NoEntries();
  }

  lemma NoEntries()
    ensures EntriesBytes([], []) == [] && FiltersBytes([]) == []
  {
  }

  /** Type 10 with QoS 1 in the header. */
  lemma UnsubscribeLayout(dup: nat, id: nat, filters: seq<bytes>)
    requires dup < 2 && id < 65536
    ensures var body := Short(id) + FiltersBytes(filters);
            UnsubscribeBytes(dup, id, filters) == [0xA2 + 8 * dup] + EncodeLength(|body|) + body
  {
    hide EncodeLength, FiltersBytes;
    ShortIs(id);
  }

  lemma FiltersLayout(filters: seq<bytes>, f: bytes)
    requires |f| < 65536
    ensures FiltersBytes([]) == [] && FiltersBytes([f] + filters) == Short(|f|) + f + FiltersBytes(filters)
  {
    ShortIs(|f|);
    assert ([f] + filters)[1..] == filters;
  }

  /** The packets that the broker sends. */
  lemma IncomingLayout(code: nat, sessionPresent: nat, id: nat, codes: bytes, m: Publish)
    requires code < 256 && sessionPresent < 2 && id < 65536 && m.Encodable()
    ensures var p := Connack(code, sessionPresent);
            p.Header() == 0x20 && p.Body() == [128 * sessionPresent, code]
    ensures var p := PublishTo(m); p.Header() == 0x30 + 8 * m.dup + 2 * m.qos + m.retained && p.Body() == PublishBody(m)
    ensures Puback(id).Header() == 0x40 && Puback(id).Body() == Short(id)
    ensures Suback(id, codes).Header() == 0x90 && Suback(id, codes).Body() == Short(id) + codes
    ensures Unsuback(id).Header() == 0xB0 && Unsuback(id).Body() == Short(id)
    ensures HeaderType(0xD0) == PINGRESP
  {
    hide PublishBody;
    ShortIs(id);
  }

  /** SUBACK and CONNACK as the server writes them. */
  lemma SubackLayout(id: nat, codes: seq<nat>)
    requires id < 65536 && forall i :: 0 <= i < |codes| ==> codes[i] < 256
    ensures var body := Short(id) + CodeBytes(codes);
            SubackBytes(id, codes) == [0x90] + EncodeLength(|body|) + body && CodeBytes(codes) == codes
  {
    hide EncodeLength;
    ShortIs(id);
  }

  lemma ConnackLayout(code: nat, sessionPresent: nat)
    requires code < 256 && sessionPresent < 2
    ensures ConnackBytes(code, sessionPresent) == [0x20, 2] + [128 * sessionPresent, code]
  {
    assert sessionPresent % 2 * 128 == 128 * sessionPresent && code % 256 == code;
    assert HeaderByte(CONNACK, 0, 0, 0) == 0x20;
    hide EncodeLength, HeaderByte;
    SmallFrame(0x20, [128 * sessionPresent, code]);
  }

  lemma SmallFrame(header: byte, body: bytes)
    requires |body| < 128
    ensures FrameBytes(header, body) == [header, |body|] + body
  {
    LengthStep(|body|);
    hide EncodeLength;
  }
}
