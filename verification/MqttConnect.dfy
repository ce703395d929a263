/**
 The CONNECT packet: MQTT/MQTTPacket/MQTTConnectClient.c and MQTT/MQTTPacket/MQTTConnectServer.c;
 section 3.1 of MQTT 3.1.1. The CONNACK packet as the pair of functions in the same files has it.
 */
module MqttConnect {
  import opened Bytes
  import opened MqttWire
  import opened MqttPublish

  datatype Will = Will(topic: MqttString, message: MqttString, retained: nat, qos: nat)

  /** MQTTPacket_connectData; flags and bytes are unsigned characters. */
  datatype ConnectData = ConnectData(
    version: nat, clientId: MqttString, keepAlive: nat, cleanSession: nat,
    willFlag: nat, will: Will, username: MqttString, password: MqttString)
  {
    predicate Writable() {
      (version == 3 || version == 4) && StringsWritable()
    }

    predicate StringsWritable() {
      && clientId.Writable() && username.Writable() && password.Writable()
      && (willFlag != 0 ==> will.topic.Writable() && will.message.Writable())
    }

    /** The keep-alive time is an unsigned short, and the packet is no longer than the length field can say. */
    predicate Encodable() {
      Writable() && keepAlive < 65536 && |ConnectBody(this)| <= MAX_REMAINING_LENGTH
    }

    /** What the deserializer insists on: a password only with a user name, and the credential
        that ends the packet is not empty. */
    predicate CredentialsReadable() {
      && (password.Present() ==> username.Present() && password.Text() != [])
      && (username.Present() && !password.Present() ==> username.Text() != [])
    }
  }

  const MQTT_NAME: bytes := ['M' as int, 'Q' as int, 'T' as int, 'T' as int]

  /** The protocol name of version 3 as the client writes it. */
  const MQISDP_NAME: bytes := ['M' as int, 'Q' as int, 'I' as int, 's' as int, 'd' as int, 'p' as int]

  /** The protocol name of version 3 as the server expects it: "d" and "s" are swapped. */
  const MQIDSP_NAME: bytes := ['M' as int, 'Q' as int, 'I' as int, 'd' as int, 's' as int, 'p' as int]

  /** The protocol name and version byte that the client writes. */
  function WrittenName(version: nat): (r: bytes) { if version == 4 then MQTT_NAME else MQISDP_NAME }

  function WrittenVersion(version: nat): (r: byte) { if version == 4 then 4 else 3 }

  function ProtocolBytes(version: nat): (r: bytes) {
    StringBytes(WrittenName(version)) + [WrittenVersion(version)]
  }

  // ----- the flags byte (MQTTConnectFlags bit fields) -----

  function Bit(b: bool): nat { if b then 1 else 0 }

  function FlagsByte(username: bool, password: bool, willRetain: nat, willQos: nat, will: bool, clean: nat): (b: byte) {
    Bit(username) * 128 + Bit(password) * 64 + willRetain % 2 * 32 + willQos % 4 * 8 + Bit(will) * 4 + clean % 2 * 2
  }

  function FlagUsername(b: byte): bool { b / 128 == 1 }
  function FlagPassword(b: byte): bool { b / 64 % 2 == 1 }
  function FlagWillRetain(b: byte): nat { b / 32 % 2 }
  function FlagWillQos(b: byte): nat { b / 8 % 4 }
  function FlagWill(b: byte): bool { b / 4 % 2 == 1 }
  function FlagClean(b: byte): nat { b / 2 % 2 }

  /** Every field is read back, cut to the width of its bit field. */
  lemma FlagFields(u: bool, p: bool, retain: nat, qos: nat, w: bool, clean: nat)
    ensures var b := FlagsByte(u, p, retain, qos, w, clean);
            FlagUsername(b) == u && FlagPassword(b) == p && FlagWillRetain(b) == retain % 2 &&
            FlagWillQos(b) == qos % 4 && FlagWill(b) == w && FlagClean(b) == clean % 2
  {
    var r, q, c := retain % 2, qos % 4, clean % 2;
    FlagsSum(u, p, retain, qos, w, clean);
    FlagQuotients(FlagsByte(u, p, retain, qos, w, clean));
    var i, j, k := Bit(u), Bit(p), Bit(w);
    assert i < 2 && j < 2 && k < 2 && (u <==> i == 1) && (p <==> j == 1) && (w <==> k == 1);
    hide FlagsByte, FlagUsername, FlagPassword, FlagWillRetain, FlagWillQos, FlagWill, FlagClean, Bit;
    HighFlags(i, j, r, q * 8 + k * 4 + c * 2);
    LowFlags(i * 4 + j * 2 + r, q, k, c);
  }

  lemma HighFlags(i: nat, j: nat, r: nat, rest: nat)
    requires i < 2 && j < 2 && r < 2 && rest < 32
    ensures var b := i * 128 + j * 64 + r * 32 + rest; b / 128 == i && b / 64 % 2 == j && b / 32 % 2 == r
  {
    DivMod(i, j * 64 + r * 32 + rest, 128);
    DivMod(i * 2 + j, r * 32 + rest, 64);
    DivMod(i, j, 2);
    DivMod(i * 4 + j * 2 + r, rest, 32);
    DivMod(i * 2 + j, r, 2);
  }

  lemma LowFlags(high: nat, q: nat, k: nat, c: nat)
    requires q < 4 && k < 2 && c < 2
    ensures var b := high * 32 + q * 8 + k * 4 + c * 2; b / 8 % 4 == q && b / 4 % 2 == k && b / 2 % 2 == c
  {
    DivMod(high * 4 + q, k * 4 + c * 2, 8);
    DivMod(high, q, 4);
    DivMod(high * 8 + q * 2 + k, c * 2, 4);
    DivMod(high * 4 + q, k, 2);
    DivMod(high * 16 + q * 4 + k * 2 + c, 0, 2);
    DivMod(high * 8 + q * 2 + k, c, 2);
  }

  lemma FlagsSum(u: bool, p: bool, r: nat, q: nat, w: bool, c: nat)
    ensures FlagsByte(u, p, r, q, w, c) ==
            Bit(u) * 128 + Bit(p) * 64 + r % 2 * 32 + q % 4 * 8 + Bit(w) * 4 + c % 2 * 2
  {
  }

  lemma FlagQuotients(b: byte)
    ensures FlagUsername(b) == (b / 128 == 1) && FlagPassword(b) == (b / 64 % 2 == 1) && FlagWillRetain(b) == b / 32 % 2
    ensures FlagWillQos(b) == b / 8 % 4 && FlagWill(b) == (b / 4 % 2 == 1) && FlagClean(b) == b / 2 % 2
  {
  }

  function DataFlags(d: ConnectData): (b: byte) {
    var w := d.willFlag != 0;
    FlagsByte(d.username.Present(), d.password.Present(), if w then d.will.retained else 0,
              if w then d.will.qos else 0, w, d.cleanSession)
  }

  // ----- serializer -----

  function OptionalString(present: bool, m: MqttString): (r: bytes) {
    if present then StringBytes(m.Text()) else []
  }

  /** The payload after the client id: will topic and message, user name, password. */
  function WillBytes(d: ConnectData): (r: bytes) {
    if d.willFlag != 0 then StringBytes(d.will.topic.Text()) + StringBytes(d.will.message.Text()) else []
  }

  function FixedBytes(d: ConnectData): (r: bytes) {
    ProtocolBytes(d.version) + [DataFlags(d)] + IntBytes(d.keepAlive)
  }

  function PayloadBytes(d: ConnectData): (r: bytes) {
    StringBytes(d.clientId.Text()) + WillBytes(d) +
    (OptionalString(d.username.Present(), d.username) + OptionalString(d.password.Present(), d.password))
  }

  function ConnectBody(d: ConnectData): (r: bytes) { FixedBytes(d) + PayloadBytes(d) }

  function ConnectBytes(d: ConnectData): (r: bytes) {
    FrameBytes(HeaderByte(CONNECT, 0, 0, 0), ConnectBody(d))
  }

  /** MQTTSerialize_connectLength. */
  function ConnectLength(d: ConnectData): (n: nat) {
    (if d.version == 3 then 12 else if d.version == 4 then 10 else 0) + d.clientId.Length() + 2 +
    (if d.willFlag != 0 then d.will.topic.Length() + 2 + d.will.message.Length() + 2 else 0) +
    (if d.username.Present() then d.username.Length() + 2 else 0) +
    (if d.password.Present() then d.password.Length() + 2 else 0)
  }

  /** The predicted remaining length is the length of what is written, exactly for the two protocol versions. */
  lemma ConnectLengthExact(d: ConnectData)
    requires d.StringsWritable()
    ensures ConnectLength(d) == |ConnectBody(d)| <==> d.version == 3 || d.version == 4
  {
    PredictedStringLength(d.clientId);
    PredictedStringLength(d.username);
    PredictedStringLength(d.password);
    if d.willFlag != 0 {
      PredictedStringLength(d.will.topic);
      PredictedStringLength(d.will.message);
    }
    assert |FixedBytes(d)| == if d.version == 4 then 10 else 12;
  }

  /** MQTTSerialize_connect. */
  method SerializeConnect(buf: array<byte>, d: ConnectData) returns (rc: int)
    requires d.Writable() && ConnectLength(d) <= MAX_REMAINING_LENGTH
    modifies buf
    ensures rc < 0 <==> PacketLen(|ConnectBody(d)|) > buf.Length
    ensures rc < 0 ==> rc == BUFFER_TOO_SHORT && buf[..] == old(buf[..])
    ensures rc >= 0 ==> rc == |ConnectBytes(d)| <= buf.Length && buf[..] == Splice(old(buf[..]), 0, ConnectBytes(d))
  {
    hide Splice, ConnectLength, FixedBytes, PayloadBytes, HeaderByte, EncodeLength;
    ghost var start := buf[..];
    var len := ConnectLength(d);
    ConnectLengthExact(d);
    PacketLenIsSafe(len);
    if PacketLen(len) > buf.Length {
      return BUFFER_TOO_SHORT;
    }
    var pos := WriteHeader(buf, HeaderByte(CONNECT, 0, 0, 0), len);
    ghost var head := pos;
    ghost var framed := buf[..];
    pos := WriteFixed(buf, pos, d);
    pos := WritePayload(buf, pos, d);
    SpliceTwice(framed, head, FixedBytes(d), PayloadBytes(d));
    SpliceFrame(start, HeaderByte(CONNECT, 0, 0, 0), ConnectBody(d));
    rc := pos;
  }

  method WriteFixed(buf: array<byte>, pos: nat, d: ConnectData) returns (pos': nat)
    requires pos + |FixedBytes(d)| <= buf.Length
    modifies buf
    ensures pos' == pos + |FixedBytes(d)|
    ensures buf[..] == Splice(old(buf[..]), pos, FixedBytes(d))
  {
    hide Splice, DataFlags;
    ghost var start := buf[..];
    if d.version == 4 {
      pos' := WriteString(buf, pos, MqttString(Some(MQTT_NAME), None));
      pos' := WriteChar(buf, pos', 4);
      SpliceTwice(start, pos, StringBytes(MQTT_NAME), [4]);
    } else {
      pos' := WriteString(buf, pos, MqttString(Some(MQISDP_NAME), None));
      pos' := WriteChar(buf, pos', 3);
      SpliceTwice(start, pos, StringBytes(MQISDP_NAME), [3]);
    }
    pos' := WriteChar(buf, pos', DataFlags(d));
    SpliceTwice(start, pos, ProtocolBytes(d.version), [DataFlags(d)]);
    pos' := WriteInt(buf, pos', d.keepAlive);
    SpliceTwice(start, pos, ProtocolBytes(d.version) + [DataFlags(d)], IntBytes(d.keepAlive));
  }

  method WriteOptional(buf: array<byte>, pos: nat, present: bool, m: MqttString) returns (pos': nat)
    requires pos + |OptionalString(present, m)| <= buf.Length
    modifies buf
    ensures pos' == pos + |OptionalString(present, m)|
    ensures buf[..] == Splice(old(buf[..]), pos, OptionalString(present, m))
  {
    pos' := pos;
    if present {
      pos' := WriteString(buf, pos, m);
    }
  }

  method WriteWill(buf: array<byte>, pos: nat, d: ConnectData) returns (pos': nat)
    requires pos + |WillBytes(d)| <= buf.Length
    modifies buf
    ensures pos' == pos + |WillBytes(d)|
    ensures buf[..] == Splice(old(buf[..]), pos, WillBytes(d))
  {
    hide Splice, StringBytes;
    pos' := pos;
    SpliceNothing(buf[..], pos);
    if d.willFlag != 0 {
      pos' := WriteString(buf, pos, d.will.topic);
      pos' := WriteString(buf, pos', d.will.message);
      SpliceTwice(old(buf[..]), pos, StringBytes(d.will.topic.Text()), StringBytes(d.will.message.Text()));
    }
  }

  method WritePayload(buf: array<byte>, pos: nat, d: ConnectData) returns (pos': nat)
    requires pos + |PayloadBytes(d)| <= buf.Length
    modifies buf
    ensures pos' == pos + |PayloadBytes(d)|
    ensures buf[..] == Splice(old(buf[..]), pos, PayloadBytes(d))
  {
    hide Splice, StringBytes, WillBytes, OptionalString;
    ghost var start := buf[..];
    ghost var id, u, p := StringBytes(d.clientId.Text()), OptionalString(d.username.Present(), d.username),
              OptionalString(d.password.Present(), d.password);
    pos' := WriteString(buf, pos, d.clientId);
    pos' := WriteWill(buf, pos', d);
    SpliceTwice(start, pos, id, WillBytes(d));
    ghost var mid, at := buf[..], pos';
    pos' := WriteOptional(buf, pos', d.username.Present(), d.username);
    pos' := WriteOptional(buf, pos', d.password.Present(), d.password);
    SpliceTwice(mid, at, u, p);
    SpliceTwice(start, pos, id + WillBytes(d), u + p);
  }

  // ----- deserializer -----

  /** MQTTPacket_checkVersion: the name is compared only up to its own length. */
  predicate VersionOk(name: bytes, version: nat) {
    (version == 3 && (name <= MQIDSP_NAME || MQIDSP_NAME <= name)) ||
    (version == 4 && (name <= MQTT_NAME || MQTT_NAME <= name))
  }

  /** The name that the server expects with a version. */
  function ProtocolName(version: nat): (r: bytes) { if version == 4 then MQTT_NAME else MQIDSP_NAME }

  /** The check agrees with equality exactly for the names that are neither a proper prefix (<) nor a proper
      extension of the protocol name. A caller who has compared the lengths gets an exact check. */
  lemma VersionCheckIsPrefixCheck(name: bytes, version: nat)
    requires version == 3 || version == 4
    ensures (VersionOk(name, version) <==> name == ProtocolName(version)) <==>
            !(name < ProtocolName(version)) && !(ProtocolName(version) < name)
    ensures |name| == |ProtocolName(version)| ==> (VersionOk(name, version) <==> name == ProtocolName(version))
  {
    var p := ProtocolName(version);
    assert VersionOk(name, version) <==> name <= p || p <= name;
    assert name <= p && p <= name ==> name == p;
  }

  /** The empty name, a prefix and an extension are taken for the name; the name of the other version is not. */
  lemma PrefixesPass()
    ensures VersionOk([], 3) && VersionOk([], 4) && VersionOk(['M' as int, 'Q' as int], 4) &&
            VersionOk(MQTT_NAME + [0], 4)
    ensures !VersionOk(MQTT_NAME, 3) && !VersionOk(MQIDSP_NAME, 4)
  {
    assert MQTT_NAME[2] != MQIDSP_NAME[2];
  }

  /** The server takes the name that the client writes at version 4, and does not take it at version 3. */
  lemma WrittenNamePasses(version: nat)
    ensures VersionOk(WrittenName(version), WrittenVersion(version)) <==> version == 4
  {
    assert MQISDP_NAME[3] != MQIDSP_NAME[3];
  }

  datatype ConnectResult = Rejected | Accepted(data: ConnectData)

  /** Reading the optional parts; p is the position of the first one. */
  function ReadWill(s: bytes, flags: byte, d: ConnectData, p: nat, end: nat): (r: Option<(ConnectData, nat)>)
    requires p <= end <= |s|
    ensures r.Some? ==> p <= r.value.1 <= end
  {
    if !FlagWill(flags) then Some((d, p))
    else
      match ReadString(s, p, end)
      case None => None
      case Some((topic, p1)) =>
        match ReadString(s, p1, end)
        case None => None
        case Some((message, p2)) =>
          var will := Will(Counted(topic), Counted(message), FlagWillRetain(flags), FlagWillQos(flags));
          Some((d.(willFlag := 1, will := will), p2))
  }

  function ReadCredential(s: bytes, p: nat, end: nat): (r: Option<(bytes, nat)>)
    requires p <= end <= |s|
    ensures r.Some? ==> p <= r.value.1 <= end
  {
    if end - p < 3 then None else ReadString(s, p, end)
  }

  function ReadCredentials(s: bytes, flags: byte, d: ConnectData, p: nat, end: nat): (r: ConnectResult)
    requires p <= end <= |s|
  {
    if FlagUsername(flags) then
      match ReadCredential(s, p, end)
      case None => Rejected
      case Some((name, p1)) =>
        var d1 := d.(username := Counted(name));
        if !FlagPassword(flags) then Accepted(d1)
        else
          match ReadCredential(s, p1, end)
          case None => Rejected
          case Some((word, p2)) => Accepted(d1.(password := Counted(word)))
    else if FlagPassword(flags) then Rejected
    else Accepted(d)
  }

  function ReadOptionals(s: bytes, flags: byte, d: ConnectData, p: nat, end: nat): (r: ConnectResult)
    requires p <= end <= |s|
  {
    match ReadWill(s, flags, d, p, end)
    case None => Rejected
    case Some((d1, p1)) => ReadCredentials(s, flags, d1, p1, end)
  }

  /** The packet after the protocol name and version. */
  function ParseConnectTail(s: bytes, p: nat, d0: ConnectData): (r: ConnectResult)
    requires p + 3 <= |s|
  {
    match ReadString(s, p + 3, |s|)
    case None => Rejected
    case Some((id, p1)) =>
      var d := d0.(cleanSession := FlagClean(s[p]), keepAlive := ReadInt(s, p + 1), clientId := Counted(id));
      ReadOptionals(s, s[p], d, p1, |s|)
  }

  predicate NameReadable(s: bytes, p: nat) {
    p <= |s| &&
    var name := ReadString(s, p, |s|);
    name.Some? ==> name.value.1 < |s| && (VersionOk(name.value.0, s[name.value.1]) ==> name.value.1 + 4 <= |s|)
  }

  /** The packet after the remaining length. */
  function ParseNamed(s: bytes, p: nat, d0: ConnectData): (r: ConnectResult)
    requires NameReadable(s, p)
  {
    match ReadString(s, p, |s|)
    case None => Rejected
    case Some((name, p1)) => if VersionOk(name, s[p1]) then ParseConnectTail(s, p1 + 1, d0) else Rejected
  }

  /** Every byte looked at lies in the buffer. */
  predicate ConnectReadable(s: bytes) {
    |s| > 0 && (HeaderType(s[0]) == CONNECT ==> FieldReadable(s, 1, 0) && NameReadable(s, 1 + DecodeLength(s, 1).len))
  }

  function ParseConnect(s: bytes, d0: ConnectData): (r: ConnectResult)
    requires ConnectReadable(s)
  {
    if HeaderType(s[0]) != CONNECT then Rejected else ParseNamed(s, 1 + DecodeLength(s, 1).len, d0)
  }

  method CheckVersion(name: bytes, version: nat) returns (ok: bool)
    ensures ok == VersionOk(name, version)
  {
    ok := false;
    if version == 3 && SamePrefix(MQIDSP_NAME, name, if 6 < |name| then 6 else |name|) {
      ok := true;
    } else if version == 4 && SamePrefix(MQTT_NAME, name, if 4 < |name| then 4 else |name|) {
      ok := true;
    }
  }

  /** memcmp over n bytes yields zero. */
  predicate SamePrefix(a: bytes, b: bytes, n: nat)
    requires n <= |a| && n <= |b|
  {
    a[..n] == b[..n]
  }

  /** MQTTDeserialize_connect over the whole buffer; data comes in with the caller's values d0. */
  method DeserializeConnect(buf: array<byte>, d0: ConnectData) returns (rc: int, d: ConnectData)
    requires ConnectReadable(buf[..])
    ensures rc == 1 <==> ParseConnect(buf[..], d0).Accepted?
    ensures rc == 0 || rc == 1
    ensures rc == 1 ==> ParseConnect(buf[..], d0) == Accepted(d)
  {
    hide FieldReadable, DecodeLength, ParseConnectTail, ReadString, VersionOk, HeaderType;
    rc, d := 0, d0;
    if HeaderType(buf[0]) != CONNECT {
      return;
    }
    var length, n := DecodeBuf(buf, 1);
    var ok, name, cur := ReadLenString(buf, 1 + n, buf.Length);
    if !ok {
      return;
    }
    var version := buf[cur];
    var known := CheckVersion(name, version);
    if known {
      rc, d := DeserializeTail(buf, cur + 1, d0);
    }
  }

  method DeserializeTail(buf: array<byte>, pos: nat, d0: ConnectData) returns (rc: int, d: ConnectData)
    requires pos + 3 <= buf.Length
    ensures var r := ParseConnectTail(buf[..], pos, d0);
            (rc == 1 <==> r.Accepted?) && (rc == 0 || rc == 1) && (rc == 1 ==> r == Accepted(d))
  {
    rc := 0;
    var flags := buf[pos];
    d := d0.(cleanSession := FlagClean(flags), keepAlive := 256 * (buf[pos + 1] as int) + buf[pos + 2]);
    var ok, text, cur := ReadLenString(buf, pos + 3, buf.Length);
    if !ok {
      return;
    }
    d := d.(clientId := Counted(text));
    if FlagWill(flags) {
      var message;
      ok, text, cur := ReadLenString(buf, cur, buf.Length);
      if !ok {
        return;
      }
      ok, message, cur := ReadLenString(buf, cur, buf.Length);
      if !ok {
        return;
      }
      d := d.(willFlag := 1, will := Will(Counted(text), Counted(message), FlagWillRetain(flags), FlagWillQos(flags)));
    }
    rc, d := DeserializeCredentials(buf, flags, d, cur);
  }

  method DeserializeCredentials(buf: array<byte>, flags: byte, d0: ConnectData, pos: nat)
    returns (rc: int, d: ConnectData)
    requires pos <= buf.Length
    ensures var r := ReadCredentials(buf[..], flags, d0, pos, buf.Length);
            (rc == 1 <==> r.Accepted?) && (rc == 0 || rc == 1) && (rc == 1 ==> r == Accepted(d))
  {
    rc, d := 0, d0;
    var ok, text, cur;
    if FlagUsername(flags) {
      if buf.Length - pos < 3 {
        return;
      }
      ok, text, cur := ReadLenString(buf, pos, buf.Length);
      if !ok {
        return;
      }
      d := d.(username := Counted(text));
      if FlagPassword(flags) {
        if buf.Length - cur < 3 {
          return;
        }
        ok, text, cur := ReadLenString(buf, cur, buf.Length);
        if !ok {
          return;
        }
        d := d.(password := Counted(text));
      }
    } else if FlagPassword(flags) {
      return;
    }
    rc := 1;
  }

  // ----- round trip -----

  /** The record that the receiver ends up with, starting from d0. The version is not recovered, and the flags
      are cut to the width of their bit fields. */
  function Recovered(d: ConnectData, d0: ConnectData): ConnectData {
    RecoveredCredentials(d, RecoveredWill(d,
      d0.(cleanSession := d.cleanSession % 2, keepAlive := d.keepAlive, clientId := Counted(d.clientId.Text()))))
  }

  function RecoveredWill(d: ConnectData, d0: ConnectData): ConnectData {
    if d.willFlag == 0 then d0
    else d0.(willFlag := 1, will := Will(Counted(d.will.topic.Text()), Counted(d.will.message.Text()),
           d.will.retained % 2, d.will.qos % 4))
  }

  function RecoveredCredentials(d: ConnectData, d0: ConnectData): ConnectData {
    var d1 := if d.username.Present() then d0.(username := Counted(d.username.Text())) else d0;
    if d.password.Present() then d1.(password := Counted(d.password.Text())) else d1
  }

  lemma ReadFlags(d: ConnectData)
    ensures var b := DataFlags(d);
            FlagUsername(b) == d.username.Present() && FlagPassword(b) == d.password.Present() &&
            FlagClean(b) == d.cleanSession % 2 &&
            FlagWill(b) == (d.willFlag != 0) &&
            (d.willFlag != 0 ==> FlagWillRetain(b) == d.will.retained % 2 && FlagWillQos(b) == d.will.qos % 4)
  {
    var w := d.willFlag != 0;
    FlagFields(d.username.Present(), d.password.Present(), if w then d.will.retained else 0,
               if w then d.will.qos else 0, w, d.cleanSession);
  }

  lemma ReadWillBytes(d: ConnectData, s: bytes, d0: ConnectData, p: nat)
    requires d.Encodable() && At(s, p, WillBytes(d))
    ensures ReadWill(s, DataFlags(d), d0, p, |s|) == Some((RecoveredWill(d, d0), p + |WillBytes(d)|))
  {
    hide DataFlags, FlagsByte, FlagUsername, FlagPassword, FlagClean, FlagWill, FlagWillQos, FlagWillRetain,
         ReadString, StringBytes;
    ReadFlags(d);
    if d.willFlag != 0 {
      var t, m := d.will.topic.Text(), d.will.message.Text();
      AtSplit(s, p, StringBytes(t), StringBytes(m));
      ReadStringBytes(s, p, |s|, t);
      ReadStringBytes(s, p + 2 + |t|, |s|, m);
    }
  }

  /** The credentials are at the end of the buffer: they are read back exactly when the
      deserializer's conditions on them hold. */
  lemma ReadCredentialBytes(d: ConnectData, s: bytes, d0: ConnectData, p: nat)
    requires d.Encodable()
    requires p <= |s| && s[p..] == OptionalString(d.username.Present(), d.username) +
             OptionalString(d.password.Present(), d.password)
    ensures ReadCredentials(s, DataFlags(d), d0, p, |s|) ==
            if d.CredentialsReadable() then Accepted(RecoveredCredentials(d, d0)) else Rejected
  {
    hide DataFlags, ReadString, StringBytes;
    ReadFlags(d);
    var u, w := d.username.Text(), d.password.Text();
    if d.username.Present() {
      assert At(s, p, StringBytes(u) + OptionalString(d.password.Present(), d.password));
      AtSplit(s, p, StringBytes(u), OptionalString(d.password.Present(), d.password));
      ReadStringBytes(s, p, |s|, u);
      if d.password.Present() {
        ReadStringBytes(s, p + 2 + |u|, |s|, w);
      }
    }
  }

  lemma ReadOptionalBytes(d: ConnectData, s: bytes, d0: ConnectData, p: nat)
    requires d.Encodable()
    requires p <= |s|
    requires s[p..] == WillBytes(d) + (OptionalString(d.username.Present(), d.username) +
               OptionalString(d.password.Present(), d.password))
    ensures ReadOptionals(s, DataFlags(d), d0, p, |s|) ==
            if d.CredentialsReadable() then Accepted(RecoveredCredentials(d, RecoveredWill(d, d0))) else Rejected
  {
    hide ReadWill, ReadCredentials, WillBytes, RecoveredWill, RecoveredCredentials, DataFlags, ConnectBody,
         ConnectData.CredentialsReadable;
    var cred := OptionalString(d.username.Present(), d.username) + OptionalString(d.password.Present(), d.password);
    assert At(s, p, WillBytes(d) + cred);
    AtSplit(s, p, WillBytes(d), cred);
    ReadWillBytes(d, s, d0, p);
    assert s[p + |WillBytes(d)|..] == cred;
    ReadCredentialBytes(d, s, RecoveredWill(d, d0), p + |WillBytes(d)|);
  }

  /** The three bytes and the client id in front of the optional parts. */
  lemma ReadFixedTail(d: ConnectData, s: bytes, p: nat, rest: bytes)
    requires d.Encodable()
    requires p <= |s| && s[p..] == [DataFlags(d)] + IntBytes(d.keepAlive) + (StringBytes(d.clientId.Text()) + rest)
    ensures p + 3 <= |s| && s[p] == DataFlags(d) && ReadInt(s, p + 1) == d.keepAlive
    ensures ReadString(s, p + 3, |s|) == Some((d.clientId.Text(), |s| - |rest|)) && s[|s| - |rest|..] == rest
  {
    var flags, ka, id := [DataFlags(d)], IntBytes(d.keepAlive), StringBytes(d.clientId.Text());
    assert s[p] == s[p..][0];
    AtSplit(s, p, flags + ka, id + rest);
    AtSplit(s, p, flags, ka);
    ReadIntBytes(s, p + 1, d.keepAlive);
    AtSplit(s, p + 3, id, rest);
    ReadStringBytes(s, p + 3, |s|, d.clientId.Text());
  }

  /** What follows the name and version: the flags byte, the keep-alive time and the payload. */
  function TailBytes(d: ConnectData): (r: bytes) { [DataFlags(d)] + IntBytes(d.keepAlive) + PayloadBytes(d) }

  lemma ParseTailOf(d: ConnectData, s: bytes, d0: ConnectData, p: nat)
    requires d.Encodable()
    requires p <= |s| && s[p..] == TailBytes(d)
    ensures p + 3 <= |s| && ParseConnectTail(s, p, d0) ==
            if d.CredentialsReadable() then Accepted(Recovered(d, d0)) else Rejected
  {
    hide ReadString, ReadOptionals, RecoveredWill, RecoveredCredentials, WillBytes, OptionalString, DataFlags,
         ConnectData.CredentialsReadable;
    var rest := WillBytes(d) + (OptionalString(d.username.Present(), d.username) +
          OptionalString(d.password.Present(), d.password));
    assert PayloadBytes(d) == StringBytes(d.clientId.Text()) + rest;
    ReadFixedTail(d, s, p, rest);
    ReadFlags(d);
    var d1 := d0.(cleanSession := d.cleanSession % 2, keepAlive := d.keepAlive, clientId := Counted(d.clientId.Text()));
    ReadOptionalBytes(d, s, d1, |s| - |rest|);
  }

  /** The protocol name and version are read back, whatever they are. */
  lemma ReadProtocol(name: bytes, version: byte, s: bytes, p: nat)
    requires |name| < 65536 && At(s, p, StringBytes(name) + [version])
    ensures p + 3 + |name| <= |s|
    ensures ReadString(s, p, |s|) == Some((name, p + 2 + |name|)) && s[p + 2 + |name|] == version
  {
    AtSplit(s, p, StringBytes(name), [version]);
    assert s[p + 2 + |name|] == s[p + 2 + |name|..p + 3 + |name|][0];
    ReadStringBytes(s, p, |s|, name);
  }

  /** Behind any protocol name and version byte, the fields are recovered exactly when the check passes these
      two and the credentials are readable. */
  lemma NamedRoundTrip(name: bytes, version: byte, d: ConnectData, s: bytes, p: nat, d0: ConnectData)
    requires |name| < 65536 && d.Encodable()
    requires p <= |s| && s[p..] == StringBytes(name) + [version] + TailBytes(d)
    ensures NameReadable(s, p)
    ensures ParseNamed(s, p, d0) ==
            if VersionOk(name, version) && d.CredentialsReadable() then Accepted(Recovered(d, d0)) else Rejected
  {
    hide PayloadBytes, DataFlags, ParseConnectTail, Recovered, ConnectData.CredentialsReadable, ReadString, StringBytes,
         VersionOk;
    var protocol := StringBytes(name) + [version];
    AtSplit(s, p, protocol, TailBytes(d));
    ReadProtocol(name, version, s, p);
    assert s[p + |protocol|..] == TailBytes(d);
    ParseTailOf(d, s, d0, p + |protocol|);
  }

  /** Round trip, with the exact condition: the deserializer accepts the serialized packet if and only if the
      version is 4 and the credentials are readable, and then it recovers every field. */
  lemma ConnectRoundTrip(d: ConnectData, d0: ConnectData)
    requires d.Encodable()
    ensures ConnectReadable(ConnectBytes(d))
    ensures ParseConnect(ConnectBytes(d), d0) ==
            if d.version == 4 && d.CredentialsReadable() then Accepted(Recovered(d, d0)) else Rejected
  {
    hide ConnectBody, HeaderByte, HeaderType, ParseNamed, NameReadable, Recovered, EncodeLength, DecodeLength,
         FieldReadable, ConnectData.CredentialsReadable, VersionOk, WrittenName, WrittenVersion, StringBytes;
    var s := ConnectBytes(d);
    var body := ConnectBody(d);
    HeaderFields(CONNECT, 0, 0, 0);
    assert At(s, 0, FrameBytes(HeaderByte(CONNECT, 0, 0, 0), body));
    FrameAt(s, HeaderByte(CONNECT, 0, 0, 0), body);
    var p := 1 + |EncodeLength(|body|)|;
    assert s[p..] == body;
    BodyParts(d);
    NamedRoundTrip(WrittenName(d.version), WrittenVersion(d.version), d, s, p, d0);
    WrittenNamePasses(d.version);
  }

  /** The bytes behind the length field: the length and letters of the protocol name, the protocol level, the flags,
      the keep-alive time and the payload. */
  lemma WrittenConnect(d: ConnectData)
    requires d.Encodable()
    ensures ConnectBody(d) ==
            (if d.version == 4 then [0, 4, 77, 81, 84, 84, 4] else [0, 6, 77, 81, 73, 115, 100, 112, 3]) +
            [DataFlags(d)] + [d.keepAlive / 256, d.keepAlive % 256] + PayloadBytes(d)
    ensures DataFlags(d) ==
            (if d.username.Present() then 128 else 0) + (if d.password.Present() then 64 else 0) +
            (if d.willFlag == 0 then 0 else 32 * (d.will.retained % 2) + 8 * (d.will.qos % 4) + 4) +
            2 * (d.cleanSession % 2)
  {
    hide PayloadBytes, FlagsByte;
    FlagsSum(d.username.Present(), d.password.Present(), if d.willFlag != 0 then d.will.retained else 0,
             if d.willFlag != 0 then d.will.qos else 0, d.willFlag != 0, d.cleanSession);
    assert StringBytes(MQTT_NAME) == [0, 4, 77, 81, 84, 84];
    assert StringBytes(MQISDP_NAME) == [0, 6, 77, 81, 73, 115, 100, 112];
    assert IntBytes(d.keepAlive) == [d.keepAlive / 256, d.keepAlive % 256];
  }

  /** A reader that knows the name and level of MQTT 3.1, and otherwise reads as the server does, recovers every field
      of a version 3 packet. */
  lemma Version3IsReadable(d: ConnectData, d0: ConnectData)
    requires d.Encodable() && d.version == 3
    ensures var s := ConnectBody(d);
            9 + 3 <= |s| && s[..9] == [0, 6, 77, 81, 73, 115, 100, 112, 3] &&
            ParseConnectTail(s, 9, d0) == if d.CredentialsReadable() then Accepted(Recovered(d, d0)) else Rejected
  {
    hide DataFlags, PayloadBytes, ParseConnectTail, Recovered, ConnectData.CredentialsReadable;
    var s := ConnectBody(d);
    WrittenConnect(d);
    var name: bytes := [0, 6, 77, 81, 73, 115, 100, 112, 3];
    assert IntBytes(d.keepAlive) == [d.keepAlive / 256, d.keepAlive % 256];
    assert s == name + TailBytes(d);
    assert s[..9] == name && s[9..] == TailBytes(d);
    ParseTailOf(d, s, d0, 9);
  }

  lemma BodyParts(d: ConnectData)
    ensures |WrittenName(d.version)| < 65536
    ensures ConnectBody(d) ==
            StringBytes(WrittenName(d.version)) + [WrittenVersion(d.version)] + TailBytes(d)
  {
    hide PayloadBytes, DataFlags, StringBytes;
  }

  /** Every version 3 packet that the serializer writes is refused. Only the name is in the way: behind the name
      that the server expects, the same bytes are read as at version 4. */
  lemma Version3IsRefused(d: ConnectData, d0: ConnectData)
    requires d.Encodable() && d.version == 3
    ensures ConnectReadable(ConnectBytes(d)) && ParseConnect(ConnectBytes(d), d0) == Rejected
    ensures var s := StringBytes(MQIDSP_NAME) + [3] + TailBytes(d);
            NameReadable(s, 0) &&
            ParseNamed(s, 0, d0) == if d.CredentialsReadable() then Accepted(Recovered(d, d0)) else Rejected
  {
    hide Recovered, ParseConnect, ParseNamed, ConnectBytes, ConnectReadable, NameReadable, TailBytes, StringBytes,
         ConnectData.Encodable, ConnectData.CredentialsReadable;
    ConnectRoundTrip(d, d0);
    NamedRoundTrip(MQIDSP_NAME, 3, d, StringBytes(MQIDSP_NAME) + [3] + TailBytes(d), 0, d0);
  }

  /** A plain one: no will, no credentials, a clean session and 60 seconds. */
  lemma PlainVersion3IsRefused(d0: ConnectData)
    ensures var none := NULL_STRING;
            var d := ConnectData(3, none, 60, 1, 0, Will(none, none, 0, 0), none, none);
            d.Encodable() && d.CredentialsReadable() &&
            ConnectReadable(ConnectBytes(d)) && ParseConnect(ConnectBytes(d), d0) == Rejected
  {
    hide ParseConnect, ConnectBytes, ConnectReadable;
    var none := NULL_STRING;
    var d := ConnectData(3, none, 60, 1, 0, Will(none, none, 0, 0), none, none);
    assert |PayloadBytes(d)| == 2;
    Version3IsRefused(d, d0);
  }

  // ----- what an accepted packet holds -----

  /** The strings behind the keep-alive time that the flags byte announces, for the fields of d. */
  function Announced(flags: byte, d: ConnectData): (r: bytes) {
    StringBytes(d.clientId.Text()) +
    ((if flags / 4 % 2 == 1 then StringBytes(d.will.topic.Text()) + StringBytes(d.will.message.Text()) else []) +
     ((if flags / 128 == 1 then StringBytes(d.username.Text()) else []) +
      (if flags / 64 % 2 == 1 then StringBytes(d.password.Text()) else [])))
  }

  /** Whatever is accepted behind the name and version holds every string that its flags announce, a password only
      with a user name; and the fields of the record are those strings, the flags and the keep-alive time. */
  lemma AcceptedMeans(s: bytes, p: nat, d0: ConnectData)
    requires p + 3 <= |s| && ParseConnectTail(s, p, d0).Accepted?
    ensures var d, b := ParseConnectTail(s, p, d0).data, s[p];
            && At(s, p + 3, Announced(b, d)) && (b / 64 % 2 == 1 ==> b / 128 == 1)
            && d.keepAlive == 256 * (s[p + 1] as nat) + s[p + 2] && d.cleanSession == b / 2 % 2
            && (if b / 4 % 2 == 1 then d.willFlag == 1 && d.will.retained == b / 32 % 2 && d.will.qos == b / 8 % 4
                else d.willFlag == d0.willFlag && d.will == d0.will)
            && (b / 128 == 0 ==> d.username == d0.username) && (b / 64 % 2 == 0 ==> d.password == d0.password)
  {
    hide ReadString, StringBytes, At, ReadWill, ReadCredentials;
    var flags, end := s[p], |s|;
    var (id, p1) := ReadString(s, p + 3, end).value;
    ReadStands(s, p + 3, end);
    var d := d0.(cleanSession := FlagClean(flags), keepAlive := ReadInt(s, p + 1), clientId := Counted(id));
    var (d1, p2) := ReadWill(s, flags, d, p1, end).value;
    var will := WillStands(s, flags, d, p1, end);
    var rest := CredentialsStand(s, flags, d1, p2, end);
    AtJoin(s, p1, will, rest);
    AtJoin(s, p + 3, StringBytes(id), will + rest);
  }

  lemma ReadStands(s: bytes, p: nat, end: nat)
    requires p <= end <= |s| && ReadString(s, p, end).Some?
    ensures var (text, q) := ReadString(s, p, end).value;
            At(s, p, StringBytes(text)) && q == p + |StringBytes(text)| && Counted(text).Text() == text
  {
    var (text, q) := ReadString(s, p, end).value;
    StringStands(s, p, end, text, q);
  }

  lemma NothingStands(s: bytes, p: nat)
    requires p <= |s|
    ensures At(s, p, [])
  {
  }

  lemma WillStands(s: bytes, flags: byte, d: ConnectData, p: nat, end: nat) returns (will: bytes)
    requires p <= end <= |s| && ReadWill(s, flags, d, p, end).Some?
    ensures var (d1, q) := ReadWill(s, flags, d, p, end).value;
            && At(s, p, will) && q == p + |will|
            && will == (if flags / 4 % 2 == 1
                        then StringBytes(d1.will.topic.Text()) + StringBytes(d1.will.message.Text()) else [])
            && d1 == d.(willFlag := d1.willFlag, will := d1.will)
            && if flags / 4 % 2 == 1
               then d1.willFlag == 1 && d1.will.retained == flags / 32 % 2 && d1.will.qos == flags / 8 % 4
               else d1 == d
  {
    hide ReadString, StringBytes, At;
    will := [];
    NothingStands(s, p);
    if FlagWill(flags) {
      var (topic, p1) := ReadString(s, p, end).value;
      var (message, p2) := ReadString(s, p1, end).value;
      ReadStands(s, p, end);
      ReadStands(s, p1, end);
      AtJoin(s, p, StringBytes(topic), StringBytes(message));
      will := StringBytes(topic) + StringBytes(message);
    }
  }

  lemma CredentialsStand(s: bytes, flags: byte, d: ConnectData, p: nat, end: nat) returns (rest: bytes)
    requires p <= end <= |s| && ReadCredentials(s, flags, d, p, end).Accepted?
    ensures var d1 := ReadCredentials(s, flags, d, p, end).data;
            && At(s, p, rest) && (flags / 64 % 2 == 1 ==> flags / 128 == 1)
            && rest == (if flags / 128 == 1 then StringBytes(d1.username.Text()) else []) +
                       (if flags / 64 % 2 == 1 then StringBytes(d1.password.Text()) else [])
            && d1 == d.(username := d1.username, password := d1.password)
            && (flags / 128 == 0 ==> d1.username == d.username) && (flags / 64 % 2 == 0 ==> d1.password == d.password)
  {
    hide ReadString, StringBytes, At;
    rest := [];
    NothingStands(s, p);
    if FlagUsername(flags) {
      var (name, p1) := ReadString(s, p, end).value;
      ReadStands(s, p, end);
      rest := StringBytes(name);
      if FlagPassword(flags) {
        var (word, p2) := ReadString(s, p1, end).value;
        ReadStands(s, p1, end);
        AtJoin(s, p, StringBytes(name), StringBytes(word));
        rest := StringBytes(name) + StringBytes(word);
      } else {
        assert rest + [] == rest;
      }
    } else {
      assert [] + [] == rest;
    }
  }

  // ----- CONNACK -----

  /** The session-present flag is bit 7, as both functions have it. */
  function ConnackBytes(code: nat, sessionPresent: nat): (r: bytes) {
    FrameBytes(HeaderByte(CONNACK, 0, 0, 0), [sessionPresent % 2 * 128, code % 256])
  }

  /** MQTTSerialize_connack. The function itself asks only for two bytes; the frame needs four. */
  method SerializeConnack(buf: array<byte>, code: nat, sessionPresent: nat) returns (rc: int)
    requires buf.Length >= 2 ==> buf.Length >= |ConnackBytes(code, sessionPresent)|
    modifies buf
    ensures rc < 0 <==> buf.Length < 2
    ensures rc < 0 ==> rc == BUFFER_TOO_SHORT && buf[..] == old(buf[..])
    ensures rc >= 0 ==>
              rc == |ConnackBytes(code, sessionPresent)| &&
              buf[..] == Splice(old(buf[..]), 0, ConnackBytes(code, sessionPresent))
  {
    if buf.Length < 2 {
      return BUFFER_TOO_SHORT;
    }
    hide Splice, HeaderByte, EncodeLength;
    ghost var start := buf[..];
    ghost var body: bytes := [sessionPresent % 2 * 128, code % 256];
    var header := HeaderByte(CONNACK, 0, 0, 0);
    var pos := WriteHeader(buf, header, 2);
    ghost var head := pos;
    pos := WriteChar(buf, pos, sessionPresent % 2 * 128);
    pos := WriteChar(buf, pos, code % 256);
    SpliceTwice(Splice(start, 0, FrameHead(header, 2)), head, [body[0]], [body[1]]);
    assert [body[0]] + [body[1]] == body;
    SpliceFrame(start, header, body);
    rc := pos;
  }

  datatype ConnackResult =
    | ConnackWrongType
    | ConnackTooShort(fieldLen: nat)
    | ConnackParsed(sessionPresent: nat, code: nat)
  {
    function ReturnCode(): int {
      match this
      case ConnackWrongType => 0
      case ConnackTooShort(n) => n
      case ConnackParsed(_, _) => 1
    }
  }

  predicate ConnackReadable(s: bytes) {
    |s| > 0 && (HeaderType(s[0]) == CONNACK ==>
      FieldReadable(s, 1, 0) &&
      var d := DecodeLength(s, 1);
      d.value >= 2 ==> 1 + d.len + 2 <= |s|)
  }

  function ParseConnack(s: bytes): (r: ConnackResult)
    requires ConnackReadable(s)
  {
    if HeaderType(s[0]) != CONNACK then ConnackWrongType
    else
      var d := DecodeLength(s, 1);
      if d.value < 2 then ConnackTooShort(d.len) else ConnackParsed(s[1 + d.len] / 128, s[2 + d.len])
  }

  /** MQTTDeserialize_connack; sessionPresent0 and code0 are the caller's initial values. */
  method DeserializeConnack(buf: array<byte>, sessionPresent0: nat, code0: nat)
    returns (rc: int, sessionPresent: nat, code: nat)
    requires ConnackReadable(buf[..])
    ensures var r := ParseConnack(buf[..]);
            rc == r.ReturnCode() &&
            if r.ConnackParsed? then sessionPresent == r.sessionPresent && code == r.code
            else sessionPresent == sessionPresent0 && code == code0
  {
    rc, sessionPresent, code := 0, sessionPresent0, code0;
    if HeaderType(buf[0]) != CONNACK {
      return;
    }
    var length, n := DecodeBuf(buf, 1);
    rc := n;
    if length < 2 {
      return;
    }
    sessionPresent := buf[1 + n] / 128;
    code := buf[2 + n];
    rc := 1;
  }

  lemma ConnackRoundTrip(code: nat, sessionPresent: nat, s: bytes)
    requires code < 256 && sessionPresent < 2 && At(s, 0, ConnackBytes(code, sessionPresent))
    ensures ConnackReadable(s) && ParseConnack(s) == ConnackParsed(sessionPresent, code)
  {
    hide EncodeLength, DecodeLength, FieldReadable, HeaderByte, HeaderType;
    var body: bytes := [sessionPresent % 2 * 128, code % 256];
    HeaderFields(CONNACK, 0, 0, 0);
    FrameAt(s, HeaderByte(CONNACK, 0, 0, 0), body);
    var k := 1 + |EncodeLength(2)|;
    assert s[k..k + 2] == body && s[k] == s[k..k + 2][0] && s[k + 1] == s[k..k + 2][1];
  }

  /** The same for CONNACK. */
  lemma ConnackReturnCode(s: bytes)
    requires ConnackReadable(s)
    ensures ParseConnack(s).ReturnCode() == 1 <==>
            ParseConnack(s).ConnackParsed? || (HeaderType(s[0]) == CONNACK && s[1] < 2)
    ensures HeaderType(s[0]) == CONNACK && s[1] < 2 ==> !ParseConnack(s).ConnackParsed?
  {
    if HeaderType(s[0]) == CONNACK { ShortField(s); }
  }
}
