# Verification of the weather station's network and storage code

The firmware of the weather station talks MQTT to a broker, reads and writes JSON, debounces the edges
of its meters, and keeps its settings in a small text file. This project models that code in Dafny and
proves what it promises. `dafny verify dfyconfig.toml` checks the whole project.

## What is modelled

**MQTT packets** (`MqttWire`, `MqttPublish`, `MqttConnect`, `MqttSubscribe`, `MqttLayout`; section references
are to MQTT 3.1.1). Every serializer is a method that writes through a cursor into an `array<byte>`. Its contract
says that exactly the bytes of one frame have changed: `Splice(old, pos, data)` is the buffer with `data`
written at `pos`. Every deserializer is a method over a buffer, tied to a parse function. Round-trip lemmas
connect the two, always for a frame at the start of a buffer that may hold anything behind it (CONNECT,
whose credentials are read to the end of the buffer, for the packet alone). `MqttLayout` gives every packet in
literal bytes, and the deserializers are also described from the other side: what the bytes must have been when
a packet or a list was accepted (`AcceptedMeans`, `EntriesRead`, `FiltersRead`).

**The MQTT client** (`MqttFraming`, `MqttHandlers`, `MqttTrace`, `TopicFilter`, `MqttClient`, `MqttSession`,
`Qos2Table`) in its default build: QoS 1 on, QoS 2 off except for `Qos2Table`. The network delivers
well-formed frames, with any legal encoding of the remaining length; a read at a frame boundary may time
out, a write may take any number of bytes or fail, and a timer may expire after any number of looks at it. A
failure is never made up: an operation that gives up has seen its timer expire or a write fail, it has asked the
network at least as often as it has found time left (`GaveUp` and the `clock` of each public method), and a wait
that had time has tried to read. `Client` keeps a ghost history, `trace`, and its invariant says that the history
is an allowed run of `MqttTrace`. The theorems about runs are lemmas in `MqttTrace`, so they hold for every
sequence of calls of the public methods; `MqttSession.Run` makes any such sequence.

How the statements about incoming messages read:

- A run knows the message handlers at each point (`Installed`), and with the arrival of a PUBLISH it knows the
  calls that the message is owed. Each PUBACK tried comes after exactly those calls and nothing else since the
  arrival of the message with its id (`HandlersBeforeAck`); at any QoS they are the first thing that happens
  after the arrival (`EveryMessageDelivered`). The calls are one for every attached handler whose filter
  matches, no other, and the default handler's if there is none (`CallsAreMatches`).
- The ids in the PUBACKs sent, read from their bytes, are a subsequence of the ids that arrived, and equal to them
  as long as no `cycle` has failed (`AckOrder`, `AllAcked`).

How the statements about messages in flight read:

- `Client.Kept` is part of the invariant: while a message is in flight, `inflightMsgid` is its id and
  `pubbuf[..inflightLen]` is its encoding.
- A run is *trusted* when only QoS 1 messages were recorded and every PUBACK that ended a wait had the id
  of the message in flight (`TrustedMeans`). Over a trusted run no message is lost (`NoMessageLost`),
  because a connected client has none in flight when it records the next one. An application that publishes
  at QoS 0 and 1 only, through the overloads without an id argument, to a broker whose PUBACKs have the
  awaited ids, makes a trusted run whatever else it calls (`MqttSession.Run`).
- `Resending` marks the point where `connect` takes the kept message; the next packet tried is exactly its
  encoding (`PromisesKept`). Whenever the resend was sent, and so whenever it succeeded, these bytes were put
  on the wire during that `connect`, whatever sends had failed before (`ResentOnWire` in `Connect`).
- The wire is always what the calls of `sendPacket` put there, one chunk for each: the packet if it was sent,
  anything if it failed (`Client.Logged`). The packets sent between two points of a run with no failure in
  between stand on the wire one right after the other, and a peer that starts to read there, as a broker does
  on a new connection, gets exactly these packets (`PeerReads`).

**JSON** (`JsonNumber`, `JsonValue`, `JsonText`, `JsonReader`, `JsonWriter`, `JsonNumeral`, `JsonGrammar`,
`JsonRoundTrip`, `JsonUnicode`).
`Input` is the character source with one character of pushback; the parser is a set of mutually recursive
methods over it, each proved against a function that reads from a position of the text. `JsonGrammar` is an
independent grammar in literal bytes, whose trees keep every white space, escape and digit: the parser reads a value
exactly where a proper tree of it stands (`ReadsTheGrammar`). The serializer is proved against `Text`, whose texts
are such trees. The round trip is proved for values nested to any depth and any text behind them. Numbers
are doubles in the source: the model has the integers that a double holds exactly (`IsDoubleMeans`), and keeps
every other numeral, also an integer that a double would round, as its text without a value.

**The edge counter** (`DebouncedCounter`): 32-bit time against unbounded time, and the interrupt against
the reader of the count as interleaved atomic steps.

**The configuration file** (`ConfigTable`, `ConfigText`, `ConfigRoundTrip`): the 64-slot table against a
finite map, and the text file round trip, also with comments and other lines without an entry in the file.

## Where the code departs from its documentation

The model follows the code. Each of these has a lemma or an exact condition:

- `MQTTDeserialize_publish` can return 1 for a truncated packet (`PublishReturnCode`,
  `TruncatedPublishReturnsOne`).
- The deserializers of acknowledgements, CONNACK, SUBACK, SUBSCRIBE and UNSUBSCRIBE return the size of the length
  field, and so 1, for a packet cut short behind a field of one byte (`AckReturnCode`, `ConnackReturnCode`,
  `SubackReturnCode`, `ListReturnCode`).
- The payload length of a PUBLISH that ends inside its packet id is negative (`NegativePayload`).
- `MQTTPacket_checkVersion` accepts any prefix of the protocol name, also the empty one, and any extension
  of it; it is exact for names of the right length (`VersionCheckIsPrefixCheck`, `PrefixesPass`).
- The client writes the protocol name of version 3 as `MQIsdp`, as MQTT 3.1 has it, and the server compares it
  with `MQIdsp`, two letters swapped. So `MQTTDeserialize_connect` refuses every version 3 packet that
  `MQTTSerialize_connect` writes (`WrittenNamePasses`, `ConnectRoundTrip`, `Version3IsRefused`,
  `PlainVersion3IsRefused`).
- `MQTTDeserialize_connect` refuses a CONNECT whose last credential is empty, or which has a password
  without a user name (`ConnectRoundTrip`).
- `MQTTDeserialize_suback` accepts one code more than its array has room for (`SubackRoundTrip`).
- `isTopicMatched` wants a non-empty level for every wildcard; section 4.7.1 lets `+` match an empty level
  and `#` the parent level (`LoopAgainstStandard`, `ParentLevelIsMissed`).
- `subscribe` reports a granted QoS above 0 as a failure, and drops the connection, when no handler slot
  is free (`Subscribe`, `SubscribedExactly`, `GrantedButFailed`).
- `connect` goes by the resend alone when a message is in flight: it reports success exactly if the CONNECT was
  sent and the resend succeeded, also when the CONNACK refused the connection and when none came at all
  (`Connect`, `ResendAfterRefusal`).
- JSON integers of more than 255 characters lose their last digits in the number buffer (`RoundTrip`,
  `LongNumberIsCut`).
- An edge that comes a whole wrap of the timer after the last one can be dropped (`DecisionExact`,
  `LateEdgeIsDropped`), and an edge between reading and zeroing the count is lost (`NothingLostExactly`).
- An entry with a line end, or with a key that has `=` or begins with `#`, does not survive the configuration
  file (`ConfigFileRoundTrip`, `HashKeyIsLost`). A file in the MAC format of at most 199 characters comes back as
  its first entry alone (`MacFileKeepsFirst`).

## Model

| member | source | states |
|---|---|---|
| MqttWire.HeaderFields | MQTT/MQTTPacket/MQTTPacket.h:41-61 | type, dup, QoS and retain flags that fit their bits are read back from the header byte |
| MqttWire.EncodedIsField | MQTT/MQTTPacket/MQTTPacket.c:28-44 | the encoder writes a legal length field of one to four bytes that stands for the length, its size given by the three thresholds |
| MqttWire.DecodeField | MQTT/MQTTPacket/MQTTPacket.c:53-80 | decoding any legal length field, minimal or not, gives its value and its size |
| MqttWire.OverlongField | MQTT/MQTTPacket/MQTTPacket.c:53-80 | behind four bytes with the continuation bit the size reported is 5 and the value is that of the four digits |
| MqttWire.RemainingLengthRoundTrip | MQTT/MQTTPacket/MQTTPacket.c:28-80 | for 0 to 268435455 the decoder inverts the encoder, and no legal field for the same number is shorter |
| MqttWire.PacketLenIsSafe | MQTT/MQTTPacket/MQTTPacket.c:83-97 | the predicted size is the exact frame size, except one more at 127, 16383, 2097150 and 2097151 |
| MqttWire.Encode | MQTT/MQTTPacket/MQTTPacket.c:28-44 | the loop writes the length field at the cursor, nothing else, and returns its size |
| MqttWire.DecodeBuf | MQTT/MQTTPacket/MQTTPacket.c:53-116 | the loop returns the value and size that the field at the cursor stands for, 5 for one that is too long |
| MqttWire.ReadIntBytes | MQTT/MQTTPacket/MQTTPacket.c:124-169 | a 16-bit integer is read back from its two bytes |
| MqttWire.WriteInt | MQTT/MQTTPacket/MQTTPacket.c:163-169 | two bytes are written, high byte first, and the cursor moves by two |
| MqttWire.PredictedStringLength | MQTT/MQTTPacket/MQTTPacket.c:193-250 | predicted and written string length agree exactly when the two pointers do not describe strings of different lengths |
| MqttWire.WriteString | MQTT/MQTTPacket/MQTTPacket.c:177-205 | the length prefix and the text of the form in use are written at the cursor, nothing else |
| MqttWire.ReadLenString | MQTT/MQTTPacket/MQTTPacket.c:214-233 | the text and the new cursor, or failure when the prefix or the text runs past the end |
| MqttWire.ReadStringBytes | MQTT/MQTTPacket/MQTTPacket.c:177-233 | a length-prefixed string that fits is read back, and the cursor stands behind it |
| MqttWire.StringFits | MQTT/MQTTPacket/MQTTPacket.c:214-236 | a string is read exactly if its two length bytes and all its characters lie in front of the end |
| MqttPublish.SerializePublish | MQTT/MQTTPacket/MQTTSerializePublish.c:54-90 | refused without a write if the predicted size exceeds the buffer, else exactly the frame is written and its size returned |
| MqttPublish.SerializeAck | MQTT/MQTTPacket/MQTTSerializePublish.c:103-126 | refused without a write below four bytes, else the four bytes of the acknowledgement are written |
| MqttPublish.SerializeZero | MQTT/MQTTPacket/MQTTConnectClient.c:170-191 | refused without a write below two bytes, else the packet without a body is written |
| MqttPublish.DeserializePublish | MQTT/MQTTPacket/MQTTDeserializePublish.c:36-69 | all out-parameters and the return code for every buffer that holds its frame, also truncated ones |
| MqttPublish.DeserializeAck | MQTT/MQTTPacket/MQTTDeserializePublish.c:82-106 | type, dup, id and return code, the caller's id kept when the body is too short |
| MqttPublish.PublishRoundTrip | MQTT/MQTTPacket/MQTTDeserializePublish.c:36-69 | every PUBLISH frame gives back dup, QoS, retained, topic and payload, and the id above QoS 0 (section 3.3) |
| MqttPublish.PublishReturnCode | MQTT/MQTTPacket/MQTTDeserializePublish.c:53-58 | the value 1 means that a PUBLISH was parsed, exactly unless the bytes s[0] to s[3] are those of a packet with a one-byte length that has no room for its topic |
| MqttPublish.TruncatedPublishReturnsOne | MQTT/MQTTPacket/MQTTDeserializePublish.c:53-58 | a three-byte packet without a whole topic for which 1 is returned |
| MqttPublish.NegativePayload | MQTT/MQTTPacket/MQTTDeserializePublish.c:56-65 | a frame that ends inside its packet id is parsed with the payload length -1 |
| MqttPublish.AckRoundTrip | MQTT/MQTTPacket/MQTTDeserializePublish.c:82-106 | type, dup and packet id of an acknowledgement are read back |
| MqttPublish.AckReturnCode | MQTT/MQTTPacket/MQTTDeserializePublish.c:82-106 | 1 is returned exactly for parsed packets and for those whose length field is one byte below 2 |
| MqttConnect.FlagFields | MQTT/MQTTPacket/MQTTConnect.h:20-46 | all six connect flags are read back from the flags byte, cut to the width of their bit fields |
| MqttConnect.ConnectLengthExact | MQTT/MQTTPacket/MQTTConnectClient.c:27-48 | the predicted remaining length is the number of bytes the serializer writes if and only if the version is 3 or 4 |
| MqttConnect.SerializeConnect | MQTT/MQTTPacket/MQTTConnectClient.c:58-121 | refused without a write if the prediction exceeds the buffer, else exactly the CONNECT frame is written |
| MqttConnect.WrittenConnect | MQTT/MQTTPacket/MQTTConnectClient.c:58-121 | behind the length field come the length and letters of the name, the level 3 or 4, the flags byte, the keep-alive time and the payload, in literal bytes |
| MqttConnect.Version3IsReadable | MQTT/MQTTPacket/MQTTConnectClient.c:84-88 | a reader that knows the name and level of MQTT 3.1 recovers every field of a version 3 packet |
| MqttConnect.CheckVersion | MQTT/MQTTPacket/MQTTConnectServer.c:30-41 | the comparison with the name of version 3 or 4, `MQIdsp` or `MQTT`, stops at the end of the name received |
| MqttConnect.VersionCheckIsPrefixCheck | MQTT/MQTTPacket/MQTTConnectServer.c:30-41 | for every name and version 3 or 4 the check agrees with equality if and only if the name is no proper prefix and no proper extension of the name that the server expects; with equal lengths it is exact |
| MqttConnect.PrefixesPass | MQTT/MQTTPacket/MQTTConnectServer.c:30-41 | the empty name, a prefix and an extension of the name pass; the name of the other version does not |
| MqttConnect.WrittenNamePasses | MQTT/MQTTPacket/MQTTConnectClient.c:79-88 | the server's check passes the name and version byte that the client writes if and only if the version is 4 |
| MqttConnect.DeserializeConnect | MQTT/MQTTPacket/MQTTConnectServer.c:51-108 | 1 exactly for accepted packets, and then all fields; 0 otherwise |
| MqttConnect.NamedRoundTrip | MQTT/MQTTPacket/MQTTConnectServer.c:69-104 | behind any protocol name and version byte, client id, keep-alive, clean session, will and credentials are recovered if and only if the check passes these two, a password comes with a user name and the last credential is not empty; otherwise the packet is refused |
| MqttConnect.ConnectRoundTrip | MQTT/MQTTPacket/MQTTConnectServer.c:51-108 | the deserializer accepts a serialized CONNECT if and only if the version is 4, a password comes with a user name and the last credential is not empty, and then client id, keep-alive, clean session, will and credentials are recovered (section 3.1), any will flag as 1 and the other flags cut to the width of their bit fields |
| MqttConnect.AcceptedMeans | MQTT/MQTTPacket/MQTTConnectServer.c:77-104 | whatever is accepted holds every string that its flags announce, a password only with a user name, and the record has those strings, the flags and the keep-alive time |
| MqttConnect.Version3IsRefused | MQTT/MQTTPacket/MQTTConnectServer.c:34-36 | every serialized version 3 packet is refused, and the same fields behind the name that the server expects are recovered under the condition on the credentials alone |
| MqttConnect.PlainVersion3IsRefused | MQTT/MQTTPacket/MQTTConnectClient.c:84-88 | a plain version 3 record, with a clean session and without will and credentials, that is refused |
| MqttConnect.SerializeConnack | MQTT/MQTTPacket/MQTTConnectServer.c:119-147 | the CONNACK frame is written, or nothing below two bytes |
| MqttConnect.DeserializeConnack | MQTT/MQTTPacket/MQTTConnectClient.c:132-159 | session-present flag, code and return code, the caller's values kept on failure |
| MqttConnect.ConnackRoundTrip | MQTT/MQTTPacket/MQTTConnectClient.c:132-159 | both CONNACK fields are read back |
| MqttConnect.ConnackReturnCode | MQTT/MQTTPacket/MQTTConnectClient.c:132-159 | 1 is returned exactly for parsed packets and for a CONNACK whose length field is one byte below 2 |
| MqttSubscribe.SubscribeLength | MQTT/MQTTPacket/MQTTSubscribeClient.c:28-36 | the first loop sums up exactly the bytes that the second loop writes |
| MqttSubscribe.UnsubscribeLength | MQTT/MQTTPacket/MQTTUnsubscribeClient.c:28-36 | the same for UNSUBSCRIBE |
| MqttSubscribe.SerializeSubscribe | MQTT/MQTTPacket/MQTTSubscribeClient.c:50-86 | refused without a write if too long, else exactly the frame with all filters and QoS bytes in order |
| MqttSubscribe.SerializeUnsubscribe | MQTT/MQTTPacket/MQTTUnsubscribeClient.c:49-82 | refused without a write if too long, else exactly the frame with all filters in order |
| MqttSubscribe.SerializeSuback | MQTT/MQTTPacket/MQTTSubscribeServer.c:82-110 | the SUBACK frame with all codes in order |
| MqttSubscribe.DeserializeSubscribe | MQTT/MQTTPacket/MQTTSubscribeServer.c:35-70 | dup, id, the lists read so far and the return code, also when the list is cut short |
| MqttSubscribe.DeserializeUnsubscribe | MQTT/MQTTPacket/MQTTUnsubscribeServer.c:34-66 | the same for UNSUBSCRIBE |
| MqttSubscribe.DeserializeSuback | MQTT/MQTTPacket/MQTTSubscribeClient.c:100-135 | id, codes and return code, with all four ways the function ends |
| MqttSubscribe.EntriesRead | MQTT/MQTTPacket/MQTTSubscribeServer.c:35-70 | what was read stands there as the serializer writes it; the list is complete exactly if that ends with the frame, and otherwise no further entry fits |
| MqttSubscribe.FiltersRead | MQTT/MQTTPacket/MQTTUnsubscribeServer.c:34-66 | the same for the filters of UNSUBSCRIBE |
| MqttSubscribe.SubackReturnCode | MQTT/MQTTPacket/MQTTSubscribeClient.c:100-135 | the result for a SUBACK that is too short is 1 exactly if its length field is one byte below 2 |
| MqttSubscribe.ListReturnCode | MQTT/MQTTPacket/MQTTSubscribeServer.c:35-70 | of a list that is cut short, 1 is returned exactly behind a length field of one byte |
| MqttSubscribe.SubscribeRoundTrip | MQTT/MQTTPacket/MQTTSubscribeServer.c:35-70 | lists of any length give back id, filters and QoS bytes in order (section 3.8) |
| MqttSubscribe.UnsubscribeRoundTrip | MQTT/MQTTPacket/MQTTUnsubscribeServer.c:34-66 | lists of any length give back id and filters in order (section 3.10) |
| MqttSubscribe.SubackRoundTrip | MQTT/MQTTPacket/MQTTSubscribeClient.c:100-135 | id and codes are read back exactly when there are at most maxcount + 1 codes (section 3.9) |
| MqttLayout.LengthLayout | MQTT/MQTTPacket/MQTTPacket.c:28-44 | the remaining length in one to four literal bytes, seven bits each, the lowest first (section 2.2.3) |
| MqttLayout.PublishLayout | MQTT/MQTTPacket/MQTTSerializePublish.c:54-90 | the bytes of a PUBLISH: 48 plus the flags, topic, the id above QoS 0, payload (section 3.3) |
| MqttLayout.AnswerLayout | MQTT/MQTTPacket/MQTTSerializePublish.c:103-126 | the bytes of PUBACK, PUBREC, PINGREQ and DISCONNECT |
| MqttLayout.SubscribeLayout | MQTT/MQTTPacket/MQTTSubscribeClient.c:50-86 | the header byte 130 has QoS 1, and the id and the entries follow (section 3.8) |
| MqttLayout.EntriesLayout | MQTT/MQTTPacket/MQTTSubscribeClient.c:50-86 | each entry is the filter behind its two length bytes and the requested QoS |
| MqttLayout.UnsubscribeLayout | MQTT/MQTTPacket/MQTTUnsubscribeClient.c:49-82 | the header byte 162 has QoS 1, and the id and the filters follow (section 3.10) |
| MqttLayout.IncomingLayout | MQTT/MQTTClient.h:366-388 | the header bytes and bodies of the packets that the broker sends |
| MqttLayout.SubackLayout | MQTT/MQTTPacket/MQTTSubscribeServer.c:82-110 | the bytes of a SUBACK |
| MqttLayout.ConnackLayout | MQTT/MQTTPacket/MQTTConnectServer.c:119-147 | the four bytes of a CONNACK |
| MqttFraming.NextFrameIs | MQTT/MQTTClient.h:333-399 | a well-formed frame is read whole, whatever follows it, and stored with a minimal length field and the same body |
| MqttFraming.StreamSplits | MQTT/MQTTClient.h:333-399 | a stream of well-formed frames is split into exactly those frames, in order |
| MqttFraming.PeerSplits | MQTT/MQTTPacket/MQTTPacket.c:28-80 | packets that serializers wrote one after the other are split into the same packets |
| MqttFraming.StoredPublish | MQTT/MQTTClient.h:504-509 | a stored PUBLISH, whatever its length field was on the wire, gives the handler the fields that were sent |
| MqttFraming.StoredPuback | MQTT/MQTTClient.h:767-774 | a stored PUBACK gives its id |
| MqttFraming.StoredSuback | MQTT/MQTTClient.h:694-699 | a stored SUBACK gives its codes, or the overflow result beyond two of them |
| MqttTrace.AckOrder | MQTT/MQTTClient.h:504-536 | over every run the ids in the bytes of the PUBACKs sent are a subsequence of the ids of the QoS 1 messages in arrival order, and equal exactly when none was missed and none is due (section 4.6) |
| MqttTrace.MonitorTells | MQTT/MQTTClient.h:488-564 | over every run the monitor holds the ids that arrived and were acknowledged, the messages recorded and settled, the one in flight and the packets sent, as the events themselves say |
| MqttTrace.HandlersBeforeAck | MQTT/MQTTClient.h:504-536 | over every run, each PUBACK tried answers a QoS 1 message with its id, and between the arrival of that message and the PUBACK exactly the handler calls that it was owed were made |
| MqttTrace.EveryMessageDelivered | MQTT/MQTTClient.h:504-513 | over every run, each message that arrived, at any QoS, got all its handler calls in slot order before anything else happened |
| MqttTrace.CallsAreMatches | MQTT/MQTTClient.h:436-463 | the calls owed are one for every handler attached at that time whose filter matches, no other, and the default handler's exactly if there is none |
| MqttTrace.NoMessageLost | MQTT/MQTTClient.h:757-843 | over every trusted run the recorded messages are the acknowledged ones, in order, and the one in flight |
| MqttTrace.RunConserved | MQTT/MQTTClient.h:757-843 | over every run, trusted or not, the recorded messages are the acknowledged, the replaced and the one in flight, as multisets |
| MqttTrace.TrustedMeans | MQTT/MQTTClient.h:804-843 | a run is trusted exactly when every recorded message has QoS 1 and no wait ended with a foreign id |
| MqttTrace.ResendAfterRefusal | MQTT/MQTTClient.h:631-659 | after a CONNECT that was refused with any code, or got no answer, a resend and its PUBACK are an allowed run, for every message |
| MqttTrace.PromisesKept | MQTT/MQTTClient.h:655-659 | after publish records or connect takes a message, the next packet tried is exactly its encoding; connect takes the one in flight |
| MqttTrace.PeerReadsRun | MQTT/MQTTClient.h:303-329 | over every run the peer that splits what was sent gets exactly the packets sent, in order |
| MqttTrace.StretchOnWire | MQTT/MQTTClient.h:303-329 | over every run, whatever failed before and after, the packets sent in a stretch without a failure stand on the wire one right after the other |
| MqttTrace.PeerReadsStretch | MQTT/MQTTClient.h:303-329 | a peer that splits such a stretch gets exactly the packets sent in it |
| MqttTrace.PeerGetsPublish | MQTT/MQTTClient.h:303-329 | a PUBLISH that was sent is parsed by the peer to the fields of its message, wherever it stands in the run |
| MqttClient.Client.constructor | MQTT/MQTTClient.h:250-271 | a fresh client has all slots free, has recorded nothing and is not connected |
| MqttClient.Client.GetNextId | MQTT/MQTTClient.h:63-79 | ids run from 1 to 65535 and start over; 0 is never given out |
| MqttClient.IdsGoRound | MQTT/MQTTClient.h:63-79 | the id after any number of calls |
| MqttClient.IdsDiffer | MQTT/MQTTClient.h:63-79 | an id comes back exactly after every 65535 calls, so any two ids closer than that differ; none is 0 |
| MqttClient.Client.SendPacket | MQTT/MQTTClient.h:303-329 | SUCCESS means that the wire received exactly the first length bytes of sendbuf, for every pattern of partial writes and timer expiry; FAILURE, that the timer was seen expired or a write failed; what was on the wire stays there |
| MqttClient.Client.DecodePacket | MQTT/MQTTClient.h:333-358 | the remaining length, with exactly its field consumed |
| MqttClient.Client.ReadPacket | MQTT/MQTTClient.h:368-399 | the next frame of the stream, and nothing else, is consumed, and its packet stands in readbuf with a minimal length field; FAILURE consumes nothing |
| MqttClient.Client.SetDefaultMessageHandler | MQTT/MQTTClient.h:109-112 | the default handler changes and the kept message does not |
| MqttHandlers.SlotCallsExactly | MQTT/MQTTClient.h:441-453 | each slot is called once if its handler is attached and its filter matches, otherwise never |
| MqttHandlers.DeliveredExactly | MQTT/MQTTClient.h:436-463 | a message runs every attached handler whose filter matches exactly once; the default handler runs exactly when no other does |
| MqttHandlers.CallsInOrder | MQTT/MQTTClient.h:443-455 | the calls come in slot order, each with the topic and payload of the message |
| MqttHandlers.RunsByLevels | MQTT/MQTTClient.h:443-446 | for well-formed filters a handler runs exactly when the filter equals the topic or matches it level by level |
| MqttClient.Client.DeliverMessage | MQTT/MQTTClient.h:436-463 | the handler calls in slot order, and SUCCESS exactly when there was one |
| MqttClient.Client.HandlePublish | MQTT/MQTTClient.h:504-536 | the handlers run with the topic and payload that were sent, then the answer is tried; SUCCESS at QoS 0, FAILURE exactly when a due answer was not sent; success leaves no QoS 1 message unanswered |
| MqttClient.Client.Acknowledge | MQTT/MQTTClient.h:524-536 | the answer is PUBACK at QoS 1 and PUBREC at QoS 2, with the id of the message; FAILURE exactly when none was sent, so always at QoS 3 and in buffers below four bytes |
| MqttClient.AnswerMeans | MQTT/MQTTClient.h:525-536 | the answer byte by byte: PUBACK at QoS 1, PUBREC at QoS 2, none otherwise or without room for it |
| MqttClient.Client.Keepalive | MQTT/MQTTClient.h:568-591 | a PINGREQ is tried if and only if keep-alive is on, none is outstanding, one of the two timers has run out and it fits the buffer |
| MqttClient.Client.Cycle | MQTT/MQTTClient.h:488-564 | one packet is handled: its handlers, then its answer; FAILURE exactly when an answer was due and not sent, never at QoS 0, always at QoS 3 and for a due answer in buffers below four bytes; 65535 without a packet |
| MqttClient.Client.WaitFor | MQTT/MQTTClient.h:596-608 | the packet type asked for is returned if and only if such a packet arrived, and then it is in readbuf; otherwise the timer was seen expired; every look that found time left was followed by a use of the network, and with time left at all a read was tried |
| MqttClient.Client.AwaitPuback | MQTT/MQTTClient.h:767-777 | SUCCESS if and only if a PUBACK arrived, of any id; in a trusted run nothing is then in flight |
| MqttClient.Client.HandlePuback | MQTT/MQTTClient.h:767-775 | SUCCESS; inflightMsgid is cleared exactly when the PUBACK has its id, and any other id is a mismatch |
| MqttClient.Client.SendAndWait | MQTT/MQTTClient.h:757-800 | SUCCESS if and only if the packet was sent and, at QoS 1, a PUBACK arrived; a packet that was sent stands on the wire right behind what was there; every failure disconnects and has seen the timer expired, or a failed write before the packet was sent; other packets than QoS 1 leave the kept message and trust as they are |
| MqttClient.Client.Record | MQTT/MQTTClient.h:828-837 | pubbuf holds the packet that is about to be sent, unless the session is clean; trust is lost exactly by keeping a message of another QoS than 1 |
| MqttClient.Client.PublishMessage | MQTT/MQTTClient.h:805-843 | nothing happens unless connected and the packet fits; otherwise it is recorded and tried, SUCCESS means sent and at QoS 1 answered, the client stays connected exactly then, and what was sent stands on the wire right behind what was there |
| MqttClient.Client.PublishWithoutId | MQTT/MQTTClient.h:847-858 | QoS 0 records nothing and leaves trust as it is; above that at most one message, with an id from 1 to 65535; on SUCCESS the packet stands on the wire |
| MqttClient.Client.OpenSession | MQTT/MQTTClient.h:623-641 | the CONNECT frame is tried if it fits; the result is the code of the CONNACK, or FAILURE exactly if none arrived; no kept message changes |
| MqttClient.Client.Resend | MQTT/MQTTClient.h:655-659 | the encoding of the message in flight is tried next, from the bytes of pubbuf; SUCCESS if and only if it was sent and, at QoS 1, a PUBACK arrived; if it was sent, its bytes stand on the wire right behind what was there |
| MqttClient.Client.Connect | MQTT/MQTTClient.h:612-666 | without a message in flight, SUCCESS if and only if a CONNACK with code 0 arrived; with one, if and only if the CONNECT was sent and the resend succeeded, whatever CONNACK came or none; a resend that was sent put the exact bytes on the wire, also after earlier failures; connected exactly on SUCCESS |
| MqttClient.Client.Establish | MQTT/MQTTClient.h:623-660 | the same for the packets of connect, from the CONNECT to the end of the resend |
| MqttClient.Client.Subscribe | MQTT/MQTTClient.h:678-721 | the SUBSCRIBE frame with the next id is tried; the first free slot takes the filter unless the first code is 0x80; connected exactly on SUCCESS; the kept message and trust stay |
| MqttClient.Client.TakeSlot | MQTT/MQTTClient.h:702-711 | the first free slot, and no other, takes the handler; nothing changes if there is none |
| MqttClient.Client.Unsubscribe | MQTT/MQTTClient.h:725-753 | the UNSUBSCRIBE frame with the next id is tried; connected exactly on SUCCESS; no slot changes, and the kept message and trust stay |
| MqttClient.Client.Disconnect | MQTT/MQTTClient.h:862-872 | DISCONNECT is tried whenever it fits the buffer; on SUCCESS the wire received it, and FAILURE means that the timer expired or a write failed; the client is not connected in any case; the kept message and trust stay |
| MqttClient.Client.Yield | MQTT/MQTTClient.h:468-484 | SUCCESS exactly when the time was up without a failed call of cycle; with time left at all a read is tried; without any failure so far, all QoS 1 messages are acknowledged in order; the kept message and trust stay |
| MqttClient.Client.AllAcked | MQTT/MQTTClient.h:488-564 | if no cycle has failed, the ids acknowledged are the ids that arrived, in order |
| MqttClient.Client.AllDelivered | MQTT/MQTTClient.h:504-513 | between calls, every message that arrived has run all its handlers, right after it arrived |
| MqttClient.Client.PeerReads | MQTT/MQTTClient.h:303-329 | in every state, the packets sent between two points of the run without a failure stand on the wire together, and a peer that starts there gets exactly these packets |
| MqttClient.Client.PeerReadsAll | MQTT/MQTTClient.h:303-329 | as long as no send has failed, the peer gets exactly the packets sent from the whole wire |
| MqttHandlers.SubscribedExactly | MQTT/MQTTClient.h:696-719 | with one or two codes, the first below 3, the result is 0 if and only if a slot is free or the code is 0 |
| MqttHandlers.SubscriptionMeans | MQTT/MQTTClient.h:700-713 | with a slot free and no refusal the first free slot, and no other, takes the filter and handler, and a message to the topic of that name then runs it exactly once; a refusal or a full table changes nothing |
| MqttHandlers.GrantedButFailed | MQTT/MQTTClient.h:696-719 | a granted QoS of 1 with the only slot taken gives the result 1 |
| MqttSession.Run | MQTT/MQTTClient.h:757-858 | every request is served in turn; no QoS 1 message is lost: for every sequence of calls with publishes at QoS 0 and 1 through the overloads without an id, and no wait that ended with a foreign id, the messages recorded are those acknowledged, in order, and the one in flight |
| TopicFilter.IsTopicMatched | MQTT/MQTTClient.h:406-431 | the loop decides what the level-by-level matcher decides, for every well-formed filter and every topic |
| TopicFilter.LoopIsLevelMatcher | MQTT/MQTTClient.h:406-431 | the same from any two positions: literal levels match equal ones, + one non-empty level, # all levels that remain if the first is not empty |
| TopicFilter.LoopAgainstStandard | MQTT/MQTTClient.h:406-431 | the loop matches exactly what section 4.7.1 matches, provided every wildcard meets a level of its own that is not empty |
| TopicFilter.ParentLevelIsMissed | MQTT/MQTTClient.h:406-431 | a/# covers a in the standard but not in the loop |
| Qos2Table.IncomingQos2.IsFree | MQTT/MQTTClient.h:275-283 | free exactly when the id is not in the table; 0 is free only in a full table |
| Qos2Table.IncomingQos2.Use | MQTT/MQTTClient.h:287-298 | the id takes the first zero slot, or the table is full and unchanged |
| Qos2Table.IncomingQos2.Receive | MQTT/MQTTClient.h:510-521 | the handlers run exactly when the id is new and there is room |
| Qos2Table.AtMostOnceDelivery | MQTT/MQTTClient.h:510-521 | over every run the ids delivered are the first ten distinct non-zero ids in order of first arrival, each once, and they are what the table holds |
| JsonReader.Input.Getc | picojson/picojson.h:326-340 | the next character or -1; the line number counts the line feeds before the character read last |
| JsonReader.Input.Ungetc | picojson/picojson.h:341-346 | the position goes back by one; its precondition is the assertion, and every call in the parser meets it |
| JsonReader.NewlinesLast | picojson/picojson.h:335-337 | the line count goes up at line feeds and nowhere else |
| JsonReader.Input.SkipWs | picojson/picojson.h:349-357 | the position moves behind the white space |
| JsonReader.Input.Expect | picojson/picojson.h:358-365 | whether the character comes next after white space, which is consumed either way |
| JsonReader.Input.Match | picojson/picojson.h:366-376 | whether the word stands at the position |
| JsonReader.ParseQuadHex | picojson/picojson.h:379-398 | the value of four hexadecimal digits, or -1 |
| JsonReader.PushUtf8 | picojson/picojson.h:422-437 | the bytes of a code point are appended |
| JsonReader.ParseCodepoint | picojson/picojson.h:400-439 | accepts and appends what the escape at the position stands for |
| JsonReader.ParseString | picojson/picojson.h:441-480 | the string up to its closing quote, every escape decoded |
| JsonReader.ParseArray | picojson/picojson.h:482-495 | the elements in order, up to the closing bracket |
| JsonReader.ParseObject | picojson/picojson.h:497-515 | the entries as a map, up to the closing brace |
| JsonReader.ParseNumber | picojson/picojson.h:517-532 | the longest run of number characters is consumed; accepted exactly if all of it is a numeral, whose value is given if it is an integer that a double holds |
| JsonReader.ParseValue | picojson/picojson.h:534-564 | accepts exactly what the reading function accepts, with the same value and end, and terminates on every text |
| JsonReader.Parse | picojson/picojson.h:573-589 | the same over a whole text |
| JsonNumeral.TokensTaken | picojson/picojson.h:517-532 | exactly the proper number tokens are taken: optional minus, digits, optional point and exponent; an integer has its decimal value if a double holds it |
| JsonGrammar.ReadPieces | picojson/picojson.h:441-478 | a string body of plain bytes, two-character escapes and escapes of one or two code units is read as the bytes that it stands for |
| JsonGrammar.ReadTree | picojson/picojson.h:534-564 | every proper tree is read, with any spaces, tabs, line feeds and carriage returns in front of values, keys, colons, commas and closing brackets |
| JsonGrammar.TreeOf | picojson/picojson.h:534-564 | whatever was read has a proper tree that makes up all bytes read, so nothing but those four bytes is skipped |
| JsonGrammar.ReadsTheGrammar | picojson/picojson.h:534-564 | a value is read from one position to another if and only if a proper tree of it stands there |
| JsonWriter.SerializeString | picojson/picojson.h:247-273 | the quoted text with every byte escaped as needed is appended |
| JsonWriter.Serialize | picojson/picojson.h:275-310 | the text of the value is appended |
| JsonText.NumberText | picojson/picojson.h:223-241 | the text of a number never exceeds the 255 characters of its buffer and is never empty |
| JsonValue.PutFind | picojson/picojson.h:509 | storing an entry is map update |
| JsonValue.LessMeans | picojson/picojson.h:509 | the key order: one key is the beginning of the other, or the first byte that differs decides |
| JsonValue.PutSorted | picojson/picojson.h:509 | the entries stay in strict key order, so no key occurs twice |
| JsonNumber.IsDoubleMeans | picojson/picojson.h:120-123 | the integers that the model takes for doubles are those of the form m * 2^j with m below 2^53 and j up to 971, and their negatives |
| JsonNumber.FirstInexact | picojson/picojson.h:120-123 | all integers up to 2^53 are doubles, and 2^53 + 1 is not |
| JsonRoundTrip.IntegerTextMeans | picojson/picojson.h:223-241 | the text of an integer is its decimal digits without a leading zero, behind a minus if it is negative, cut to 255 characters |
| JsonRoundTrip.StoredNumberExact | picojson/picojson.h:223-241 | an integer that a double holds survives its text exactly when that has at most 255 characters |
| JsonRoundTrip.LongNumberIsCut | picojson/picojson.h:223-241 | doubles that do not survive: 2 to the 860th, 870th, and so on to the 970th |
| JsonRoundTrip.ReadStringText | picojson/picojson.h:247-273 | every byte string is read back from its quoted text |
| JsonRoundTrip.EscapesWritten | picojson/picojson.h:247-273 | the escapes written, byte by byte |
| JsonRoundTrip.TreeIsText | picojson/picojson.h:275-310 | the text written for a value is that of a proper tree without white space, which stands for the stored value |
| JsonRoundTrip.ReadText | picojson/picojson.h:534-564 | wherever the text of a value stands and whatever follows it, the parser returns the value with its numbers as stored and stops right behind it |
| JsonRoundTrip.RoundTrip | picojson/picojson.h:247-316 | parsing a serialized value whose numbers are integers that a double holds, nested to any depth and with any text behind it, gives back that value and that text if and only if all its numbers fit the buffer |
| JsonRoundTrip.ParsedComesBack | picojson/picojson.h:247-564 | whatever text a value was parsed from, if its numbers are integers that a double holds, its serialized text is read back as the same value if and only if they fit the buffer |
| JsonRoundTrip.TextInjective | picojson/picojson.h:275-310 | different values have different texts |
| JsonRoundTrip.ParsedIsOrdered | picojson/picojson.h:497-515 | every parsed value has each key at most once in every object, at any depth |
| JsonUnicode.Utf8RoundTrip | picojson/picojson.h:422-437 | the bytes pushed for a scalar value decode to it by RFC 3629, section 3 |
| JsonUnicode.Utf8Unique | picojson/picojson.h:422-437 | no other bytes do, so the form is the shortest |
| JsonUnicode.BasicEscape | picojson/picojson.h:400-439 | a four-digit escape of a scalar value yields its UTF-8 form |
| JsonUnicode.PairEscape | picojson/picojson.h:405-421 | a surrogate pair yields the UTF-8 form of its character |
| JsonUnicode.EscapesAccepted | picojson/picojson.h:400-439 | exactly scalar values and complete pairs are accepted, so every unpaired surrogate is rejected |
| DebouncedCounter.Counter.constructor | WeatherMeters/DebouncedFallingEdgeCounter.cpp:22-45 | the register starts one ignore time in the past, the count at zero |
| DebouncedCounter.Counter.FallingEdgeISR | WeatherMeters/DebouncedFallingEdgeCounter.cpp:48-58 | the new state is the edge step of the run model |
| DebouncedCounter.Counter.RefreshTimers | WeatherMeters/DebouncedFallingEdgeCounter.cpp:91-100 | the new state is the refresh step of the run model |
| DebouncedCounter.Counter.GetCountAndZero | WeatherMeters/DebouncedFallingEdgeCounter.cpp:67-88 | the count is returned and cleared, after a refresh |
| DebouncedCounter.DebounceOverWrapAround | WeatherMeters/DebouncedFallingEdgeCounter.cpp:42-64 | over every run with calls less than a wrap minus the ignore time apart, the edges accepted are those of a debouncer with unbounded time and no refreshes, they are at least the ignore time apart, and the count is their number |
| DebouncedCounter.DecisionExact | WeatherMeters/DebouncedFallingEdgeCounter.cpp:53-64 | without that condition one decision is wrong exactly when a whole wrap has passed and the rest falls short of the ignore time |
| DebouncedCounter.LateEdgeIsDropped | WeatherMeters/DebouncedFallingEdgeCounter.cpp:53-64 | two edges one wrap apart, the second of which is dropped |
| DebouncedCounter.EdgeConservation | WeatherMeters/DebouncedFallingEdgeCounter.cpp:67-88 | for every interleaving, each edge accepted is returned, still counted, or was lost between a read and its zeroing |
| DebouncedCounter.NothingLostExactly | WeatherMeters/DebouncedFallingEdgeCounter.cpp:67-88 | no edge is lost if and only if no interrupt comes between a read and its zeroing |
| ConfigTable.ConfigFile.Search | ConfigFile/ConfigFile.cpp:393-405 | the slot of the key, or none exactly when the map has no such key |
| ConfigTable.ConfigFile.Add | ConfigFile/ConfigFile.cpp:407-415 | the first empty slot takes the entry; refused without a change when there is none |
| ConfigTable.ConfigFile.GetValue | ConfigFile/ConfigFile.cpp:58-86 | succeeds exactly when the map has the key and its value fits the caller's buffer, and then returns it |
| ConfigTable.ConfigFile.SetValue | ConfigFile/ConfigFile.cpp:96-188 | map update; refused exactly for null or over-long strings and for a new key in a full table |
| ConfigTable.ConfigFile.RemoveKey | ConfigFile/ConfigFile.cpp:197-214 | map restriction; succeeds exactly when the key was there |
| ConfigTable.ConfigFile.RemoveAll | ConfigFile/ConfigFile.cpp:221-232 | the map is empty |
| ConfigTable.ConfigFile.GetCount | ConfigFile/ConfigFile.cpp:239-248 | the size of the map |
| ConfigTable.ConfigFile.GetKeyAndValue | ConfigFile/ConfigFile.cpp:261-278 | the entry with the given index in slot order, if both strings fit the caller's buffers |
| ConfigTable.SetRefinesMap | ConfigFile/ConfigFile.cpp:96-188 | setting a slot keeps the keys distinct and updates the map; refused exactly for a new key in a full table |
| ConfigTable.RemoveRefinesMap | ConfigFile/ConfigFile.cpp:197-214 | clearing a slot keeps the keys distinct and removes exactly that key from the map |
| ConfigTable.EntriesAreMap | ConfigFile/ConfigFile.cpp:261-278 | the enumeration lists every entry of the map, no other, and no key twice |
| ConfigTable.EntriesCount | ConfigFile/ConfigFile.cpp:239-248 | the number of used slots is the size of the map and at most 64 |
| ConfigText.Write | ConfigFile/ConfigFile.cpp:345-391 | the file is the header, if any, and one line for every entry in slot order |
| ConfigText.WrittenBytes | ConfigFile/ConfigFile.cpp:345-391 | the bytes of a header and of a line in each of the three formats |
| ConfigText.ChunkExactly | ConfigFile/ConfigFile.cpp:302-303 | fgets takes at most 199 characters, and fewer only up to a line feed or the end of the file |
| ConfigText.Fgets | ConfigFile/ConfigFile.cpp:302-303 | the line buffer holds the text up to and including the next line feed, and a zero |
| ConfigText.SplitLine | ConfigFile/ConfigFile.cpp:303-333 | the entry on the line in the buffer, its line end zeroed in place; none for comments and lines without a separator |
| ConfigText.LineEntryExactly | ConfigFile/ConfigFile.cpp:307-333 | a line without = in front of its first carriage return, line feed or zero has no entry, nor has one that begins with #; any other is split at its first = |
| ConfigText.Read | ConfigFile/ConfigFile.cpp:285-336 | the table holds exactly the entries of all lines, stored in order |
| ConfigRoundTrip.PlainTableRestored | ConfigFile/ConfigFile.cpp:285-391 | a table of plain entries is restored with its slots compacted in the same order, for UNIX and DOS line ends |
| ConfigRoundTrip.IgnoredLinesKeepTable | ConfigFile/ConfigFile.cpp:285-336 | the same with any comments, blank lines and other lines without an entry between those of the table |
| ConfigRoundTrip.HeaderKeepsTable | ConfigFile/ConfigFile.cpp:285-391 | the same for the file that write makes with a header of such lines |
| ConfigRoundTrip.CompactKeepsMap | ConfigFile/ConfigFile.cpp:285-391 | compaction keeps the entries, their order and the map |
| ConfigRoundTrip.ConfigFileRoundTrip | ConfigFile/ConfigFile.cpp:285-391 | writing without a header and reading back gives the same map if and only if no key or value has a line end and no key has = or begins with # (a C string has no zero byte) |
| ConfigRoundTrip.HashKeyIsLost | ConfigFile/ConfigFile.cpp:285-391 | a table with the one key # is readable and does not come back |
| ConfigRoundTrip.MacFileKeepsFirst | ConfigFile/ConfigFile.cpp:285-391 | a table of plain entries written in the MAC format with at most 199 characters comes back as its first entry alone, so as it was exactly if it had at most one |
| ConfigRoundTrip.LineEntryIsPlain | ConfigFile/ConfigFile.cpp:303-333 | whatever a line holds, the entry taken from it is plain |

## Left out

- MqttSubscribe.SerializeSuback: requires a buffer for the whole frame, because the function checks for 2 + count bytes only and would write behind a smaller buffer.
- MqttPublish.SerializePublish: requires a topic whose two string forms, if both are set, have the same length of at most 65535; otherwise the predicted length is not the one written, and the source sends a wrong remaining length or writes behind the buffer. The same holds of MqttConnect.SerializeConnect, MqttSubscribe.SubscribeLength, MqttSubscribe.UnsubscribeLength, MqttSubscribe.SerializeSubscribe and MqttSubscribe.SerializeUnsubscribe.
- MqttConnect.SerializeConnect: requires version 3 or 4; for any other one the prediction is twelve bytes short.
- MqttConnect.SerializeConnack: requires four bytes for the same reason; the function checks for two.
- ConfigText.Read: requires that keys and values on the lines fit the local arrays of 64 and 128 bytes, which the function copies to without a check.
- MqttClient.Client.Subscribe: the second code of a SUBACK with two is stored behind the single integer that the caller passes; the model does not say what it overwrites.
- MqttClient.Client.ReadPacket: reads inside a frame are complete and frames fit readbuf; malformed or oversized packets from the broker are not modelled.
- MqttClient.Client.DecodePacket: requires a complete and legal length field, for the same reason.
- Qos2Table.IncomingQos2.Use: requires that the id is not in the table, which its only caller has just asked.
- ConfigTable.ConfigFile: entries are byte strings, and that C strings have no zero byte is not built into their type.
- MqttClient.Client.Keepalive: a timer expires after any number of looks at it, whatever time it was set to, so keep-alive timing is not modelled.
- MqttClient.Client.SendPacket: claims of the wire after FAILURE only that it was extended, because write is asked for length bytes from the middle of the buffer.
- MqttPublish.DeserializePublish: topics and payloads are returned as copies; that they point into the buffer and change with it is not modelled.
- Handlers that call back into the client, and null topic or payload pointers.
- The acknowledgement serializers MQTTSerialize_puback, MQTTSerialize_pubrel and MQTTSerialize_pubcomp, which pass the packet id in the place of dup; the client calls MQTTSerialize_ack. The server's UNSUBACK serializer.
- The session-present bit and the PUBREL flags against sections 3.2.2.2 and 3.6.1 of MQTT 3.1.1, and the rule for topics that begin with $ in section 4.7.2.
- QoS 2 publishing and the PUBREC, PUBREL and PUBCOMP exchange; only the table of incoming ids is modelled.
- JsonReader.ParseNumber: gives no value to integers written with a point or an exponent.
- JSON numbers with a fraction or an exponent, minus zero, and integers that no double holds are kept as uninterpreted numerals: the rounding of strtod, %f, infinities and NaN.
- The error text of the JSON parser and the iterator it returns, which ignores a pushed-back character; operator==.
- Configuration files in the MAC format of more than 199 characters, which fgets cuts anywhere; files that cannot be opened; failed allocations.
- The race of RefreshTimers with the interrupt on the time register; the interleaving model covers the count and does not wrap it.
- MQTTAsync, the WebSocket client, the Ethernet and mbed layers, the sensor classes, main and logging: hardware, unseen classes, formatting or thin wrappers.
