/**
 SUBSCRIBE, SUBACK and UNSUBSCRIBE: MQTT/MQTTPacket/MQTTSubscribeClient.c, MQTTSubscribeServer.c,
 MQTTUnsubscribeClient.c and MQTTUnsubscribeServer.c; sections 3.8 to 3.10 of MQTT 3.1.1.
 */
module MqttSubscribe {
  import opened Bytes
  import opened MqttWire
  import opened MqttPublish

  // ----- list bodies -----

  predicate AllWritable(filters: seq<MqttString>) {
    forall i :: 0 <= i < |filters| ==> filters[i].Writable()
  }

  predicate AllShort(texts: seq<bytes>) {
    texts == [] || (|texts[0]| < 65536 && AllShort(texts[1..]))
  }

  function Texts(filters: seq<MqttString>): (r: seq<bytes>)
    ensures |r| == |filters| && forall i :: 0 <= i < |r| ==> r[i] == filters[i].Text()
  {
    seq(|filters|, i requires 0 <= i < |filters| => filters[i].Text())
  }

  /** writeChar keeps the low-order byte of each QoS or return code. */
  function CodeBytes(codes: seq<nat>): (r: bytes)
    ensures |r| == |codes| && forall i :: 0 <= i < |r| ==> r[i] == codes[i] % 256
  {
    seq(|codes|, i requires 0 <= i < |codes| => codes[i] % 256)
  }

  /** One entry of a SUBSCRIBE: the filter and the requested QoS byte. */
  function EntryBytes(filter: bytes, qos: byte): (r: bytes)
    ensures |r| == 3 + |filter|
  {
    StringBytes(filter) + [qos]
  }

  function EntriesBytes(filters: seq<bytes>, qoss: bytes): (r: bytes)
    requires |filters| == |qoss|
  {
    if filters == [] then [] else EntryBytes(filters[0], qoss[0]) + EntriesBytes(filters[1..], qoss[1..])
  }

  function FiltersBytes(filters: seq<bytes>): (r: bytes) {
    if filters == [] then [] else StringBytes(filters[0]) + FiltersBytes(filters[1..])
  }

  function SubscribeBytes(dup: nat, id: nat, filters: seq<bytes>, qoss: bytes): (r: bytes)
    requires |filters| == |qoss|
  {
    FrameBytes(HeaderByte(SUBSCRIBE, dup, 1, 0), IntBytes(id) + EntriesBytes(filters, qoss))
  }

  function UnsubscribeBytes(dup: nat, id: nat, filters: seq<bytes>): (r: bytes) {
    FrameBytes(HeaderByte(UNSUBSCRIBE, dup, 1, 0), IntBytes(id) + FiltersBytes(filters))
  }

  function SubackBytes(id: nat, codes: seq<nat>): (r: bytes) {
    FrameBytes(HeaderByte(SUBACK, 0, 0, 0), IntBytes(id) + CodeBytes(codes))
  }

  lemma {:induction false} EntriesAppend(filters: seq<bytes>, qoss: bytes, f: bytes, q: byte)
    requires |filters| == |qoss|
    ensures EntriesBytes(filters + [f], qoss + [q]) == EntriesBytes(filters, qoss) + EntryBytes(f, q)
  {
    if filters == [] {
      assert EntriesBytes([f], [q]) == EntryBytes(f, q) + EntriesBytes([f][1..], [q][1..]);
    } else {
      EntriesAppend(filters[1..], qoss[1..], f, q);
      assert (filters + [f])[1..] == filters[1..] + [f] && (qoss + [q])[1..] == qoss[1..] + [q];
    }
  }

  lemma {:induction false} FiltersAppend(filters: seq<bytes>, f: bytes)
    ensures FiltersBytes(filters + [f]) == FiltersBytes(filters) + StringBytes(f)
  {
    if filters == [] {
      assert FiltersBytes([f]) == StringBytes(f) + FiltersBytes([f][1..]);
    } else {
      FiltersAppend(filters[1..], f);
      assert (filters + [f])[1..] == filters[1..] + [f];
    }
  }

  // ----- serializers: a first loop predicts the length, a second one writes -----

  /** MQTTSerialize_subscribeLength: the first loop finds exactly the bytes that the second writes. */
  method SubscribeLength(filters: seq<MqttString>, ghost qoss: bytes) returns (len: nat)
    requires AllWritable(filters) && |qoss| == |filters|
    ensures len == 2 + |EntriesBytes(Texts(filters), qoss)|
  {
    len := 2;
    for i := 0 to |filters|
      invariant len == 2 + |EntriesBytes(Texts(filters)[..i], qoss[..i])|
    {
      PredictedStringLength(filters[i]);
      EntriesAppend(Texts(filters)[..i], qoss[..i], Texts(filters)[i], qoss[i]);
      assert Texts(filters)[..i + 1] == Texts(filters)[..i] + [Texts(filters)[i]] &&
             qoss[..i + 1] == qoss[..i] + [qoss[i]];
      len := len + 2 + filters[i].Length() + 1;
    }
    assert Texts(filters)[..|filters|] == Texts(filters) && qoss[..|filters|] == qoss;
  }

  /** MQTTSerialize_unsubscribeLength. */
  method UnsubscribeLength(filters: seq<MqttString>) returns (len: nat)
    requires AllWritable(filters)
    ensures len == 2 + |FiltersBytes(Texts(filters))|
  {
    len := 2;
    for i := 0 to |filters|
      invariant len == 2 + |FiltersBytes(Texts(filters)[..i])|
    {
      PredictedStringLength(filters[i]);
      FiltersAppend(Texts(filters)[..i], Texts(filters)[i]);
      assert Texts(filters)[..i + 1] == Texts(filters)[..i] + [Texts(filters)[i]];
      len := len + 2 + filters[i].Length();
    }
    assert Texts(filters)[..|filters|] == Texts(filters);
  }

  lemma {:induction false} EntriesPrefix(filters: seq<bytes>, qoss: bytes, n: nat)
    requires |filters| == |qoss| && n <= |filters|
    ensures |EntriesBytes(filters[..n], qoss[..n])| <= |EntriesBytes(filters, qoss)|
  {
    if n > 0 {
      EntriesPrefix(filters[1..], qoss[1..], n - 1);
      assert filters[..n][1..] == filters[1..][..n - 1] && qoss[..n][1..] == qoss[1..][..n - 1];
    }
  }

  lemma {:induction false} FiltersPrefix(filters: seq<bytes>, n: nat)
    requires n <= |filters|
    ensures |FiltersBytes(filters[..n])| <= |FiltersBytes(filters)|
  {
    if n > 0 {
      FiltersPrefix(filters[1..], n - 1);
      assert filters[..n][1..] == filters[1..][..n - 1];
    }
  }

  /** The second loop of MQTTSerialize_subscribe. */
  method WriteEntries(buf: array<byte>, pos: nat, filters: seq<MqttString>, qoss: bytes) returns (pos': nat)
    requires |qoss| == |filters|
    requires pos + |EntriesBytes(Texts(filters), qoss)| <= buf.Length
    modifies buf
    ensures pos' == pos + |EntriesBytes(Texts(filters), qoss)|
    ensures buf[..] == Splice(old(buf[..]), pos, EntriesBytes(Texts(filters), qoss))
  {
    hide Splice, EntryBytes, StringBytes;
    pos' := pos;
    ghost var texts := Texts(filters);
    ghost var start := buf[..];
    ghost var written: bytes := [];
    SpliceNothing(start, pos);
    for i := 0 to |filters|
      invariant written == EntriesBytes(texts[..i], qoss[..i])
      invariant pos' == pos + |written| && pos' <= buf.Length
      invariant buf[..] == Splice(start, pos, written)
    {
      EntriesAppend(texts[..i], qoss[..i], texts[i], qoss[i]);
      assert texts[..i + 1] == texts[..i] + [texts[i]] && qoss[..i + 1] == qoss[..i] + [qoss[i]];
      EntriesPrefix(texts, qoss, i + 1);
      pos' := WriteEntry(buf, pos', filters[i], qoss[i]);
      SpliceTwice(start, pos, written, EntryBytes(texts[i], qoss[i]));
      written := written + EntryBytes(texts[i], qoss[i]);
    }
    assert texts[..|filters|] == texts && qoss[..|filters|] == qoss;
  }

  method WriteEntry(buf: array<byte>, pos: nat, filter: MqttString, qos: byte) returns (pos': nat)
    requires pos + 3 + |filter.Text()| <= buf.Length
    modifies buf
    ensures pos' == pos + 3 + |filter.Text()|
    ensures buf[..] == Splice(old(buf[..]), pos, EntryBytes(filter.Text(), qos))
  {
    pos' := WriteString(buf, pos, filter);
    pos' := WriteChar(buf, pos', qos);
    SpliceTwice(old(buf[..]), pos, StringBytes(filter.Text()), [qos]);
  }

  /** The second loop of MQTTSerialize_unsubscribe. */
  method WriteFilters(buf: array<byte>, pos: nat, filters: seq<MqttString>) returns (pos': nat)
    requires pos + |FiltersBytes(Texts(filters))| <= buf.Length
    modifies buf
    ensures pos' == pos + |FiltersBytes(Texts(filters))|
    ensures buf[..] == Splice(old(buf[..]), pos, FiltersBytes(Texts(filters)))
  {
    hide Splice, EntryBytes, StringBytes;
    pos' := pos;
    ghost var texts := Texts(filters);
    ghost var start := buf[..];
    ghost var written: bytes := [];
    SpliceNothing(start, pos);
    for i := 0 to |filters|
      invariant written == FiltersBytes(texts[..i])
      invariant pos' == pos + |written| && pos' <= buf.Length
      invariant buf[..] == Splice(start, pos, written)
    {
      FiltersAppend(texts[..i], texts[i]);
      assert texts[..i + 1] == texts[..i] + [texts[i]];
      FiltersPrefix(texts, i + 1);
      pos' := WriteString(buf, pos', filters[i]);
      SpliceTwice(start, pos, written, StringBytes(texts[i]));
      written := written + StringBytes(texts[i]);
    }
    assert texts[..|filters|] == texts;
  }

  /** MQTTSerialize_subscribe. */
  method SerializeSubscribe(buf: array<byte>, dup: nat, id: nat, filters: seq<MqttString>, qoss: seq<nat>)
    returns (rc: int)
    requires AllWritable(filters) && |qoss| == |filters|
    requires 2 + |EntriesBytes(Texts(filters), CodeBytes(qoss))| <= MAX_REMAINING_LENGTH
    modifies buf
    ensures rc < 0 <==> PacketLen(2 + |EntriesBytes(Texts(filters), CodeBytes(qoss))|) > buf.Length
    ensures rc < 0 ==> rc == BUFFER_TOO_SHORT && buf[..] == old(buf[..])
    ensures rc >= 0 ==>
              var frame := SubscribeBytes(dup, id, Texts(filters), CodeBytes(qoss));
              rc == |frame| <= buf.Length && buf[..] == Splice(old(buf[..]), 0, frame)
  {
    hide Splice, HeaderByte, EncodeLength, EntriesBytes, FiltersBytes;
    ghost var start := buf[..];
    ghost var entries := EntriesBytes(Texts(filters), CodeBytes(qoss));
    var remaining := SubscribeLength(filters, CodeBytes(qoss));
    PacketLenIsSafe(remaining);
    if PacketLen(remaining) > buf.Length {
      return BUFFER_TOO_SHORT;
    }
    var header := HeaderByte(SUBSCRIBE, dup, 1, 0);
    var pos := WriteHeader(buf, header, remaining);
    ghost var framed, head := buf[..], pos;
    pos := WriteInt(buf, pos, id);
    pos := WriteEntries(buf, pos, filters, CodeBytes(qoss));
    SpliceTwice(framed, head, IntBytes(id), entries);
    SpliceFrame(start, header, IntBytes(id) + entries);
    rc := pos;
  }

  /** MQTTSerialize_unsubscribe. */
  method SerializeUnsubscribe(buf: array<byte>, dup: nat, id: nat, filters: seq<MqttString>) returns (rc: int)
    requires AllWritable(filters)
    requires 2 + |FiltersBytes(Texts(filters))| <= MAX_REMAINING_LENGTH
    modifies buf
    ensures rc < 0 <==> PacketLen(2 + |FiltersBytes(Texts(filters))|) > buf.Length
    ensures rc < 0 ==> rc == BUFFER_TOO_SHORT && buf[..] == old(buf[..])
    ensures rc >= 0 ==>
              var frame := UnsubscribeBytes(dup, id, Texts(filters));
              rc == |frame| <= buf.Length && buf[..] == Splice(old(buf[..]), 0, frame)
  {
    hide Splice, HeaderByte, EncodeLength, EntriesBytes, FiltersBytes;
    ghost var start := buf[..];
    ghost var entries := FiltersBytes(Texts(filters));
    var remaining := UnsubscribeLength(filters);
    PacketLenIsSafe(remaining);
    if PacketLen(remaining) > buf.Length {
      return BUFFER_TOO_SHORT;
    }
    var header := HeaderByte(UNSUBSCRIBE, dup, 1, 0);
    var pos := WriteHeader(buf, header, remaining);
    ghost var framed, head := buf[..], pos;
    pos := WriteInt(buf, pos, id);
    pos := WriteFilters(buf, pos, filters);
    SpliceTwice(framed, head, IntBytes(id), entries);
    SpliceFrame(start, header, IntBytes(id) + entries);
    rc := pos;
  }

  /** MQTTSerialize_suback. The function itself asks only for 2 + count bytes; the frame needs more. */
  method SerializeSuback(buf: array<byte>, id: nat, codes: seq<nat>) returns (rc: int)
    requires |codes| + 2 <= MAX_REMAINING_LENGTH
    requires buf.Length >= 2 + |codes| ==> buf.Length >= |SubackBytes(id, codes)|
    modifies buf
    ensures rc < 0 <==> buf.Length < 2 + |codes|
    ensures rc < 0 ==> rc == BUFFER_TOO_SHORT && buf[..] == old(buf[..])
    ensures rc >= 0 ==> rc == |SubackBytes(id, codes)| && buf[..] == Splice(old(buf[..]), 0, SubackBytes(id, codes))
  {
    if buf.Length < 2 + |codes| {
      return BUFFER_TOO_SHORT;
    }
    hide Splice, HeaderByte, EncodeLength, CodeBytes;
    ghost var start := buf[..];
    var header := HeaderByte(SUBACK, 0, 0, 0);
    var pos := WriteHeader(buf, header, 2 + |codes|);
    pos := WriteSubackBody(buf, pos, id, codes);
    SpliceFrame(start, header, IntBytes(id) + CodeBytes(codes));
    rc := pos;
  }

  /** The packet id and the codes. */
  method WriteSubackBody(buf: array<byte>, pos: nat, id: nat, codes: seq<nat>) returns (pos': nat)
    requires pos + 2 + |codes| <= buf.Length
    modifies buf
    ensures pos' == pos + 2 + |codes|
    ensures buf[..] == Splice(old(buf[..]), pos, IntBytes(id) + CodeBytes(codes))
  {
    hide Splice, CodeBytes, IntBytes;
    ghost var start := buf[..];
    pos' := WriteInt(buf, pos, id);
    pos' := WriteCodes(buf, pos', codes);
    SpliceTwice(start, pos, IntBytes(id), CodeBytes(codes));
  }

  method WriteCodes(buf: array<byte>, pos: nat, codes: seq<nat>) returns (pos': nat)
    requires pos + |codes| <= buf.Length
    modifies buf
    ensures pos' == pos + |codes|
    ensures buf[..] == Splice(old(buf[..]), pos, CodeBytes(codes))
  {
    hide Splice, CodeBytes;
    pos' := pos;
    ghost var all, start := CodeBytes(codes), buf[..];
    SpliceNothing(start, pos);
    for i := 0 to |codes|
      invariant pos' == pos + i
      invariant buf[..] == Splice(start, pos, all[..i])
    {
      pos' := WriteChar(buf, pos', codes[i] % 256);
      SpliceOne(start, pos, all, i);
    }
    assert all[..|codes|] == all;
  }

  // ----- deserializers -----

  /** Lists read so far and whether the loop reached the end of the frame. */
  datatype Entries = Entries(complete: bool, filters: seq<bytes>, qoss: bytes)

  /** The lists with the entries read before them in front. */
  function Prepend(filters: seq<bytes>, qoss: bytes, e: Entries): Entries {
    Entries(e.complete, filters + e.filters, qoss + e.qoss)
  }

  lemma PrependNothing(e: Entries)
    ensures Prepend([], [], e) == e
  {
  }

  lemma PrependTwice(f1: seq<bytes>, q1: bytes, f2: seq<bytes>, q2: bytes, e: Entries)
    ensures Prepend(f1, q1, Prepend(f2, q2, e)) == Prepend(f1 + f2, q1 + q2, e)
  {
    assert f1 + (f2 + e.filters) == f1 + f2 + e.filters && q1 + (q2 + e.qoss) == q1 + q2 + e.qoss;
  }

  /** The loop of MQTTDeserialize_subscribe from position p on. A filter that is read but has no QoS
      byte behind it is not counted. */
  function ReadEntries(s: bytes, p: nat, end: nat): (r: Entries)
    requires end <= |s|
    ensures |r.filters| == |r.qoss|
    decreases end - p
  {
    if p >= end then Entries(true, [], [])
    else
      match ReadString(s, p, end)
      case None => Entries(false, [], [])
      case Some((text, q)) =>
        if q >= end then Entries(false, [], [])
        else Prepend([text], [s[q]], ReadEntries(s, q + 1, end))
  }

  function ReadFilters(s: bytes, p: nat, end: nat): (r: Entries)
    requires end <= |s|
    decreases end - p
  {
    if p >= end then Entries(true, [], [])
    else
      match ReadString(s, p, end)
      case None => Entries(false, [], [])
      case Some((text, q)) => Prepend([text], [], ReadFilters(s, q, end))
  }

  /** The frame announced by the remaining length, and its packet id, lie inside the buffer. */
  predicate ListReadable(s: bytes, packetType: nat) {
    |s| > 0 && (HeaderType(s[0]) == packetType ==>
      FieldReadable(s, 1, 0) &&
      var d := DecodeLength(s, 1);
      1 + d.len + d.value <= |s| && 1 + d.len + 2 <= |s|)
  }

  datatype ListResult = OtherType | ListOf(dup: nat, id: nat, entries: Entries, fieldLen: nat)

  function ParseSubscribe(s: bytes): (r: ListResult)
    requires ListReadable(s, SUBSCRIBE)
  {
    if HeaderType(s[0]) != SUBSCRIBE then OtherType
    else
      var d := DecodeLength(s, 1);
      ListOf(HeaderDup(s[0]), ReadInt(s, 1 + d.len), ReadEntries(s, 3 + d.len, 1 + d.len + d.value), d.len)
  }

  function ParseUnsubscribe(s: bytes): (r: ListResult)
    requires ListReadable(s, UNSUBSCRIBE)
  {
    if HeaderType(s[0]) != UNSUBSCRIBE then OtherType
    else
      var d := DecodeLength(s, 1);
      ListOf(HeaderDup(s[0]), ReadInt(s, 1 + d.len), ReadFilters(s, 3 + d.len, 1 + d.len + d.value), d.len)
  }

  method ReadEntriesLoop(buf: array<byte>, pos: nat, end: nat)
    returns (complete: bool, filters: seq<bytes>, qoss: bytes)
    requires end <= buf.Length
    ensures Entries(complete, filters, qoss) == ReadEntries(buf[..], pos, end)
  {
    hide ReadString;
    ghost var s := buf[..];
    filters, qoss := [], [];
    var cur := pos;
    PrependNothing(ReadEntries(s, pos, end));
    while cur < end
      invariant |filters| == |qoss|
      invariant Prepend(filters, qoss, ReadEntries(s, cur, end)) == ReadEntries(s, pos, end)
      decreases end - cur
    {
      var ok, text, next := ReadLenString(buf, cur, end);
      if !ok {
        assert ReadEntries(s, cur, end) == Entries(false, [], []);
        return false, filters, qoss;
      }
      if next >= end {
        assert ReadEntries(s, cur, end) == Entries(false, [], []);
        return false, filters, qoss;
      }
      ghost var rest := ReadEntries(s, next + 1, end);
      assert ReadEntries(s, cur, end) == Prepend([text], [buf[next]], rest);
      PrependTwice(filters, qoss, [text], [buf[next]], rest);
      filters, qoss := filters + [text], qoss + [buf[next]];
      cur := next + 1;
    }
    complete := true;
  }

  method ReadFiltersLoop(buf: array<byte>, pos: nat, end: nat) returns (complete: bool, filters: seq<bytes>)
    requires end <= buf.Length
    ensures Entries(complete, filters, []) == ReadFilters(buf[..], pos, end)
  {
    filters := [];
    var cur := pos;
    while cur < end
      invariant Prepend(filters, [], ReadFilters(buf[..], cur, end)) == ReadFilters(buf[..], pos, end)
      decreases end - cur
    {
      var ok, text, next := ReadLenString(buf, cur, end);
      if !ok {
        return false, filters;
      }
      PrependTwice(filters, [], [text], [], ReadFilters(buf[..], next, end));
      filters := filters + [text];
      cur := next;
    }
    complete := true;
  }

  /** MQTTDeserialize_subscribe: 1 when the list ends with the frame, otherwise -1 for another packet
      type or the size of the length field. */
  method DeserializeSubscribe(buf: array<byte>) returns (rc: int, dup: nat, id: nat, filters: seq<bytes>, qoss: bytes)
    requires ListReadable(buf[..], SUBSCRIBE)
    ensures var r := ParseSubscribe(buf[..]);
            if r.OtherType? then rc == -1
            else rc == (if r.entries.complete then 1 else r.fieldLen) && r.dup == dup && r.id == id &&
                 r.entries.filters == filters && r.entries.qoss == qoss
  {
    hide ReadEntries, FieldReadable, DecodeLength, HeaderType;
    rc, dup, id, filters, qoss := -1, 0, 0, [], [];
    var header := buf[0];
    if HeaderType(header) != SUBSCRIBE {
      return;
    }
    dup := HeaderDup(header);
    var length, n := DecodeBuf(buf, 1);
    rc := n;
    id := 256 * (buf[1 + n] as int) + buf[2 + n];
    var complete;
    complete, filters, qoss := ReadEntriesLoop(buf, 3 + n, 1 + n + length);
    if complete {
      rc := 1;
    }
  }

  /** MQTTDeserialize_unsubscribe. */
  method DeserializeUnsubscribe(buf: array<byte>) returns (rc: int, dup: nat, id: nat, filters: seq<bytes>)
    requires ListReadable(buf[..], UNSUBSCRIBE)
    ensures var r := ParseUnsubscribe(buf[..]);
            if r.OtherType? then rc == 0
            else rc == (if r.entries.complete then 1 else r.fieldLen) && r.dup == dup && r.id == id &&
                 r.entries.filters == filters
  {
    rc, dup, id, filters := 0, 0, 0, [];
    var header := buf[0];
    if HeaderType(header) != UNSUBSCRIBE {
      return;
    }
    dup := HeaderDup(header);
    var length, n := DecodeBuf(buf, 1);
    rc := n;
    id := 256 * (buf[1 + n] as int) + buf[2 + n];
    var complete;
    complete, filters := ReadFiltersLoop(buf, 3 + n, 1 + n + length);
    if complete {
      rc := 1;
    }
  }

  datatype SubackResult =
    | NotSuback
    | SubackTooShort(fieldLen: nat)
    | TooMany(id: nat)
    | SubackParsed(id: nat, codes: seq<nat>)

  function ParseSuback(s: bytes, maxCount: nat): (r: SubackResult)
    requires ListReadable(s, SUBACK)
  {
    if HeaderType(s[0]) != SUBACK then NotSuback
    else
      var d := DecodeLength(s, 1);
      if d.value < 2 then SubackTooShort(d.len)
      else if d.value - 2 > maxCount + 1 then TooMany(ReadInt(s, 1 + d.len))
      else SubackParsed(ReadInt(s, 1 + d.len), s[3 + d.len..1 + d.len + d.value])
  }

  /** MQTTDeserialize_suback. The loop stops only when it has already stored maxCount + 1 codes. */
  method DeserializeSuback(buf: array<byte>, maxCount: nat) returns (rc: int, id: nat, codes: seq<nat>)
    requires ListReadable(buf[..], SUBACK)
    ensures match ParseSuback(buf[..], maxCount)
            case NotSuback => rc == 0
            case SubackTooShort(n) => rc == n
            case TooMany(i) => rc == -1 && id == i
            case SubackParsed(i, c) => rc == 1 && id == i && codes == c
  {
    rc, id, codes := 0, 0, [];
    if HeaderType(buf[0]) != SUBACK {
      return;
    }
    var length, n := DecodeBuf(buf, 1);
    rc := n;
    if length < 2 {
      return;
    }
    id := 256 * (buf[1 + n] as int) + buf[2 + n];
    var start, end := 3 + n, 1 + n + length;
    var cur := start;
    while cur < end
      invariant start <= cur <= end && codes == buf[start..cur] && |codes| <= maxCount + 1
    {
      if |codes| > maxCount {
        return -1, id, codes;
      }
      codes := codes + [buf[cur] as nat];
      cur := cur + 1;
    }
    rc := 1;
  }

  // ----- lists that are cut short -----

  /** What the loop has read stands at p as the serializer writes it. It has read the whole list if and only if that
      ends with the frame; otherwise no further filter with its QoS byte fits in. */
  lemma {:induction false} EntriesRead(s: bytes, p: nat, end: nat)
    requires p <= end <= |s|
    ensures var r := ReadEntries(s, p, end);
            var q := p + |EntriesBytes(r.filters, r.qoss)|;
            At(s, p, EntriesBytes(r.filters, r.qoss)) && AllShort(r.filters) && q <= end &&
            (if r.complete then q == end
             else q < end && (ReadString(s, q, end).None? || ReadString(s, q, end).value.1 == end))
    decreases end - p
  {
    hide At, ReadString, EntryBytes, AllShort, EntriesBytes, Prepend;
    NoEntry(s, p);
    if p < end && ReadString(s, p, end).Some? && ReadString(s, p, end).value.1 < end {
      var (text, q) := ReadString(s, p, end).value;
      EntriesRead(s, q + 1, end);
      var r := ReadEntries(s, q + 1, end);
      PrependedEntry(s, p, end, text, q, r);
    }
  }

  lemma NoEntry(s: bytes, p: nat)
    requires p <= |s|
    ensures EntriesBytes([], []) == [] && FiltersBytes([]) == [] && At(s, p, []) && AllShort([])
  {
  }

  lemma PrependedEntry(s: bytes, p: nat, end: nat, text: bytes, q: nat, r: Entries)
    requires p <= end <= |s| && ReadString(s, p, end) == Some((text, q)) && q < end && |r.filters| == |r.qoss|
    requires At(s, q + 1, EntriesBytes(r.filters, r.qoss)) && AllShort(r.filters)
    ensures var t := Prepend([text], [s[q]], r);
            At(s, p, EntriesBytes(t.filters, t.qoss)) && AllShort(t.filters) && t.complete == r.complete &&
            |EntriesBytes(t.filters, t.qoss)| == q + 1 - p + |EntriesBytes(r.filters, r.qoss)|
  {
    var t := Prepend([text], [s[q]], r);
    assert t.filters[1..] == r.filters && t.qoss[1..] == r.qoss;
    StringStands(s, p, end, text, q);
    assert s[p..q + 1] == s[p..q] + [s[q]];
    assert EntriesBytes(t.filters, t.qoss) == EntryBytes(text, s[q]) + EntriesBytes(r.filters, r.qoss);
    var rest := EntriesBytes(r.filters, r.qoss);
    assert s[p..q + 1 + |rest|] == s[p..q + 1] + s[q + 1..q + 1 + |rest|];
  }

  /** The same for UNSUBSCRIBE, where the filters stand alone. */
  lemma {:induction false} FiltersRead(s: bytes, p: nat, end: nat)
    requires p <= end <= |s|
    ensures var r := ReadFilters(s, p, end);
            var q := p + |FiltersBytes(r.filters)|;
            At(s, p, FiltersBytes(r.filters)) && AllShort(r.filters) && q <= end &&
            (if r.complete then q == end else q < end && ReadString(s, q, end).None?)
    decreases end - p
  {
    hide At, ReadString, AllShort, FiltersBytes, Prepend;
    NoEntry(s, p);
    if p < end && ReadString(s, p, end).Some? {
      var (text, q) := ReadString(s, p, end).value;
      FiltersRead(s, q, end);
      PrependedFilter(s, p, end, text, q, ReadFilters(s, q, end));
    }
  }

  lemma PrependedFilter(s: bytes, p: nat, end: nat, text: bytes, q: nat, r: Entries)
    requires p <= end <= |s| && ReadString(s, p, end) == Some((text, q))
    requires At(s, q, FiltersBytes(r.filters)) && AllShort(r.filters)
    ensures var t := Prepend([text], [], r);
            At(s, p, FiltersBytes(t.filters)) && AllShort(t.filters) && t.complete == r.complete &&
            |FiltersBytes(t.filters)| == q - p + |FiltersBytes(r.filters)|
  {
    var t := Prepend([text], [], r);
    assert t.filters[1..] == r.filters;
    StringStands(s, p, end, text, q);
    var rest := FiltersBytes(r.filters);
    assert s[p..q + |rest|] == s[p..q] + s[q..q + |rest|];
  }

  /** The return code 1 says that the codes were read, exactly unless a length field of one byte announces fewer than
      two bytes. */
  lemma SubackReturnCode(s: bytes, maxCount: nat)
    requires ListReadable(s, SUBACK) && HeaderType(s[0]) == SUBACK
    ensures var r := ParseSuback(s, maxCount);
            (r == SubackTooShort(1) <==> s[1] < 2) && (r.SubackTooShort? && s[1] >= 128 ==> r.fieldLen > 1)
  {
    ShortField(s);
  }

  /** Of a list that is cut short, 1 is returned exactly behind a length field of one byte. */
  lemma ListReturnCode(s: bytes)
    requires |s| > 0
    ensures ListReadable(s, SUBSCRIBE) && HeaderType(s[0]) == SUBSCRIBE ==>
              (ParseSubscribe(s).fieldLen == 1 <==> s[1] < 128)
    ensures ListReadable(s, UNSUBSCRIBE) && HeaderType(s[0]) == UNSUBSCRIBE ==>
              (ParseUnsubscribe(s).fieldLen == 1 <==> s[1] < 128)
  {
    if |s| > 1 && FieldReadable(s, 1, 0) { ShortField(s); }
  }

  // ----- round trips -----

  lemma ReadEntryBytes(filter: bytes, qos: byte, rest: bytes, s: bytes, p: nat)
    requires |filter| < 65536 && At(s, p, EntryBytes(filter, qos) + rest)
    ensures var q := p + 2 + |filter|;
            ReadString(s, p, q + 1 + |rest|) == Some((filter, q)) && s[q] == qos && At(s, q + 1, rest)
  {
    var q := p + 2 + |filter|;
    AtSplit(s, p, EntryBytes(filter, qos), rest);
    AtSplit(s, p, StringBytes(filter), [qos]);
    assert s[q] == s[q..q + 1][0];
    ReadStringBytes(s, p, q + 1 + |rest|, filter);
  }

  lemma {:induction false} ReadEntriesBytes(filters: seq<bytes>, qoss: bytes, s: bytes, p: nat)
    requires |filters| == |qoss| && AllShort(filters)
    requires At(s, p, EntriesBytes(filters, qoss))
    ensures ReadEntries(s, p, p + |EntriesBytes(filters, qoss)|) == Entries(true, filters, qoss)
    decreases |filters|
  {
    hide ReadString, Prepend, EntryBytes, StringBytes;
    if filters == [] {
      assert EntriesBytes(filters, qoss) == [];
    } else {
      hide ReadEntries, At, EntriesBytes;
      assert |filters[0]| < 65536 && AllShort(filters[1..]);
      hide AllShort;
      ReadEntriesSplit(filters, qoss, s, p);
      ReadEntriesBytes(filters[1..], qoss[1..], s, p + 3 + |filters[0]|);
    }
  }

  /** The first entry is read, and the others follow it. */
  lemma ReadEntriesSplit(filters: seq<bytes>, qoss: bytes, s: bytes, p: nat)
    requires |filters| == |qoss| > 0 && |filters[0]| < 65536
    requires At(s, p, EntriesBytes(filters, qoss))
    ensures var rest := EntriesBytes(filters[1..], qoss[1..]);
            var q := p + 3 + |filters[0]|;
            At(s, q, rest) &&
            (ReadEntries(s, q, q + |rest|) == Entries(true, filters[1..], qoss[1..]) ==>
             ReadEntries(s, p, p + |EntriesBytes(filters, qoss)|) == Entries(true, filters, qoss))
  {
    hide At, ReadEntries, EntryBytes, Prepend;
    ReadEntryStep(filters[0], qoss[0], EntriesBytes(filters[1..], qoss[1..]), s, p);
    PrependEntry(filters, qoss);
  }

  lemma PrependEntry(filters: seq<bytes>, qoss: bytes)
    requires |filters| == |qoss| > 0
    ensures Prepend([filters[0]], [qoss[0]], Entries(true, filters[1..], qoss[1..])) == Entries(true, filters, qoss)
  {
    assert filters == [filters[0]] + filters[1..] && qoss == [qoss[0]] + qoss[1..];
  }

  lemma PrependFilter(filters: seq<bytes>)
    requires filters != []
    ensures Prepend([filters[0]], [], Entries(true, filters[1..], [])) == Entries(true, filters, [])
  {
    assert filters == [filters[0]] + filters[1..];
  }

  lemma ReadEntryStep(filter: bytes, qos: byte, rest: bytes, s: bytes, p: nat)
    requires |filter| < 65536 && At(s, p, EntryBytes(filter, qos) + rest)
    ensures var q := p + 3 + |filter|;
            At(s, q, rest) && ReadEntries(s, p, q + |rest|) == Prepend([filter], [qos], ReadEntries(s, q, q + |rest|))
  {
    ReadEntryBytes(filter, qos, rest, s, p);
    hide ReadString, EntryBytes;
  }

  lemma ReadFilterBytes(filter: bytes, rest: bytes, s: bytes, p: nat)
    requires |filter| < 65536 && At(s, p, StringBytes(filter) + rest)
    ensures var q := p + 2 + |filter|;
            ReadString(s, p, q + |rest|) == Some((filter, q)) && At(s, q, rest)
  {
    AtSplit(s, p, StringBytes(filter), rest);
    ReadStringBytes(s, p, p + 2 + |filter| + |rest|, filter);
  }

  lemma {:induction false} ReadFiltersBytes(filters: seq<bytes>, s: bytes, p: nat)
    requires AllShort(filters)
    requires At(s, p, FiltersBytes(filters))
    ensures ReadFilters(s, p, p + |FiltersBytes(filters)|) == Entries(true, filters, [])
    decreases |filters|
  {
    hide ReadString, Prepend, StringBytes;
    if filters == [] {
      assert FiltersBytes(filters) == [];
    } else {
      assert |filters[0]| < 65536 && AllShort(filters[1..]);
      hide AllShort;
      var rest := FiltersBytes(filters[1..]);
      hide At;
      PrependFilter(filters);
      ReadFilterBytes(filters[0], rest, s, p);
      ReadFiltersBytes(filters[1..], s, p + 2 + |filters[0]|);
    }
  }

  /** A frame with a packet id and a list, read up to the list. */
  lemma ListFrameAt(s: bytes, packetType: nat, dup: nat, qos: nat, id: nat, list: bytes)
    requires packetType < 16 && dup < 2 && qos < 4 && id < 65536 && 2 + |list| <= MAX_REMAINING_LENGTH
    requires At(s, 0, FrameBytes(HeaderByte(packetType, dup, qos, 0), IntBytes(id) + list))
    ensures ListReadable(s, packetType) && HeaderType(s[0]) == packetType && HeaderDup(s[0]) == dup
    ensures var d := DecodeLength(s, 1);
            d.value == 2 + |list| && ReadInt(s, 1 + d.len) == id && At(s, 3 + d.len, list)
  {
    hide EncodeLength, HeaderByte, HeaderType, HeaderDup;
    HeaderFields(packetType, dup, qos, 0);
    FrameAt(s, HeaderByte(packetType, dup, qos, 0), IntBytes(id) + list);
    var k := 1 + DecodeLength(s, 1).len;
    AtSplit(s, k, IntBytes(id), list);
    ReadIntBytes(s, k, id);
  }

  lemma SubscribeRoundTrip(dup: nat, id: nat, filters: seq<bytes>, qoss: bytes, s: bytes)
    requires |filters| == |qoss| && dup < 2 && id < 65536 && AllShort(filters)
    requires 2 + |EntriesBytes(filters, qoss)| <= MAX_REMAINING_LENGTH
    requires At(s, 0, SubscribeBytes(dup, id, filters, qoss))
    ensures ListReadable(s, SUBSCRIBE)
    ensures ParseSubscribe(s).ListOf? && ParseSubscribe(s).dup == dup && ParseSubscribe(s).id == id
    ensures ParseSubscribe(s).entries == Entries(true, filters, qoss)
  {
    hide HeaderByte, HeaderType, HeaderDup, FieldReadable, DecodeLength, EncodeLength, EntriesBytes, ReadEntries,
         IntBytes, ReadInt, FrameBytes, AllShort;
    ListFrameAt(s, SUBSCRIBE, dup, 1, id, EntriesBytes(filters, qoss));
    ReadEntriesBytes(filters, qoss, s, 3 + DecodeLength(s, 1).len);
  }

  lemma UnsubscribeRoundTrip(dup: nat, id: nat, filters: seq<bytes>, s: bytes)
    requires dup < 2 && id < 65536 && AllShort(filters)
    requires 2 + |FiltersBytes(filters)| <= MAX_REMAINING_LENGTH
    requires At(s, 0, UnsubscribeBytes(dup, id, filters))
    ensures ListReadable(s, UNSUBSCRIBE)
    ensures ParseUnsubscribe(s).ListOf? && ParseUnsubscribe(s).dup == dup && ParseUnsubscribe(s).id == id
    ensures ParseUnsubscribe(s).entries == Entries(true, filters, [])
  {
    hide HeaderByte, HeaderType, HeaderDup, FieldReadable, DecodeLength, EncodeLength;
    ListFrameAt(s, UNSUBSCRIBE, dup, 1, id, FiltersBytes(filters));
    ReadFiltersBytes(filters, s, 3 + DecodeLength(s, 1).len);
  }

  /** The codes come back exactly when there are at most maxCount + 1 of them. */
  lemma SubackRoundTrip(id: nat, codes: seq<nat>, s: bytes, maxCount: nat)
    requires id < 65536 && 2 + |codes| <= MAX_REMAINING_LENGTH
    requires forall i :: 0 <= i < |codes| ==> codes[i] < 256
    requires At(s, 0, SubackBytes(id, codes))
    ensures ListReadable(s, SUBACK)
    ensures ParseSuback(s, maxCount) == if |codes| <= maxCount + 1 then SubackParsed(id, codes) else TooMany(id)
  {
    hide HeaderByte, HeaderType, HeaderDup, FieldReadable, DecodeLength, EncodeLength;
    ListFrameAt(s, SUBACK, 0, 0, id, CodeBytes(codes));
    var k := 3 + DecodeLength(s, 1).len;
    assert s[k..k + |codes|] == CodeBytes(codes) == codes;
  }
}
