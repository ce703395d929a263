/**
 The client of MQTT/MQTTClient.h in its default build (MQTTCLIENT_QOS1=1, MQTTCLIENT_QOS2=0), over a
 network and timers that behave in any way the assumptions stated here allow. Every public method
 is proved to extend the run of the client only in ways that MqttTrace allows.
 */
module MqttClient {
  import opened Bytes
  import opened MqttWire
  import opened MqttPublish
  import opened MqttConnect
  import opened MqttSubscribe
  import opened MqttFraming
  import MqttLayout
  import opened MqttTrace
  import opened MqttHandlers
  import opened TopicFilter

  const SUCCESS: int := 0
  const FAILURE: int := -1

  /** What cycle makes of a failed readPacket: -1 as an unsigned short. */
  const NO_PACKET: int := 65535

  /** A countdown that finds the time up after any number of looks at it. */
  class Timer {
    /** How many more looks will find time left. */
    var left: nat
    /** How many looks find time left in all, and whether a look has found the time up. */
    ghost var start: nat
    ghost var up: bool

    constructor (ms: nat)
      ensures !up && left == start
    {
      left := *;
      start, up := left, false;
    }

    method Countdown(seconds: nat)
      modifies this
      ensures !up && left == start
    {
      left := *;
      start, up := left, false;
    }

    method Expired() returns (expired: bool)
      modifies `left, `up
      ensures expired <==> old(left) == 0
      ensures left == if expired then 0 else old(left) - 1
      ensures up <==> old(up) || expired
    {
      expired := left == 0;
      if expired {
        up := true;
      } else {
        left := left - 1;
      }
    }
  }

  /** The connection. What the broker will send is a sequence of well-formed frames; a read at a frame
      boundary may time out, and a read inside a frame is complete. Writes are arbitrarily partial. */
  class Network {
    var wire: bytes
    var pending: bytes
    var frames: seq<Frame>
    /** How often the network was asked to read at a frame boundary or to write, how many of these reads found
        nothing, and how many of these writes failed or took bytes from behind the packet. */
    ghost var asked: nat
    ghost var idle: nat
    ghost var faults: nat

    ghost predicate Valid()
      reads `frames
    {
      AllWellFormed(frames)
    }

    /** The bytes not read yet. */
    ghost function Incoming(): bytes
      reads this
    {
      pending + RawStream(frames)
    }

    /** read of one byte at a frame boundary. */
    method ReadHeader() returns (rc: int, c: byte)
      requires Valid() && pending == []
      modifies `pending, `frames, `asked, `idle
      ensures Valid()
      ensures asked == old(asked) + 1 && idle == old(idle) + if rc == 1 then 0 else 1
      ensures rc != 1 ==> frames == old(frames) && pending == []
      ensures rc == 1 ==>
                old(frames) != [] && frames == old(frames)[1..] && old(frames)[0].WellFormed() &&
                c == old(frames)[0].packet.Header() && pending == old(frames)[0].field + old(frames)[0].packet.Body() &&
                old(Incoming()) == [c] + Incoming()
    {
      rc, c := 0, 0;
      asked := asked + 1;
      var ready: bool := *;
      if ready && frames != [] {
        ghost var before := frames;
        var f := frames[0];
        pending := f.field + f.packet.Body();
        frames := frames[1..];
        rc, c := 1, f.packet.Header();
        assert [] + RawStream(before) == [c] + (pending + RawStream(frames));
      } else {
        idle := idle + 1;
      }
    }

    /** read inside a frame. */
    method ReadInside(n: nat) returns (data: bytes)
      requires n <= |pending|
      modifies `pending
      ensures data == old(pending)[..n] && pending == old(pending)[n..]
      ensures old(Incoming()) == data + Incoming()
    {
      data := pending[..n];
      pending := pending[n..];
    }

    /** write of n bytes from the buffer at off: an error, or up to n bytes taken; bytes behind the end
        of the buffer are whatever lies there. */
    method Write(buf: array<byte>, off: nat, n: nat) returns (rc: int)
      requires off <= buf.Length
      modifies `wire, `asked, `faults
      ensures rc <= n && old(wire) <= wire
      ensures asked == old(asked) + 1 && faults == old(faults) + if rc < 0 || off + rc > n then 1 else 0
      ensures rc >= 0 && off + rc <= buf.Length ==> wire == old(wire) + buf[off..off + rc]
    {
      var other: bytes := *;
      rc := *;
      if rc > n {
        rc := n;
      }
      if rc < 0 || off + rc > buf.Length {
        wire := wire + other;
      } else {
        wire := wire + buf[off..off + rc];
      }
      asked := asked + 1;
      if rc < 0 || off + rc > n {
        faults := faults + 1;
      }
    }
  }

  // ----- what one call of cycle does -----

  /** The answer to a message: PUBACK at QoS 1, PUBREC at QoS 2, if its four bytes fit the buffer. */
  function AnswerEvents(m: Publish, ok: bool, size: nat): (r: seq<Event>) {
    if size >= 4 && (m.qos == 1 || m.qos == 2) then
      var packet := AckBytes(if m.qos == 1 then PUBACK else PUBREC, 0, m.id);
      [if ok then Sent(packet) else Failed(packet)]
    else []
  }

  /** The answer byte by byte. */
  lemma AnswerMeans(m: Publish, ok: bool, size: nat)
    requires m.id < 65536 && m.qos < 4
    ensures size < 4 || m.qos == 0 || m.qos == 3 ==> AnswerEvents(m, ok, size) == []
    ensures size >= 4 && (m.qos == 1 || m.qos == 2) ==>
              var b := (if m.qos == 1 then [0x40, 2] else [0x50, 2]) + MqttLayout.Short(m.id);
              AnswerEvents(m, ok, size) == [if ok then Sent(b) else Failed(b)]
  {
    hide AckBytes;
    MqttLayout.AnswerLayout(m.id);
  }

  /** What one call of cycle does with the packet it read, in this order: the handlers, then the answer. */
  function CycleEvents(packet: Option<Packet>, rc: int, handlers: seq<Handler>, default: bool,
                       size: nat): (r: seq<Event>) {
    match packet
    case None => []
    case Some(p) =>
      [Arrived(p)] +
      if p.PublishTo? then
        CallEvents(Calls(handlers, default, p.m.topic, p.m.payload)) + AnswerEvents(p.m, rc != FAILURE, size)
      else []
  }

  /** keepalive sends at most one PINGREQ. */
  predicate PingEvents(events: seq<Event>) {
    events == [] || events == [Sent(ZeroBytes(PINGREQ))] || events == [Failed(ZeroBytes(PINGREQ))]
  }

  /** A packet of the type arrived. */
  predicate Got(events: seq<Event>, packetType: nat) {
    exists i :: 0 <= i < |events| && IsArrival(events[i], packetType)
  }

  predicate IsArrival(e: Event, packetType: nat) {
    e.Arrived? && HeaderType(e.packet.Header()) == packetType
  }

  lemma GotConcat(a: seq<Event>, b: seq<Event>, packetType: nat)
    ensures Got(a + b, packetType) <==> Got(a, packetType) || Got(b, packetType)
  {
    hide IsArrival;
    var c := a + b;
    assert forall i :: 0 <= i < |a| ==> c[i] == a[i];
    assert forall i :: 0 <= i < |b| ==> c[|a| + i] == b[i];
  }

  /** Nothing but packets of other types arrived. */
  lemma GotNothing(events: seq<Event>, packetType: nat)
    requires forall i :: 0 <= i < |events| ==> !IsArrival(events[i], packetType)
    ensures !Got(events, packetType)
  {
  }

  /** The packet was sent, and at QoS 1 a PUBACK came in. */
  predicate Succeeded(before: seq<Event>, after: seq<Event>, packet: bytes, qos: nat) {
    before + [Sent(packet)] <= after && (qos == 1 ==> Got(after[|before|..], PUBACK))
  }

  /** How connect ends with a message in flight. Once the CONNECT is sent, the message is sent again from the given
      point of the run on, and the result is that of the resend. */
  predicate Reconnected(before: seq<Event>, after: seq<Event>, at: nat, options: ConnectData, m: Publish, rc: int)
    requires at <= |after|
  {
    var sent := before + [Sent(ConnectBytes(options))] <= after;
    var resending := after[..at] + [Resending(m)];
    (sent ==> Tried(resending, after, PublishBytes(m))) &&
    (rc == SUCCESS <==> sent && Succeeded(resending, after, PublishBytes(m), m.qos))
  }

  /** A packet that was sent stands on the wire right behind what was there before. */
  predicate OnWire(before: seq<Event>, after: seq<Event>, wire0: bytes, wire: bytes, packet: bytes) {
    before + [Sent(packet)] <= after ==> wire0 + packet <= wire
  }

  /** Some time after the wire carried the first bytes, the packet was put on it. */
  ghost predicate Passed(wire0: bytes, wire: bytes, packet: bytes) {
    exists w: bytes :: wire0 <= w && w + packet <= wire
  }

  /** When the resend that starts at the given point of the run was sent, and so whenever it succeeded, its bytes
      were put on the wire. */
  ghost predicate ResentOnWire(after: seq<Event>, at: nat, wire0: bytes, wire: bytes, packet: bytes, rc: int)
    requires at <= |after|
  {
    rc == SUCCESS || (at + 1 < |after| && after[at + 1] == Sent(packet)) ==> Passed(wire0, wire, packet)
  }

  /** What the PUBACK that ended a wait means for the kept message. */
  function PubackEvents(s: Monitor, id: nat): (r: seq<Event>) {
    if s.inflight.None? then [] else if s.inflight.value.id == id then [Settled] else [Mismatched]
  }

  /** The packet ids go round from 1 to 65535. */
  function NextId(id: nat): (r: nat) { if id == 65535 then 1 else id + 1 }

  /** The id after k more calls. */
  function Ids(id: nat, k: nat): (r: nat) { if k == 0 then id else NextId(Ids(id, k - 1)) }

  lemma {:induction false} IdsGoRound(id: nat, k: nat)
    requires 1 <= id <= 65535
    ensures Ids(id, k) == (id - 1 + k) % 65535 + 1
  {
    if k > 0 {
      IdsGoRound(id, k - 1);
      OneFurther(id - 1 + (k - 1));
    }
  }

  lemma OneFurther(n: nat)
    ensures (n + 1) % 65535 == if n % 65535 == 65534 then 0 else n % 65535 + 1
  {
  }

  /** An id comes back exactly after every 65535 calls, so any two ids closer than that differ; none is 0. */
  lemma IdsDiffer(id: nat, i: nat, j: nat)
    requires id <= 65535 && 0 < i <= j
    ensures 1 <= Ids(id, i) <= 65535
    ensures Ids(id, i) == Ids(id, j) <==> (j - i) % 65535 == 0
  {
    hide Ids;
    var first := NextId(id);
    IdsAfterFirst(id, i);
    IdsAfterFirst(id, j);
    IdsGoRound(first, i - 1);
    IdsGoRound(first, j - 1);
    SameRemainder(first - 1 + (i - 1), first - 1 + (j - 1));
  }

  lemma {:induction false} IdsAfterFirst(id: nat, k: nat)
    requires k > 0
    ensures Ids(id, k) == Ids(NextId(id), k - 1)
  {
    if k > 1 { IdsAfterFirst(id, k - 1); }
  }

  lemma SameRemainder(a: nat, b: nat)
    requires a <= b
    ensures a % 65535 == b % 65535 <==> (b - a) % 65535 == 0
  {
    var p, q := a / 65535, b / 65535;
    assert a == 65535 * p + a % 65535 && b == 65535 * q + b % 65535;
    assert b - a == 65535 * (q - p) + (b % 65535 - a % 65535);
  }

  /** The packets that the client expects fit its buffers. */
  predicate FramesFit(frames: seq<Frame>, size: nat) {
    frames == [] || (|frames[0].Stored()| <= size && FramesFit(frames[1..], size))
  }

  /** The parts of a run's state that concern the kept message. */
  predicate SameFlight(s: Monitor, t: Monitor) {
    t.recorded == s.recorded && t.settled == s.settled && t.lost == s.lost && t.inflight == s.inflight &&
    t.trusted == s.trusted
  }

  lemma NotPuback(packetType: nat, dup: nat, qos: nat, retain: nat, rest: bytes)
    requires packetType < 16 && packetType != PUBACK && dup < 2 && qos < 4 && retain < 2
    ensures !IsPuback([HeaderByte(packetType, dup, qos, retain)] + rest)
  {
    HeaderFields(packetType, dup, qos, retain);
  }

  /** A packet that is sent for its own sake, not in answer to a message. */
  ghost predicate Ordinary(packet: bytes) {
    packet != [] && IsFrame(packet) && !IsPuback(packet)
  }

  lemma ZeroSize(packetType: nat)
    ensures |ZeroBytes(packetType)| == 2
  {
  }

  lemma FrameIsOrdinary(packetType: nat, dup: nat, qos: nat, retain: nat, body: bytes)
    requires |body| <= MAX_REMAINING_LENGTH && packetType < 16 && packetType != PUBACK && dup < 2 && qos < 4 &&
             retain < 2
    ensures Ordinary(FrameBytes(HeaderByte(packetType, dup, qos, retain), body))
  {
    NotPuback(packetType, dup, qos, retain, EncodeLength(|body|) + body);
    assert [HeaderByte(packetType, dup, qos, retain)] +
           (EncodeLength(|body|) + body) == FrameBytes(HeaderByte(packetType, dup, qos, retain), body);
  }

  /** The buffer starts with the packet. */
  ghost predicate Holds(s: bytes, p: Packet) {
    p.Encodable() && At(s, 0, FrameBytes(p.Header(), p.Body()))
  }

  /** The first frame was taken off the incoming bytes and stored. */
  ghost predicate TookFrame(before: bytes, after: bytes, stored: bytes) {
    var next := NextFrame(before);
    next.Some? && At(stored, 0, next.value.0) && after == before[next.value.1..]
  }

  class Client {
    const size: nat
    const maxHandlers: nat
    const commandTimeout: nat
    const net: Network
    const lastSent: Timer
    const lastReceived: Timer
    const sendbuf: array<byte>
    const readbuf: array<byte>
    const pubbuf: array<byte>
    var keepAliveInterval: nat
    var pingOutstanding: bool
    var cleansession: bool
    var nextId: nat
    var handlers: seq<Handler>
    var defaultAttached: bool
    var isconnected: bool
    var inflightLen: nat
    var inflightMsgid: nat
    var inflightQoS: nat
    /** The run so far, what it has come to, and the number of calls of cycle that returned FAILURE. */
    ghost var trace: seq<Event>
    ghost var mon: Monitor
    ghost var cycleFailures: nat
    /** What each call of sendPacket put on the wire. */
    ghost var chunks: seq<bytes>

    /** The buffers are three different ones of the packet size. */
    ghost predicate Buffers() {
      && size > 0
      && sendbuf.Length == size && readbuf.Length == size && pubbuf.Length == size
      && sendbuf != readbuf && sendbuf != pubbuf && readbuf != pubbuf
      && lastSent != lastReceived
    }

    /** A timer of the caller. */
    predicate Foreign(timer: Timer) { timer != lastSent && timer != lastReceived }

    /** The time was up, or a write failed, since the network had seen the given number of faults. */
    ghost predicate GaveUp(timer: Timer, faults: nat)
      reads timer`up, net`faults
    {
      timer.up || net.faults > faults
    }

    /** How often a read at a frame boundary was tried, up to a constant: it either takes a frame or finds nothing. */
    ghost function Polls(): int
      reads net`idle, net`frames
    {
      net.idle - |net.frames|
    }

    ghost predicate Connection()
      reads net`pending, net`frames
    {
      net.Valid() && net.pending == [] && FramesFit(net.frames, size)
    }

    /** The run is allowed, and the wire carries what its calls of sendPacket put there and nothing else. */
    ghost predicate Logged()
      reads `trace, `mon, `chunks, net`wire
    {
      Ok(trace) && mon == Watch(trace) && Carries(trace, chunks) && net.wire == Flatten(chunks)
    }

    /** The packets sent between two points of the run with no failure in between stand on the wire one right
        after the other, and a peer that starts to read there gets exactly these packets. */
    lemma PeerReads(i: nat, j: nat) returns (w: bytes, v: bytes)
      requires Logged() && NoneFailed(trace, i, j)
      ensures net.wire == w + Flatten(SentIn(trace[i..j])) + v
      ensures SplitStream(Flatten(SentIn(trace[i..j]))) == SentIn(trace[i..j])
    {
      w, v := StretchOnWire(trace, i, j, chunks);
      PeerReadsStretch(trace, i, j);
    }

    /** As long as no send has failed, the peer gets exactly the packets sent from the whole wire. */
    lemma PeerReadsAll()
      requires Logged() && mon.clean
      ensures SplitStream(net.wire) == mon.sent
    {
      CleanCarries(trace, chunks);
      PeerReadsRun(trace);
    }

    /** Unless cycle has failed, every QoS 1 message that arrived has been answered. */
    ghost predicate Answered()
      reads `mon, `cycleFailures
    {
      cycleFailures == 0 ==> mon.missed == 0 && mon.due.None?
    }

    /** inflightMsgid, inflightQoS, inflightLen and pubbuf hold the message in flight. */
    ghost predicate Kept()
      reads `mon, `inflightLen, `inflightMsgid, `inflightQoS, pubbuf
    {
      && pubbuf.Length == size
      && (inflightMsgid == 0 <==> mon.inflight.None?)
      && (mon.inflight.Some? ==> KeptMessage(mon.inflight.value) && (mon.trusted ==> mon.inflight.value.qos == 1))
    }

    ghost predicate KeptMessage(m: Publish)
      requires pubbuf.Length == size
      reads `inflightLen, `inflightMsgid, `inflightQoS, pubbuf
    {
      && m.id == inflightMsgid && m.qos == inflightQoS && m.Encodable()
      && inflightLen == |PublishBytes(m)| <= size && pubbuf[..inflightLen] == PublishBytes(m)
    }

    /** The run knows the message handlers. */
    ghost predicate Known()
      reads `mon, `handlers, `defaultAttached
    {
      mon.handlers == handlers && mon.default == defaultAttached
    }

    ghost predicate Inv()
      reads `trace, `mon, `chunks, `handlers, `defaultAttached, `inflightLen, `inflightMsgid, `inflightQoS, net, pubbuf
    {
      Buffers() && Connection() && Logged() && Kept() && Known() && |handlers| == maxHandlers
    }

    lemma Apart()
      requires Inv()
      ensures Buffers()
    {
    }

    /** What holds between calls of public methods. A connected client of a trusted run has no message in
        flight, so no publish ever replaces one. */
    ghost predicate Valid()
      reads this, net, pubbuf
    {
      Inv() && Answered() && Quiet(mon) && nextId < 65536 && (mon.trusted && isconnected ==> mon.inflight.None?)
    }

    constructor (network: Network, packetSize: nat, handlerCount: nat, timeout: nat)
      requires packetSize > 0 && network.Valid() && network.pending == [] && network.wire == [] &&
                 FramesFit(network.frames, packetSize)
      ensures Valid() && net == network && size == packetSize && !isconnected
      ensures trace == [Installed(seq(handlerCount, _ => Handler(None, false)), false)] && mon.recorded == []
      ensures fresh(sendbuf) && fresh(readbuf) && fresh(pubbuf) && fresh(lastSent) && fresh(lastReceived)
    {
      size, maxHandlers, commandTimeout := packetSize, handlerCount, timeout;
      net := network;
      lastSent := new Timer(0);
      lastReceived := new Timer(0);
      sendbuf := new byte[packetSize](_ => 0);
      readbuf := new byte[packetSize](_ => 0);
      pubbuf := new byte[packetSize](_ => 0);
      keepAliveInterval, cleansession := *, *;
      pingOutstanding, nextId := false, 0;
      handlers := seq(handlerCount, _ => Handler(None, false));
      defaultAttached, isconnected := false, false;
      inflightLen, inflightMsgid, inflightQoS := 0, 0, 0;
      trace, mon, cycleFailures, chunks := [], START, 0, [];
      new;
      LogHandlers();
    }

    /** setDefaultMessageHandler. */
    method SetDefaultMessageHandler(attached: bool)
      requires Valid()
      modifies `defaultAttached, `trace, `mon
      ensures Valid() && defaultAttached == attached
      ensures trace == old(trace) + [Installed(handlers, attached)] && SameFlight(old(mon), mon)
    {
      hide Ok, Watch, Next, Kept, Logged;
      defaultAttached := attached;
      LogHandlers();
    }

    /** The message handlers have changed. */
    ghost method LogHandlers()
      requires Logged() && Kept() && Quiet(mon)
      modifies `trace, `mon
      ensures Logged() && Kept() && Known() && Quiet(mon)
      ensures trace == old(trace) + [Installed(handlers, defaultAttached)] && SameFlight(old(mon), mon)
      ensures mon.missed == old(mon.missed) && mon.due == old(mon.due)
    {
      hide Ok, Watch, KeptMessage, Flatten;
      Log(Installed(handlers, defaultAttached));
    }

    ghost method Log(e: Event)
      requires Ok(trace) && mon == Watch(trace) && Allowed(mon, e)
      modifies `trace, `mon
      ensures trace == old(trace) + [e] && mon == Next(old(mon), e)
      ensures Ok(trace) && mon == Watch(trace)
      ensures Carries(old(trace), chunks) && !Tries(e) ==> Carries(trace, chunks)
    {
      Extend(trace, e);
      if Carries(trace, chunks) {
        CarriesMore(trace, e, chunks, []);
      }
      trace := trace + [e];
      mon := Next(mon, e);
    }

    /** PacketId::getNext: 1 to 65535, never 0. */
    method GetNextId() returns (id: nat)
      requires nextId < 65536
      modifies `nextId
      ensures id == nextId == NextId(old(nextId)) && 1 <= id < 65536
    {
      nextId := if nextId == 65535 then 1 else nextId + 1;
      id := nextId;
    }

    /** sendPacket: SUCCESS means that the wire received exactly the first length bytes of sendbuf,
        however the writes were split. */
    method SendPacket(length: nat, timer: Timer) returns (rc: int)
      requires Foreign(timer)
      requires Inv() && length <= size && MaySend(mon, sendbuf[..length])
      modifies `trace, `mon, `chunks, net`wire, net`asked, net`faults, lastSent, timer`left, timer`up
      ensures 0 <= old(timer.left) - timer.left <= net.asked - old(net.asked) && (old(timer.up) ==> timer.up)
      ensures Inv() && Quiet(mon)
      ensures rc == SUCCESS || rc == FAILURE
      ensures old(net.wire) <= net.wire && old(net.faults) <= net.faults && old(net.asked) <= net.asked
      ensures rc == SUCCESS ==> net.wire == old(net.wire) + sendbuf[..length]
      ensures rc == FAILURE ==> GaveUp(timer, old(net.faults))
      ensures if rc == SUCCESS && keepAliveInterval > 0 then !lastSent.up else lastSent.left == old(lastSent.left)
      ensures var e := if rc == SUCCESS then Sent(sendbuf[..length]) else Failed(sendbuf[..length]);
              trace == old(trace) + [e] && mon == Next(old(mon), e)
    {
      hide MaySend, Ok, Watch, Next, Kept, Known;
      ghost var packet, wire0 := sendbuf[..length], net.wire;
      var ok := WriteAll(length, timer);
      LogSend(packet, ok, wire0);
      if ok && keepAliveInterval > 0 {
        lastSent.Countdown(keepAliveInterval);
      }
      rc := if ok then SUCCESS else FAILURE;
    }

    /** The loop of sendPacket. */
    method WriteAll(length: nat, timer: Timer) returns (ok: bool)
      requires length <= sendbuf.Length
      modifies net`wire, net`asked, net`faults, timer`left, timer`up
      ensures 0 <= old(timer.left) - timer.left <= net.asked - old(net.asked) && (old(timer.up) ==> timer.up)
      ensures old(net.wire) <= net.wire && old(net.faults) <= net.faults && old(net.asked) <= net.asked
      ensures ok ==> net.wire == old(net.wire) + sendbuf[..length]
      ensures !ok ==> GaveUp(timer, old(net.faults))
    {
      ghost var packet := sendbuf[..length];
      ghost var wire0 := net.wire;
      var sent: nat := 0;
      var rc: int := FAILURE;
      while sent < length
        invariant wire0 <= net.wire && net.faults >= old(net.faults)
        invariant if sent <= length then net.wire == wire0 + packet[..sent] else net.faults > old(net.faults)
        invariant old(timer.left) - timer.left == net.asked - old(net.asked) >= 0 && (old(timer.up) ==> timer.up)
        decreases timer.left
      {
        var expired := timer.Expired();
        if expired {
          break;
        }
        rc := net.Write(sendbuf, sent, length);
        if rc < 0 {
          break;
        }
        if sent + rc <= length {
          assert packet[..sent + rc] == packet[..sent] + sendbuf[sent..sent + rc];
        }
        sent := sent + rc;
      }
      ok := sent == length;
      assert packet[..length] == packet;
    }

    ghost method LogSend(packet: bytes, ok: bool, wire0: bytes)
      requires Kept() && Known() && Ok(trace) && mon == Watch(trace) && MaySend(mon, packet)
      requires Carries(trace, chunks) && wire0 == Flatten(chunks) && wire0 <= net.wire
      requires ok ==> net.wire == wire0 + packet
      modifies `trace, `mon, `chunks
      ensures Kept() && Known() && Logged() && Quiet(mon)
      ensures var e := if ok then Sent(packet) else Failed(packet);
              trace == old(trace) + [e] && mon == Next(old(mon), e)
    {
      hide MaySend, Ok, Watch, Next, KeptMessage, Carries, Flatten, Allowed;
      var e, chunk := if ok then Sent(packet) else Failed(packet), net.wire[|wire0|..];
      TryStep(mon, packet, ok);
      CarriesMore(trace, e, chunks, chunk);
      FlattenAppend(chunks, chunk);
      Log(e);
      chunks := chunks + [chunk];
    }

    /** decodePacket, inside a frame: the remaining length, whatever the size of its field. */
    method DecodePacket(ghost f: Frame) returns (value: nat)
      requires f.WellFormed() && net.pending == f.field + f.packet.Body()
      modifies net`pending
      ensures value == |f.packet.Body()| && net.pending == f.packet.Body()
    {
      hide Packet.Body, Packet.Encodable;
      ghost var field, body := f.field, f.packet.Body();
      assert 1 <= |field| <= 4;
      value := 0;
      var multiplier: nat := 1;
      var len: nat := 0;
      DecodeFromField(field, 0, 0, 1, 0, field);
      hide IsLengthField, FieldValue, DecodeFrom, FieldReadable, AddDigit;
      while true
        invariant len < |field| && net.pending == field[len..] + body
        invariant FieldReadable(field, 0, len) &&
                  DecodeFrom(field, 0, len, multiplier, value) == Decoded(FieldValue(field), |field|)
        decreases |field| - len
      {
        DecodeStep(field, 0, len, multiplier, value);
        len := len + 1;
        if len > 4 {
          break;
        }
        PendingStep(net.pending, field, body, len - 1);
        var data := net.ReadInside(1);
        var c := data[0];
        value := AddDigit(value, c, multiplier);
        multiplier := multiplier * 128;
        if c < 128 {
          break;
        }
        DecodedLength(field, 0, len, multiplier, value);
      }
      assert field[|field|..] + body == body;
    }

    /** readPacket: the type of the next packet, which is then in readbuf with a minimal length field, or
        FAILURE when none arrived in time. */
    method ReadPacket(timer: Timer) returns (rc: int, ghost packet: Option<Packet>)
      requires Foreign(timer)
      requires Inv() && Quiet(mon)
      modifies readbuf, net`pending, net`frames, net`asked, net`idle, lastReceived, `trace, `mon
      ensures Inv() && mon.promised.None?
      ensures net.asked == old(net.asked) + 1 && Polls() == old(Polls()) + 1
      ensures if packet.Some? && keepAliveInterval > 0 then !lastReceived.up
              else lastReceived.left == old(lastReceived.left)
      ensures rc == FAILURE <==> packet.None?
      ensures packet.None? ==> trace == old(trace) && mon == old(mon) && net.frames == old(net.frames)
      ensures packet.Some? ==>
                rc == HeaderType(packet.value.Header()) && Holds(readbuf[..], packet.value) &&
                trace == old(trace) + [Arrived(packet.value)] && mon == Next(old(mon), Arrived(packet.value)) &&
                old(net.frames) != [] && packet.value == old(net.frames)[0].packet && net.frames == old(net.frames)[1..]
      ensures packet.Some? ==> TookFrame(old(net.Incoming()), net.Incoming(), readbuf[..])
    {
      hide Packet.Body, Packet.Header, Packet.Encodable, HeaderType, Ok, Watch, Next, PublishBytes, IsLengthField,
           FieldValue, AllWellFormed, At, FrameBytes, Holds, Logged, Kept, Frame.WellFormed, RawStream, TookFrame;
      packet := None;
      var n, c := net.ReadHeader();
      if n != 1 {
        return FAILURE, None;
      }
      ghost var f := old(net.frames)[0];
      FillBuffer(c, f);
      rc := HeaderType(readbuf[0]);
      packet := Some(f.packet);
      LogArrival(f.packet);
      if keepAliveInterval > 0 {
        lastReceived.Countdown(keepAliveInterval);
      }
      FirstFrame(old(net.frames), readbuf[..]);
    }

    ghost method LogArrival(p: Packet)
      requires Logged() && Kept() && Known() && Quiet(mon) && p.Encodable()
      modifies `trace, `mon
      ensures Logged() && Kept() && Known() && mon.promised.None?
      ensures trace == old(trace) + [Arrived(p)] && mon == Next(old(mon), Arrived(p))
    {
      hide Ok, Watch, PublishBytes, Flatten, Owed, KeptMessage, Packet.Encodable;
      Log(Arrived(p));
    }

    /** The second and third step of readPacket: the length field and the rest of the packet. */
    method FillBuffer(c: byte, ghost f: Frame)
      requires f.WellFormed() && c == f.packet.Header() && net.pending == f.field + f.packet.Body()
      requires |f.Stored()| <= readbuf.Length
      modifies readbuf, net`pending
      ensures net.pending == []
      ensures readbuf[0] == c && Holds(readbuf[..], f.packet)
    {
      hide Packet.Body, Packet.Header, Packet.Encodable, IsLengthField, FieldValue, EncodeLength;
      ghost var buf0 := readbuf[..];
      var pos := WriteChar(readbuf, 0, c);
      var remaining := DecodePacket(f);
      var k := Encode(readbuf, 1, remaining);
      SpliceTwice(buf0, 0, [c], EncodeLength(remaining));
      ghost var head := [c] + EncodeLength(remaining);
      if remaining > 0 {
        var data := net.ReadInside(remaining);
        assert data == f.packet.Body();
        var end := WriteBytes(readbuf, 1 + k, data);
        SpliceTwice(buf0, 0, head, data);
      } else {
        assert head + f.packet.Body() == head;
      }
      SpliceAt(buf0, 0, f.Stored());
      assert readbuf[0] == readbuf[..][0] == f.Stored()[0];
    }

    /** deliverMessage: every attached handler whose filter matches runs once, in slot order; the default
        handler runs if none did. */
    method DeliverMessage(topic: bytes, payload: bytes) returns (rc: int)
      requires Inv() && mon.promised.None? && mon.owed == Calls(handlers, defaultAttached, topic, payload)
      modifies `trace, `mon
      ensures Inv() && mon == old(mon).(owed := [])
      ensures trace == old(trace) + CallEvents(Calls(handlers, defaultAttached, topic, payload))
      ensures rc == SUCCESS || rc == FAILURE
      ensures rc == SUCCESS <==> Calls(handlers, defaultAttached, topic, payload) != []
    {
      hide Inv, Calls, SlotCalls, CallEvents, Runs;
      HandlerCount();
      rc := FAILURE;
      ghost var run, calls := trace, Calls(handlers, defaultAttached, topic, payload);
      ghost var made: seq<Call> := [];
      NoCallsYet(handlers, topic, payload, run, calls);
      for i := 0 to maxHandlers
        invariant Inv() && made == SlotCalls(handlers, i, topic, payload)
        invariant |made| <= |calls| && mon == old(mon).(owed := calls[|made|..])
        invariant trace == run + CallEvents(made)
        invariant rc == if made == [] then FAILURE else SUCCESS
      {
        NextSlotCall(handlers, i, defaultAttached, topic, payload);
        SlotCallsStep(handlers, i + 1, topic, payload);
        var called := TrySlot(handlers[i], topic);
        if called {
          NextCall(run, calls, made, Call(i, topic, payload));
          MakeCall(Call(i, topic, payload));
          made := made + [Call(i, topic, payload)];
          rc := SUCCESS;
        }
      }
      LastCalls(handlers, defaultAttached, topic, payload);
      if rc == FAILURE && defaultAttached {
        NextCall(run, calls, made, Call(maxHandlers, topic, payload));
        MakeCall(Call(maxHandlers, topic, payload));
        rc := SUCCESS;
      }
    }

    /** The two conditions under which the loop of deliverMessage calls a handler. */
    static method TrySlot(h: Handler, topic: bytes) returns (called: bool)
      ensures called == Runs(h, topic)
    {
      hide LoopResult, FilterOk, Levels, MatchLevels;
      called := false;
      if h.filter.Some? {
        var matched := h.filter.value == topic;
        if !matched {
          matched := IsTopicMatched(h.filter.value, topic);
        }
        called := matched && h.attached;
      }
    }

    lemma HandlerCount()
      requires Inv()
      ensures |handlers| == maxHandlers
    {
    }

    /** One handler call, the next one owed. */
    ghost method MakeCall(c: Call)
      requires Inv() && mon.promised.None? && mon.owed != [] && mon.owed[0] == c
      modifies `trace, `mon
      ensures Inv() && mon == old(mon).(owed := old(mon.owed)[1..])
      ensures trace == old(trace) + [Called(c)]
    {
      hide Ok, Watch, PublishBytes, Buffers, Connection, Owed, AsSeq, Flatten, KeptMessage;
      Log(Called(c));
    }

    /** keepalive: a PINGREQ is tried exactly when keepalive is on, none is outstanding, one of the two timers has
        run out, and it fits the buffer. */
    method Keepalive() returns (rc: int, ghost ping: seq<Event>)
      requires Inv() && Quiet(mon)
      modifies sendbuf, net`wire, net`asked, net`faults, lastSent, lastReceived, `trace, `mon, `chunks, `pingOutstanding
      ensures old(net.wire) <= net.wire && old(net.faults) <= net.faults && old(net.asked) <= net.asked
      ensures Inv() && Quiet(mon) && SameFlight(old(mon), mon)
      ensures mon.missed == old(mon.missed) && mon.due == old(mon.due) && mon.puback == old(mon.puback)
      ensures PingEvents(ping) && trace == old(trace) + ping
      ensures ping != [] <==>
              keepAliveInterval > 0 && !old(pingOutstanding) && size >= 2 &&
              (old(lastSent.left) == 0 || old(lastReceived.left) == 0)
      ensures pingOutstanding <==> old(pingOutstanding) || ping == [Sent(ZeroBytes(PINGREQ))]
    {
      hide Inv, Next, Ordinary, MaySend, Quiet, ZeroBytes;
      Apart();
      rc, ping := FAILURE, [];
      if keepAliveInterval == 0 {
        return SUCCESS, [];
      }
      var expired := lastSent.Expired();
      if !expired {
        expired := lastReceived.Expired();
      }
      if expired && !pingOutstanding {
        rc, ping := SendPing();
      }
    }

    method SendPing() returns (rc: int, ghost ping: seq<Event>)
      requires Inv() && Quiet(mon) && !pingOutstanding
      modifies sendbuf, net`wire, net`asked, net`faults, lastSent, `trace, `mon, `chunks, `pingOutstanding
      ensures old(net.wire) <= net.wire && old(net.faults) <= net.faults && old(net.asked) <= net.asked
      ensures Inv() && Quiet(mon) && SameFlight(old(mon), mon)
      ensures mon.missed == old(mon.missed) && mon.due == old(mon.due) && mon.puback == old(mon.puback)
      ensures PingEvents(ping) && trace == old(trace) + ping && (ping != [] <==> size >= 2)
      ensures pingOutstanding <==> ping == [Sent(ZeroBytes(PINGREQ))]
    {
      hide Inv, Next, Ordinary, MaySend, Quiet, ZeroBytes;
      Apart();
      rc, ping := FAILURE, [];
      var timer := new Timer(1000);
      ZeroSize(PINGREQ);
      var len := SerializeZero(sendbuf, PINGREQ);
      if len > 0 {
        assert sendbuf[..len] == ZeroBytes(PINGREQ) by { SerializedPrefix(old(sendbuf[..]), ZeroBytes(PINGREQ)); }
        ZeroIsOrdinary(PINGREQ);
        OrdinarySent(mon, ZeroBytes(PINGREQ));
        rc := SendPacket(len, timer);
        ping := [if rc == SUCCESS then Sent(ZeroBytes(PINGREQ)) else Failed(ZeroBytes(PINGREQ))];
        if rc == SUCCESS {
          pingOutstanding := true;
        }
      }
    }

    /** The PUBLISH case of cycle. */
    method HandlePublish(ghost m: Publish, timer: Timer) returns (rc: int)
      requires Foreign(timer)
      requires Inv() && mon.promised.None? && mon.current == Some(m) && Holds(readbuf[..], PublishTo(m))
      requires mon.owed == Calls(handlers, defaultAttached, m.topic, m.payload)
      requires mon.due == if m.qos == 1 then Some(m.id) else None
      modifies sendbuf, net`wire, net`asked, net`faults, lastSent, timer`left, timer`up, `trace, `mon, `chunks
      ensures old(net.wire) <= net.wire && old(net.faults) <= net.faults && old(net.asked) <= net.asked
      ensures 0 <= old(timer.left) - timer.left <= net.asked - old(net.asked) && (old(timer.up) ==> timer.up)
      ensures Inv() && Quiet(mon) && SameFlight(old(mon), mon)
      ensures rc == SUCCESS || rc == FAILURE
      ensures rc == SUCCESS ==> mon.missed == old(mon.missed) && mon.due.None?
      ensures trace == old(trace) + CallEvents(Calls(handlers, defaultAttached, m.topic, m.payload)) +
                       AnswerEvents(m, rc != FAILURE, size)
      ensures m.qos == 0 ==> rc == SUCCESS && lastSent.left == old(lastSent.left)
      ensures m.qos == 3 || (m.qos > 0 && size < 4) ==> rc == FAILURE
      ensures rc == FAILURE && m.qos < 3 && size >= 4 ==> GaveUp(timer, old(net.faults))
    {
      hide Ok, Watch, PublishBytes, PublishBody, HeaderByte, HeaderType, At, Calls, PublishReadable, ParsePublish,
           FrameBytes, EncodeLength, IsPuback, IsFrame;
      rc := SUCCESS;
      StoredPublishIn(m, readbuf[..]);
      var id0: nat := *;
      StoredPublish(m, readbuf[..], id0);
      var r, msg, payloadLen := DeserializePublish(readbuf, id0);
      if r == 1 {
        var delivered := DeliverMessage(msg.topic, msg.payload);
        if msg.qos != 0 {
          rc := Acknowledge(msg.qos, msg.id, timer);
        }
      }
    }

    /** The answer to a QoS 1 or QoS 2 message. */
    method Acknowledge(qos: nat, id: nat, timer: Timer) returns (rc: int)
      requires Foreign(timer)
      requires Inv() && Quiet(mon) && 0 < qos < 4 && id < 65536
      requires qos == 1 ==> mon.due == Some(id) && Answers(mon, id)
      modifies sendbuf, net`wire, net`asked, net`faults, lastSent, timer`left, timer`up, `trace, `mon, `chunks
      ensures old(net.wire) <= net.wire && old(net.faults) <= net.faults && old(net.asked) <= net.asked
      ensures 0 <= old(timer.left) - timer.left <= net.asked - old(net.asked) && (old(timer.up) ==> timer.up)
      ensures Inv() && Quiet(mon) && SameFlight(old(mon), mon)
      ensures rc == SUCCESS || rc == FAILURE
      ensures rc == SUCCESS ==> mon.missed == old(mon.missed) && mon.due == if qos == 1 then None else old(mon.due)
      ensures trace == old(trace) + AnswerEvents(Publish(0, qos, 0, id, [], []), rc != FAILURE, size)
      ensures qos == 3 || size < 4 ==> rc == FAILURE
      ensures rc == FAILURE && qos < 3 && size >= 4 ==> GaveUp(timer, old(net.faults))
    {
      hide Ok, Watch, PublishBytes, AckBytes, IsPuback, IsFrame;
      var len: int := 0;
      ghost var packetType := if qos == 1 then PUBACK else PUBREC;
      ghost var packet := AckBytes(packetType, 0, id);
      AckKinds(id);
      if qos == 1 {
        len := SerializeAck(sendbuf, PUBACK, 0, id);
      } else if qos == 2 {
        len := SerializeAck(sendbuf, PUBREC, 0, id);
      }
      if len <= 0 {
        rc := FAILURE;
      } else {
        SerializedPrefix(old(sendbuf[..]), packet);
        assert sendbuf[..len] == packet;
        rc := SendPacket(len, timer);
      }
    }

    /** The switch of cycle; every other packet type is let pass. */
    method Switch(packetType: int, ghost packet: Option<Packet>, timer: Timer) returns (rc: int)
      requires Foreign(timer)
      requires Inv() && mon.promised.None?
      requires packetType == PUBLISH <==> packet.Some? && packet.value.PublishTo?
      requires packetType != PUBLISH ==> mon.owed == []
      requires packetType == PUBLISH ==>
                 var m := packet.value.m;
                 mon.current == Some(m) && Holds(readbuf[..], PublishTo(m)) &&
                 mon.owed == Calls(handlers, defaultAttached, m.topic, m.payload) &&
                 mon.due == if m.qos == 1 then Some(m.id) else None
      modifies sendbuf, net`wire, net`asked, net`faults, lastSent, timer`left, timer`up, `trace, `mon, `chunks,
               `pingOutstanding
      ensures old(net.wire) <= net.wire && old(net.faults) <= net.faults && old(net.asked) <= net.asked
      ensures 0 <= old(timer.left) - timer.left <= net.asked - old(net.asked) && (old(timer.up) ==> timer.up)
      ensures Inv() && Quiet(mon) && SameFlight(old(mon), mon)
      ensures rc == SUCCESS || rc == FAILURE
      ensures rc == SUCCESS ==> mon.missed == old(mon.missed) && (packetType == PUBLISH ==> mon.due.None?)
      ensures pingOutstanding <==> old(pingOutstanding) && packetType != PINGRESP
      ensures if packetType == PUBLISH
              then
                var m := packet.value.m;
                trace == old(trace) + CallEvents(Calls(handlers, defaultAttached, m.topic, m.payload)) +
                       AnswerEvents(m, rc != FAILURE, size)
              else rc == SUCCESS && trace == old(trace) && mon == old(mon) && lastSent.left == old(lastSent.left)
      ensures packetType == PUBLISH ==>
                var m := packet.value.m;
                (m.qos == 0 ==> rc == SUCCESS && lastSent.left == old(lastSent.left)) &&
                (m.qos == 3 || (m.qos > 0 && size < 4) ==> rc == FAILURE) &&
                (rc == FAILURE && m.qos < 3 && size >= 4 ==> GaveUp(timer, old(net.faults)))
    {
      hide Ok, Watch, Next, AnswerEvents, PublishBytes, At, Calls, Holds, Logged, Kept, Connection, Buffers;
      rc := SUCCESS;
      if packetType == PUBLISH {
        rc := HandlePublish(packet.value.m, timer);
      } else if packetType == PINGRESP {
        pingOutstanding := false;
      }
    }

    /** What a message is owed by the present handlers. */
    lemma OwedNow()
      requires Inv()
      ensures forall p: Packet :: Owed(mon, p) ==
                if p.PublishTo? then Calls(handlers, defaultAttached, p.m.topic, p.m.payload) else []
    {
      hide Calls;
    }

    /** The first statement of cycle: the type of the packet that arrived, and what it asks for. */
    method Receive(timer: Timer) returns (packetType: int, ghost packet: Option<Packet>)
      requires Foreign(timer)
      requires Inv() && Quiet(mon)
      modifies readbuf, net`pending, net`frames, net`asked, net`idle, lastReceived, `trace, `mon
      ensures Inv() && mon.promised.None? && SameFlight(old(mon), mon)
      ensures net.asked == old(net.asked) + 1 && Polls() == old(Polls()) + 1
      ensures packet.None? ==>
                packetType == NO_PACKET && mon == old(mon) && trace == old(trace) &&
                lastReceived.left == old(lastReceived.left)
      ensures packet.Some? ==>
                packetType == HeaderType(packet.value.Header()) < 16 && Holds(readbuf[..], packet.value) &&
                trace == old(trace) + [Arrived(packet.value)]
      ensures packetType == PUBLISH <==> packet.Some? && packet.value.PublishTo?
      ensures packet.Some? && packet.value.PublishTo? ==>
                var m := packet.value.m;
                mon.current == Some(m) && mon.owed == Calls(handlers, defaultAttached, m.topic, m.payload) &&
                mon.due == if m.qos == 1 then Some(m.id) else None
      ensures packet.Some? && !packet.value.PublishTo? ==> mon.owed == [] && mon.due.None?
      ensures packet.Some? && packet.value.Puback? ==> mon.puback == Some(packet.value.id)
      ensures old(mon).due.None? ==> mon.missed == old(mon.missed)
    {
      hide Inv, Next, TookFrame, Packet.Body, Packet.Header, Packet.Encodable, HeaderType, At, Calls, Holds, Owed;
      Apart();
      OwedNow();
      var r;
      r, packet := ReadPacket(timer);
      packetType := if r == FAILURE then NO_PACKET else r;
      if packet.Some? {
        EncodableIn(packet.value, readbuf[..]);
        PacketType(packet.value);
        ArrivedMonitor(old(mon), packet.value);
      }
    }

    /** The part of cycle in front of keepalive. */
    method HandlePacket(timer: Timer) returns (rc: int, packetType: int, ghost packet: Option<Packet>)
      requires Foreign(timer)
      requires Inv() && Answered() && Quiet(mon)
      modifies sendbuf, readbuf, net, lastSent, lastReceived, timer`left, timer`up, `trace, `mon, `chunks,
               `pingOutstanding
      ensures old(net.wire) <= net.wire && old(net.faults) <= net.faults
      ensures 0 <= old(timer.left) - timer.left < net.asked - old(net.asked) && (old(timer.up) ==> timer.up)
      ensures Polls() == old(Polls()) + 1
      ensures Inv() && Quiet(mon) && SameFlight(old(mon), mon) && (rc == SUCCESS ==> Answered())
      ensures rc == SUCCESS || rc == FAILURE
      ensures packet.None? ==>
                packetType == NO_PACKET && lastReceived.left == old(lastReceived.left)
      ensures packet.None? || !packet.value.PublishTo? ==> lastSent.left == old(lastSent.left)
      ensures packet.Some? ==> packetType == HeaderType(packet.value.Header()) < 16 && Holds(readbuf[..], packet.value)
      ensures packet.Some? && packet.value.PublishTo? ==>
                var m := packet.value.m;
                (m.qos == 0 ==> rc == SUCCESS && lastSent.left == old(lastSent.left)) &&
                (m.qos == 3 || (m.qos > 0 && size < 4) ==> rc == FAILURE) &&
                (rc == FAILURE && m.qos < 3 && size >= 4 ==> GaveUp(timer, old(net.faults)))
      ensures rc == FAILURE ==> packet.Some? && packet.value.PublishTo? && packetType == PUBLISH
      ensures packet.Some? && packet.value.Puback? ==> mon.puback == Some(packet.value.id)
      ensures pingOutstanding <==> old(pingOutstanding) && packetType != PINGRESP
      ensures trace == old(trace) + CycleEvents(packet, rc, handlers, defaultAttached, size)
    {
      hide Inv, Next, AnswerEvents, CycleEvents, Packet.Body, Packet.Header, Packet.Encodable, HeaderType, At, Calls,
           Holds, Owed;
      Apart();
      ghost var trace0 := trace;
      packetType, packet := Receive(timer);
      JoinEvents(trace0, packet, handlers, defaultAttached, size);
      rc := Switch(packetType, packet, timer);
    }

    /** cycle: one packet off the wire. Its handlers run first, then a QoS 1 message is acknowledged with its
        own id; the result is FAILURE exactly when that answer could not be sent. */
    method Cycle(timer: Timer) returns (rc: int, ghost packet: Option<Packet>, ghost ping: seq<Event>)
      requires Foreign(timer)
      requires Inv() && Answered() && Quiet(mon)
      modifies sendbuf, readbuf, net, lastSent, lastReceived, timer`left, timer`up, `trace, `mon, `chunks,
               `pingOutstanding, `cycleFailures
      ensures old(net.wire) <= net.wire && old(net.faults) <= net.faults && old(net.asked) <= net.asked
      ensures 0 <= old(timer.left) - timer.left < net.asked - old(net.asked) && (old(timer.up) ==> timer.up)
      ensures Polls() == old(Polls()) + 1
      ensures Inv() && Answered() && Quiet(mon) && SameFlight(old(mon), mon)
      ensures packet.None? ==> rc == NO_PACKET
      ensures packet.Some? ==>
                Holds(readbuf[..], packet.value) && (rc == FAILURE || rc == HeaderType(packet.value.Header()))
      ensures packet.Some? && !packet.value.PublishTo? ==> rc != FAILURE
      ensures packet.Some? && packet.value.PublishTo? ==>
                var m := packet.value.m;
                (m.qos == 0 ==> rc != FAILURE) && (m.qos == 3 || (m.qos > 0 && size < 4) ==> rc == FAILURE) &&
                (rc == FAILURE && m.qos < 3 && size >= 4 ==> GaveUp(timer, old(net.faults)))
      ensures cycleFailures == old(cycleFailures) + if rc == FAILURE then 1 else 0
      ensures packet.Some? && packet.value.Puback? ==> mon.puback == Some(packet.value.id)
      ensures PingEvents(ping) && (rc == FAILURE || (old(pingOutstanding) && rc != PINGRESP) ==> ping == [])
      ensures packet.None? ==>
                (ping != [] <==> keepAliveInterval > 0 && !old(pingOutstanding) && size >= 2 &&
                                 (old(lastSent.left) == 0 || old(lastReceived.left) == 0))
      ensures packet.Some? && (packet.value.PublishTo? ==> packet.value.m.qos == 0) &&
              keepAliveInterval > 0 && size >= 2 && old(lastSent.left) == 0 ==>
                ping != [] || (old(pingOutstanding) && rc != PINGRESP)
      ensures keepAliveInterval == 0 ==> ping == []
      ensures pingOutstanding <==> (old(pingOutstanding) && rc != PINGRESP) || ping == [Sent(ZeroBytes(PINGREQ))]
      ensures trace == old(trace) + CycleEvents(packet, rc, handlers, defaultAttached, size) + ping
    {
      hide Inv, Next, AnswerEvents, CycleEvents, PingEvents, Packet.Body, Packet.Header, Packet.Encodable, HeaderType,
           At, Calls, Holds, ZeroBytes, Owed;
      Apart();
      var ka, packetType;
      rc, packetType, packet := HandlePacket(timer);
      ping := [];
      if rc == FAILURE {
        NoPing(old(trace), CycleEvents(packet, rc, handlers, defaultAttached, size));
        cycleFailures := cycleFailures + 1;
        return;
      }
      ka, ping := Keepalive();
      SameEvents(packet, rc, packetType, handlers, defaultAttached, size);
      rc := packetType;
    }

    /** waitfor: packets are handled until one of the given type is in readbuf or the time is up. */
    method WaitFor(packetType: nat, timer: Timer) returns (rc: int, ghost packet: Option<Packet>)
      requires Foreign(timer)
      requires Inv() && Answered() && Quiet(mon) && packetType < 16 && packetType != PUBLISH
      modifies sendbuf, readbuf, net, lastSent, lastReceived, timer`left, timer`up, `trace, `mon, `chunks,
               `pingOutstanding, `cycleFailures
      ensures old(net.wire) <= net.wire && old(net.faults) <= net.faults && old(net.asked) <= net.asked
      ensures old(timer.up) ==> timer.up
      ensures rc != packetType ==> timer.up
      ensures 0 <= old(timer.left) - timer.left <= net.asked - old(net.asked)
      ensures Polls() >= old(Polls()) + if old(timer.left) > 0 then 1 else 0
      ensures Inv() && Answered() && Quiet(mon) && SameFlight(old(mon), mon)
      ensures old(trace) <= trace
      ensures rc == packetType <==> Got(trace[|old(trace)|..], packetType)
      ensures rc == packetType ==>
                packet.Some? && Holds(readbuf[..], packet.value) && Arrived(packet.value) in trace[|old(trace)|..] &&
                HeaderType(packet.value.Header()) == packetType
      ensures rc == packetType && packet.value.Puback? ==> mon.puback == Some(packet.value.id)
    {
      hide Inv, Answered, Holds, Next, CycleEvents, HeaderType, PingEvents, Quiet, Got;
      rc, packet := FAILURE, None;
      ghost var run := trace;
      NothingYet(run, packetType);
      while true
        invariant Inv() && Answered() && Quiet(mon) && SameFlight(old(mon), mon)
        invariant run <= trace && rc != packetType && !Got(trace[|run|..], packetType)
        invariant old(net.wire) <= net.wire && old(net.faults) <= net.faults && old(net.asked) <= net.asked
        invariant 0 <= old(timer.left) - timer.left <= net.asked - old(net.asked) && (old(timer.up) ==> timer.up)
        invariant Polls() >= old(Polls()) + if timer.left < old(timer.left) then 1 else 0
        decreases timer.left
      {
        var expired := timer.Expired();
        if expired {
          break;
        }
        ghost var ping;
        ghost var before := trace;
        rc, packet, ping := Cycle(timer);
        MoreGot(run, before, CycleEvents(packet, rc, handlers, defaultAttached, size) + ping, trace, packetType);
        CycleGot(packet, rc, handlers, defaultAttached, size, ping, packetType, readbuf[..]);
        if rc == packetType {
          break;
        }
      }
    }

    /** The private publish: sends the packet in sendbuf and waits for its PUBACK at QoS 1. A kept message is
        settled only by a PUBACK with its own id. */
    method SendAndWait(len: nat, timer: Timer, qos: nat) returns (rc: int)
      requires Foreign(timer)
      requires Inv() && Answered() && len <= size && MaySend(mon, sendbuf[..len]) && Ordinary(sendbuf[..len])
      modifies sendbuf, readbuf, net, lastSent, lastReceived, timer`left, timer`up, `trace, `mon, `chunks,
               `pingOutstanding, `cycleFailures, `isconnected, `inflightMsgid
      ensures old(net.wire) <= net.wire && old(net.faults) <= net.faults && old(net.asked) <= net.asked
      ensures 0 <= old(timer.left) - timer.left <= net.asked - old(net.asked) && (old(timer.up) ==> timer.up)
      ensures Inv() && Answered() && Quiet(mon)
      ensures Tried(old(trace), trace, old(sendbuf[..len]))
      ensures OnWire(old(trace), trace, old(net.wire), net.wire, old(sendbuf[..len]))
      ensures rc == SUCCESS ==> old(net.wire) + old(sendbuf[..len]) <= net.wire
      ensures rc == SUCCESS ==> isconnected == old(isconnected)
      ensures rc != SUCCESS ==> !isconnected && GaveUp(timer, old(net.faults))
      ensures rc != SUCCESS && old(trace) + [Sent(old(sendbuf[..len]))] <= trace ==> timer.up
      ensures rc == SUCCESS <==> Succeeded(old(trace), trace, old(sendbuf[..len]), qos)
      ensures rc == SUCCESS && qos == 1 && mon.trusted ==> mon.inflight.None?
      ensures qos != 1 ==> SameFlight(old(mon), mon)
      ensures mon.recorded == old(mon.recorded) && (mon.trusted ==> old(mon.trusted))
      ensures mon.inflight.None? || mon.inflight == old(mon.inflight)
    {
      hide Inv, Next, Ordinary, MaySend, Quiet, Got, Succeeded, Tried, SameFlight;
      Apart();
      ghost var packet := sendbuf[..len];
      OrdinarySent(mon, packet);
      rc := SendPacket(len, timer);
      SendOutcome(old(trace), packet, qos);
      if rc == SUCCESS && qos == 1 {
        rc := AwaitPuback(timer);
        WaitOutcome(old(trace), packet, trace);
      }
      if rc != SUCCESS {
        isconnected := false;
      }
    }

    /** The wait of the private publish: SUCCESS exactly when a PUBACK came. */
    method AwaitPuback(timer: Timer) returns (rc: int)
      requires Foreign(timer)
      requires Inv() && Answered() && Quiet(mon)
      modifies sendbuf, readbuf, net, lastSent, lastReceived, timer`left, timer`up, `trace, `mon, `chunks,
               `pingOutstanding, `cycleFailures, `inflightMsgid
      ensures old(net.wire) <= net.wire && old(net.faults) <= net.faults && old(net.asked) <= net.asked
      ensures 0 <= old(timer.left) - timer.left <= net.asked - old(net.asked) && (old(timer.up) ==> timer.up)
      ensures rc != SUCCESS ==> timer.up
      ensures Inv() && Answered() && Quiet(mon) && old(trace) <= trace
      ensures rc == SUCCESS <==> Got(trace[|old(trace)|..], PUBACK)
      ensures rc == SUCCESS && mon.trusted ==> mon.inflight.None?
      ensures mon.recorded == old(mon.recorded) && (mon.trusted ==> old(mon.trusted))
      ensures mon.inflight.None? || mon.inflight == old(mon.inflight)
    {
      hide Inv, Answered, Quiet, HeaderType, Got, Holds;
      var w;
      ghost var puback;
      w, puback := WaitFor(PUBACK, timer);
      ghost var waited, s := trace, mon;
      if w == PUBACK {
        rc := HandlePuback(puback.value);
        PubackIsNoArrival(s, puback.value.id);
        MoreGot(old(trace), waited, PubackEvents(s, puback.value.id), trace, PUBACK);
      } else {
        rc := FAILURE;
      }
    }

    /** A packet sent for its own sake leaves everything else as it is. */
    lemma OrdinarySent(s: Monitor, packet: bytes)
      requires Ordinary(packet)
      ensures Quiet(s) ==> MaySend(s, packet)
      ensures forall e :: e == Sent(packet) || e == Failed(packet) ==>
                SameFlight(s, Next(s, e)) && Next(s, e).missed == s.missed && Next(s, e).due == s.due &&
                Next(s, e).puback == s.puback && Next(s, e).inflight == s.inflight &&
                Next(s, e).recorded == s.recorded && Next(s, e).trusted == s.trusted
    {
      hide IsFrame, IsPuback;
    }

    /** The PUBACK that ended the wait. */
    method HandlePuback(ghost packet: Packet) returns (rc: int)
      requires Inv() && Answered() && Quiet(mon) && Holds(readbuf[..], packet) && HeaderType(packet.Header()) == PUBACK
      requires packet.Puback? ==> mon.puback == Some(packet.id)
      modifies `trace, `mon, `inflightMsgid
      ensures Inv() && Answered() && Quiet(mon) && old(trace) <= trace
      ensures packet.Puback? && rc == SUCCESS
      ensures inflightMsgid == if old(inflightMsgid) == packet.id then 0 else old(inflightMsgid)
      ensures trace == old(trace) + PubackEvents(old(mon), packet.id)
      ensures mon.trusted ==> mon.inflight.None?
      ensures mon.recorded == old(mon.recorded) && (mon.trusted ==> old(mon.trusted))
      ensures mon.inflight.None? || mon.inflight == old(mon.inflight)
    {
      hide Ok, Watch, PublishBytes, MaySend, HeaderType, At, Connection, Owed, AsSeq, Flatten, IsPuback, Carries,
           ParseAck, AckReadable, Packet.Body, Packet.Header, FrameBytes;
      rc := SUCCESS;
      PacketType(packet);
      StoredPuback(packet.id, readbuf[..]);
      var id0: nat := *;
      var r, packetType, dup, id := DeserializeAck(readbuf, id0);
      if r != 1 {
        rc := FAILURE;
      } else if inflightMsgid == id {
        if mon.inflight.Some? {
          Log(Settled);
        }
        inflightMsgid := 0;
      } else if inflightMsgid != 0 {
        Log(Mismatched);
      }
    }

    /** publish: at QoS 0 the id is the one the caller passed in. The message is recorded before it is sent, and
        a client that is not connected sends and records nothing. */
    method PublishMessage(topic: bytes, payload: bytes, id0: nat, qos: nat, retained: bool)
      returns (rc: int, id: nat, ghost clock: Timer)
      requires Valid() && |topic| < 65536 && id0 < 65536 && qos < 3
      requires PublishRemaining(qos, |topic|, |payload|) <= MAX_REMAINING_LENGTH
      modifies sendbuf, readbuf, pubbuf, net, lastSent, lastReceived, `trace, `mon, `chunks, `pingOutstanding,
               `cycleFailures, `isconnected, `inflightMsgid, `inflightLen, `inflightQoS, `nextId
      ensures old(net.wire) <= net.wire && old(net.faults) <= net.faults && old(net.asked) <= net.asked
      ensures Valid()
      ensures var m := Publish(0, qos, if retained then 1 else 0, id, topic, payload);
              var start := old(isconnected) && PacketLen(PublishRemaining(qos, |topic|, |payload|)) <= size;
              if !start then rc == FAILURE && trace == old(trace) && mon == old(mon) && isconnected == old(isconnected)
              else
                (if qos == 0 then id == id0 else 1 <= id < 65536) && (rc == SUCCESS <==> isconnected) &&
                var run := if old(cleansession) then old(trace)
                    else old(trace) + [if id != 0 then Recorded(m) else Unrecorded];
                Tried(run, trace, PublishBytes(m)) &&
                mon.recorded ==
                  (if !old(cleansession) && id != 0 then old(mon.recorded) + [m] else old(mon.recorded)) &&
                (rc == SUCCESS <==> Succeeded(run, trace, PublishBytes(m), qos)) &&
                OnWire(run, trace, old(net.wire), net.wire, PublishBytes(m)) &&
                (rc == SUCCESS ==> old(net.wire) + PublishBytes(m) <= net.wire) &&
                (rc != SUCCESS ==> GaveUp(clock, old(net.faults))) &&
                (rc != SUCCESS && run + [Sent(PublishBytes(m))] <= trace ==> clock.up)
      ensures fresh(clock) && clock.start - clock.left <= net.asked - old(net.asked)
      ensures old(trace) <= trace
      ensures nextId == if old(isconnected) && qos > 0 then NextId(old(nextId)) else old(nextId)
      ensures old(isconnected) && qos > 0 ==> id == nextId
      ensures qos == 0 && id == 0 ==> mon.trusted == old(mon.trusted)
    {
      hide Inv, Answered, Quiet, PublishBytes, PacketLen, PublishRemaining, Publish.Encodable, Ordinary, Succeeded,
           OnWire, NextId;
      Apart();
      rc, id := FAILURE, id0;
      var timer := new Timer(commandTimeout);
      clock := timer;
      if !isconnected {
        return;
      }
      if qos == 1 || qos == 2 {
        id := GetNextId();
      }
      var keep := if retained then 1 else 0;
      ghost var m := Publish(0, qos, keep, id, topic, payload);
      var len := PreparePublish(topic, payload, qos, keep, id);
      if len <= 0 {
        return;
      }
      rc := RecordAndSend(m, len, qos, id, timer);
    }

    /** The end of publish: the message in sendbuf is recorded and then sent. */
    method RecordAndSend(ghost m: Publish, len: nat, qos: nat, id: nat, timer: Timer) returns (rc: int)
      requires Foreign(timer)
      requires Inv() && Answered() && Quiet(mon) && isconnected && (mon.trusted ==> mon.inflight.None?)
      requires m.Encodable() && Ordinary(PublishBytes(m)) && m.qos == qos && m.id == id
      requires len == |PublishBytes(m)| <= size && sendbuf[..len] == PublishBytes(m)
      modifies sendbuf, readbuf, pubbuf, net, lastSent, lastReceived, timer`left, timer`up, `trace, `mon, `chunks,
               `pingOutstanding, `cycleFailures, `isconnected, `inflightMsgid, `inflightLen, `inflightQoS
      ensures old(net.wire) <= net.wire && old(net.faults) <= net.faults && old(net.asked) <= net.asked
      ensures 0 <= old(timer.left) - timer.left <= net.asked - old(net.asked) && (old(timer.up) ==> timer.up)
      ensures Inv() && Answered() && Quiet(mon) && (mon.trusted && isconnected ==> mon.inflight.None?)
      ensures var run := if cleansession then old(trace)
                  else old(trace) + [if id != 0 then Recorded(m) else Unrecorded];
              Tried(run, trace, PublishBytes(m)) &&
              (rc == SUCCESS <==> Succeeded(run, trace, PublishBytes(m), qos)) &&
              OnWire(run, trace, old(net.wire), net.wire, PublishBytes(m)) &&
              (rc == SUCCESS ==> old(net.wire) + PublishBytes(m) <= net.wire) &&
              (rc != SUCCESS ==> GaveUp(timer, old(net.faults))) &&
              (rc != SUCCESS && run + [Sent(PublishBytes(m))] <= trace ==> timer.up)
      ensures rc == SUCCESS <==> isconnected
      ensures mon.recorded == if !cleansession && id != 0 then old(mon.recorded) + [m] else old(mon.recorded)
      ensures qos == 0 && id == 0 ==> mon.trusted == old(mon.trusted)
    {
      hide Inv, Answered, PublishBytes, Publish.Encodable, MaySend, Ordinary, Succeeded, OnWire;
      Apart();
      Record(m, len, qos, id);
      rc := SendAndWait(len, timer, qos);
    }

    /** The packet in sendbuf, if it fits there. */
    method PreparePublish(topic: bytes, payload: bytes, qos: nat, retained: nat, id: nat) returns (len: int)
      requires |topic| < 65536 && id < 65536 && qos < 3 && retained < 2
      requires PublishRemaining(qos, |topic|, |payload|) <= MAX_REMAINING_LENGTH
      modifies sendbuf
      ensures len <= 0 <==> PacketLen(PublishRemaining(qos, |topic|, |payload|)) > sendbuf.Length
      ensures var m := Publish(0, qos, retained, id, topic, payload);
              len > 0 ==>
                m.Encodable() && Ordinary(PublishBytes(m)) &&
                len == |PublishBytes(m)| <= sendbuf.Length && sendbuf[..len] == PublishBytes(m)
    {
      hide PublishBytes, PacketLen, IsPuback, IsFrame;
      ghost var m := Publish(0, qos, retained, id, topic, payload);
      len := SerializePublish(sendbuf, 0, qos, retained, id, MqttString(Some(topic), None), payload);
      PublishIsOrdinary(m);
      if len >= 0 {
        SerializedPrefix(old(sendbuf[..]), PublishBytes(m));
      }
    }

    /** The copy for sending again, kept unless the session is clean. */
    method Record(ghost m: Publish, len: nat, qos: nat, id: nat)
      requires Inv() && Answered() && Quiet(mon) && (mon.trusted ==> mon.inflight.None?)
      requires m.Encodable() && Ordinary(PublishBytes(m)) && m.qos == qos && m.id == id
      requires len == |PublishBytes(m)| <= size && sendbuf[..len] == PublishBytes(m)
      modifies pubbuf, `inflightMsgid, `inflightLen, `inflightQoS, `trace, `mon
      ensures Inv() && Answered() && MaySend(mon, PublishBytes(m))
      ensures trace == if cleansession then old(trace) else old(trace) + [if id != 0 then Recorded(m) else Unrecorded]
      ensures mon.recorded == if !cleansession && id != 0 then old(mon.recorded) + [m] else old(mon.recorded)
      ensures mon.trusted <==> old(mon.trusted) && (!cleansession && id != 0 ==> qos == 1)
      ensures mon.inflight == if cleansession then old(mon.inflight) else if id != 0 then Some(m) else None
    {
      hide Ok, Watch, PublishBytes, IsPuback, IsFrame, Connection, Owed, AsSeq, Flatten;
      if !cleansession {
        ghost var copy := pubbuf[..];
        var end := WriteBytes(pubbuf, 0, sendbuf[..len]);
        SerializedPrefix(copy, sendbuf[..len]);
        inflightMsgid := id;
        inflightLen := len;
        inflightQoS := qos;
        Log(if id != 0 then Recorded(m) else Unrecorded);
      }
    }

    /** connect: without a message in flight the client is connected exactly when a CONNACK with code 0 came. With
        one, it is connected exactly when the CONNECT was sent and the resend, which starts at the given point of
        the run, succeeded: whatever the CONNACK said, and also when none came. */
    method Connect(options: ConnectData)
      returns (rc: int, ghost connack: Option<Packet>, ghost at: nat, ghost clock: Timer)
      requires Valid() && options.Writable() && ConnectLength(options) <= MAX_REMAINING_LENGTH
      modifies sendbuf, readbuf, net, lastSent, lastReceived, `trace, `mon, `chunks, `pingOutstanding,
               `cycleFailures, `isconnected, `inflightMsgid, `keepAliveInterval, `cleansession
      ensures old(net.wire) <= net.wire && old(net.faults) <= net.faults && old(net.asked) <= net.asked
      ensures Valid() && old(trace) <= trace && mon.recorded == old(mon.recorded)
      ensures old(isconnected) ==> rc == FAILURE && isconnected && trace == old(trace) && mon == old(mon)
      ensures !old(isconnected) ==>
                (isconnected <==> rc == SUCCESS) &&
                keepAliveInterval == options.keepAlive && cleansession == (options.cleanSession != 0) &&
                if PacketLen(ConnectLength(options)) > size then rc == FAILURE && trace == old(trace)
                else Tried(old(trace), trace, ConnectBytes(options))
      ensures |old(trace)| <= at <= |trace|
      ensures fresh(clock) && clock.start - clock.left <= net.asked - old(net.asked)
      ensures !old(isconnected) && PacketLen(ConnectLength(options)) <= size ==>
                GaveUp(clock, old(net.faults)) || (connack.Some? && (old(mon.inflight).None? || rc == SUCCESS))
      ensures old(trace) + [Sent(ConnectBytes(options))] <= trace && connack.None? ==> clock.up
      ensures connack.Some? <==> Got(trace[|old(trace)|..at], CONNACK)
      ensures connack.Some? ==> connack.value.Connack? && Arrived(connack.value) in trace[|old(trace)|..at]
      ensures !old(isconnected) && old(mon.inflight).None? ==>
                at == |trace| && SameFlight(old(mon), mon) &&
                rc == if connack.Some? then connack.value.code else FAILURE
      ensures !old(isconnected) && old(mon.inflight).Some? ==>
                Reconnected(old(trace), trace, at, options, old(mon.inflight).value, rc)
      ensures !old(isconnected) && old(mon.inflight).Some? ==>
                ResentOnWire(trace, at, old(net.wire), net.wire, PublishBytes(old(mon.inflight).value), rc)
    {
      hide Inv, Answered, PublishBytes, ConnectLength, ConnectBytes, PacketLen, Tried, Got, Reconnected;
      rc, connack, at := FAILURE, None, |trace|;
      var timer := new Timer(commandTimeout);
      clock := timer;
      NothingYet(trace, CONNACK);
      assert trace[|trace|..at] == trace[|trace|..];
      if isconnected {
        return;
      }
      keepAliveInterval := options.keepAlive;
      cleansession := options.cleanSession != 0;
      rc, connack, at := Establish(options, timer);
      if rc == SUCCESS {
        isconnected := true;
      }
    }

    /** The packets of connect: the CONNECT, the wait for its answer, and the resend of a kept message. */
    method Establish(options: ConnectData, timer: Timer) returns (rc: int, ghost connack: Option<Packet>, ghost at: nat)
      requires Foreign(timer)
      requires Inv() && Answered() && Quiet(mon) && !isconnected
      requires options.Writable() && ConnectLength(options) <= MAX_REMAINING_LENGTH
      modifies sendbuf, readbuf, net, lastSent, lastReceived, timer`left, timer`up, `trace, `mon, `chunks,
               `pingOutstanding, `cycleFailures, `isconnected, `inflightMsgid
      ensures old(net.wire) <= net.wire && old(net.faults) <= net.faults && old(net.asked) <= net.asked
      ensures 0 <= old(timer.left) - timer.left <= net.asked - old(net.asked) && (old(timer.up) ==> timer.up)
      ensures Inv() && Answered() && Quiet(mon) && !isconnected && mon.recorded == old(mon.recorded)
      ensures rc == SUCCESS && mon.trusted ==> mon.inflight.None?
      ensures mon.trusted ==> old(mon.trusted)
      ensures if PacketLen(ConnectLength(options)) > size then rc == FAILURE && trace == old(trace)
              else Tried(old(trace), trace, ConnectBytes(options))
      ensures |old(trace)| <= at <= |trace| && old(trace) <= trace
      ensures PacketLen(ConnectLength(options)) <= size ==>
                GaveUp(timer, old(net.faults)) || (connack.Some? && (old(mon.inflight).None? || rc == SUCCESS))
      ensures old(trace) + [Sent(ConnectBytes(options))] <= trace && connack.None? ==> timer.up
      ensures connack.Some? <==> Got(trace[|old(trace)|..at], CONNACK)
      ensures connack.Some? ==> connack.value.Connack? && Arrived(connack.value) in trace[|old(trace)|..at]
      ensures old(mon.inflight).None? ==>
                at == |trace| && SameFlight(old(mon), mon) &&
                rc == if connack.Some? then connack.value.code else FAILURE
      ensures old(mon.inflight).Some? ==> Reconnected(old(trace), trace, at, options, old(mon.inflight).value, rc)
      ensures old(mon.inflight).Some? ==>
                ResentOnWire(trace, at, old(net.wire), net.wire, PublishBytes(old(mon.inflight).value), rc)
    {
      hide Inv, Answered, Quiet, PublishBytes, ConnectLength, ConnectBytes, PacketLen, Tried, Succeeded, Got,
           Reconnected;
      var sent;
      rc, sent, connack := OpenSession(options, timer);
      at := |trace|;
      ghost var middle := trace;
      assert trace[|old(trace)|..at] == trace[|old(trace)|..];
      KeptExactly();
      if !sent {
        NotReconnected(old(trace), trace, at, options, rc);
        return;
      }
      if inflightMsgid > 0 {
        ghost var m := mon.inflight.value;
        ghost var wire := net.wire;
        rc := Resend(timer);
        ResentPassed(middle, trace, m, old(net.wire), wire, net.wire, rc);
        ResendLater(old(trace), middle, trace, m, ConnectBytes(options));
        IsReconnected(old(trace), trace, at, options, m, rc);
      }
    }

    lemma KeptExactly()
      requires Inv()
      ensures inflightMsgid > 0 <==> mon.inflight.Some?
      ensures mon.trusted && mon.inflight.Some? ==> inflightQoS == 1
    {
    }

    /** The part of connect up to the CONNACK; sent says whether the CONNECT packet went out. */
    method OpenSession(options: ConnectData, timer: Timer) returns (rc: int, sent: bool, ghost connack: Option<Packet>)
      requires Foreign(timer)
      requires Inv() && Answered() && Quiet(mon) && options.Writable() && ConnectLength(options) <= MAX_REMAINING_LENGTH
      modifies sendbuf, readbuf, net, lastSent, lastReceived, timer`left, timer`up, `trace, `mon, `chunks,
               `pingOutstanding, `cycleFailures
      ensures old(net.wire) <= net.wire && old(net.faults) <= net.faults && old(net.asked) <= net.asked
      ensures 0 <= old(timer.left) - timer.left <= net.asked - old(net.asked) && (old(timer.up) ==> timer.up)
      ensures Inv() && Answered() && Quiet(mon) && SameFlight(old(mon), mon)
      ensures old(trace) <= trace
      ensures if PacketLen(ConnectLength(options)) > size then !sent && trace == old(trace)
              else Tried(old(trace), trace, ConnectBytes(options))
      ensures sent && connack.None? ==> timer.up
      ensures PacketLen(ConnectLength(options)) <= size && connack.None? ==> GaveUp(timer, old(net.faults))
      ensures sent <==> old(trace) + [Sent(ConnectBytes(options))] <= trace
      ensures connack.Some? <==> Got(trace[|old(trace)|..], CONNACK)
      ensures connack.Some? ==> sent && connack.value.Connack? && Arrived(connack.value) in trace[|old(trace)|..]
      ensures rc == if connack.Some? then connack.value.code else FAILURE
    {
      hide Inv, Answered, Quiet, ConnectBytes, ConnectLength, PacketLen, HeaderType, Got, Holds;
      rc, connack := FAILURE, None;
      sent := SendConnect(options, timer);
      SentIsNoArrival(old(trace), ConnectBytes(options), CONNACK);
      NothingYet(old(trace), CONNACK);
      if !sent {
        return;
      }
      ghost var middle := trace;
      var w;
      w, connack := WaitFor(CONNACK, timer);
      MoreGot(old(trace), middle, trace[|middle|..], trace, CONNACK);
      if w == CONNACK {
        rc := ReadConnack(connack.value);
      } else {
        rc, connack := FAILURE, None;
      }
    }

    method SendConnect(options: ConnectData, timer: Timer) returns (sent: bool)
      requires Foreign(timer)
      requires Inv() && Answered() && Quiet(mon) && options.Writable() && ConnectLength(options) <= MAX_REMAINING_LENGTH
      modifies sendbuf, net`wire, net`asked, net`faults, lastSent, timer`left, timer`up, `trace, `mon, `chunks
      ensures old(net.wire) <= net.wire && old(net.faults) <= net.faults && old(net.asked) <= net.asked
      ensures 0 <= old(timer.left) - timer.left <= net.asked - old(net.asked) && (old(timer.up) ==> timer.up)
      ensures Inv() && Answered() && Quiet(mon) && SameFlight(old(mon), mon)
      ensures if PacketLen(ConnectLength(options)) > size then !sent && trace == old(trace)
              else
                trace == old(trace) + [if sent then Sent(ConnectBytes(options)) else Failed(ConnectBytes(options))] &&
                (sent || GaveUp(timer, old(net.faults)))
    {
      hide Inv, Next, Ordinary, MaySend, Quiet, ConnectBody, ConnectBytes, ConnectLength, PacketLen;
      Apart();
      ConnectIsOrdinary(options);
      var len := SerializeConnect(sendbuf, options);
      if len <= 0 {
        return false;
      }
      SerializedPrefix(old(sendbuf[..]), ConnectBytes(options));
      assert sendbuf[..len] == ConnectBytes(options);
      OrdinarySent(mon, ConnectBytes(options));
      var rc := SendPacket(len, timer);
      sent := rc == SUCCESS;
    }

    method ReadConnack(ghost packet: Packet) returns (rc: int)
      requires Holds(readbuf[..], packet) && HeaderType(packet.Header()) == CONNACK
      ensures packet.Connack? && rc == packet.code
    {
      hide HeaderType, At;
      PacketType(packet);
      StoredConnack(packet.code, packet.sessionPresent, readbuf[..]);
      var r, present, code := DeserializeConnack(readbuf, 0, 255);
      rc := if r == 1 then code else FAILURE;
    }

    /** The resend of connect: the bytes of pubbuf go out as they were recorded. */
    method Resend(timer: Timer) returns (rc: int)
      requires Foreign(timer)
      requires Inv() && Answered() && Quiet(mon) && inflightMsgid > 0
      modifies sendbuf, readbuf, net, lastSent, lastReceived, timer`left, timer`up, `trace, `mon, `chunks,
               `pingOutstanding, `cycleFailures, `isconnected, `inflightMsgid
      ensures old(net.wire) <= net.wire && old(net.faults) <= net.faults && old(net.asked) <= net.asked
      ensures 0 <= old(timer.left) - timer.left <= net.asked - old(net.asked) && (old(timer.up) ==> timer.up)
      ensures Inv() && Answered() && Quiet(mon)
      ensures old(mon.inflight).Some?
      ensures var m := old(mon.inflight).value;
              OnWire(old(trace) + [Resending(m)], trace, old(net.wire), net.wire, PublishBytes(m))
      ensures rc == SUCCESS ==> old(net.wire) + PublishBytes(old(mon.inflight).value) <= net.wire
      ensures var m := old(mon.inflight).value; Tried(old(trace) + [Resending(m)], trace, PublishBytes(m))
      ensures var m := old(mon.inflight).value;
              rc == SUCCESS <==> Succeeded(old(trace) + [Resending(m)], trace, PublishBytes(m), m.qos)
      ensures rc == SUCCESS ==> isconnected == old(isconnected)
      ensures rc != SUCCESS ==> !isconnected && GaveUp(timer, old(net.faults))
      ensures rc == SUCCESS && mon.trusted ==> mon.inflight.None?
      ensures mon.recorded == old(mon.recorded) && (mon.trusted ==> old(mon.trusted))
    {
      hide Ok, Watch, PublishBytes, IsPuback, IsFrame, Connection;
      ghost var m := mon.inflight.value;
      Log(Resending(m));
      ghost var before := sendbuf[..];
      var end := WriteBytes(sendbuf, 0, pubbuf[..]);
      SerializedPrefix(before, pubbuf[..]);
      assert sendbuf[..inflightLen] == sendbuf[..size][..inflightLen] == PublishBytes(m);
      PublishIsOrdinary(m);
      rc := SendAndWait(inflightLen, timer, inflightQoS);
    }

    /** publish without an id argument: it stands for the id 0. */
    method PublishWithoutId(topic: bytes, payload: bytes, qos: nat, retained: bool)
      returns (rc: int, ghost id: nat, ghost clock: Timer)
      requires Valid() && |topic| < 65536 && qos < 3
      requires PublishRemaining(qos, |topic|, |payload|) <= MAX_REMAINING_LENGTH
      modifies sendbuf, readbuf, pubbuf, net, lastSent, lastReceived, `trace, `mon, `chunks, `pingOutstanding,
               `cycleFailures, `isconnected, `inflightMsgid, `inflightLen, `inflightQoS, `nextId
      ensures old(net.wire) <= net.wire && old(net.faults) <= net.faults && old(net.asked) <= net.asked
      ensures Valid() && old(trace) <= trace && (rc == SUCCESS ==> isconnected)
      ensures rc == SUCCESS ==>
                var m := Publish(0, qos, if retained then 1 else 0, id, topic, payload);
                old(net.wire) + PublishBytes(m) <= net.wire
      ensures mon.recorded != old(mon.recorded) ==>
                qos > 0 && 1 <= id < 65536 &&
                mon.recorded == old(mon.recorded) + [Publish(0, qos, if retained then 1 else 0, id, topic, payload)]
      ensures fresh(clock) && clock.start - clock.left <= net.asked - old(net.asked)
      ensures old(isconnected) && PacketLen(PublishRemaining(qos, |topic|, |payload|)) <= size && rc != SUCCESS ==>
                GaveUp(clock, old(net.faults))
      ensures qos == 0 ==> mon.trusted == old(mon.trusted) && mon.recorded == old(mon.recorded)
    {
      hide Inv, Answered, PublishBytes, PacketLen, Succeeded, Tried, OnWire;
      rc, id, clock := PublishMessage(topic, payload, 0, qos, retained);
    }

    /** subscribe: the filter takes the first free slot unless the broker refused it with 0x80. With no free
        slot the result is the granted QoS, and any but 0 then also ends the connection. */
    method Subscribe(filter: bytes, qos: nat, attached: bool)
      returns (rc: int, ghost suback: Option<Packet>, ghost clock: Timer)
      requires Valid() && |filter| < 65536 && qos < 3
      modifies sendbuf, readbuf, net, lastSent, lastReceived, `trace, `mon, `chunks, `pingOutstanding,
               `cycleFailures, `isconnected, `nextId, `handlers
      ensures old(net.wire) <= net.wire && old(net.faults) <= net.faults && old(net.asked) <= net.asked
      ensures Valid() && old(trace) <= trace && SameFlight(old(mon), mon)
      ensures isconnected <==> rc == SUCCESS
      ensures nextId == if old(isconnected) then NextId(old(nextId)) else old(nextId)
      ensures old(isconnected) && PacketLen(5 + |filter|) <= size ==>
                Tried(old(trace), trace, SubscribeBytes(0, nextId, [filter], [qos]))
      ensures suback.None? ==> rc == FAILURE && handlers == old(handlers)
      ensures fresh(clock) && clock.start - clock.left <= net.asked - old(net.asked)
      ensures old(isconnected) && PacketLen(5 + |filter|) <= size && suback.None? ==> GaveUp(clock, old(net.faults))
      ensures suback.Some? ==>
                suback.value.Suback? &&
                Subscribed(old(handlers), handlers, Handler(Some(filter), attached), suback.value.codes, rc)
    {
      hide Inv, Answered, Quiet, PacketLen, Subscribed, SubscribeBytes, Tried;
      rc, suback := FAILURE, None;
      var timer := new Timer(commandTimeout);
      clock := timer;
      if !isconnected {
        return;
      }
      var id := GetNextId();
      var sent := SendSubscribe(filter, qos, id, timer);
      ghost var middle := trace;
      if sent {
        rc, suback := AwaitSuback(filter, attached, timer);
      }
      TriedLonger(old(trace), middle, trace, SubscribeBytes(0, id, [filter], [qos]));
      if rc != SUCCESS {
        isconnected := false;
      }
    }

    method AwaitSuback(filter: bytes, attached: bool, timer: Timer) returns (rc: int, ghost suback: Option<Packet>)
      requires Foreign(timer)
      requires Inv() && Answered() && Quiet(mon)
      modifies sendbuf, readbuf, net, lastSent, lastReceived, timer`left, timer`up, `trace, `mon, `chunks,
               `pingOutstanding, `cycleFailures, `handlers
      ensures old(net.wire) <= net.wire && old(net.faults) <= net.faults && old(net.asked) <= net.asked
      ensures 0 <= old(timer.left) - timer.left <= net.asked - old(net.asked) && (old(timer.up) ==> timer.up)
      ensures Inv() && Answered() && Quiet(mon) && SameFlight(old(mon), mon) && old(trace) <= trace
      ensures suback.None? ==> rc == FAILURE && handlers == old(handlers) && timer.up
      ensures suback.Some? ==>
                suback.value.Suback? &&
                Subscribed(old(handlers), handlers, Handler(Some(filter), attached), suback.value.codes, rc)
    {
      hide Inv, Answered, Quiet, HeaderType, Subscribed, Holds, Got;
      var w;
      w, suback := WaitFor(SUBACK, timer);
      if w == SUBACK {
        rc := HandleSuback(suback.value, filter, attached);
      } else {
        rc, suback := FAILURE, None;
      }
    }

    method SendSubscribe(filter: bytes, qos: nat, id: nat, timer: Timer) returns (sent: bool)
      requires Foreign(timer)
      requires Inv() && Answered() && Quiet(mon) && |filter| < 65536
      modifies sendbuf, net`wire, net`asked, net`faults, lastSent, timer`left, timer`up, `trace, `mon, `chunks
      ensures old(net.wire) <= net.wire && old(net.faults) <= net.faults && old(net.asked) <= net.asked
      ensures Inv() && Answered() && Quiet(mon) && SameFlight(old(mon), mon)
      ensures 0 <= old(timer.left) - timer.left <= net.asked - old(net.asked) && (old(timer.up) ==> timer.up)
      ensures if PacketLen(5 + |filter|) > size then !sent && trace == old(trace)
              else
                Tried(old(trace), trace, SubscribeBytes(0, id, [filter], [qos % 256])) &&
                (sent || GaveUp(timer, old(net.faults)))
    {
      hide Inv, Next, Ordinary, MaySend, Quiet, PacketLen, SubscribeBytes, EntriesBytes;
      Apart();
      var topic := MqttString(Some(filter), None);
      OneEntry(topic, qos);
      SubscribeIsOrdinary(id, [filter], [qos % 256]);
      var len := SerializeSubscribe(sendbuf, 0, id, [topic], [qos]);
      if len <= 0 {
        return false;
      }
      SerializedPrefix(old(sendbuf[..]), SubscribeBytes(0, id, [filter], [qos % 256]));
      assert sendbuf[..len] == SubscribeBytes(0, id, [filter], [qos % 256]);
      OrdinarySent(mon, sendbuf[..len]);
      var rc := SendPacket(len, timer);
      sent := rc == SUCCESS;
    }

    /** The SUBACK that ended the wait. When it could not be read, the result of sendPacket stands. */
    method HandleSuback(ghost packet: Packet, filter: bytes, attached: bool) returns (rc: int)
      requires Inv() && Answered() && Quiet(mon) && Holds(readbuf[..], packet) && HeaderType(packet.Header()) == SUBACK
      modifies `handlers, `trace, `mon
      ensures Inv() && Answered() && Quiet(mon) && SameFlight(old(mon), mon)
      ensures old(trace) <= trace
      ensures packet.Suback? && Subscribed(old(handlers), handlers, Handler(Some(filter), attached), packet.codes, rc)
    {
      hide Inv, HeaderType, At, ParseSuback;
      PacketType(packet);
      StoredSuback(packet.sid, packet.codes, readbuf[..], 1);
      rc := SUCCESS;
      var r, id, codes := DeserializeSuback(readbuf, 1);
      if r == 1 {
        rc := if codes == [] then -1 else codes[0];
      }
      if rc != 0x80 {
        var taken := TakeSlot(Handler(Some(filter), attached));
        if taken {
          rc := 0;
        }
      }
    }

    /** The loop of subscribe over the slots: the first free one takes the handler. */
    method TakeSlot(h: Handler) returns (taken: bool)
      requires Inv() && Answered() && Quiet(mon)
      modifies `handlers, `trace, `mon
      ensures Inv() && Answered() && Quiet(mon) && SameFlight(old(mon), mon) && old(trace) <= trace
      ensures var free := FirstFree(old(handlers));
              (taken <==> free < |old(handlers)|) &&
              handlers == if taken then old(handlers)[free := h] else old(handlers)
    {
      hide Ok, Watch, Next, Logged, Kept, Connection;
      var i := 0;
      while i < maxHandlers && handlers[i].filter.Some?
        invariant i <= maxHandlers && FirstFree(handlers) == FirstFree(handlers[i..]) + i
      {
        assert handlers[i..][1..] == handlers[i + 1..];
        i := i + 1;
      }
      taken := i < maxHandlers;
      if taken {
        handlers := handlers[i := h];
        LogHandlers();
      }
    }

    /** unsubscribe: the slot of the filter is not given back. */
    method Unsubscribe(filter: bytes) returns (rc: int, ghost clock: Timer)
      requires Valid() && |filter| < 65536
      modifies sendbuf, readbuf, net, lastSent, lastReceived, `trace, `mon, `chunks, `pingOutstanding,
               `cycleFailures, `isconnected, `nextId
      ensures old(net.wire) <= net.wire && old(net.faults) <= net.faults && old(net.asked) <= net.asked
      ensures Valid() && old(trace) <= trace && SameFlight(old(mon), mon)
      ensures isconnected <==> rc == SUCCESS
      ensures nextId == if old(isconnected) then NextId(old(nextId)) else old(nextId)
      ensures rc == SUCCESS || rc == FAILURE
      ensures fresh(clock) && clock.start - clock.left <= net.asked - old(net.asked)
      ensures old(isconnected) && PacketLen(4 + |filter|) <= size && rc == FAILURE ==> GaveUp(clock, old(net.faults))
      ensures old(isconnected) && PacketLen(4 + |filter|) <= size ==>
                Tried(old(trace), trace, UnsubscribeBytes(0, nextId, [filter]))
    {
      hide Inv, Answered, PacketLen, HeaderType, UnsubscribeBytes, Tried, Holds, Got;
      rc := FAILURE;
      var timer := new Timer(commandTimeout);
      clock := timer;
      if !isconnected {
        return;
      }
      var id := GetNextId();
      var sent := SendUnsubscribe(filter, id, timer);
      ghost var middle := trace;
      if sent {
        ghost var packet;
        var w;
        w, packet := WaitFor(UNSUBACK, timer);
        if w == UNSUBACK {
          rc := ReadUnsuback(packet.value);
        }
      }
      TriedLonger(old(trace), middle, trace, UnsubscribeBytes(0, id, [filter]));
      if rc != SUCCESS {
        isconnected := false;
      }
    }

    method SendUnsubscribe(filter: bytes, id: nat, timer: Timer) returns (sent: bool)
      requires Foreign(timer)
      requires Inv() && Answered() && Quiet(mon) && |filter| < 65536
      modifies sendbuf, net`wire, net`asked, net`faults, lastSent, timer`left, timer`up, `trace, `mon, `chunks
      ensures old(net.wire) <= net.wire && old(net.faults) <= net.faults && old(net.asked) <= net.asked
      ensures Inv() && Answered() && Quiet(mon) && SameFlight(old(mon), mon)
      ensures 0 <= old(timer.left) - timer.left <= net.asked - old(net.asked) && (old(timer.up) ==> timer.up)
      ensures if PacketLen(4 + |filter|) > size then !sent && trace == old(trace)
              else
                Tried(old(trace), trace, UnsubscribeBytes(0, id, [filter])) &&
                (sent || GaveUp(timer, old(net.faults)))
    {
      hide Inv, Next, Ordinary, MaySend, Quiet, PacketLen, UnsubscribeBytes, FiltersBytes;
      Apart();
      var topic := MqttString(Some(filter), None);
      OneFilter(topic);
      UnsubscribeIsOrdinary(id, [filter]);
      var len := SerializeUnsubscribe(sendbuf, 0, id, [topic]);
      if len <= 0 {
        return false;
      }
      SerializedPrefix(old(sendbuf[..]), UnsubscribeBytes(0, id, [filter]));
      assert sendbuf[..len] == UnsubscribeBytes(0, id, [filter]);
      OrdinarySent(mon, sendbuf[..len]);
      var rc := SendPacket(len, timer);
      sent := rc == SUCCESS;
    }

    /** MQTTDeserialize_unsuback reads any acknowledgement and then looks at the type. */
    method ReadUnsuback(ghost packet: Packet) returns (rc: int)
      requires Holds(readbuf[..], packet) && HeaderType(packet.Header()) == UNSUBACK
      ensures packet.Unsuback? && rc == SUCCESS
    {
      hide HeaderType, At;
      PacketType(packet);
      StoredUnsuback(packet.uid, readbuf[..]);
      var r, packetType, dup, id := DeserializeAck(readbuf, 0);
      if packetType == UNSUBACK {
        r := 1;
      }
      rc := if r == 1 then 0 else FAILURE;
    }

    method Disconnect() returns (rc: int, ghost clock: Timer)
      requires Valid()
      modifies sendbuf, net`wire, net`asked, net`faults, lastSent, `trace, `mon, `chunks, `isconnected
      ensures old(net.wire) <= net.wire && old(net.faults) <= net.faults && old(net.asked) <= net.asked
      ensures Valid() && !isconnected && old(trace) <= trace && SameFlight(old(mon), mon)
      ensures rc == SUCCESS ==> net.wire == old(net.wire) + ZeroBytes(DISCONNECT)
      ensures rc == SUCCESS || rc == FAILURE
      ensures size >= 2 ==>
                trace == old(trace) +
                         [if rc == SUCCESS then Sent(ZeroBytes(DISCONNECT)) else Failed(ZeroBytes(DISCONNECT))]
      ensures size < 2 ==> rc == FAILURE && trace == old(trace)
      ensures fresh(clock) && clock.start - clock.left <= net.asked - old(net.asked)
      ensures size >= 2 && rc == FAILURE ==> GaveUp(clock, old(net.faults))
    {
      hide Inv, Next, Ordinary, MaySend, Quiet, ZeroBytes;
      Apart();
      rc := FAILURE;
      var timer := new Timer(commandTimeout);
      clock := timer;
      ZeroSize(DISCONNECT);
      var len := SerializeZero(sendbuf, DISCONNECT);
      if len > 0 {
        SerializedPrefix(old(sendbuf[..]), ZeroBytes(DISCONNECT));
        ZeroIsOrdinary(DISCONNECT);
        assert sendbuf[..len] == ZeroBytes(DISCONNECT);
        OrdinarySent(mon, ZeroBytes(DISCONNECT));
        rc := SendPacket(len, timer);
      }
      isconnected := false;
    }

    /** yield: cycle until the time is up or an acknowledgement could not be sent. */
    method Yield(timeout: nat) returns (rc: int, ghost clock: Timer)
      requires Valid()
      modifies sendbuf, readbuf, net, lastSent, lastReceived, `trace, `mon, `chunks, `pingOutstanding,
               `cycleFailures
      ensures old(net.wire) <= net.wire && old(net.faults) <= net.faults && old(net.asked) <= net.asked
      ensures Valid() && old(trace) <= trace && SameFlight(old(mon), mon)
      ensures rc == SUCCESS || rc == FAILURE
      ensures fresh(clock) && clock.start - clock.left <= net.asked - old(net.asked)
      ensures (rc == SUCCESS ==> clock.up) && (clock.start > 0 ==> Polls() > old(Polls()))
      ensures cycleFailures == old(cycleFailures) + if rc == FAILURE then 1 else 0
      ensures rc == SUCCESS && old(cycleFailures) == 0 ==> AckIds(trace) == ArrivalIds(trace)
    {
      hide Inv, Answered, Holds, Next, CycleEvents, HeaderType, PingEvents;
      rc := SUCCESS;
      var timer := new Timer(timeout);
      clock := timer;
      ghost var run := trace;
      while true
        invariant Inv() && Answered() && Quiet(mon) && SameFlight(old(mon), mon)
        invariant run <= trace && rc == SUCCESS && cycleFailures == old(cycleFailures)
        invariant old(net.wire) <= net.wire && old(net.faults) <= net.faults
        invariant fresh(timer) && 0 <= timer.start - timer.left <= net.asked - old(net.asked)
        invariant Polls() >= old(Polls()) + if timer.left < timer.start then 1 else 0
        decreases timer.left
      {
        var expired := timer.Expired();
        if expired {
          break;
        }
        ghost var packet, ping;
        var r;
        r, packet, ping := Cycle(timer);
        if r == FAILURE {
          rc := FAILURE;
          break;
        }
      }
      if cycleFailures == 0 {
        AllAcked();
      }
    }

    /** Ack order for the client: as long as no call of cycle has failed, every QoS 1 message that arrived has
        been acknowledged, in the order of arrival. */
    lemma AllAcked()
      requires Inv() && Answered()
      ensures Subsequence(AckIds(trace), ArrivalIds(trace))
      ensures cycleFailures == 0 ==> AckIds(trace) == ArrivalIds(trace)
    {
      AckOrder(trace);
    }

    /** Between calls, every message that arrived has run all its handlers, right after it arrived. */
    lemma AllDelivered(k: nat)
      requires Valid() && Arrival(trace, k)
      ensures CallEvents(CallsAt(trace, k)) <= trace[k + 1..]
    {
      EveryMessageDelivered(trace, k);
    }
  }

  /** What the end of a call of sendPacket leaves as it is. */
  lemma TryStep(s: Monitor, packet: bytes, ok: bool)
    requires MaySend(s, packet)
    ensures var e := if ok then Sent(packet) else Failed(packet);
            var t := Next(s, e);
            Allowed(s, e) && Tries(e) && Quiet(t) && t.inflight == s.inflight && t.trusted == s.trusted &&
            t.handlers == s.handlers && t.default == s.default
  {
    hide IsPuback, IsFrame, PublishBytes, AckBytes;
  }

  /** What readPacket stores and leaves is what NextFrame takes off the stream. */
  lemma FirstFrame(frames: seq<Frame>, s: bytes)
    requires frames != [] && AllWellFormed(frames) && Holds(s, frames[0].packet)
    ensures TookFrame([] + RawStream(frames), [] + RawStream(frames[1..]), s)
  {
    hide NextFrame, Frame.Raw, FrameBytes, Packet.Body, Packet.Header, Frame.WellFormed, At;
    NextFrameIs(frames[0], RawStream(frames[1..]));
    assert [] + RawStream(frames) == frames[0].Raw() + RawStream(frames[1..]);
  }

  lemma AckKinds(id: nat)
    ensures IsPuback(AckBytes(PUBACK, 0, id)) && IsFrame(AckBytes(PUBACK, 0, id)) && Ordinary(AckBytes(PUBREC, 0, id))
  {
    hide EncodeLength, HeaderByte, HeaderType, IntBytes, FrameBytes, IsPuback, IsFrame;
    assert |IntBytes(id)| == 2;
    FrameIsOrdinary(PUBREC, 0, 0, 0, IntBytes(id));
    HeaderFields(PUBACK, 0, 0, 0);
    FrameIsPuback(IntBytes(id));
    FrameIsFrame(HeaderByte(PUBACK, 0, 0, 0), IntBytes(id));
  }

  lemma FrameIsFrame(header: byte, body: bytes)
    requires |body| <= MAX_REMAINING_LENGTH
    ensures IsFrame(FrameBytes(header, body))
  {
  }

  lemma FrameIsPuback(body: bytes)
    ensures IsPuback(FrameBytes(HeaderByte(PUBACK, 0, 0, 0), body))
  {
    hide EncodeLength, HeaderByte, HeaderType;
    HeaderFields(PUBACK, 0, 0, 0);
    var header := HeaderByte(PUBACK, 0, 0, 0);
    assert FrameBytes(header, body)[0] == header;
  }

  /** The type in the header says which packet it is. */
  lemma PacketType(p: Packet)
    requires p.Encodable()
    ensures var t := HeaderType(p.Header());
            t < 16 &&
            (t == PUBLISH <==> p.PublishTo?) && (t == CONNACK <==> p.Connack?) && (t == PUBACK <==> p.Puback?) &&
            (t == SUBACK <==> p.Suback?) && (t == UNSUBACK <==> p.Unsuback?)
  {
    hide HeaderByte, Packet.Header, Packet.Body, FrameBytes, At;
    var s := FrameBytes(p.Header(), p.Body());
    assert At(s, 0, s) by { WholeAt(s); }
    StoredType(p, s);
  }

  lemma WholeAt(s: bytes)
    ensures At(s, 0, s)
  {
  }

  lemma StoredPublishIn(m: Publish, s: bytes)
    requires Holds(s, PublishTo(m))
    ensures m.Encodable() && At(s, 0, FrameBytes(PublishTo(m).Header(), PublishTo(m).Body()))
  {
  }

  lemma JoinEvents(run: seq<Event>, packet: Option<Packet>, handlers: seq<Handler>, default: bool, size: nat)
    ensures forall rc :: packet.None? ==> run + CycleEvents(packet, rc, handlers, default, size) == run
    ensures forall rc :: packet.Some? && !packet.value.PublishTo? ==>
              run + CycleEvents(packet, rc, handlers, default, size) == run + [Arrived(packet.value)]
    ensures forall rc :: packet.Some? && packet.value.PublishTo? ==>
              var m := packet.value.m;
              run + CycleEvents(packet, rc, handlers, default, size) ==
                run + [Arrived(packet.value)] + CallEvents(Calls(handlers, default, m.topic, m.payload)) +
                AnswerEvents(m, rc != FAILURE, size)
  {
    hide Calls, CallEvents, AnswerEvents, AckBytes, Packet.Header, Packet.Body;
    if packet.Some? && packet.value.PublishTo? {
      var m := packet.value.m;
      var calls := CallEvents(Calls(handlers, default, m.topic, m.payload));
      forall rc ensures run + CycleEvents(packet, rc, handlers, default, size) ==
                        run + [Arrived(packet.value)] + calls + AnswerEvents(m, rc != FAILURE, size) {
        var answer := AnswerEvents(m, rc != FAILURE, size);
        assert run + ([Arrived(packet.value)] + (calls + answer)) == run + [Arrived(packet.value)] + calls + answer;
      }
    }
  }

  /** The events depend on the result only in whether it is FAILURE. */
  lemma SameEvents(packet: Option<Packet>, r: int, s: int, handlers: seq<Handler>, default: bool, size: nat)
    requires r != FAILURE && s != FAILURE
    ensures CycleEvents(packet, r, handlers, default, size) == CycleEvents(packet, s, handlers, default, size)
  {
  }

  lemma NoPing(run: seq<Event>, events: seq<Event>)
    ensures PingEvents([]) && run + events + [] == run + events
  {
  }

  lemma ArrivedMonitor(s: Monitor, p: Packet)
    ensures var t := Next(s, Arrived(p));
            SameFlight(s, t) && t.promised == s.promised &&
            t.due == (if p.PublishTo? && p.m.qos == 1 then Some(p.m.id) else None) &&
            t.current == (if p.PublishTo? then Some(p.m) else None) &&
            (p.Puback? ==> t.puback == Some(p.id)) && t.owed == Owed(s, p) &&
            t.handlers == s.handlers && t.default == s.default &&
            (s.due.None? ==> t.missed == s.missed)
  {
  }

  lemma PublishIsOrdinary(m: Publish)
    requires m.Encodable()
    ensures Ordinary(PublishBytes(m)) && |PublishBytes(m)| > 0
  {
    FrameIsOrdinary(PUBLISH, m.dup, m.qos, m.retained, PublishBody(m));
  }

  lemma ConnectIsOrdinary(d: ConnectData)
    requires d.Writable() && ConnectLength(d) <= MAX_REMAINING_LENGTH
    ensures Ordinary(ConnectBytes(d)) && ConnectLength(d) == |ConnectBody(d)|
  {
    ConnectLengthExact(d);
    FrameIsOrdinary(CONNECT, 0, 0, 0, ConnectBody(d));
  }

  lemma PendingStep(pending: bytes, field: bytes, body: bytes, len: nat)
    requires len < |field| && pending == field[len..] + body
    ensures |pending| >= 1 && pending[..1] == [field[len]] && pending[1..] == field[len + 1..] + body
  {
  }

  lemma ZeroIsOrdinary(packetType: nat)
    requires packetType < 16 && packetType != PUBACK
    ensures Ordinary(ZeroBytes(packetType))
  {
    FrameIsOrdinary(packetType, 0, 0, 0, []);
  }

  lemma SubscribeIsOrdinary(id: nat, filters: seq<bytes>, qoss: bytes)
    requires |filters| == |qoss| && 2 + |EntriesBytes(filters, qoss)| <= MAX_REMAINING_LENGTH
    ensures Ordinary(SubscribeBytes(0, id, filters, qoss))
  {
    FrameIsOrdinary(SUBSCRIBE, 0, 1, 0, IntBytes(id) + EntriesBytes(filters, qoss));
  }

  lemma UnsubscribeIsOrdinary(id: nat, filters: seq<bytes>)
    requires 2 + |FiltersBytes(filters)| <= MAX_REMAINING_LENGTH
    ensures Ordinary(UnsubscribeBytes(0, id, filters))
  {
    FrameIsOrdinary(UNSUBSCRIBE, 0, 1, 0, IntBytes(id) + FiltersBytes(filters));
  }

  /** A list of one filter fits a packet. */
  lemma OneEntry(topic: MqttString, qos: nat)
    requires topic.Writable() && |topic.Text()| < 65536
    ensures AllWritable([topic]) && Texts([topic]) == [topic.Text()] && CodeBytes([qos]) == [qos % 256]
    ensures |EntriesBytes([topic.Text()], [qos % 256])| == 3 + |topic.Text()|
  {
    var f, q := topic.Text(), qos % 256;
    assert EntriesBytes([f][1..], [q][1..]) == [];
  }

  lemma OneFilter(topic: MqttString)
    requires topic.Writable() && |topic.Text()| < 65536
    ensures AllWritable([topic]) && Texts([topic]) == [topic.Text()]
    ensures |FiltersBytes([topic.Text()])| == 2 + |topic.Text()|
  {
    var f := topic.Text();
    assert FiltersBytes([f][1..]) == [];
  }

  /** The default handler is owed a call exactly if no slot ran. */
  lemma LastCalls(handlers: seq<Handler>, default: bool, topic: bytes, payload: bytes)
    ensures var made := SlotCalls(handlers, |handlers|, topic, payload);
            Calls(handlers, default, topic, payload) ==
            if made == [] && default then made + [Call(|handlers|, topic, payload)] else made
  {
    hide SlotCalls;
  }

  lemma NoCallsYet(handlers: seq<Handler>, topic: bytes, payload: bytes, run: seq<Event>, calls: seq<Call>)
    ensures SlotCalls(handlers, 0, topic, payload) == [] && run == run + CallEvents([]) && calls[0..] == calls
  {
  }

  lemma NextCall(run: seq<Event>, calls: seq<Call>, made: seq<Call>, c: Call)
    requires |made| < |calls| && calls[|made|] == c
    ensures calls[|made|..] != [] && calls[|made|..][0] == c && calls[|made|..][1..] == calls[|made + [c]|..]
    ensures run + CallEvents(made) + [Called(c)] == run + CallEvents(made + [c])
  {
    assert CallEvents(made + [c]) == CallEvents(made) + [Called(c)];
  }

  lemma NothingYet(run: seq<Event>, packetType: nat)
    ensures !Got(run[|run|..], packetType)
  {
  }

  lemma MoreGot(run: seq<Event>, before: seq<Event>, events: seq<Event>, after: seq<Event>, packetType: nat)
    requires run <= before && after == before + events
    ensures run <= after
    ensures Got(after[|run|..], packetType) <==> Got(before[|run|..], packetType) || Got(events, packetType)
    ensures forall e :: e in events ==> e in after[|run|..]
  {
    assert after[|run|..] == before[|run|..] + events;
    GotConcat(before[|run|..], events, packetType);
  }

  /** One call of cycle takes in the packet it returns and no other. */
  lemma CycleGot(packet: Option<Packet>, rc: int, handlers: seq<Handler>, default: bool, size: nat, ping: seq<Event>,
                 packetType: nat, s: bytes)
    requires PingEvents(ping) && packetType < 16 && packetType != PUBLISH
    requires packet.None? ==> rc == NO_PACKET
    requires packet.Some? ==> Holds(s, packet.value) && (rc == FAILURE || rc == HeaderType(packet.value.Header()))
    requires packet.Some? && !packet.value.PublishTo? ==> rc != FAILURE
    ensures Got(CycleEvents(packet, rc, handlers, default, size) + ping, packetType) <==> rc == packetType
    ensures packet.Some? ==> Arrived(packet.value) in CycleEvents(packet, rc, handlers, default, size) + ping
  {
    var events := CycleEvents(packet, rc, handlers, default, size);
    if packet.Some? {
      EncodableIn(packet.value, s);
      PacketType(packet.value);
      ReactionArrives(packet.value, rc, handlers, default, size, packetType);
    } else {
      GotNothing(events, packetType);
    }
    GotNothing(ping, packetType);
    hide CycleEvents, HeaderType, Got, Packet.Header, PingEvents;
    GotConcat(events, ping, packetType);
  }

  lemma EncodableIn(p: Packet, s: bytes)
    requires Holds(s, p)
    ensures p.Encodable()
  {
  }

  /** What is done with a packet begins with its arrival, and nothing else arrives. */
  lemma ReactionArrives(p: Packet, rc: int, handlers: seq<Handler>, default: bool, size: nat, packetType: nat)
    ensures var events := CycleEvents(Some(p), rc, handlers, default, size);
            Arrived(p) in events && (Got(events, packetType) <==> IsArrival(Arrived(p), packetType))
  {
    hide Calls, HeaderType, Packet.Header, AnswerEvents;
    var calls := if p.PublishTo? then CallEvents(Calls(handlers, default, p.m.topic, p.m.payload)) else [];
    var answer := if p.PublishTo? then AnswerEvents(p.m, rc != FAILURE, size) else [];
    AnswerIsNoArrival(p, rc, size, packetType);
    GotNothing(calls, packetType);
    GotNothing([], packetType);
    assert IsArrival([Arrived(p)][0], packetType) <==> Got([Arrived(p)], packetType);
    hide CallEvents, Got, IsArrival;
    GotConcat(calls, answer, packetType);
    GotConcat([Arrived(p)], calls + answer, packetType);
  }

  lemma AnswerIsNoArrival(p: Packet, rc: int, size: nat, packetType: nat)
    ensures p.PublishTo? ==> !Got(AnswerEvents(p.m, rc != FAILURE, size), packetType)
  {
    hide AckBytes;
    if p.PublishTo? {
      GotNothing(AnswerEvents(p.m, rc != FAILURE, size), packetType);
    }
  }

  /** After the resend, what connect did before it stands as it was. */
  lemma ResendLater(run: seq<Event>, middle: seq<Event>, after: seq<Event>, m: Publish, connect: bytes)
    requires run <= middle && run + [Sent(connect)] <= middle && Tried(middle + [Resending(m)], after, PublishBytes(m))
    ensures middle <= after && after[..|middle|] == middle && after[|run|..|middle|] == middle[|run|..]
    ensures run + [Sent(connect)] <= after && Tried(run, after, connect)
  {
    hide PublishBytes;
    assert middle + [Resending(m)] <= after;
  }

  lemma IsReconnected(before: seq<Event>, after: seq<Event>, at: nat, options: ConnectData, m: Publish, rc: int)
    requires at <= |after| && before + [Sent(ConnectBytes(options))] <= after
    requires Tried(after[..at] + [Resending(m)], after, PublishBytes(m))
    requires rc == SUCCESS <==> Succeeded(after[..at] + [Resending(m)], after, PublishBytes(m), m.qos)
    ensures Reconnected(before, after, at, options, m, rc)
  {
    hide Tried, Succeeded, PublishBytes, ConnectBytes;
  }

  lemma NotReconnected(before: seq<Event>, after: seq<Event>, at: nat, options: ConnectData, rc: int)
    requires at <= |after| && !(before + [Sent(ConnectBytes(options))] <= after) && rc != SUCCESS
    ensures forall m :: Reconnected(before, after, at, options, m, rc)
  {
    hide Tried, Succeeded, PublishBytes, ConnectBytes;
  }

  lemma ResentPassed(middle: seq<Event>, after: seq<Event>, m: Publish, wire0: bytes, wire1: bytes, wire: bytes,
                     rc: int)
    requires Tried(middle + [Resending(m)], after, PublishBytes(m)) && wire0 <= wire1
    requires OnWire(middle + [Resending(m)], after, wire1, wire, PublishBytes(m))
    requires rc == SUCCESS ==> Succeeded(middle + [Resending(m)], after, PublishBytes(m), m.qos)
    ensures |middle| <= |after| && ResentOnWire(after, |middle|, wire0, wire, PublishBytes(m), rc)
  {
    hide PublishBytes, Got;
    var packet := PublishBytes(m);
    var before := middle + [Resending(m)];
    assert (before + [Failed(packet)])[|middle| + 1] == Failed(packet);
    if before + [Sent(packet)] <= after {
      assert Passed(wire0, wire, packet) by { assert wire0 <= wire1 && wire1 + packet <= wire; }
    }
  }

  lemma SentIsNoArrival(run: seq<Event>, packet: bytes, packetType: nat)
    ensures !Got((run + [Sent(packet)])[|run|..], packetType) && !Got((run + [Failed(packet)])[|run|..], packetType)
    ensures !(run + [Sent(packet)] <= run + [Failed(packet)])
  {
    assert (run + [Failed(packet)])[|run|] == Failed(packet);
    assert (run + [Sent(packet)])[|run|] == Sent(packet);
  }

  /** Right after sendPacket. */
  lemma SendOutcome(run: seq<Event>, packet: bytes, qos: nat)
    ensures qos != 1 ==> Succeeded(run, run + [Sent(packet)], packet, qos)
    ensures !Succeeded(run, run + [Failed(packet)], packet, qos)
    ensures Tried(run, run + [Sent(packet)], packet) && Tried(run, run + [Failed(packet)], packet)
    ensures !(run + [Sent(packet)] <= run + [Failed(packet)])
  {
    hide Got;
    assert (run + [Failed(packet)])[|run|] == Failed(packet);
    assert (run + [Sent(packet)])[|run|] == Sent(packet);
  }

  lemma PubackIsNoArrival(s: Monitor, id: nat)
    ensures !Got(PubackEvents(s, id), PUBACK)
  {
  }

  /** And after the wait for the PUBACK. */
  lemma WaitOutcome(run: seq<Event>, packet: bytes, after: seq<Event>)
    requires run + [Sent(packet)] <= after
    ensures Tried(run, after, packet)
    ensures Succeeded(run, after, packet, 1) <==> Got(after[|run + [Sent(packet)]|..], PUBACK)
  {
    var rest := after[|run| + 1..];
    GotNothing([Sent(packet)], PUBACK);
    hide Got;
    assert after[|run|..] == [Sent(packet)] + rest;
    GotConcat([Sent(packet)], rest, PUBACK);
  }

  /** The first bytes of a buffer that was written from the start. */
  lemma SerializedPrefix(s: bytes, data: bytes)
    requires |data| <= |s|
    ensures Splice(s, 0, data)[..|data|] == data
  {
  }
}
