/**
 Runs of the client as seen from outside: the events of a run in order, what is known after each of
 them, and what every allowed run keeps. MqttClient proves that the code produces allowed runs only.
 */
module MqttTrace {
  import opened Bytes
  import opened MqttWire
  import opened MqttPublish
  import opened MqttFraming
  import opened MqttHandlers
  import MqttLayout

  datatype Event =
    | Arrived(packet: Packet)      // readPacket has stored a packet
    | Called(call: Call)           // a message handler ran
    | Sent(bytes: bytes)           // sendPacket returned SUCCESS
    | Failed(bytes: bytes)         // sendPacket returned FAILURE
    | Recorded(m: Publish)         // publish keeps a copy of a message with a packet id
    | Unrecorded                   // publish keeps a copy of a message without one
    | Resending(m: Publish)        // connect is about to send the kept message again
    | Settled                      // the PUBACK that ended a publish had the id of the kept message
    | Mismatched                   // it had another id
    | Installed(handlers: seq<Handler>, default: bool)  // the message handlers are these from now on

  /** What a run has come to. */
  datatype Monitor = Monitor(
    arrivals: seq<nat>,            // ids of the QoS 1 messages that arrived
    acks: seq<nat>,                // ids of the PUBACKs sent
    due: Option<nat>,              // the QoS 1 message that arrived last and is not yet answered
    missed: nat,                   // the number of QoS 1 messages whose PUBACK was not sent
    current: Option<Publish>,      // the message that arrived last, while nothing but its handlers has run
    handlers: seq<Handler>,        // the message handlers
    default: bool,                 // and whether there is a default handler
    owed: seq<Call>,               // the calls that the message that arrived last has still to get
    puback: Option<nat>,           // the id of the packet that arrived last, if it was a PUBACK
    recorded: seq<Publish>,        // messages kept for sending again
    settled: seq<Publish>,         // those that were acknowledged
    lost: seq<Publish>,            // those replaced before they were acknowledged
    inflight: Option<Publish>,     // the one that is neither
    promised: Option<Publish>,     // the message that the next packet must be
    trusted: bool,                 // only QoS 1 messages were recorded, and every PUBACK awaited had its id
    sent: seq<bytes>,              // packets sent
    clean: bool)                   // no packet failed

  const START: Monitor := Monitor([], [], None, 0, None, [], false, [], None, [], [], [], None, None, true, [], true)

  predicate IsPuback(packet: bytes) { packet != [] && HeaderType(packet[0]) == PUBACK }

  function AsSeq<T>(o: Option<T>): (r: seq<T>) { if o.Some? then [o.value] else [] }

  /** The calls that a packet is owed. */
  function Owed(s: Monitor, p: Packet): (r: seq<Call>) {
    if p.PublishTo? then Calls(s.handlers, s.default, p.m.topic, p.m.payload) else []
  }

  function Next(s: Monitor, e: Event): (r: Monitor) {
    match e
    case Arrived(p) =>
      var due := if p.PublishTo? && p.m.qos == 1 then Some(p.m.id) else None;
      s.(missed := s.missed + |AsSeq(s.due)|, due := due, arrivals := s.arrivals + AsSeq(due),
         current := if p.PublishTo? then Some(p.m) else None, puback := if p.Puback? then Some(p.id) else None,
         owed := Owed(s, p))
    case Called(_) => s.(owed := if s.owed == [] then [] else s.owed[1..])
    case Sent(b) =>
      var t := s.(sent := s.sent + [b], promised := None, current := None);
      if IsPuback(b) then t.(acks := s.acks + AsSeq(s.due), due := None) else t
    case Failed(b) =>
      var t := s.(clean := false, promised := None, current := None);
      if IsPuback(b) then t.(missed := s.missed + |AsSeq(s.due)|, due := None) else t
    case Recorded(m) =>
      s.(recorded := s.recorded + [m], lost := s.lost + AsSeq(s.inflight), inflight := Some(m), promised := Some(m),
         trusted := s.trusted && m.qos == 1, current := None)
    case Unrecorded => s.(lost := s.lost + AsSeq(s.inflight), inflight := None, current := None)
    case Resending(m) => s.(promised := Some(m), current := None)
    case Settled => s.(settled := s.settled + AsSeq(s.inflight), inflight := None, current := None)
    case Mismatched => s.(trusted := false, current := None)
    case Installed(h, d) => s.(handlers := h, default := d, current := None)
  }

  /** Nothing has to happen next: no message is promised, no handler is owed a call. */
  predicate Quiet(s: Monitor) {
    s.promised.None? && s.owed == []
  }

  /** The packet was tried next: sent, or failed. */
  predicate Tried(before: seq<Event>, after: seq<Event>, packet: bytes) {
    before + [Sent(packet)] <= after || before + [Failed(packet)] <= after
  }

  lemma TriedLonger(before: seq<Event>, middle: seq<Event>, after: seq<Event>, packet: bytes)
    requires middle <= after
    ensures Tried(before, middle, packet) ==> Tried(before, after, packet) && before <= after
  {
    if Tried(before, middle, packet) {
      assert before <= middle;
    }
  }

  /** What may be sent: whole packets, once all handlers have run; a PUBACK only in answer to the QoS 1 message
      that arrived last, with nothing but its handlers in between; and right after a message was recorded or
      taken for resending only exactly that message. */
  ghost predicate MaySend(s: Monitor, packet: bytes) {
    IsFrame(packet) && s.owed == [] &&
    (IsPuback(packet) ==> s.due.Some? && Answers(s, s.due.value) && packet == AckBytes(PUBACK, 0, s.due.value)) &&
    (s.promised.Some? ==> packet == PublishBytes(s.promised.value))
  }

  /** The id is that of the QoS 1 message that arrived last. */
  predicate Answers(s: Monitor, id: nat) {
    s.current.Some? && s.current.value.qos == 1 && s.current.value.id == id
  }

  ghost predicate Allowed(s: Monitor, e: Event) {
    match e
    case Sent(b) => MaySend(s, b)
    case Failed(b) => MaySend(s, b)
    case Arrived(p) => Quiet(s) && p.Encodable()
    case Called(c) => s.promised.None? && s.owed != [] && c == s.owed[0]
    case Recorded(m) => Quiet(s) && m.id != 0 && (s.trusted ==> s.inflight.None?)
    case Unrecorded => Quiet(s) && (s.trusted ==> s.inflight.None?)
    case Resending(m) => Quiet(s) && s.inflight == Some(m)
    case Settled => Quiet(s) && s.inflight.Some? && s.puback == Some(s.inflight.value.id)
    case Mismatched => Quiet(s) && s.inflight.Some? && s.puback.Some? && s.puback != Some(s.inflight.value.id)
    case Installed(_, _) => Quiet(s)
  }

  function Watch(run: seq<Event>): (s: Monitor) {
    if run == [] then START else Next(Watch(run[..|run| - 1]), run[|run| - 1])
  }

  ghost predicate Ok(run: seq<Event>) {
    run == [] || (Ok(run[..|run| - 1]) && Allowed(Watch(run[..|run| - 1]), run[|run| - 1]))
  }

  lemma Extend(run: seq<Event>, e: Event)
    ensures Watch(run + [e]) == Next(Watch(run), e)
    ensures Ok(run + [e]) <==> Ok(run) && Allowed(Watch(run), e)
  {
    assert (run + [e])[..|run|] == run;
  }

  // ----- the events of a run, without the monitor -----

  /** The ids of the QoS 1 messages that arrived. */
  function ArrivalIds(run: seq<Event>): (r: seq<nat>) {
    if run == [] then []
    else
      var before, e := run[..|run| - 1], run[|run| - 1];
      if e.Arrived? && e.packet.PublishTo? && e.packet.m.qos == 1 then ArrivalIds(before) + [e.packet.m.id]
      else ArrivalIds(before)
  }

  /** The ids in the PUBACK packets sent, from their bytes. */
  function AckIds(run: seq<Event>): (r: seq<nat>) {
    if run == [] then []
    else
      var before, e := run[..|run| - 1], run[|run| - 1];
      if e.Sent? && |e.bytes| == 4 && e.bytes[0] == 0x40 then AckIds(before) + [256 * (e.bytes[2] as nat) + e.bytes[3]]
      else AckIds(before)
  }

  function RecordedIn(run: seq<Event>): (r: seq<Publish>) {
    if run == [] then []
    else
      var before, e := run[..|run| - 1], run[|run| - 1];
      if e.Recorded? then RecordedIn(before) + [e.m] else RecordedIn(before)
  }

  /** The message recorded last, unless it has been settled or replaced since. */
  function KeptIn(run: seq<Event>): (r: Option<Publish>) {
    if run == [] then None
    else
      var before, e := run[..|run| - 1], run[|run| - 1];
      if e.Recorded? then Some(e.m) else if e.Unrecorded? || e.Settled? then None else KeptIn(before)
  }

  function SettledIn(run: seq<Event>): (r: seq<Publish>) {
    if run == [] then []
    else
      var before, e := run[..|run| - 1], run[|run| - 1];
      if e.Settled? && KeptIn(before).Some? then SettledIn(before) + [KeptIn(before).value] else SettledIn(before)
  }

  /** The packets sent. */
  function SentIn(events: seq<Event>): (r: seq<bytes>) {
    if events == [] then []
    else
      var before, e := events[..|events| - 1], events[|events| - 1];
      if e.Sent? then SentIn(before) + [e.bytes] else SentIn(before)
  }

  /** What the monitor says of these. */
  ghost predicate Tells(s: Monitor, run: seq<Event>) {
    s.arrivals == ArrivalIds(run) && s.acks == AckIds(run) && s.recorded == RecordedIn(run) &&
    s.inflight == KeptIn(run) && s.settled == SettledIn(run) && s.sent == SentIn(run) &&
    (s.due.Some? ==> s.due.value < 65536)
  }

  /** A PUBACK that may be sent carries the id that is due. */
  lemma DueAck(s: Monitor, b: bytes)
    requires MaySend(s, b) && (s.due.Some? ==> s.due.value < 65536)
    ensures IsPuback(b) <==> |b| == 4 && b[0] == 0x40
    ensures IsPuback(b) ==> s.due == Some(256 * (b[2] as nat) + b[3])
  {
    hide IsFrame, AckBytes;
    if IsPuback(b) {
      MqttLayout.AnswerLayout(s.due.value);
    }
  }

  lemma TellsStep(run: seq<Event>, e: Event)
    requires Tells(Watch(run), run) && Allowed(Watch(run), e)
    ensures Tells(Next(Watch(run), e), run + [e])
  {
    hide Watch, IsFrame, AckBytes, IsPuback, Owed, PublishBytes, MaySend;
    assert (run + [e])[..|run|] == run;
    if e.Sent? || e.Failed? {
      assert MaySend(Watch(run), e.bytes);
      DueAck(Watch(run), e.bytes);
    }
  }

  /** Over every run the monitor holds what the events say. */
  lemma {:induction false} MonitorTells(run: seq<Event>)
    requires Ok(run)
    ensures Tells(Watch(run), run)
    decreases |run|
  {
    hide Allowed, Next, Tells;
    if run == [] {
      assert Tells(START, []) by { StartTells(); }
    } else {
      var before, e := run[..|run| - 1], run[|run| - 1];
      MonitorTells(before);
      TellsStep(before, e);
      assert run == before + [e];
    }
  }

  lemma StartTells()
    ensures Tells(START, [])
  {
  }

  // ----- acknowledgements -----

  predicate Subsequence(a: seq<nat>, b: seq<nat>)
    decreases |b|
  {
    a == [] ||
    (b != [] &&
     if a[|a| - 1] == b[|b| - 1] then Subsequence(a[..|a| - 1], b[..|b| - 1]) else Subsequence(a, b[..|b| - 1]))
  }

  lemma {:induction false} SubsequencePrefix(a: seq<nat>, x: nat, b: seq<nat>)
    requires Subsequence(a + [x], b)
    ensures Subsequence(a, b)
    decreases |b|, 0
  {
    var c := a + [x];
    assert c[..|c| - 1] == a && b != [];
    if a != [] {
      var b' := b[..|b| - 1];
      if x == b[|b| - 1] {
        SubsequenceLonger(a, b', b[|b| - 1]);
        assert b == b' + [b[|b| - 1]];
      } else {
        SubsequencePrefix(a, x, b');
        SubsequenceLonger(a, b', b[|b| - 1]);
        assert b == b' + [b[|b| - 1]];
      }
    }
  }

  lemma {:induction false} SubsequenceLonger(a: seq<nat>, b: seq<nat>, y: nat)
    requires Subsequence(a, b)
    ensures Subsequence(a, b + [y])
    decreases |b|, 1
  {
    assert (b + [y])[..|b|] == b;
    if a != [] && a[|a| - 1] == y {
      var a' := a[..|a| - 1];
      assert a == a' + [y];
      SubsequencePrefix(a', y, b);
    }
  }

  lemma SubsequenceBoth(a: seq<nat>, b: seq<nat>, x: nat)
    requires Subsequence(a, b)
    ensures Subsequence(a + [x], b + [x])
  {
    assert (a + [x])[..|a|] == a && (b + [x])[..|b|] == b;
  }

  /** What holds of the acknowledgements after every allowed run. */
  predicate AcksInOrder(s: Monitor) {
    Subsequence(s.acks + AsSeq(s.due), s.arrivals) &&
    |s.arrivals| == |s.acks| + |AsSeq(s.due)| + s.missed &&
    (s.missed == 0 ==> s.arrivals == s.acks + AsSeq(s.due))
  }

  lemma AcksStep(s: Monitor, e: Event)
    requires AcksInOrder(s) && Allowed(s, e)
    ensures AcksInOrder(Next(s, e))
  {
    hide Subsequence;
    var t := Next(s, e);
    if e.Arrived? {
      if s.due.Some? { SubsequencePrefix(s.acks, s.due.value, s.arrivals); }
      assert s.acks + [] == s.acks;
      if t.due.Some? {
        SubsequenceBoth(s.acks, s.arrivals, t.due.value);
      } else {
        assert s.arrivals + [] == s.arrivals;
      }
    } else if t.due != s.due {
      if e.Failed? { SubsequencePrefix(s.acks, s.due.value, s.arrivals); }
      assert s.acks + [] == s.acks && t.acks + [] == t.acks;
    }
  }

  lemma {:induction false} RunAcksInOrder(run: seq<Event>)
    requires Ok(run)
    ensures AcksInOrder(Watch(run))
    decreases |run|
  {
    hide Allowed, Next, AcksInOrder;
    if run == [] {
      assert AcksInOrder(START) by { StartInOrder(); }
    } else {
      var before := run[..|run| - 1];
      RunAcksInOrder(before);
      AcksStep(Watch(before), run[|run| - 1]);
    }
  }

  lemma StartInOrder()
    ensures AcksInOrder(START)
  {
  }

  /** Over every run, the ids in the PUBACKs sent are a subsequence of the ids of the QoS 1 messages in
      arrival order; the two are equal exactly when no PUBACK was missed or is still due. */
  lemma AckOrder(run: seq<Event>)
    requires Ok(run)
    ensures Subsequence(AckIds(run), ArrivalIds(run))
    ensures AckIds(run) == ArrivalIds(run) <==> Watch(run).missed == 0 && Watch(run).due.None?
  {
    RunAcksInOrder(run);
    MonitorTells(run);
    var s := Watch(run);
    if s.due.Some? { SubsequencePrefix(s.acks, s.due.value, s.arrivals); }
    assert s.acks + [] == s.acks;
  }

  // ----- what the peer reads -----

  lemma {:induction false} RunSendsFrames(run: seq<Event>)
    requires Ok(run)
    ensures AllFrames(Watch(run).sent)
    decreases |run|
  {
    hide IsFrame, IsPuback, Owed, AsSeq, AckBytes, PublishBytes;
    if run != [] {
      RunSendsFrames(run[..|run| - 1]);
    }
  }

  /** Over every run, the peer that splits what was sent gets exactly the packets sent, in order. */
  lemma PeerReadsRun(run: seq<Event>)
    requires Ok(run)
    ensures SplitStream(Flatten(Watch(run).sent)) == Watch(run).sent
  {
    RunSendsFrames(run);
    PeerSplits(Watch(run).sent);
  }

  /** So a message that was sent arrives: the peer's packet at the same place parses to its fields. */
  lemma PeerGetsPublish(run: seq<Event>, i: nat, m: Publish, id0: nat)
    requires Ok(run) && m.Encodable() && i < |Watch(run).sent| && Watch(run).sent[i] == PublishBytes(m)
    ensures var packets := SplitStream(Flatten(Watch(run).sent));
            i < |packets| && PublishReadable(packets[i]) &&
            ParsePublish(packets[i], id0) == Parsed(Received(m, id0), |m.payload|)
  {
    hide Ok, Watch, PublishBytes, Publish.Encodable, PublishReadable, ParsePublish, SplitStream, Flatten;
    PeerReadsRun(run);
    var packet := PublishBytes(m);
    assert packet[0..|packet|] == packet;
    PublishRoundTrip(m, packet, id0);
  }

  // ----- what is on the wire -----

  /** The event is the end of a call of sendPacket. */
  predicate Tries(e: Event) { e.Sent? || e.Failed? }

  /** The chunks are what the calls of sendPacket put on the wire, one for each: the packet if it was sent, and
      anything if it failed. */
  predicate Carries(run: seq<Event>, chunks: seq<bytes>) {
    if run == [] then chunks == []
    else
      var before, e := run[..|run| - 1], run[|run| - 1];
      if Tries(e) then
        chunks != [] && (e.Sent? ==> chunks[|chunks| - 1] == e.bytes) && Carries(before, chunks[..|chunks| - 1])
      else Carries(before, chunks)
  }

  lemma CarriesMore(run: seq<Event>, e: Event, chunks: seq<bytes>, chunk: bytes)
    requires Carries(run, chunks)
    ensures !Tries(e) ==> Carries(run + [e], chunks)
    ensures Tries(e) && (e.Sent? ==> chunk == e.bytes) ==> Carries(run + [e], chunks + [chunk])
  {
    assert (run + [e])[..|run|] == run && (chunks + [chunk])[..|chunks|] == chunks;
  }

  lemma SentLast(run: seq<Event>, i: nat)
    requires i < |run|
    ensures var before, e := run[..|run| - 1], run[|run| - 1];
            SentIn(run[i..]) == if e.Sent? then SentIn(before[i..]) + [e.bytes] else SentIn(before[i..])
  {
    var part := run[i..];
    assert part[..|part| - 1] == run[..|run| - 1][i..];
  }

  lemma NothingSent()
    ensures Flatten(SentIn([])) == []
  {
  }

  /** No packet failed between two points of a run. */
  predicate NoneFailed(run: seq<Event>, i: nat, j: nat) {
    i <= j <= |run| && forall k :: i <= k < j ==> !run[k].Failed?
  }

  /** The end of a run: its packets are the last thing on the wire. */
  lemma {:induction false} TailOnWire(run: seq<Event>, i: nat, chunks: seq<bytes>) returns (w: bytes)
    requires Carries(run, chunks) && NoneFailed(run, i, |run|)
    ensures Flatten(chunks) == w + Flatten(SentIn(run[i..]))
    decreases |run|
  {
    hide SentIn, Flatten;
    if i == |run| {
      w := Flatten(chunks);
      assert run[i..] == [];
      NothingSent();
    } else {
      var before, e := run[..|run| - 1], run[|run| - 1];
      SentLast(run, i);
      if e.Sent? {
        var first := chunks[..|chunks| - 1];
        w := TailOnWire(before, i, first);
        FlattenAppend(first, e.bytes);
        FlattenAppend(SentIn(before[i..]), e.bytes);
        assert chunks == first + [e.bytes];
      } else {
        w := TailOnWire(before, i, chunks);
        assert SentIn(run[i..]) == SentIn(before[i..]);
      }
    }
  }

  /** Over every run, whatever failed before and after it: the packets sent in a stretch without a failure stand on
      the wire one right after the other. */
  lemma {:induction false} StretchOnWire(run: seq<Event>, i: nat, j: nat, chunks: seq<bytes>)
    returns (w: bytes, v: bytes)
    requires Carries(run, chunks) && NoneFailed(run, i, j)
    ensures Flatten(chunks) == w + Flatten(SentIn(run[i..j])) + v
    decreases |run|
  {
    if j == |run| {
      w := TailOnWire(run, i, chunks);
      v := [];
      assert run[i..j] == run[i..];
    } else {
      var before, e := run[..|run| - 1], run[|run| - 1];
      assert before[i..j] == run[i..j];
      if Tries(e) {
        var first, last := chunks[..|chunks| - 1], chunks[|chunks| - 1];
        w, v := StretchOnWire(before, i, j, first);
        FlattenAppend(first, last);
        assert chunks == first + [last];
        v := v + last;
      } else {
        w, v := StretchOnWire(before, i, j, chunks);
      }
    }
  }

  lemma {:induction false} StretchIsFrames(run: seq<Event>, i: nat, j: nat)
    requires Ok(run) && i <= j <= |run|
    ensures AllFrames(SentIn(run[i..j]))
    decreases j
  {
    hide IsFrame, Ok, Watch;
    if i < j {
      StretchIsFrames(run, i, j - 1);
      PrefixOk(run, j - 1);
      SentLast(run[..j], i);
      assert run[..j][i..] == run[i..j] && run[..j][..j - 1][i..] == run[i..j - 1];
    } else {
      assert run[i..j] == [];
    }
  }

  /** And a peer that starts to read there gets exactly these packets. */
  lemma PeerReadsStretch(run: seq<Event>, i: nat, j: nat)
    requires Ok(run) && i <= j <= |run|
    ensures SplitStream(Flatten(SentIn(run[i..j]))) == SentIn(run[i..j])
  {
    StretchIsFrames(run, i, j);
    PeerSplits(SentIn(run[i..j]));
  }

  /** As long as no packet failed, the chunks are the packets sent. */
  lemma {:induction false} CleanCarries(run: seq<Event>, chunks: seq<bytes>)
    requires Carries(run, chunks) && Watch(run).clean
    ensures chunks == Watch(run).sent
    decreases |run|
  {
    if run != [] {
      var before, e := run[..|run| - 1], run[|run| - 1];
      hide IsPuback, AsSeq, Owed;
      if Tries(e) {
        CleanCarries(before, chunks[..|chunks| - 1]);
      } else {
        CleanCarries(before, chunks);
      }
    }
  }

  // ----- the kept message -----

  /** Every recorded message was acknowledged, was replaced, or is still kept. */
  predicate Conserved(s: Monitor) {
    multiset(s.recorded) == multiset(s.settled) + multiset(s.lost) + multiset(AsSeq(s.inflight)) &&
    (s.trusted ==> s.lost == [] && s.recorded == s.settled + AsSeq(s.inflight))
  }

  /** Appending an optional element. */
  lemma AppendOption(a: seq<Publish>, o: Option<Publish>)
    ensures multiset(a + AsSeq(o)) == multiset(a) + multiset(AsSeq(o))
    ensures a + [] == a
  {
  }

  lemma ConservedStep(s: Monitor, e: Event)
    requires Conserved(s) && Allowed(s, e)
    ensures Conserved(Next(s, e))
  {
    hide MaySend, IsPuback, Conserved;
    var t := Next(s, e);
    if e.Recorded? || e.Unrecorded? || e.Settled? {
      ReplaceConserved(s, e);
    } else {
      assert t.recorded == s.recorded && t.settled == s.settled && t.lost == s.lost && t.inflight == s.inflight;
      assert t.trusted ==> s.trusted;
      SameConserved(s, t);
    }
  }

  lemma SameConserved(s: Monitor, t: Monitor)
    requires Conserved(s) && t.recorded == s.recorded && t.settled == s.settled && t.lost == s.lost &&
             t.inflight == s.inflight
    requires t.trusted ==> s.trusted
    ensures Conserved(t)
  {
    hide AsSeq;
  }

  lemma ReplaceConserved(s: Monitor, e: Event)
    requires Conserved(s) && Allowed(s, e) && (e.Recorded? || e.Unrecorded? || e.Settled?)
    ensures Conserved(Next(s, e))
  {
    hide Conserved;
    var t := Next(s, e);
    if e.Recorded? {
      RecordedConserved(s, t, Some(e.m));
    } else if e.Unrecorded? {
      assert s.recorded + [] == s.recorded;
      RecordedConserved(s, t, None);
    } else {
      SettledConserved(s, t);
    }
  }

  lemma RecordedConserved(s: Monitor, t: Monitor, m: Option<Publish>)
    requires Conserved(s) && (s.trusted ==> s.inflight.None?)
    requires t.recorded == s.recorded + AsSeq(m) && t.settled == s.settled && t.lost == s.lost + AsSeq(s.inflight) &&
               t.inflight == m
    requires t.trusted ==> s.trusted
    ensures Conserved(t)
  {
    AppendOption(s.lost, s.inflight);
    AppendOption(s.recorded, m);
    if s.trusted {
      assert AsSeq(s.inflight) == [];
      AppendOption(s.settled, m);
    }
    hide AsSeq;
  }

  lemma SettledConserved(s: Monitor, t: Monitor)
    requires Conserved(s)
    requires t.recorded == s.recorded && t.settled == s.settled + AsSeq(s.inflight) && t.lost == s.lost &&
             t.inflight == None
    requires t.trusted ==> s.trusted
    ensures Conserved(t)
  {
    AppendOption(s.settled, s.inflight);
    AppendOption(t.settled, None);
    assert multiset(AsSeq(t.inflight)) == multiset{};
    hide AsSeq;
  }

  lemma {:induction false} RunConserved(run: seq<Event>)
    requires Ok(run)
    ensures Conserved(Watch(run))
    decreases |run|
  {
    hide Allowed, Next, Conserved;
    if run == [] {
      assert Conserved(START) by { StartConserved(); }
    } else {
      var before := run[..|run| - 1];
      RunConserved(before);
      ConservedStep(Watch(before), run[|run| - 1]);
    }
  }

  lemma StartConserved()
    ensures Conserved(START)
  {
  }

  /** No QoS 1 message is lost: over every run that records QoS 1 messages only and meets no PUBACK with a
      foreign id, the messages recorded are those acknowledged, in the same order, and the one in flight. */
  lemma NoMessageLost(run: seq<Event>)
    requires Ok(run) && Watch(run).trusted
    ensures Watch(run).lost == [] && Watch(run).recorded == Watch(run).settled + AsSeq(Watch(run).inflight)
    ensures RecordedIn(run) == SettledIn(run) + AsSeq(KeptIn(run))
  {
    RunConserved(run);
    MonitorTells(run);
  }

  predicate AllQos1(messages: seq<Publish>) {
    forall i :: 0 <= i < |messages| ==> messages[i].qos == 1
  }

  lemma TrustStep(s: Monitor, e: Event)
    ensures Next(s, e).trusted <==> s.trusted && e != Mismatched && (e.Recorded? ==> e.m.qos == 1)
    ensures AllQos1(Next(s, e).recorded) <==> AllQos1(s.recorded) && (e.Recorded? ==> e.m.qos == 1)
  {
    hide IsPuback, Owed, AsSeq, AllQos1;
    if e.Recorded? { AppendQos1(s.recorded, e.m); }
  }

  lemma AppendQos1(messages: seq<Publish>, m: Publish)
    ensures AllQos1(messages + [m]) <==> AllQos1(messages) && m.qos == 1
  {
    var all := messages + [m];
    assert all[|messages|] == m;
    assert forall i :: 0 <= i < |messages| ==> all[i] == messages[i];
  }

  /** What a trusted run is: QoS 1 messages only were recorded, and no PUBACK that ended a publish had a
      foreign id. */
  lemma {:induction false} TrustedMeans(run: seq<Event>)
    ensures Watch(run).trusted <==> AllQos1(Watch(run).recorded) && Mismatched !in run
    decreases |run|
  {
    hide AllQos1, Next;
    if run == [] {
      assert AllQos1(START.recorded) by { NothingRecorded(); }
    } else {
      var before, e := run[..|run| - 1], run[|run| - 1];
      TrustedMeans(before);
      TrustStep(Watch(before), e);
      assert run == before + [e];
    }
  }

  lemma NothingRecorded()
    ensures AllQos1(START.recorded)
  {
  }

  lemma {:induction false} PrefixOk(run: seq<Event>, n: nat)
    requires Ok(run) && n <= |run|
    ensures Ok(run[..n])
    ensures n < |run| ==> Allowed(Watch(run[..n]), run[n])
    decreases |run|
  {
    hide Allowed, Watch;
    if n == |run| {
      assert run[..n] == run;
    } else {
      var before := run[..|run| - 1];
      if n < |before| { PrefixOk(before, n); }
      assert before[..n] == run[..n];
    }
  }

  /** Whenever connect takes the kept message for resending, the next packet tried is exactly the encoding
      of the message in flight; and the same right after publish has recorded it. */
  lemma PromisesKept(run: seq<Event>, i: nat)
    requires Ok(run) && i + 1 < |run| && (run[i].Resending? || run[i].Recorded?)
    ensures run[i + 1] == Sent(PublishBytes(run[i].m)) || run[i + 1] == Failed(PublishBytes(run[i].m))
    ensures run[i].Resending? ==> Watch(run[..i]).inflight == Some(run[i].m)
  {
    hide PublishBytes, AckBytes, IsPuback, Ok;
    PrefixOk(run, i);
    PrefixOk(run, i + 1);
    assert run[..i + 1][..i] == run[..i];
    var s, e := Watch(run[..i]), run[i];
    assert Watch(run[..i + 1]) == Next(s, e);
    hide Watch;
    assert Next(s, e).promised == Some(e.m);
  }

  // ----- a refused connection -----

  function MaybeConnack(code: Option<nat>): (r: seq<Event>) {
    if code.Some? then [Arrived(Connack(code.value, 0))] else []
  }

  /** A message that was recorded and not sent, then a CONNECT that is refused or gets no answer at all, and then
      the resend of the message and its PUBACK: such a run is allowed, whatever the message and the code. */
  lemma ResendAfterRefusal(m: Publish, connect: bytes, code: Option<nat>)
    requires 0 < m.id < 65536 && m.qos == 1 && IsFrame(PublishBytes(m)) && !IsPuback(PublishBytes(m))
    requires IsFrame(connect) && !IsPuback(connect) && (code.Some? ==> code.value < 256)
    ensures Ok([Recorded(m), Failed(PublishBytes(m)), Sent(connect)] + MaybeConnack(code) +
               [Resending(m), Sent(PublishBytes(m)), Arrived(Puback(m.id)), Settled])
  {
    var refused := [Recorded(m), Failed(PublishBytes(m)), Sent(connect)] + MaybeConnack(code);
    RefusedRun(m, connect, code);
    ResendEnds(refused, m);
  }

  lemma RefusedRun(m: Publish, connect: bytes, code: Option<nat>)
    requires 0 < m.id < 65536 && m.qos == 1 && IsFrame(PublishBytes(m)) && !IsPuback(PublishBytes(m))
    requires IsFrame(connect) && !IsPuback(connect) && (code.Some? ==> code.value < 256)
    ensures var run := [Recorded(m), Failed(PublishBytes(m)), Sent(connect)] + MaybeConnack(code);
            Ok(run) && Quiet(Watch(run)) && Watch(run).inflight == Some(m)
  {
    hide PublishBytes, IsPuback, IsFrame, AckBytes, Watch, Ok;
    var lost := [Recorded(m), Failed(PublishBytes(m)), Sent(connect)];
    RunEnds([], lost);
    assert [] + lost == lost;
    EmptyRun();
    if code.Some? {
      Extend(lost, Arrived(Connack(code.value, 0)));
    } else {
      assert lost + [] == lost;
    }
  }

  lemma EmptyRun()
    ensures Ok([]) && Watch([]) == START
  {
  }

  lemma ResendEnds(run: seq<Event>, m: Publish)
    requires Ok(run) && Quiet(Watch(run)) && Watch(run).inflight == Some(m)
    requires m.id < 65536 && IsFrame(PublishBytes(m)) && !IsPuback(PublishBytes(m))
    ensures Ok(run + [Resending(m), Sent(PublishBytes(m)), Arrived(Puback(m.id)), Settled])
  {
    hide PublishBytes, IsPuback, IsFrame, AckBytes, Watch, Ok, AsSeq;
    var resent := [Resending(m), Sent(PublishBytes(m)), Arrived(Puback(m.id))];
    RunEnds(run, resent);
    Extend(run + resent, Settled);
    assert run + resent + [Settled] == run + [Resending(m), Sent(PublishBytes(m)), Arrived(Puback(m.id)), Settled];
  }

  /** Three more events. */
  lemma RunEnds(run: seq<Event>, events: seq<Event>)
    requires |events| == 3
    ensures run + events == run + [events[0]] + [events[1]] + [events[2]]
    ensures var s := Watch(run);
            var t := Next(s, events[0]);
            var u := Next(t, events[1]);
            Watch(run + events) == Next(u, events[2]) &&
            (Ok(run + events) <==> Ok(run) && Allowed(s, events[0]) && Allowed(t, events[1]) && Allowed(u, events[2]))
  {
    hide Watch, Ok, Allowed, Next;
    assert run + events == run + [events[0]] + [events[1]] + [events[2]];
    Extend(run, events[0]);
    Extend(run + [events[0]], events[1]);
    Extend(run + [events[0]] + [events[1]], events[2]);
  }

  // ----- delivery -----

  function CallEvents(calls: seq<Call>): (r: seq<Event>)
    ensures |r| == |calls| && forall i :: 0 <= i < |r| ==> r[i] == Called(calls[i])
  {
    seq(|calls|, i requires 0 <= i < |calls| => Called(calls[i]))
  }

  predicate Arrival(run: seq<Event>, k: nat) {
    k < |run| && run[k].Arrived? && run[k].packet.PublishTo?
  }

  /** The calls that the message that arrived at k is owed, by the handlers at that time. */
  function CallsAt(run: seq<Event>, k: nat): (r: seq<Call>)
    requires Arrival(run, k)
  {
    Owed(Watch(run[..k]), run[k].packet)
  }

  /** Since the message arrived at k, exactly the first n of its calls were made and nothing else happened. */
  predicate Delivering(run: seq<Event>, k: nat, n: nat) {
    Arrival(run, k) && n <= |CallsAt(run, k)| && run[k + 1..] == CallEvents(CallsAt(run, k)[..n]) &&
    Watch(run).owed == CallsAt(run, k)[n..] && Watch(run).current == Some(run[k].packet.m)
  }

  lemma CallsLater(run: seq<Event>, k: nat, e: Event)
    requires Arrival(run, k)
    ensures Arrival(run + [e], k) && CallsAt(run + [e], k) == CallsAt(run, k)
    ensures (run + [e])[k + 1..] == run[k + 1..] + [e]
  {
    hide Watch;
    assert (run + [e])[..k] == run[..k];
  }

  lemma DeliveringStart(run: seq<Event>, e: Event)
    requires e.Arrived? && e.packet.PublishTo?
    ensures Delivering(run + [e], |run|, 0)
  {
    Extend(run, e);
    hide Watch, Calls;
    assert (run + [e])[..|run|] == run;
  }

  lemma CallEventsLast(calls: seq<Call>, c: Call)
    ensures CallEvents(calls + [c]) == CallEvents(calls) + [Called(c)]
  {
  }

  lemma DeliveringNext(run: seq<Event>, k: nat, n: nat, e: Event)
    requires Delivering(run, k, n) && Allowed(Watch(run), e) && e.Called?
    ensures Delivering(run + [e], k, n + 1)
  {
    Extend(run, e);
    CallsLater(run, k, e);
    hide Watch, CallsAt, CallEvents, Owed, IsPuback, AsSeq;
    var calls := CallsAt(run, k);
    assert calls[n..][0] == calls[n] && calls[n..][1..] == calls[n + 1..];
    assert calls[..n + 1] == calls[..n] + [calls[n]];
    CallEventsLast(calls[..n], calls[n]);
  }

  lemma CurrentStep(s: Monitor, e: Event)
    requires Next(s, e).current.Some?
    ensures (e.Arrived? && e.packet.PublishTo?) || (e.Called? && s.current.Some?)
  {
    hide IsPuback, AsSeq, Calls;
  }

  lemma {:induction false} FindArrival(run: seq<Event>)
    requires Ok(run) && Watch(run).current.Some?
    ensures exists k, n :: Delivering(run, k, n)
    decreases |run|
  {
    hide Delivering, Allowed, Next;
    assert run != [];
    var before, e := run[..|run| - 1], run[|run| - 1];
    assert run == before + [e];
    CurrentStep(Watch(before), e);
    if e.Arrived? {
      DeliveringStart(before, e);
    } else {
      FindArrival(before);
      var k, n :| Delivering(before, k, n);
      DeliveringNext(before, k, n, e);
    }
  }

  /** The event is an attempt to acknowledge a QoS 1 message. */
  predicate Acknowledges(e: Event) {
    (e.Sent? || e.Failed?) && IsPuback(e.bytes)
  }

  /** The PUBACK tried at i answers the message that arrived at k, and in between exactly the calls that the
      message was owed were made. */
  predicate AnswersAfterHandlers(run: seq<Event>, k: nat, i: nat) {
    k < i < |run| && Arrival(run, k) && Acknowledges(run[i]) && run[k].packet.m.qos == 1 &&
    run[i].bytes == AckBytes(PUBACK, 0, run[k].packet.m.id) &&
    run[k + 1..i] == CallEvents(CallsAt(run, k))
  }

  /** Over every run, each PUBACK comes right after all handlers of the message that it acknowledges. */
  lemma HandlersBeforeAck(run: seq<Event>, i: nat)
    requires Ok(run) && i < |run| && Acknowledges(run[i])
    ensures exists k :: AnswersAfterHandlers(run, k, i)
  {
    PrefixOk(run, i);
    var before := run[..i];
    FindArrival(before);
    var k, n :| Delivering(before, k, n);
    AckedDelivery(run, i, k, n);
  }

  lemma AckedDelivery(run: seq<Event>, i: nat, k: nat, n: nat)
    requires i < |run| && Acknowledges(run[i]) && Allowed(Watch(run[..i]), run[i]) && Delivering(run[..i], k, n)
    ensures AnswersAfterHandlers(run, k, i)
  {
    hide Watch, AckBytes, IsFrame, IsPuback, Calls;
    var before := run[..i];
    assert before[..k] == run[..k] && before[k] == run[k] && before[k + 1..] == run[k + 1..i];
    var calls := CallsAt(run, k);
    assert calls[n..] == [];
    assert calls[..n] == calls;
  }

  /** All calls of the message that arrived at k were made right after it arrived. */
  predicate Delivered(run: seq<Event>, k: nat)
    requires Arrival(run, k)
  {
    CallEvents(CallsAt(run, k)) <= run[k + 1..]
  }

  lemma {:induction false} DeliveryOf(run: seq<Event>, k: nat)
    requires Ok(run) && Arrival(run, k)
    ensures Delivered(run, k) || exists n: nat :: Delivering(run, k, n)
    decreases |run|
  {
    hide Delivering, Allowed, Next, Delivered;
    var before, e := run[..|run| - 1], run[|run| - 1];
    assert run == before + [e];
    if k == |before| {
      DeliveringStart(before, e);
    } else {
      DeliveryOf(before, k);
      DeliveryStep(before, k, e);
    }
  }

  lemma DeliveryStep(run: seq<Event>, k: nat, e: Event)
    requires Arrival(run, k) && Allowed(Watch(run), e)
    requires Delivered(run, k) || exists n: nat :: Delivering(run, k, n)
    ensures Arrival(run + [e], k)
    ensures Delivered(run + [e], k) || exists n: nat :: Delivering(run + [e], k, n)
  {
    CallsLater(run, k, e);
    hide Watch, CallsAt, Next, IsFrame, AckBytes, IsPuback, PublishBytes;
    if !Delivered(run, k) {
      var n: nat :| Delivering(run, k, n);
      if e.Called? {
        DeliveringNext(run, k, n, e);
      } else {
        AllCallsMade(run, k, n);
      }
    }
  }

  /** Over every run that owes no call, each message that arrived, at any QoS, got all its calls, in slot order,
      before anything else happened. */
  lemma EveryMessageDelivered(run: seq<Event>, k: nat)
    requires Ok(run) && Arrival(run, k) && Watch(run).owed == []
    ensures CallEvents(CallsAt(run, k)) <= run[k + 1..]
  {
    DeliveryOf(run, k);
    if n: nat :| Delivering(run, k, n) {
      AllCallsMade(run, k, n);
    }
  }

  lemma AllCallsMade(run: seq<Event>, k: nat, n: nat)
    requires Delivering(run, k, n) && Watch(run).owed == []
    ensures Delivered(run, k)
  {
    hide Watch, CallsAt;
    assert CallsAt(run, k)[n..] == [];
    assert CallsAt(run, k)[..n] == CallsAt(run, k);
  }

  /** And what these calls are: one for every attached handler whose filter matches, no other, and the default
      handler's exactly when there is none. */
  lemma CallsAreMatches(run: seq<Event>, k: nat, slot: nat)
    requires Arrival(run, k)
    ensures var s, m := Watch(run[..k]), run[k].packet.m;
            Times(CallsAt(run, k), Call(slot, m.topic, m.payload)) ==
            if (slot < |s.handlers| && Runs(s.handlers[slot], m.topic)) ||
               (slot == |s.handlers| && s.default && !AnyRuns(s.handlers, m.topic))
            then 1 else 0
  {
    var s, m := Watch(run[..k]), run[k].packet.m;
    DeliveredExactly(s.handlers, s.default, m.topic, m.payload, slot);
  }
}
