/**
 Which message handlers run for a message: the slots of MQTT/MQTTClient.h that subscribe fills and
 deliverMessage goes through.
 */
module MqttHandlers {
  import opened Bytes
  import opened TopicFilter

  /** One invocation of a message handler; slot |handlers| stands for the default handler. */
  datatype Call = Call(slot: nat, topic: bytes, payload: bytes)

  /** A slot for a subscription: a null filter marks it free. */
  datatype Handler = Handler(filter: Option<bytes>, attached: bool)

  predicate Matches(filter: bytes, topic: bytes) {
    filter == topic || LoopResult(filter, 0, topic, 0)
  }

  predicate Runs(h: Handler, topic: bytes) {
    h.filter.Some? && h.attached && Matches(h.filter.value, topic)
  }

  /** The calls for the first n slots, in slot order. */
  function SlotCalls(handlers: seq<Handler>, n: nat, topic: bytes, payload: bytes): (r: seq<Call>)
    requires n <= |handlers|
  {
    if n == 0 then []
    else SlotCalls(handlers, n - 1, topic, payload) +
         if Runs(handlers[n - 1], topic) then [Call(n - 1, topic, payload)] else []
  }

  /** All matching handlers, or the default handler if there is none. */
  function Calls(handlers: seq<Handler>, default: bool, topic: bytes, payload: bytes): (r: seq<Call>) {
    var slots := SlotCalls(handlers, |handlers|, topic, payload);
    if slots == [] && default then [Call(|handlers|, topic, payload)] else slots
  }

  predicate AnyRuns(handlers: seq<Handler>, topic: bytes) {
    exists j :: 0 <= j < |handlers| && Runs(handlers[j], topic)
  }

  /** How often a call is made. */
  function Times(calls: seq<Call>, c: Call): (n: nat) {
    if calls == [] then 0 else Times(calls[..|calls| - 1], c) + if calls[|calls| - 1] == c then 1 else 0
  }

  lemma TimesLast(calls: seq<Call>, last: Call, c: Call)
    ensures Times(calls + [last], c) == Times(calls, c) + if last == c then 1 else 0
  {
    assert (calls + [last])[..|calls|] == calls;
  }

  lemma SlotCallsStep(handlers: seq<Handler>, n: nat, topic: bytes, payload: bytes)
    requires n <= |handlers|
    ensures n == 0 ==> SlotCalls(handlers, n, topic, payload) == []
    ensures n > 0 ==>
              SlotCalls(handlers, n, topic, payload) ==
              if Runs(handlers[n - 1], topic)
              then SlotCalls(handlers, n - 1, topic, payload) + [Call(n - 1, topic, payload)]
              else SlotCalls(handlers, n - 1, topic, payload)
  {
    hide Runs;
  }

  lemma {:induction false} SlotCallsExactly(handlers: seq<Handler>, n: nat, topic: bytes, payload: bytes, slot: nat)
    requires n <= |handlers|
    ensures Times(SlotCalls(handlers, n, topic, payload), Call(slot, topic, payload)) ==
            if slot < n && Runs(handlers[slot], topic) then 1 else 0
  {
    var c := Call(slot, topic, payload);
    SlotCallsStep(handlers, n, topic, payload);
    assert Times([], c) == 0;
    hide Runs, SlotCalls, Times;
    if n > 0 {
      var before := SlotCalls(handlers, n - 1, topic, payload);
      SlotCallsExactly(handlers, n - 1, topic, payload, slot);
      if Runs(handlers[n - 1], topic) {
        TimesLast(before, Call(n - 1, topic, payload), c);
        assert slot == n - 1 ==> Times(before, c) == 0;
      }
    }
  }

  lemma {:induction false} NoSlotCalls(handlers: seq<Handler>, n: nat, topic: bytes, payload: bytes)
    requires n <= |handlers|
    ensures SlotCalls(handlers, n, topic, payload) == [] <==> forall j :: 0 <= j < n ==> !Runs(handlers[j], topic)
  {
    hide Runs;
    if n > 0 {
      NoSlotCalls(handlers, n - 1, topic, payload);
    }
  }

  /** The calls of the first slots come first. */
  lemma {:induction false} SlotCallsPrefix(handlers: seq<Handler>, i: nat, n: nat, topic: bytes, payload: bytes)
    requires i <= n <= |handlers|
    ensures SlotCalls(handlers, i, topic, payload) <= SlotCalls(handlers, n, topic, payload)
  {
    hide Runs;
    if i < n {
      SlotCallsPrefix(handlers, i, n - 1, topic, payload);
    }
  }

  /** When slot i runs, its call is the next one after those of the slots before it. */
  lemma NextSlotCall(handlers: seq<Handler>, i: nat, default: bool, topic: bytes, payload: bytes)
    requires i < |handlers|
    ensures var made := SlotCalls(handlers, i, topic, payload);
            var calls := Calls(handlers, default, topic, payload);
            |made| <= |calls| &&
            (Runs(handlers[i], topic) ==> |made| < |calls| && calls[|made|] == Call(i, topic, payload))
  {
    var all := SlotCalls(handlers, |handlers|, topic, payload);
    SlotCallsStep(handlers, i + 1, topic, payload);
    SlotCallsPrefix(handlers, i, |handlers|, topic, payload);
    SlotCallsPrefix(handlers, i + 1, |handlers|, topic, payload);
    hide Runs, SlotCalls;
  }

  /** A message runs every attached handler whose filter matches exactly once and no other one; the default
      handler runs exactly when none of them does. */
  lemma DeliveredExactly(handlers: seq<Handler>, default: bool, topic: bytes, payload: bytes, slot: nat)
    ensures Times(Calls(handlers, default, topic, payload), Call(slot, topic, payload)) ==
            if (slot < |handlers| && Runs(handlers[slot], topic)) ||
               (slot == |handlers| && default && !AnyRuns(handlers, topic))
            then 1 else 0
  {
    hide Runs, SlotCalls;
    SlotCallsExactly(handlers, |handlers|, topic, payload, slot);
    NoSlotCalls(handlers, |handlers|, topic, payload);
  }

  /** The calls come in slot order, each with the topic and payload of the message. */
  lemma {:induction false} CallsInOrder(handlers: seq<Handler>, n: nat, topic: bytes, payload: bytes)
    requires n <= |handlers|
    ensures var calls := SlotCalls(handlers, n, topic, payload);
            (forall i :: 0 <= i < |calls| ==>
               calls[i].slot < n && calls[i].topic == topic && calls[i].payload == payload) &&
            forall i, j :: 0 <= i < j < |calls| ==> calls[i].slot < calls[j].slot
  {
    SlotCallsStep(handlers, n, topic, payload);
    hide Runs, SlotCalls;
    if n > 0 {
      CallsInOrder(handlers, n - 1, topic, payload);
    }
  }

  /** For a well-formed filter, which handlers run is decided level by level. */
  lemma RunsByLevels(h: Handler, topic: bytes)
    requires h.filter.Some? && FilterOk(Levels(h.filter.value, 0))
    ensures Runs(h, topic) <==>
            h.attached && (h.filter.value == topic || MatchLevels(Levels(h.filter.value, 0), Levels(topic, 0)))
  {
    LoopIsLevelMatcher(h.filter.value, 0, topic, 0);
  }

  // ----- subscriptions -----

  /** The first free slot, or the number of slots. */
  function FirstFree(handlers: seq<Handler>): (r: nat)
    ensures r <= |handlers| && (r < |handlers| ==> handlers[r].filter.None?)
    ensures forall j :: 0 <= j < r ==> handlers[j].filter.Some?
  {
    if handlers == [] || handlers[0].filter.None? then 0 else 1 + FirstFree(handlers[1..])
  }

  /** What subscribe does with the return codes of the SUBACK. The code it goes by is the first one; it is
      -1 without any, and 0 when there were too many for the packet to be read. */
  predicate Subscribed(before: seq<Handler>, after: seq<Handler>, h: Handler, codes: bytes, rc: int) {
    var granted: int := if |codes| > 2 then 0 else if codes == [] then -1 else codes[0] as int;
    var free := FirstFree(before);
    if granted == 0x80 then after == before && rc == 0x80
    else if free < |before| then after == before[free := h] && rc == 0
    else after == before && rc == granted
  }

  /** What a subscription comes to, by the slots and the calls. With a slot free and no refusal, exactly one slot has
      changed: the first free one holds the filter, and if a handler is attached, a message to the topic of that
      name runs it exactly once. Otherwise every message is handled as before. */
  lemma SubscriptionMeans(before: seq<Handler>, after: seq<Handler>, h: Handler, codes: bytes, rc: int)
    requires Subscribed(before, after, h, codes, rc) && h.filter.Some?
    ensures 1 <= |codes| <= 2 && codes[0] == 0x80 ==> rc == 0x80 && after == before
    ensures (forall j :: 0 <= j < |before| ==> before[j].filter.Some?) ==>
              after == before && rc == if codes == [] then -1 else if |codes| > 2 then 0 else codes[0] as int
    ensures !(1 <= |codes| <= 2 && codes[0] == 0x80) && (exists j :: 0 <= j < |before| && before[j].filter.None?) ==>
              rc == 0 && |after| == |before| &&
              exists j :: 0 <= j < |before| && before[j].filter.None? && after[j] == h &&
                (forall i :: 0 <= i < j ==> before[i].filter.Some?) &&
                (forall i :: 0 <= i < |before| && i != j ==> after[i] == before[i]) &&
                forall default, payload :: h.attached ==>
                  Times(Calls(after, default, h.filter.value, payload), Call(j, h.filter.value, payload)) == 1
  {
    hide SlotCalls, Times, LoopResult;
    var j := FirstFree(before);
    if j < |before| && after != before {
      forall default, payload | h.attached
        ensures Times(Calls(after, default, h.filter.value, payload), Call(j, h.filter.value, payload)) == 1
      {
        DeliveredExactly(after, default, h.filter.value, payload, j);
      }
    }
  }

  /** When a full table is no failure: for a granted QoS of 0 only, although the broker did subscribe. */
  lemma SubscribedExactly(before: seq<Handler>, after: seq<Handler>, h: Handler, codes: bytes, rc: int)
    requires Subscribed(before, after, h, codes, rc) && 1 <= |codes| <= 2 && codes[0] < 3
    ensures rc == 0 <==> FirstFree(before) < |before| || codes[0] == 0
  {
  }

  /** A granted QoS of 1 with the only slot taken: the result is 1, which the caller takes for a failure. */
  lemma GrantedButFailed(taken: bytes, h: Handler)
    ensures var slots := [Handler(Some(taken), true)]; Subscribed(slots, slots, h, [1], 1)
  {
    assert FirstFree([Handler(Some(taken), true)][1..]) == 0;
  }
}
