/**
 The table of incoming QoS 2 message ids of MQTT/MQTTClient.h, built with MQTTCLIENT_QOS2=1.
 */
module Qos2Table {
  const MAX_INCOMING: nat := 10

  /** The ids in the table after another PUBLISH, and whether its handlers run. */
  function Accept(ids: seq<nat>, id: nat): (r: (seq<nat>, bool)) {
    if id != 0 && id !in ids && |ids| < MAX_INCOMING then (ids + [id], true) else (ids, false)
  }

  class IncomingQos2 {
    const messages: array<nat>
    /** The ids in use, in slot order. */
    ghost var ids: seq<nat>

    /** A prefix of distinct non-zero ids, followed by zeros. */
    ghost predicate Valid()
      reads this, messages
    {
      && messages.Length == MAX_INCOMING
      && |ids| <= MAX_INCOMING
      && (forall i :: 0 <= i < |ids| ==> messages[i] == ids[i] != 0)
      && (forall i :: |ids| <= i < MAX_INCOMING ==> messages[i] == 0)
      && (forall i, j :: 0 <= i < j < |ids| ==> ids[i] != ids[j])
    }

    constructor ()
      ensures Valid() && ids == [] && fresh(messages)
    {
      messages := new nat[MAX_INCOMING](_ => 0);
      ids := [];
    }

    /** isQoS2msgidFree. Zero is free only when no slot is empty. */
    method IsFree(id: nat) returns (free: bool)
      requires Valid()
      ensures free <==> id !in ids && (id == 0 ==> |ids| == MAX_INCOMING)
    {
      for i := 0 to MAX_INCOMING
        invariant forall k :: 0 <= k < i ==> messages[k] != id
      {
        if messages[i] == id {
          return false;
        }
      }
      if |ids| < MAX_INCOMING { assert messages[|ids|] == 0; }
      assert forall i :: 0 <= i < |ids| ==> ids[i] == messages[i] != id;
      return true;
    }

    /** useQoS2msgid. */
    method Use(id: nat) returns (stored: bool)
      requires Valid() && id !in ids && (id == 0 ==> |ids| == MAX_INCOMING)
      modifies this, messages
      ensures Valid()
      ensures stored <==> |old(ids)| < MAX_INCOMING
      ensures ids == if stored then old(ids) + [id] else old(ids)
    {
      for i := 0 to MAX_INCOMING
        invariant i <= |ids|
        invariant Valid() && ids == old(ids) && messages[..] == old(messages[..])
      {
        if messages[i] == 0 {
          assert i == |ids|;
          messages[i] := id;
          ids := ids + [id];
          return true;
        }
      }
      return false;
    }

    /** The branch of cycle that a QoS 2 PUBLISH takes. */
    method Receive(id: nat) returns (delivered: bool)
      requires Valid()
      modifies this, messages
      ensures Valid()
      ensures (ids, delivered) == Accept(old(ids), id)
    {
      delivered := false;
      var free := IsFree(id);
      if free {
        delivered := Use(id);
      }
    }
  }

  // ----- whole runs -----

  /** The table after the given arrivals. */
  function TableAfter(arrivals: seq<nat>): (r: seq<nat>) {
    if arrivals == [] then [] else Accept(TableAfter(arrivals[..|arrivals| - 1]), arrivals[|arrivals| - 1]).0
  }

  /** The ids of the messages that were delivered, in order. */
  function DeliveredIds(arrivals: seq<nat>): (r: seq<nat>) {
    if arrivals == [] then []
    else
      var before, id := arrivals[..|arrivals| - 1], arrivals[|arrivals| - 1];
      DeliveredIds(before) + if Accept(TableAfter(before), id).1 then [id] else []
  }

  /** The non-zero ids in order of their first arrival. */
  function FirstArrivals(arrivals: seq<nat>): (r: seq<nat>) {
    if arrivals == [] then []
    else
      var before, id := arrivals[..|arrivals| - 1], arrivals[|arrivals| - 1];
      FirstArrivals(before) + if id != 0 && id !in before then [id] else []
  }

  function FirstTen(ids: seq<nat>): (r: seq<nat>) {
    if |ids| <= 10 then ids else ids[..10]
  }

  lemma {:induction false} FirstArrivalsAre(arrivals: seq<nat>, id: nat)
    ensures id in FirstArrivals(arrivals) <==> id in arrivals && id != 0
    decreases |arrivals|
  {
    if arrivals != [] {
      var before := arrivals[..|arrivals| - 1];
      assert arrivals == before + [arrivals[|arrivals| - 1]];
      FirstArrivalsAre(before, id);
    }
  }

  /** Over every run, the ids delivered are exactly the first ten distinct non-zero ids in order of
      first arrival, each once, and they are what the table holds. */
  lemma {:induction false} AtMostOnceDelivery(arrivals: seq<nat>)
    ensures DeliveredIds(arrivals) == TableAfter(arrivals) == FirstTen(FirstArrivals(arrivals))
    ensures forall i, j :: 0 <= i < j < |DeliveredIds(arrivals)| ==>
              DeliveredIds(arrivals)[i] != DeliveredIds(arrivals)[j]
    decreases |arrivals|
  {
    if arrivals != [] {
      var before, id := arrivals[..|arrivals| - 1], arrivals[|arrivals| - 1];
      AtMostOnceDelivery(before);
      FirstArrivalsAre(before, id);
    }
  }
}
