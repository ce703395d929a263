/**
 An application that uses the client of MQTT/MQTTClient.h: any sequence of calls of its public methods,
 with every publish made through the overloads without an id argument.
 */
module MqttSession {
  import opened Bytes
  import opened MqttWire
  import opened MqttPublish
  import opened MqttConnect
  import opened MqttTrace
  import opened MqttClient

  datatype Request =
    | Connecting(options: ConnectData)
    | Publishing(topic: bytes, payload: bytes, qos: nat, retained: bool)
    | Subscribing(filter: bytes, sqos: nat, attached: bool)
    | Unsubscribing(ufilter: bytes)
    | Disconnecting
    | Yielding(timeout: nat)
    | SettingDefaultHandler(given: bool)
  {
    /** The arguments fit a packet. */
    predicate Legal() {
      match this
      case Connecting(o) => o.Writable() && ConnectLength(o) <= MAX_REMAINING_LENGTH
      case Publishing(t, p, q, _) => |t| < 65536 && q < 3 && PublishRemaining(q, |t|, |p|) <= MAX_REMAINING_LENGTH
      case Subscribing(f, q, _) => |f| < 65536 && q < 3
      case Unsubscribing(f) => |f| < 65536
      case _ => true
    }

    predicate AtMostQos1() { Publishing? ==> qos < 2 }
  }

  /** The call left its mark on the run: disconnect tries its packet, and a default handler is installed. */
  predicate Made(request: Request, size: nat, before: seq<Event>, after: seq<Event>) {
    before <= after &&
    match request
    case Disconnecting =>
      size >= 2 ==>
        after == before + [Sent(ZeroBytes(DISCONNECT))] || after == before + [Failed(ZeroBytes(DISCONNECT))]
    case SettingDefaultHandler(given) =>
      |after| == |before| + 1 && after[|before|].Installed? && after[|before|].default == given
    case _ => true
  }

  predicate AllLegal(requests: seq<Request>) {
    forall i :: 0 <= i < |requests| ==> requests[i].Legal()
  }

  predicate AllAtMostQos1(requests: seq<Request>) {
    forall i :: 0 <= i < |requests| ==> requests[i].AtMostQos1()
  }

  /** Every request is served in turn; runs are the histories before, between and after the calls. No QoS 1 message is
      lost: whatever the application does, if it publishes at QoS 0 and 1 only and no PUBACK that ended a wait had a
      foreign id, the messages recorded are those acknowledged, in order, and the one in flight. */
  method Run(client: Client, requests: seq<Request>) returns (ghost runs: seq<seq<Event>>)
    requires client.Valid() && AllLegal(requests)
    modifies client, client.net, client.lastSent, client.lastReceived, client.sendbuf, client.readbuf, client.pubbuf
    ensures client.Valid() && old(client.trace) <= client.trace
    ensures |runs| == |requests| + 1 && runs[0] == old(client.trace) && runs[|requests|] == client.trace
    ensures forall i :: 0 <= i < |requests| ==> Made(requests[i], client.size, runs[i], runs[i + 1])
    ensures AllAtMostQos1(requests) && old(AllQos1(client.mon.recorded)) && Mismatched !in client.trace ==>
              client.mon.trusted && client.mon.lost == [] &&
              client.mon.recorded == client.mon.settled + AsSeq(client.mon.inflight)
  {
    hide Client.Valid, AllQos1, Made;
    ghost var run := client.trace;
    runs := [run];
    for i := 0 to |requests|
      invariant client.Valid() && run <= client.trace
      invariant |runs| == i + 1 && runs[0] == run && runs[i] == client.trace
      invariant forall j :: 0 <= j < i ==> Made(requests[j], client.size, runs[j], runs[j + 1])
      invariant AllAtMostQos1(requests) && old(AllQos1(client.mon.recorded)) ==> AllQos1(client.mon.recorded)
    {
      Serve(client, requests[i]);
      runs := runs + [client.trace];
    }
    Summary(client);
  }

  method Serve(client: Client, request: Request)
    requires client.Valid() && request.Legal()
    modifies client, client.net, client.lastSent, client.lastReceived, client.sendbuf, client.readbuf, client.pubbuf
    ensures client.Valid() && old(client.trace) <= client.trace
    ensures Made(request, client.size, old(client.trace), client.trace)
    ensures request.AtMostQos1() && AllQos1(old(client.mon.recorded)) ==> AllQos1(client.mon.recorded)
  {
    hide Client.Valid, AllQos1;
    match request
    case Connecting(options) =>
      var rc, connack, at, clock := client.Connect(options);
    case Publishing(topic, payload, qos, retained) =>
      var rc, id, clock := client.PublishWithoutId(topic, payload, qos, retained);
      AppendQos1(old(client.mon.recorded), Publish(0, qos, if retained then 1 else 0, id, topic, payload));
    case Subscribing(filter, qos, attached) =>
      var rc, suback, clock := client.Subscribe(filter, qos, attached);
    case Unsubscribing(filter) =>
      var rc, clock := client.Unsubscribe(filter);
    case Disconnecting =>
      var rc, clock := client.Disconnect();
    case Yielding(timeout) =>
      var rc, clock := client.Yield(timeout);
    case SettingDefaultHandler(given) =>
      client.SetDefaultMessageHandler(given);
  }

  lemma Summary(client: Client)
    requires client.Valid()
    ensures AllQos1(client.mon.recorded) && Mismatched !in client.trace ==>
              client.mon.trusted && client.mon.lost == [] &&
              client.mon.recorded == client.mon.settled + AsSeq(client.mon.inflight)
  {
    TrustedMeans(client.trace);
    if client.mon.trusted {
      NoMessageLost(client.trace);
    }
  }
}
