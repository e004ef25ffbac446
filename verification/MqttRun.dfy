/** Whole runs of the MQTT client (lib/mqtt/mqtt.c): its calls in any order, from initialisation on. */
module MqttRun {
  import opened Bytes
  import opened LittleEndian
  import opened MqttClient
  import opened Qos
  import opened SendBuffer

  /** A call, with what the packers, the clock, the socket and the broker make of it. */
  datatype Call =
    | Connecting(keepAlive: int, packet: Packet)
    | Requesting(kind: Kind, hasId: bool, id: Pid, packet: Packet)
    | Sending(time: nat -> Time, outcome: nat -> Outcome, packet: Packet)
    | Receiving(responses: seq<Response>, acks: seq<Packet>)

  ghost predicate Permitted(call: Call) {
    match call
    case Connecting(_, packet) => Proper(packet)
    case Requesting(kind, _, _, packet) => Proper(packet) && kind != PUBREC
    case Sending(_, outcome, packet) => Proper(packet) && forall i :: outcome(i).Failed? ==> outcome(i).error < 0
    case Receiving(responses, acks) => |acks| == |responses| && forall p :: p in acks ==> Proper(p)
  }

  /** Between two deliveries of an id a PUBREL for it came in. */
  ghost predicate DeliveredOnceEach(log: seq<Event>) {
    forall i, j :: 0 <= i < j < |log| && log[i].Delivered? && log[j] == log[i] ==>
      exists k :: i < k < j && log[k] == Released(log[i].id)
  }

  lemma OnceEach(log: seq<Event>)
    requires Once(log)
    ensures DeliveredOnceEach(log)
  {
    forall i, j | 0 <= i < j < |log| && log[i].Delivered? && log[j] == log[i]
      ensures exists k :: i < k < j && log[k] == Released(log[i].id)
    {
      DeliveredOnce(log, i, j, log[i].id);
    }
  }

  method Step(c: Client, call: Call)
    requires c.Valid() && Permitted(call)
    modifies c, c.mq, c.mq.mem
    ensures c.Valid() && Onward(old(c.history), c.history) && old(c.log) <= c.log && old(c.gone) <= c.gone
  {
    var rv;
    match call
    case Connecting(keepAlive, packet) => rv := c.Connect(keepAlive, packet);
    case Requesting(kind, hasId, id, packet) => rv := c.Request(kind, hasId, id, packet);
    case Sending(time, outcome, packet) => rv := c.Send(time, outcome, packet);
    case Receiving(responses, acks) => rv := c.Recv(responses, acks);
  }

  /** In every run: messages only move forward (`histories` are all that were ever queued, after each
      call), at most one QoS 2 PUBLISH awaits an answer, the oldest that is not complete, at most one
      PUBREC is queued for an id, and the callback runs once for an id between two PUBRELs. */
  method Run(sendbuf: array<Byte>, layout: Layout, calls: seq<Call>)
    returns (c: Client, ghost histories: seq<seq<Message>>)
    requires Sound(layout) && sendbuf.Length < TWO64 && forall call :: call in calls ==> Permitted(call)
    modifies sendbuf
    ensures c.Valid() && OneInFlight(c.mq.messages) && OnePubrec(c.mq.messages) && DeliveredOnceEach(c.log)
    ensures |histories| == |calls| + 1 && histories[|calls|] == c.history
    ensures forall i :: 0 <= i < |calls| ==> Onward(histories[i], histories[i + 1])
  {
    c := new Client(sendbuf, layout);
    histories := [c.history];
    var i := 0;
    while i < |calls|
      invariant 0 <= i <= |calls| && c.Valid() && fresh(c) && fresh(c.mq) && c.mq.mem == sendbuf
      invariant |histories| == i + 1 && histories[i] == c.history
      invariant forall k :: 0 <= k < i ==> Onward(histories[k], histories[k + 1])
    {
      Step(c, calls[i]);
      histories := histories + [c.history];
      i := i + 1;
    }
    OnceEach(c.log);
  }
}
