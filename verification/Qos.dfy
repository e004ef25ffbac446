/** What the MQTT client's queue looks like in every run (lib/mqtt/mqtt.c): the order in which QoS 2
    messages go out, and the exactly-once delivery of the QoS 2 messages that come in. */
module Qos {
  import opened Bytes
  import opened SendBuffer

  const CONNECT: Kind := 1
  const CONNACK: Kind := 2
  const PUBLISH: Kind := 3
  const PUBACK: Kind := 4
  const PUBREC: Kind := 5
  const PUBREL: Kind := 6
  const PUBCOMP: Kind := 7
  const SUBSCRIBE: Kind := 8
  const SUBACK: Kind := 9
  const UNSUBSCRIBE: Kind := 10
  const UNSUBACK: Kind := 11
  const PINGREQ: Kind := 12
  const PINGRESP: Kind := 13
  const DISCONNECT: Kind := 14

  /** The QoS bits of a fixed header. */
  function QosOf(b: Byte): nat {
    b as int / 2 % 4
  }

  /** MQTT_PUBLISH_DUP set. */
  function WithDup(b: Byte): Byte {
    if b as int / 8 % 2 == 1 then b else b + 8
  }

  predicate IsQos2(x: Message) {
    x.kind == PUBLISH && x.bytes != [] && QosOf(x.bytes[0]) == 2
  }

  /** At most one QoS 2 PUBLISH awaits its acknowledgement: the oldest that is not complete. */
  predicate OneInFlight(ms: seq<Message>) {
    forall i, j :: 0 <= i < j < |ms| && IsQos2(ms[i]) && IsQos2(ms[j]) && ms[j].state == AwaitingAck
      ==> ms[i].state == Complete
  }

  predicate OnePubrec(ms: seq<Message>) {
    forall i, j :: 0 <= i < j < |ms| && ms[i].kind == PUBREC && ms[j].kind == PUBREC ==> ms[i].id != ms[j].id
  }

  predicate NonEmpty(ms: seq<Message>) {
    forall i :: 0 <= i < |ms| ==> ms[i].bytes != []
  }

  // What happened: the callback ran for a QoS 2 PUBLISH, or a PUBREL came in.
  datatype Event = Delivered(id: Pid) | Released(id: Pid)

  /** The last event for the id is a delivery. */
  predicate Open(log: seq<Event>, id: Pid) {
    if log == [] then false
    else if log[|log| - 1].id == id then log[|log| - 1].Delivered?
    else Open(log[..|log| - 1], id)
  }

  /** No delivery happens while the id is open. */
  predicate Once(log: seq<Event>) {
    forall i :: 0 <= i < |log| && log[i].Delivered? ==> !Open(log[..i], log[i].id)
  }

  lemma {:induction false} StaysOpen(log: seq<Event>, i: nat, j: nat, id: Pid)
    requires i < j <= |log| && log[i] == Delivered(id) && forall k :: i < k < j ==> log[k] != Released(id)
    ensures Open(log[..j], id)
  {
    var l := log[..j];
    assert l[..|l| - 1] == log[..j - 1];
    if i < j - 1 {
      StaysOpen(log, i, j - 1, id);
    }
  }

  /** Between two deliveries of an id a PUBREL for it came in. */
  lemma DeliveredOnce(log: seq<Event>, i: nat, j: nat, id: Pid)
    requires Once(log) && i < j < |log| && log[i] == Delivered(id) && log[j] == Delivered(id)
    ensures exists k :: i < k < j && log[k] == Released(id)
  {
    if forall k :: i < k < j ==> log[k] != Released(id) {
      StaysOpen(log, i, j, id);
    }
  }

  /** Some PUBREC for the id is queued. */
  predicate Queued(ms: seq<Message>, id: Pid) {
    exists i :: 0 <= i < |ms| && ms[i].kind == PUBREC && ms[i].id == id
  }

  /** Some PUBREC for the id is queued and not complete. */
  predicate Pending(ms: seq<Message>, id: Pid) {
    exists i :: 0 <= i < |ms| && ms[i].kind == PUBREC && ms[i].id == id && ms[i].state != Complete
  }

  /** A PUBREC that is not complete stands for an id that is open. */
  ghost predicate Answered(ms: seq<Message>, log: seq<Event>) {
    forall id: Pid :: Open(log, id) <==> Pending(ms, id)
  }

  /** What holds of the queue and the history between any two calls. */
  ghost predicate Inv(ms: seq<Message>, log: seq<Event>) {
    NonEmpty(ms) && OneInFlight(ms) && OnePubrec(ms) && Once(log) && Answered(ms, log)
  }

  function Rank(s: State): nat {
    match s
    case Unsent => 0
    case AwaitingAck => 1
    case Complete => 2
  }

  /** The same message, perhaps further on; only the DUP bit of a packet may change. */
  predicate Advanced(x: Message, y: Message) {
    && x.kind == y.kind && x.id == y.id && Rank(x.state) <= Rank(y.state)
    && (x.bytes != [] ==> |y.bytes| == |x.bytes| && y.bytes[1..] == x.bytes[1..]
                          && (y.bytes[0] == x.bytes[0] || y.bytes[0] == WithDup(x.bytes[0])))
  }

  /** From `a` the history of all messages became `b`: the old ones only moved forward, and new
      ones follow. */
  predicate Onward(a: seq<Message>, b: seq<Message>) {
    |a| <= |b| && forall i :: 0 <= i < |a| ==> Advanced(a[i], b[i])
  }

  lemma DupKeepsQos(b: Byte)
    ensures QosOf(WithDup(b)) == QosOf(b) && WithDup(WithDup(b)) == WithDup(b)
  {
    var n := b as int;
    if n / 8 % 2 == 0 {
      assert (n + 8) / 8 == n / 8 + 1 && (n + 8) / 2 == n / 2 + 4;
    }
  }

  lemma AdvancedTrans(x: Message, y: Message, z: Message)
    requires Advanced(x, y) && Advanced(y, z) && x.bytes != []
    ensures Advanced(x, z)
  {
    DupKeepsQos(x.bytes[0]);
  }

  lemma OnwardSame(a: seq<Message>)
    ensures Onward(a, a)
  {
  }

  lemma OnwardTrans(a: seq<Message>, b: seq<Message>, c: seq<Message>)
    requires Onward(a, b) && Onward(b, c) && NonEmpty(a)
    ensures Onward(a, c)
  {
    forall i | 0 <= i < |a| ensures Advanced(a[i], c[i]) {
      AdvancedTrans(a[i], b[i], c[i]);
    }
  }

  // The steps a client takes on the queue, and why each keeps the invariant.

  lemma {:induction false} CleanedSuffix(ms: seq<Message>) returns (k: nat)
    ensures k <= |ms| && Cleaned(ms) == ms[k..] && forall i :: 0 <= i < k ==> ms[i].state == Complete
  {
    k := 0;
    if ms != [] && ms[0].state == Complete {
      k := CleanedSuffix(ms[1..]);
      assert ms[1..][k..] == ms[k + 1..];
      forall i | 0 <= i < k + 1 ensures ms[i].state == Complete {
        assert i > 0 ==> ms[i] == ms[1..][i - 1];
      }
      k := k + 1;
    }
  }

  lemma CleanKeeps(ms: seq<Message>, log: seq<Event>, k: nat)
    requires Inv(ms, log) && k <= |ms| && forall i :: 0 <= i < k ==> ms[i].state == Complete
    ensures Inv(ms[k..], log)
  {
    var ns := ms[k..];
    forall id: Pid ensures Pending(ns, id) <==> Pending(ms, id) {
      if Pending(ms, id) {
        var i :| 0 <= i < |ms| && ms[i].kind == PUBREC && ms[i].id == id && ms[i].state != Complete;
        assert ns[i - k] == ms[i];
      }
      if Pending(ns, id) {
        var i :| 0 <= i < |ns| && ns[i].kind == PUBREC && ns[i].id == id && ns[i].state != Complete;
        assert ms[i + k] == ns[i];
      }
    }
    forall i, j | 0 <= i < j < |ns| ensures ns[i] == ms[i + k] && ns[j] == ms[j + k] {
    }
  }

  /** A new message that is not a PUBREC. */
  lemma AppendKeeps(ms: seq<Message>, log: seq<Event>, x: Message)
    requires Inv(ms, log) && x.kind != PUBREC && x.state == Unsent && x.bytes != []
    ensures Inv(ms + [x], log)
  {
    var ns := ms + [x];
    forall id: Pid ensures Pending(ns, id) <==> Pending(ms, id) {
      if Pending(ms, id) {
        var i :| 0 <= i < |ms| && ms[i].kind == PUBREC && ms[i].id == id && ms[i].state != Complete;
        assert ns[i] == ms[i];
      }
    }
  }

  /** A new PUBREC, and the delivery that goes with it. */
  lemma PubrecKeeps(ms: seq<Message>, log: seq<Event>, x: Message)
    requires Inv(ms, log) && x.kind == PUBREC && x.state == Unsent && x.bytes != [] && !Queued(ms, x.id)
    ensures Inv(ms + [x], log + [Delivered(x.id)])
  {
    var ns, l := ms + [x], log + [Delivered(x.id)];
    assert l[..|log|] == log;
    assert !Pending(ms, x.id);
    forall i | 0 <= i < |l| && l[i].Delivered? ensures !Open(l[..i], l[i].id) {
      assert l[..i] == log[..i];
    }
    assert log[..|log|] == log;
    forall id: Pid ensures Open(l, id) <==> Pending(ns, id) {
      assert ns[|ms|] == x;
      if Pending(ms, id) {
        var i :| 0 <= i < |ms| && ms[i].kind == PUBREC && ms[i].id == id && ms[i].state != Complete;
        assert ns[i] == ms[i];
      }
    }
  }

  /** A message that is no PUBREC is completed. */
  lemma CompleteKeeps(ms: seq<Message>, log: seq<Event>, i: nat, x: Message)
    requires Inv(ms, log) && i < |ms| && ms[i].kind != PUBREC && x == ms[i].(state := Complete)
    ensures Inv(ms[i := x], log)
  {
    var ns := ms[i := x];
    SamePending(ms, ns, i);
  }

  lemma SamePending(ms: seq<Message>, ns: seq<Message>, i: nat)
    requires |ns| == |ms| && i < |ms| && ns == ms[i := ns[i]]
    requires ms[i].kind == ns[i].kind && ms[i].id == ns[i].id
    requires ms[i].kind != PUBREC || (ms[i].state != Complete && ns[i].state != Complete)
    ensures forall id: Pid :: Pending(ns, id) <==> Pending(ms, id)
  {
    forall id: Pid ensures Pending(ns, id) <==> Pending(ms, id) {
      if Pending(ms, id) {
        var k :| 0 <= k < |ms| && ms[k].kind == PUBREC && ms[k].id == id && ms[k].state != Complete;
        assert ns[k].kind == PUBREC && ns[k].id == id;
      }
      if Pending(ns, id) {
        var k :| 0 <= k < |ns| && ns[k].kind == PUBREC && ns[k].id == id && ns[k].state != Complete;
        assert ms[k].kind == PUBREC && ms[k].id == id;
      }
    }
  }

  /** A PUBREL came in: the PUBREC, if there is one, is completed. */
  lemma ReleaseKeeps(ms: seq<Message>, log: seq<Event>, i: nat, x: Message)
    requires Inv(ms, log) && i < |ms| && ms[i].kind == PUBREC && x == ms[i].(state := Complete)
    ensures Inv(ms[i := x], log + [Released(x.id)])
  {
    var ns, l := ms[i := x], log + [Released(x.id)];
    LogMore(log, Released(x.id));
    forall id: Pid ensures Open(l, id) <==> Pending(ns, id) {
      if id != x.id && Pending(ms, id) {
        var k :| 0 <= k < |ms| && ms[k].kind == PUBREC && ms[k].id == id && ms[k].state != Complete;
        assert ns[k] == ms[k];
      }
      if Pending(ns, id) {
        var k :| 0 <= k < |ns| && ns[k].kind == PUBREC && ns[k].id == id && ns[k].state != Complete;
        assert k != i && ms[k] == ns[k] && ms[k].id != ms[i].id;
      }
    }
  }

  lemma LogMore(log: seq<Event>, e: Event)
    requires Once(log) && (e.Delivered? ==> !Open(log, e.id))
    ensures Once(log + [e])
    ensures forall id: Pid :: Open(log + [e], id) == if e.id == id then e.Delivered? else Open(log, id)
  {
    var l := log + [e];
    assert l[..|log|] == log;
    forall i | 0 <= i < |l| && l[i].Delivered? ensures !Open(l[..i], l[i].id) {
      assert l[..i] == log[..i];
    }
  }

  /** A PUBREL came in for an id of which no PUBREC is queued. */
  lemma UnknownKeeps(ms: seq<Message>, log: seq<Event>, id: Pid)
    requires Inv(ms, log) && !Queued(ms, id)
    ensures Inv(ms, log + [Released(id)])
  {
    LogMore(log, Released(id));
    assert !Pending(ms, id);
  }

  /** Message `i` was sent; a QoS 2 PUBLISH is only if all before it are complete. */
  lemma SendKeeps(ms: seq<Message>, log: seq<Event>, i: nat, x: Message)
    requires Inv(ms, log) && i < |ms| && Advanced(ms[i], x) && ms[i].state != Complete
    requires ms[i].kind == PUBREC ==> x.state != Complete
    requires IsQos2(x) ==> forall j :: 0 <= j < i && IsQos2(ms[j]) ==> ms[j].state == Complete
    requires IsQos2(x) ==> x.state != Complete
    ensures Inv(ms[i := x], log)
  {
    var ns := ms[i := x];
    DupKeepsQos(ms[i].bytes[0]);
    SamePending(ms, ns, i);
    assert IsQos2(ms[i]) <==> IsQos2(x);
  }
}
