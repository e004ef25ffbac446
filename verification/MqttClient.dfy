/** The MQTT client (lib/mqtt/mqtt.c): requests, sending and receiving on one message queue. */
module MqttClient {
  import opened Bytes
  import opened SendBuffer
  import opened LittleEndian
  import opened MqttErrors
  import opened Qos

  /** What a packer makes of its arguments: an error, or the bytes of a packet. */
  datatype Packet = Bad(error: int) | TooLong | Packet(bytes: seq<Byte>)

  /** A packet that fits without cleaning. */
  predicate Fitting(p: Packet, room: nat) {
    p.Packet? && |p.bytes| <= room
  }

  predicate Proper(p: Packet) {
    match p
    case Bad(e) => e < 0
    case TooLong => true
    case Packet(bytes) => bytes != []
  }

  /** What a packer returns: an error, 0 for too little room, or the size of the packet. */
  function PackIn(p: Packet, room: nat): int {
    match p
    case Bad(e) => e
    case TooLong => if room == 0 then 0 else INVALID_REMAINING_LENGTH
    case Packet(bytes) => if |bytes| <= room then |bytes| else 0
  }

  /** What MQTT_CLIENT_TRY_PACK comes to, given the room before and after cleaning. */
  function Verdict(error: int, p: Packet, room: nat, clean: nat): int {
    if error < 0 then error
    else
      var r := if PackIn(p, room) == 0 then PackIn(p, clean) else PackIn(p, room);
      if r < 0 then r else if r == 0 then SEND_BUFFER_IS_FULL else OK
  }

  class Client {
    const mq: MessageQueue
    var error: int
    var keepAlive: int
    var responseTimeout: int
    var timeouts: nat
    var timeOfLastSend: int
    /** Every message ever queued; the first `gone` of them were cleaned away. */
    ghost var history: seq<Message>
    ghost var gone: nat
    ghost var log: seq<Event>

    /** The queue is the tail of the history, and only complete messages are gone. */
    ghost predicate Base()
      reads this, mq, mq.mem
    {
      && mq.Valid() && gone <= |history| && mq.messages == history[gone..] && NonEmpty(history)
      && forall i :: 0 <= i < gone ==> history[i].state == Complete
    }

    ghost predicate Valid()
      reads this, mq, mq.mem
    {
      Base() && Inv(mq.messages, log)
    }

    /** mqtt_init */
    constructor (sendbuf: array<Byte>, layout: Layout)
      requires Sound(layout) && sendbuf.Length < TWO64
      ensures Valid() && fresh(mq) && mq.mem == sendbuf && mq.layout == layout
      ensures history == [] && log == [] && error == CONNECT_NOT_CALLED
    {
      mq := new MessageQueue(sendbuf, layout);
      error, keepAlive, responseTimeout, timeouts, timeOfLastSend := CONNECT_NOT_CALLED, 0, 30, 0, 0;
      history, gone, log := [], 0, [];
    }

    /** The room in the queue once it is cleaned. */
    ghost function CleanRoom(): nat
      reads this, mq, mq.mem
    {
      var ms := Cleaned(mq.messages);
      Room(|Flat(ms)|, mq.mem.Length - |ms| * mq.layout.size, mq.layout.size)
    }

    method Clean()
      requires Base()
      modifies mq, mq.mem, `gone
      ensures Base() && old(gone) <= gone <= |history|
      ensures mq.currSz == old(CleanRoom())
    {
      ghost var k := CleanedSuffix(mq.messages);
      mq.Clean();
      gone := gone + k;
    }

    /** The packing of MQTT_CLIENT_TRY_PACK: into the room there is, or else into a cleaned queue. */
    method TryPack(p: Packet) returns (rv: int)
      requires Base() && Proper(p)
      modifies mq, mq.mem, `gone, `error
      ensures Base() && old(gone) <= gone <= |history|
      ensures rv == Verdict(old(error), p, old(mq.currSz), old(CleanRoom()))
      ensures rv == OK <==> old(error) >= 0 && p.Packet? && |p.bytes| <= old(CleanRoom())
      ensures error == if rv == OK then old(error) else rv
      ensures Fitting(p, old(mq.currSz)) ==> gone == old(gone)
      ensures rv == OK ==> |p.bytes| <= mq.currSz && mq.curr + |p.bytes| <= mq.mem.Length
      ensures rv == OK ==> mq.mem[mq.curr..mq.curr + |p.bytes|] == p.bytes
    {
      if error < 0 {
        return error;
      }
      CleanedRoom(mq.messages, mq.mem.Length, mq.layout.size);
      var tmp := PackIn(p, mq.currSz);
      if tmp == 0 {
        Clean();
        tmp := PackIn(p, mq.currSz);
      }
      if tmp <= 0 {
        error := if tmp < 0 then tmp else SEND_BUFFER_IS_FULL;
        return error;
      }
      mq.Pack(p.bytes);
      rv := OK;
    }

    /** MQTT_CLIENT_TRY_PACK, and the kind and id that its users store in the new message. */
    method Enqueue(kind: Kind, hasId: bool, id: Pid, p: Packet) returns (rv: int)
      requires Base() && Proper(p)
      modifies mq, mq.mem, `gone, `error, `history
      ensures Base() && old(gone) <= gone <= |old(history)|
      ensures rv == Verdict(old(error), p, old(mq.currSz), old(CleanRoom()))
      ensures rv == OK <==> old(error) >= 0 && p.Packet? && |p.bytes| <= old(CleanRoom())
      ensures error == if rv == OK then old(error) else rv
      ensures Fitting(p, old(mq.currSz)) ==> gone == old(gone)
      ensures rv != OK ==> history == old(history)
      ensures rv == OK ==> |history| == |old(history)| + 1 && history == old(history) + [history[|old(history)|]]
      ensures rv == OK ==> NewMessage(history[|old(history)|], kind, hasId, id, p)
    {
      rv := TryPack(p);
      if rv == OK {
        Store(kind, hasId, id, p);
      }
    }

    predicate NewMessage(x: Message, kind: Kind, hasId: bool, id: Pid, p: Packet) {
      p.Packet? && x.bytes == p.bytes && x.state == Unsent && x.kind == kind && (hasId ==> x.id == id)
    }

    method Store(kind: Kind, hasId: bool, id: Pid, p: Packet)
      requires Base() && p.Packet? && p.bytes != []
      requires |p.bytes| <= mq.currSz && mq.curr + |p.bytes| <= mq.mem.Length
      requires mq.mem[mq.curr..mq.curr + |p.bytes|] == p.bytes
      modifies mq, mq.mem, `history
      ensures Base() && gone <= |old(history)| < |history|
      ensures history == old(history) + [history[|old(history)|]]
      ensures NewMessage(history[|old(history)|], kind, hasId, id, p)
    {
      var i := mq.Length();
      ghost var x := mq.Register(|p.bytes|);
      var h := mq.Get(i);
      mq.SetMessage(i, h.state, h.sent, kind, if hasId then id else h.id);
      history := history + [mq.messages[i]];
    }

    /** The queue lost `k` complete messages in front and may have won one: as lemmas want it. */
    lemma Kept(before: seq<Message>, ms: seq<Message>, log: seq<Event>, was: nat)
      requires Base() && was <= gone <= |before| <= |history| && before == history[..|before|]
      requires ms == before[was..] && Inv(ms, log)
      ensures mq.messages == before[gone..] + history[|before|..]
      ensures Inv(before[gone..], log)
    {
      CleanKeeps(ms, log, gone - was);
      assert ms[gone - was..] == before[gone..];
      assert mq.messages == history[gone..] == before[gone..] + history[|before|..];
    }

    /** mqtt_publish, mqtt_subscribe, mqtt_unsubscribe, mqtt_ping and mqtt_disconnect, and
        the acknowledgements other than PUBREC. */
    method Request(kind: Kind, hasId: bool, id: Pid, p: Packet) returns (rv: int)
      requires Valid() && Proper(p) && kind != PUBREC
      modifies mq, mq.mem, `gone, `error, `history
      ensures Valid() && old(gone) <= gone && Onward(old(history), history)
      ensures |old(history)| <= |history| && history[..|old(history)|] == old(history)
      ensures rv == Verdict(old(error), p, old(mq.currSz), old(CleanRoom()))
      ensures rv == OK <==> old(error) >= 0 && p.Packet? && |p.bytes| <= old(CleanRoom())
      ensures error == if rv == OK then old(error) else rv
      ensures Fitting(p, old(mq.currSz)) ==> gone == old(gone)
      ensures |history| == |old(history)| + if rv == OK then 1 else 0
      ensures rv == OK ==> NewMessage(history[|old(history)|], kind, hasId, id, p)
    {
      ghost var before, ms, was := history, mq.messages, gone;
      rv := Enqueue(kind, hasId, id, p);
      Kept(before, ms, log, was);
      if rv == OK {
        AppendKeeps(before[gone..], log, history[|before|]);
      }
    }

    /** mqtt_connect */
    method Connect(keepAlive: int, p: Packet) returns (rv: int)
      requires Valid() && Proper(p)
      modifies mq, mq.mem, `gone, `error, `history, `keepAlive
      ensures Valid() && old(gone) <= gone && Onward(old(history), history)
      ensures |old(history)| <= |history| && history[..|old(history)|] == old(history)
      ensures this.keepAlive == keepAlive
      ensures rv == OK <==> old(error >= 0 || error == CONNECT_NOT_CALLED) && p.Packet? && |p.bytes| <= old(CleanRoom())
      ensures var was := if old(error) == CONNECT_NOT_CALLED then OK else old(error);
        rv == Verdict(was, p, old(mq.currSz), old(CleanRoom())) && error == if rv == OK then was else rv
      ensures |history| == |old(history)| + if rv == OK then 1 else 0
      ensures Fitting(p, old(mq.currSz)) ==> gone == old(gone)
      ensures rv == OK ==> history != [] && NewMessage(history[|history| - 1], CONNECT, false, 0, p)
    {
      this.keepAlive := keepAlive;
      if error == CONNECT_NOT_CALLED {
        error := OK;
      }
      rv := Request(CONNECT, false, 0, p);
    }

    /** Must message `i` be sent now, and is there now a QoS 2 PUBLISH in flight? */
    method Consider(i: nat, inflight: bool, now: Time) returns (resend: bool, inflight': bool)
      requires Valid() && i < |mq.messages|
      modifies `timeouts
      ensures var x := mq.messages[i];
        && inflight' == (inflight || (IsQos2(x) && x.state != Complete))
        && timeouts == old(timeouts) + (if x.state == AwaitingAck && now > x.sent + responseTimeout then 1 else 0)
        && resend == ((x.state == Unsent || (x.state == AwaitingAck && now > x.sent + responseTimeout))
                      && !(IsQos2(x) && inflight))
    {
      var msg := mq.Get(i);
      resend, inflight' := false, inflight;
      if msg.state == Unsent {
        resend := true;
      } else if msg.state == AwaitingAck {
        if now > msg.sent + responseTimeout {
          resend := true;
          timeouts := timeouts + 1;
        }
      }
      if msg.kind == PUBLISH && (msg.state == Unsent || msg.state == AwaitingAck) {
        var first := mq.FirstByte(i);
        if QosOf(first) == 2 {
          if inflight {
            resend := false;
          }
          inflight' := true;
        }
      }
    }

    /** The time and the state of a message that was sent; a QoS 1 PUBLISH is a duplicate from now on. */
    method MarkSent(i: nat, now: Time) returns (rv: int, ghost y: Message)
      requires mq.Valid() && i < |mq.messages| && mq.messages[i].bytes != []
      modifies mq, mq.mem, `timeOfLastSend, `error
      ensures mq.Valid() && mq.messages == old(mq.messages)[i := y] && y.bytes != []
      ensures rv == OK || (rv == MALFORMED_REQUEST && error == rv)
      ensures var x := old(mq.messages[i]);
        && y.kind == x.kind && y.id == x.id && y.sent == now
        && (if rv == OK then SentState(x.kind, x.bytes[0], y.state) else y.state == x.state)
        && y.bytes == x.bytes[0 := if rv == OK && x.kind == PUBLISH && QosOf(x.bytes[0]) == 1
                                  then WithDup(x.bytes[0]) else x.bytes[0]]
    {
      var msg := mq.Get(i);
      var first := mq.FirstByte(i);
      timeOfLastSend := now;
      rv := OK;
      var state := msg.state;
      if msg.kind == PUBACK || msg.kind == PUBCOMP || msg.kind == DISCONNECT {
        state := Complete;
      } else if msg.kind == PUBLISH {
        state := if QosOf(first) == 0 then Complete else AwaitingAck;
        if QosOf(first) == 1 {
          mq.SetFirstByte(i, WithDup(first));
        }
      } else if msg.kind in {CONNECT, PUBREC, PUBREL, SUBSCRIBE, UNSUBSCRIBE, PINGREQ} {
        state := AwaitingAck;
      } else {
        error := MALFORMED_REQUEST;
        rv := MALFORMED_REQUEST;
      }
      mq.SetMessage(i, state, now, msg.kind, msg.id);
      y := mq.messages[i];
    }

    /** No QoS 2 PUBLISH before message `i` is under way. */
    ghost predicate NoneBefore(i: nat)
      reads this, mq
    {
      forall j :: 0 <= j < i && j < |mq.messages| && IsQos2(mq.messages[j]) ==> mq.messages[j].state == Complete
    }

    /** Message `i` went out. */
    method Sent(i: nat, now: Time) returns (rv: int)
      requires Valid() && i < |mq.messages| && mq.messages[i].state != Complete
      requires IsQos2(mq.messages[i]) ==> NoneBefore(i)
      modifies mq, mq.mem, `timeOfLastSend, `error, `history
      ensures Valid() && Onward(old(history), history) && |mq.messages| == |old(mq.messages)|
      ensures forall j :: 0 <= j < |mq.messages| && j != i ==> mq.messages[j] == old(mq.messages[j])
      ensures mq.messages[i].kind == old(mq.messages[i].kind) && mq.messages[i].sent == now
      ensures IsQos2(mq.messages[i]) <==> old(IsQos2(mq.messages[i]))
      ensures rv == OK ==> SentState(mq.messages[i].kind, old(mq.messages[i].bytes[0]), mq.messages[i].state)
      ensures rv == OK || (rv == MALFORMED_REQUEST && error == rv)
    {
      ghost var ms, y := mq.messages, mq.messages[i];
      DupKeepsQos(ms[i].bytes[0]);
      rv, y := MarkSent(i, now);
      SendKeeps(ms, log, i, y);
      history := history[gone + i := y];
      assert mq.messages == history[gone..];
    }

    /** One turn of the loop of __mqtt_send; `more` says whether it goes on. */
    method SendOne(i: nat, inflight: bool, now: Time, later: Time, outcome: Outcome)
        returns (more: bool, rv: int, inflight': bool)
      requires Valid() && i < |mq.messages| && (outcome.Failed? ==> outcome.error < 0)
      requires if inflight then Blocked(mq.messages, i) else NoneBefore(i)
      modifies mq, mq.mem, `timeOfLastSend, `error, `history, `timeouts
      ensures Valid() && Onward(old(history), history) && |mq.messages| == |old(mq.messages)|
      ensures rv == OK || (!more && rv < 0 && error == rv)
      ensures more ==> if inflight' then Blocked(mq.messages, i + 1) else NoneBefore(i + 1)
      ensures forall j :: 0 <= j < |mq.messages| && j != i ==> mq.messages[j] == old(mq.messages[j])
      ensures IsQos2(mq.messages[i]) <==> old(IsQos2(mq.messages[i]))
      ensures outcome.Fully? && rv == OK ==> more && SentOrBlocked(mq.messages, i)
    {
      more, rv, inflight' := true, OK, inflight;
      ghost var ms := mq.messages;
      var resend;
      resend, inflight' := Consider(i, inflight, now);
      if resend {
        match outcome {
          case Failed(e) =>
            error := e;
            more, rv := false, e;
          case Partly =>
            more := false;
          case Fully =>
            rv := Sent(i, later);
            more := rv == OK;
        }
      }
      StillBlocked(ms, mq.messages, i, inflight);
    }

    lemma StillBlocked(ms: seq<Message>, ns: seq<Message>, i: nat, inflight: bool)
      requires |ns| == |ms| && i < |ms| && forall j :: 0 <= j < |ms| && j != i ==> ns[j] == ms[j]
      requires inflight ==> Blocked(ms, i)
      ensures inflight ==> Blocked(ns, i) && Blocked(ns, i + 1)
      ensures IsQos2(ns[i]) && ns[i].state != Complete ==> Blocked(ns, i + 1)
    {
    }

    /** __mqtt_send, whatever the clock and the socket do. */
    method Send(time: nat -> Time, outcome: nat -> Outcome, ping: Packet) returns (rv: int)
      requires Valid() && Proper(ping) && forall i :: outcome(i).Failed? ==> outcome(i).error < 0
      modifies this, mq, mq.mem
      ensures Valid() && Onward(old(history), history) && old(gone) <= gone && log == old(log)
      ensures rv == OK || (rv < 0 && error == rv)
      ensures rv == OK && (forall i :: outcome(i).Fully?) ==> AllOut(history[old(gone)..], |old(mq.messages)|)
    {
      if error < 0 && error != SEND_BUFFER_IS_FULL {
        return error;
      }
      ghost var before, k := history, gone;
      rv := SendAll(time, outcome);
      if rv == OK && time(2 * mq.Length()) > timeOfLastSend + keepAlive {
        ghost var h := history;
        rv := Request(PINGREQ, false, 0, ping);
        OnwardTrans(before, h, history);
        StillOut(h, history, k, |before| - k);
        if rv != OK {
          error := rv;
        }
      }
    }

    lemma StillOut(h: seq<Message>, h': seq<Message>, k: nat, n: nat)
      requires k + n <= |h| <= |h'| && h'[..|h|] == h
      ensures AllOut(h[k..], n) ==> AllOut(h'[k..], n)
    {
      forall j | 0 <= j < n && SentOrBlocked(h[k..], j) ensures SentOrBlocked(h'[k..], j) {
        assert forall x :: 0 <= x < |h| - k ==> h'[k..][x] == h'[..|h|][x + k] == h[k..][x];
      }
    }

    /** The loop of __mqtt_send. */
    method SendAll(time: nat -> Time, outcome: nat -> Outcome) returns (rv: int)
      requires Valid() && forall i :: outcome(i).Failed? ==> outcome(i).error < 0
      modifies mq, mq.mem, `timeOfLastSend, `error, `history, `timeouts
      ensures Valid() && Onward(old(history), history) && |history| == |old(history)|
      ensures rv == OK || (rv < 0 && error == rv)
      ensures rv == OK && (forall i :: outcome(i).Fully?) ==> AllOut(mq.messages, |mq.messages|)
    {
      rv := OK;
      var len, i, inflight, more := mq.Length(), 0, false, true;
      OnwardSame(history);
      while i < len && more
        invariant Valid() && |mq.messages| == len && 0 <= i <= len && |history| == |old(history)|
        invariant Onward(old(history), history)
        invariant rv == OK || (!more && rv < 0 && error == rv)
        invariant more ==> if inflight then Blocked(mq.messages, i) else NoneBefore(i)
        invariant rv == OK && (forall k :: outcome(k).Fully?) ==> more && AllOut(mq.messages, i)
      {
        ghost var h, ms := history, mq.messages;
        more, rv, inflight := SendOne(i, inflight, time(2 * i), time(2 * i + 1), outcome(i));
        OnwardTrans(old(history), h, history);
        OutBefore(ms, mq.messages, i);
        i := i + 1;
      }
    }

    lemma OutBefore(ms: seq<Message>, ns: seq<Message>, i: nat)
      requires |ns| == |ms| && i < |ms| && forall j :: 0 <= j < |ms| && j != i ==> ns[j] == ms[j]
      ensures AllOut(ms, i) && SentOrBlocked(ns, i) ==> AllOut(ns, i + 1)
    {
      forall j | 0 <= j < i && SentOrBlocked(ms, j) ensures SentOrBlocked(ns, j) {
        if Blocked(ms, j) {
          var k :| 0 <= k < j && IsQos2(ms[k]) && ms[k].state != Complete;
          assert ns[k] == ms[k];
        }
      }
    }

    /** Complete the first message of a kind that has the id, or is not yet complete. */
    method Release(kind: Kind, hasId: bool, id: Pid) returns (at: int)
      requires mq.Valid()
      modifies mq`messages, mq.mem
      ensures mq.Valid() && at == First(old(mq.messages), kind, hasId, id) && -1 <= at < |old(mq.messages)|
      ensures at < 0 ==> mq.messages == old(mq.messages)
      ensures at >= 0 ==> mq.messages == old(mq.messages)[at := old(mq.messages)[at].(state := Complete)]
    {
      FirstIn(mq.messages, kind, hasId, id);
      at := mq.Find(kind, hasId, id);
      if at >= 0 {
        var msg := mq.Get(at);
        mq.SetMessage(at, Complete, msg.sent, msg.kind, msg.id);
      }
    }

    /** An acknowledgement other than PUBREL releases its message, if it is known. */
    method Acknowledged(kind: Kind, hasId: bool, id: Pid) returns (rv: int)
      requires Valid() && kind != PUBREC
      modifies mq`messages, mq.mem, `error, `history
      ensures Valid() && Onward(old(history), history) && |history| == |old(history)|
      ensures history == Completing(old(history), old(gone), kind, hasId, id)
      ensures var at := First(old(mq.messages), kind, hasId, id);
        rv == (if at < 0 then ACK_OF_UNKNOWN else OK) && error == (if at < 0 then rv else old(error))
        && if at < 0 then mq.messages == old(mq.messages)
           else at < |old(mq.messages)|
                && mq.messages == old(mq.messages)[at := old(mq.messages)[at].(state := Complete)]
    {
      ghost var ms := mq.messages;
      CompletingIs(history, gone, kind, hasId, id);
      var at := Release(kind, hasId, id);
      history := Completing(history, gone, kind, hasId, id);
      if at < 0 {
        error := ACK_OF_UNKNOWN;
        rv := ACK_OF_UNKNOWN;
      } else {
        CompleteKeeps(ms, log, at, ms[at].(state := Complete));
        rv := OK;
      }
    }

    /** A PUBREL releases the PUBREC, if it is known. */
    method ReleasePubrec(id: Pid) returns (rv: int)
      requires Valid()
      modifies mq`messages, mq.mem, `error, `history, `log
      ensures Valid() && Onward(old(history), history) && |history| == |old(history)|
      ensures history == Completing(old(history), old(gone), PUBREC, true, id)
      ensures log == old(log) + [Released(id)]
      ensures rv == (if old(Queued(mq.messages, id)) then OK else ACK_OF_UNKNOWN)
      ensures error == if rv == OK then old(error) else rv
    {
      ghost var ms := mq.messages;
      CompletingIs(history, gone, PUBREC, true, id);
      var at := Release(PUBREC, true, id);
      history := Completing(history, gone, PUBREC, true, id);
      QueuedIsFirst(ms, id);
      log := log + [Released(id)];
      if at < 0 {
        UnknownKeeps(ms, old(log), id);
        error := ACK_OF_UNKNOWN;
        rv := ACK_OF_UNKNOWN;
      } else {
        ReleaseKeeps(ms, old(log), at, ms[at].(state := Complete));
        rv := OK;
      }
    }

    /** __mqtt_pubrec for an id of which no PUBREC is queued, and the callback if it is queued. */
    method QueuePubrec(id: Pid, pubrec: Packet) returns (rv: int)
      requires Valid() && Proper(pubrec) && !Queued(mq.messages, id)
      modifies mq, mq.mem, `gone, `error, `history, `log
      ensures Valid() && Onward(old(history), history) && old(gone) <= gone
      ensures |old(history)| <= |history| && history[..|old(history)|] == old(history)
      ensures var fits := old(error) >= 0 && pubrec.Packet? && |pubrec.bytes| <= old(CleanRoom());
        if fits then rv == OK && error == old(error) && |history| == |old(history)| + 1
        else rv < 0 && error == rv && history == old(history)
      ensures log == old(log) + if rv == OK then [Delivered(id)] else []
      ensures rv == OK ==> NewMessage(history[|history| - 1], PUBREC, true, id, pubrec)
      ensures Fitting(pubrec, old(mq.currSz)) ==> gone == old(gone)
    {
      ghost var before, ms, was := history, mq.messages, gone;
      rv := Enqueue(PUBREC, true, id, pubrec);
      assert history[..|before|] == before;
      if rv == OK {
        PubrecKept(before, ms, was, id);
        log := log + [Delivered(id)];
      } else {
        Kept(before, ms, log, was);
      }
    }

    /** A PUBREC was queued, and perhaps some messages cleaned away before. */
    lemma PubrecKept(before: seq<Message>, ms: seq<Message>, was: nat, id: Pid)
      requires Base() && was <= gone <= |before| && |history| == |before| + 1 && before == history[..|before|]
      requires ms == before[was..] && Inv(ms, log) && !Queued(ms, id)
      requires var x := history[|before|]; x.kind == PUBREC && x.id == id && x.state == Unsent
      ensures Inv(mq.messages, log + [Delivered(id)])
    {
      Kept(before, ms, log, was);
      NotQueuedLater(ms, before[gone..], gone - was, id);
      PubrecKeeps(before[gone..], log, history[|before|]);
    }

    /** A QoS 2 PUBLISH: a duplicate is dropped; else a PUBREC is queued and the callback runs. */
    method ReceiveQos2(id: Pid, pubrec: Packet) returns (rv: int, called: bool)
      requires Valid() && Proper(pubrec)
      modifies mq, mq.mem, `gone, `error, `history, `log
      ensures Valid() && Onward(old(history), history) && old(gone) <= gone
      ensures |old(history)| <= |history| && history[..|old(history)|] == old(history)
      ensures var fits := old(error) >= 0 && pubrec.Packet? && |pubrec.bytes| <= old(CleanRoom());
        called <==> !old(Queued(mq.messages, id)) && fits
      ensures log == old(log) + if called then [Delivered(id)] else []
      ensures old(Queued(mq.messages, id)) ==> rv == OK && mq.messages == old(mq.messages) && error == old(error)
      ensures called ==> history != [] && NewMessage(history[|history| - 1], PUBREC, true, id, pubrec)
      ensures Fitting(pubrec, old(mq.currSz)) ==> gone == old(gone)
      ensures called ==> rv == OK && error == old(error) && |history| == |old(history)| + 1
      ensures !called && !old(Queued(mq.messages, id)) ==> rv < 0 && error == rv && history == old(history)
    {
      QueuedIsFirst(mq.messages, id);
      OnwardSame(history);
      var at := mq.Find(PUBREC, true, id);
      if at >= 0 {
        return OK, false;
      }
      rv := QueuePubrec(id, pubrec);
      called := rv == OK;
    }

    lemma NotQueuedLater(ms: seq<Message>, ns: seq<Message>, k: nat, id: Pid)
      requires k <= |ms| && ns == ms[k..] && !Queued(ms, id)
      ensures !Queued(ns, id)
    {
    }

    /** The switch of __mqtt_recv; `ack` is what the packer makes of the answer. */
    method Handle(response: Response, ack: Packet) returns (rv: int, called: bool)
      requires Valid() && Proper(ack)
      modifies mq, mq.mem, `gone, `error, `history, `log
      ensures Valid() && Onward(old(history), history) && old(gone) <= gone
      ensures |old(history)| <= |history| && history[..|old(history)|] == Settled(old(history), old(gone), response)
      ensures Acks(response) ==>
        |history| == |old(history)|
        && rv == AckResult(response, First(old(mq.messages), AckKind(response), HasId(response), AckId(response)) >= 0)
      ensures log == old(log) + (if response.Pubrel? then [Released(response.id)]
                                 else if called && response.Publish? && response.qos == 2 then [Delivered(response.id)]
                                 else [])
      ensures error == (if rv == OK then old(error) else rv) && (called ==> response.Publish? && rv == OK)
      ensures Fitting(ack, old(mq.currSz)) ==> gone == old(gone)
      ensures called && response.Publish? && response.qos == 2 ==>
        |history| == |old(history)| + 1 && NewMessage(history[|old(history)|], PUBREC, true, response.id, ack)
      ensures response.Publish? && !called && rv == OK ==> response.qos == 2 && old(Queued(mq.messages, response.id))
      ensures response.Publish? && response.qos == 2 ==>
        (called <==> (!old(Queued(mq.messages, response.id)) && old(error) >= 0
                      && ack.Packet? && |ack.bytes| <= old(CleanRoom())))
      ensures response.Publish? && response.qos == 1 ==>
        (called <==> old(error) >= 0 && ack.Packet? && |ack.bytes| <= old(CleanRoom()))
      ensures response.Publish? && response.qos !in {1, 2} ==> called && history == old(history)
      ensures response.Pubrel? && !old(Queued(mq.messages, response.id)) ==> rv == ACK_OF_UNKNOWN
      ensures response.Pubrel? && old(Queued(mq.messages, response.id) && error >= 0 && Fitting(ack, mq.currSz)) ==>
        rv == OK
      ensures response.Pubrel? && rv == OK ==>
        |history| == |old(history)| + 1 && NewMessage(history[|old(history)|], PUBCOMP, true, response.id, ack)
    {
      called := false;
      rv := OK;
      OnwardSame(history);
      match response
      case Publish(qos, id) =>
        rv, called := ReceivePublish(qos, id, ack);
      case Pubrec(id) =>
        rv := PublishReceived(id, ack);
      case Pubrel(id) =>
        rv := PublishReleased(id, ack);
      case Unexpected =>
        rv := MALFORMED_RESPONSE;
        error := rv;
      case _ =>
        rv := HandleAck(response);
    }

    /** A PUBLISH: the callback runs once it is answered, or at once if it needs no answer. */
    method ReceivePublish(qos: nat, id: Pid, ack: Packet) returns (rv: int, called: bool)
      requires Valid() && Proper(ack)
      modifies mq, mq.mem, `gone, `error, `history, `log
      ensures Valid() && Onward(old(history), history) && old(gone) <= gone
      ensures |old(history)| <= |history| && history[..|old(history)|] == old(history)
      ensures log == old(log) + if called && qos == 2 then [Delivered(id)] else []
      ensures error == (if rv == OK then old(error) else rv) && (called ==> rv == OK)
      ensures Fitting(ack, old(mq.currSz)) ==> gone == old(gone)
      ensures called && qos == 2 ==>
        |history| == |old(history)| + 1 && NewMessage(history[|old(history)|], PUBREC, true, id, ack)
      ensures !called && rv == OK ==> qos == 2 && old(Queued(mq.messages, id))
      ensures var fits := old(error) >= 0 && ack.Packet? && |ack.bytes| <= old(CleanRoom());
        if qos == 2 then called <==> !old(Queued(mq.messages, id)) && fits
        else if qos == 1 then called <==> fits
        else called && history == old(history)
    {
      OnwardSame(history);
      rv, called := OK, true;
      if qos == 2 {
        rv, called := ReceiveQos2(id, ack);
      } else if qos == 1 {
        rv := Request(PUBACK, true, id, ack);
        called := rv == OK;
      }
    }

    /** An acknowledgement that is not answered. */
    method HandleAck(response: Response) returns (rv: int)
      requires Valid() && Acks(response)
      modifies mq`messages, mq.mem, `error, `history
      ensures Valid() && Onward(old(history), history)
      ensures history == Completing(old(history), old(gone), AckKind(response), HasId(response), AckId(response))
      ensures var at := First(old(mq.messages), AckKind(response), HasId(response), AckId(response));
        rv == AckResult(response, at >= 0) && error == if rv == OK then old(error) else rv
    {
      rv := Acknowledged(AckKind(response), HasId(response), AckId(response));
      if rv == OK {
        rv := AckResult(response, true);
        if rv != OK {
          error := rv;
        }
      }
    }

    /** A PUBREC: unless it is a duplicate, the PUBLISH is released and a PUBREL queued. */
    method PublishReceived(id: Pid, pubrel: Packet) returns (rv: int)
      requires Valid() && Proper(pubrel)
      modifies mq, mq.mem, `gone, `error, `history
      ensures Valid() && Onward(old(history), history) && old(gone) <= gone
      ensures First(old(mq.messages), PUBREL, true, id) < 0 ==>
        && |old(history)| <= |history|
        && history[..|old(history)|] == Completing(old(history), old(gone), PUBLISH, true, id)
      ensures First(old(mq.messages), PUBREL, true, id) >= 0 ==>
        rv == OK && history == old(history) && error == old(error)
      ensures error == if rv == OK then old(error) else rv
      ensures Fitting(pubrel, old(mq.currSz)) ==> gone == old(gone)
      ensures First(old(mq.messages), PUBREL, true, id) < 0 && rv == OK ==>
        |history| == |old(history)| + 1 && NewMessage(history[|old(history)|], PUBREL, true, id, pubrel)
    {
      FirstIn(mq.messages, PUBREL, true, id);
      OnwardSame(history);
      var at := mq.Find(PUBREL, true, id);
      if at >= 0 {
        return OK;
      }
      rv := Acknowledged(PUBLISH, true, id);
      if rv == OK {
        ghost var h := history;
        rv := Request(PUBREL, true, id, pubrel);
        OnwardTrans(old(history), h, history);
      }
    }

    /** A PUBREL: the PUBREC is released and a PUBCOMP queued. */
    method PublishReleased(id: Pid, pubcomp: Packet) returns (rv: int)
      requires Valid() && Proper(pubcomp)
      modifies mq, mq.mem, `gone, `error, `history, `log
      ensures Valid() && Onward(old(history), history) && old(gone) <= gone
      ensures |old(history)| <= |history|
      ensures history[..|old(history)|] == Completing(old(history), old(gone), PUBREC, true, id)
      ensures log == old(log) + [Released(id)]
      ensures !old(Queued(mq.messages, id)) ==> rv == ACK_OF_UNKNOWN
      ensures error == if rv == OK then old(error) else rv
      ensures Fitting(pubcomp, old(mq.currSz)) ==> gone == old(gone)
      ensures old(Queued(mq.messages, id)) && old(error) >= 0 && Fitting(pubcomp, old(mq.currSz)) ==> rv == OK
      ensures rv == OK ==>
        |history| == |old(history)| + 1 && NewMessage(history[|old(history)|], PUBCOMP, true, id, pubcomp)
    {
      rv := ReleasePubrec(id);
      if rv == OK {
        ghost var h := history;
        rv := Request(PUBCOMP, true, id, pubcomp);
        OnwardTrans(old(history), h, history);
        if rv != OK {
          error := rv;
        }
      }
    }

    /** __mqtt_recv: handle what comes in until there is no more, or an error. */
    method Recv(incoming: seq<Response>, acks: seq<Packet>) returns (rv: int)
      requires Valid() && |acks| == |incoming| && forall p :: p in acks ==> Proper(p)
      modifies mq, mq.mem, `gone, `error, `history, `log
      ensures Valid() && Onward(old(history), history) && old(gone) <= gone && old(log) <= log
      ensures error == if rv == OK then old(error) else rv
    {
      OnwardSame(history);
      rv := OK;
      var i := 0;
      while i < |incoming| && rv == OK
        invariant 0 <= i <= |incoming| && Valid() && Onward(old(history), history)
        invariant old(gone) <= gone && old(log) <= log && error == if rv == OK then old(error) else rv
      {
        ghost var h := history;
        var called;
        rv, called := Handle(incoming[i], acks[i]);
        OnwardTrans(old(history), h, history);
        i := i + 1;
      }
    }
  }

  /** What the broker sent, as far as the client acts on it. */
  datatype Response =
    | Connack(code: nat)
    | Publish(qos: nat, id: Pid)
    | Puback(id: Pid)
    | Pubrec(id: Pid)
    | Pubrel(id: Pid)
    | Pubcomp(id: Pid)
    | Suback(id: Pid, code: nat)
    | Unsuback(id: Pid)
    | Pingresp
    | Unexpected

  /** The acknowledgements that only complete a message, and which message they mean: the first of a kind
      that has the id or, for want of one, is not complete. */
  predicate Acks(r: Response) {
    !r.Publish? && !r.Pubrec? && !r.Pubrel? && !r.Unexpected?
  }

  function AckKind(r: Response): (k: Kind)
    requires Acks(r)
    ensures k != PUBREC
  {
    match r
    case Connack(_) => CONNECT
    case Puback(_) => PUBLISH
    case Pubcomp(_) => PUBREL
    case Suback(_, _) => SUBSCRIBE
    case Unsuback(_) => UNSUBSCRIBE
    case Pingresp => PINGREQ
  }

  predicate HasId(r: Response) {
    Acks(r) && !r.Connack? && !r.Pingresp?
  }

  function AckId(r: Response): Pid {
    if HasId(r) then r.id else 0
  }

  /** What an acknowledgement is answered to the caller with. */
  function AckResult(r: Response, known: bool): int {
    if !known then ACK_OF_UNKNOWN
    else if r.Connack? && r.code == 2 then CLIENT_ID_REFUSED
    else if r.Connack? && r.code != 0 then CONNECTION_REFUSED
    else if r.Suback? && r.code == 128 then SUBSCRIBE_FAILED
    else OK
  }

  /** All messages with the one completed that is meant; the first `gone` were cleaned away. */
  function Completing(h: seq<Message>, gone: nat, kind: Kind, hasId: bool, id: Pid): (r: seq<Message>)
    requires gone <= |h|
    ensures |r| == |h|
  {
    var at := First(h[gone..], kind, hasId, id);
    if 0 <= at < |h| - gone then h[gone + at := h[gone + at].(state := Complete)] else h
  }

  lemma CompletingIs(h: seq<Message>, gone: nat, kind: Kind, hasId: bool, id: Pid)
    requires gone <= |h|
    ensures var ms, r := h[gone..], Completing(h, gone, kind, hasId, id);
      var at := First(ms, kind, hasId, id);
      && -1 <= at < |ms| && Onward(h, r) && (NonEmpty(h) ==> NonEmpty(r)) && r[..gone] == h[..gone]
      && (at >= 0 ==> ms[at].kind == kind && (hasId ==> ms[at].id == id))
      && r[gone..] == if at < 0 then ms else ms[at := ms[at].(state := Complete)]
  {
    FirstIn(h[gone..], kind, hasId, id);
  }

  /** What a response makes of the messages there are. */
  function Settled(h: seq<Message>, gone: nat, r: Response): (s: seq<Message>)
    requires gone <= |h|
    ensures |s| == |h|
  {
    match r
    case Publish(_, _) => h
    case Pubrec(id) =>
      if First(h[gone..], PUBREL, true, id) >= 0 then h else Completing(h, gone, PUBLISH, true, id)
    case Pubrel(id) => Completing(h, gone, PUBREC, true, id)
    case Unexpected => h
    case _ => Completing(h, gone, AckKind(r), HasId(r), AckId(r))
  }

  /** A QoS 2 PUBLISH before message `i` is not complete. */
  ghost predicate Blocked(ms: seq<Message>, i: nat) {
    exists k :: 0 <= k < i && k < |ms| && IsQos2(ms[k]) && ms[k].state != Complete
  }

  ghost predicate AllOut(ms: seq<Message>, n: nat) {
    n <= |ms| && forall j :: 0 <= j < n ==> SentOrBlocked(ms, j)
  }

  ghost predicate SentOrBlocked(ms: seq<Message>, i: nat)
    requires i < |ms|
  {
    ms[i].state != Unsent || (IsQos2(ms[i]) && Blocked(ms, i))
  }

  /** What sending a message came to: an error, a part of it, or all of it. */
  datatype Outcome = Failed(error: int) | Partly | Fully

  /** The state after sending: nothing is left to wait for, or an acknowledgement is. */
  predicate SentState(kind: Kind, first: Byte, state: State) {
    if kind in {PUBACK, PUBCOMP, DISCONNECT} then state == Complete
    else if kind == PUBLISH then state == if QosOf(first) == 0 then Complete else AwaitingAck
    else kind in {CONNECT, PUBREC, PUBREL, SUBSCRIBE, UNSUBSCRIBE, PINGREQ} && state == AwaitingAck
  }

  lemma {:induction false} FirstIn(ms: seq<Message>, kind: Kind, hasId: bool, id: Pid)
    ensures var at := First(ms, kind, hasId, id);
      -1 <= at < |ms| && (at >= 0 ==> Matches(ms[at], kind, hasId, id))
      && forall i :: 0 <= i < (if at < 0 then |ms| else at) ==> !Matches(ms[i], kind, hasId, id)
  {
    if ms != [] && !Matches(ms[0], kind, hasId, id) {
      FirstIn(ms[1..], kind, hasId, id);
    }
  }

  lemma QueuedIsFirst(ms: seq<Message>, id: Pid)
    ensures Queued(ms, id) <==> First(ms, PUBREC, true, id) >= 0
  {
    FirstIn(ms, PUBREC, true, id);
  }

  // The standard (section 4.3.3) has a PUBLISH delivered exactly if its id is not open; the client
  // delivers it exactly if no PUBREC for the id is queued. The two differ while a PUBREC that a PUBREL
  // has completed was not yet cleaned away: then the next message with that id is lost.

  /** Some PUBREC for the id is complete and still queued. */
  predicate Lingers(ms: seq<Message>, id: Pid) {
    exists i :: 0 <= i < |ms| && ms[i].kind == PUBREC && ms[i].id == id && ms[i].state == Complete
  }

  /** When a PUBLISH is dropped, and when the standard says so. */
  lemma DroppedWhen(ms: seq<Message>, log: seq<Event>, id: Pid)
    requires Inv(ms, log)
    ensures Queued(ms, id) <==> Open(log, id) || Lingers(ms, id)
    ensures (Queued(ms, id) <==> Open(log, id)) <==> !Lingers(ms, id)
  {
    if Queued(ms, id) {
      var i :| 0 <= i < |ms| && ms[i].kind == PUBREC && ms[i].id == id;
      assert ms[i].state == Complete ==> Lingers(ms, id);
    }
  }

  /** The room that a message and its header take, whatever happens to the others. */
  lemma RoomAfter(a: seq<Message>, b: seq<Message>, memory: nat, header: nat)
    requires |b| == |a| + 1 && forall i :: 0 <= i < |a| ==> |b[i].bytes| == |a[i].bytes|
    ensures Room(|Flat(b)|, memory - |b| * header, header)
         >= Room(|Flat(a)|, memory - |a| * header, header) - |b[|a|].bytes| - header
  {
    OneLonger(a, b);
    Factor(|a|, 1, header);
    RoomLess(|Flat(a)|, |Flat(b)|, memory - |a| * header, memory - |b| * header, |b[|a|].bytes|, header);
  }

  lemma OneLonger(a: seq<Message>, b: seq<Message>)
    requires |b| == |a| + 1 && forall i :: 0 <= i < |a| ==> |b[i].bytes| == |a[i].bytes|
    ensures |Flat(b)| == |Flat(a)| + |b[|a|].bytes|
  {
    SameSizes(a, b[..|a|]);
    FlatOneMore(b[..|a|], b[|a|]);
    assert b == b[..|a|] + [b[|a|]];
  }

  lemma RoomLess(curr: nat, curr': nat, tail: int, tail': int, n: nat, header: nat)
    requires curr' == curr + n && tail' == tail - header
    ensures Room(curr', tail', header) >= Room(curr, tail, header) - n - header
  {
  }

  lemma OnwardSizes(a: seq<Message>, b: seq<Message>, gone: nat)
    requires Onward(a, b) && NonEmpty(a) && |b| == |a| + 1 && gone <= |a|
    ensures |b[gone..]| == |a[gone..]| + 1
    ensures forall i :: 0 <= i < |a[gone..]| ==> |b[gone..][i].bytes| == |a[gone..][i].bytes|
  {
    forall i | 0 <= i < |a| - gone ensures |b[gone..][i].bytes| == |a[gone..][i].bytes| {
      assert Advanced(a[i + gone], b[i + gone]);
    }
  }

  /** A QoS 2 PUBLISH that is answered from the room there is. */
  method Deliver(c: Client, id: Pid, pubrec: Packet) returns (called: bool)
    requires c.Valid() && c.error == OK && !Queued(c.mq.messages, id)
    requires Proper(pubrec) && Fitting(pubrec, c.mq.currSz)
    modifies c, c.mq, c.mq.mem
    ensures c.Valid() && c.error == OK && called && c.gone == old(c.gone) && c.log == old(c.log) + [Delivered(id)]
    ensures Queued(c.mq.messages, id)
    ensures c.mq.currSz >= old(c.mq.currSz) - |pubrec.bytes| - c.mq.layout.size
  {
    ghost var h := c.history;
    CleanedRoom(c.mq.messages, c.mq.mem.Length, c.mq.layout.size);
    var rv;
    rv, called := c.Handle(Publish(2, id), pubrec);
    OnwardSizes(h, c.history, c.gone);
    RoomAfter(h[c.gone..], c.history[c.gone..], c.mq.mem.Length, c.mq.layout.size);
    assert c.mq.messages[|h| - c.gone] == c.history[|h|];
  }

  /** A PUBREL for a queued PUBREC, answered from the room there is. */
  method Discharge(c: Client, id: Pid, pubcomp: Packet)
    requires c.Valid() && c.error == OK && Queued(c.mq.messages, id)
    requires Proper(pubcomp) && Fitting(pubcomp, c.mq.currSz)
    modifies c, c.mq, c.mq.mem
    ensures c.Valid() && c.error == OK && c.log == old(c.log) + [Released(id)]
    ensures Queued(c.mq.messages, id)
  {
    ghost var h, gone := c.history, c.gone;
    var rv, called := c.Handle(Pubrel(id), pubcomp);
    StaysQueued(h, c.history, gone, id);
  }

  /** A queued PUBREC is queued until it is cleaned away. */
  lemma StaysQueued(h: seq<Message>, h': seq<Message>, gone: nat, id: Pid)
    requires Onward(h, h') && gone <= |h| && Queued(h[gone..], id)
    ensures Queued(h'[gone..], id)
  {
    var i :| 0 <= i < |h| - gone && h[gone..][i].kind == PUBREC && h[gone..][i].id == id;
    assert Advanced(h[gone + i], h'[gone + i]);
    assert h'[gone..][i] == h'[gone + i];
  }

  /** A run that loses a message: published, released, and published anew under the same id while
      nothing was cleaned away, because there was room. */
  method LostMessage(c: Client, id: Pid, pubrec: Packet, pubcomp: Packet) returns (first: bool, second: bool)
    requires c.Valid() && c.error == OK && !Queued(c.mq.messages, id)
    requires Proper(pubrec) && pubrec.Packet? && Proper(pubcomp) && pubcomp.Packet?
    requires |pubrec.bytes| + c.mq.layout.size + |pubcomp.bytes| <= c.mq.currSz
    modifies c, c.mq, c.mq.mem
    ensures c.Valid() && first && !second
    ensures c.log == old(c.log) + [Delivered(id), Released(id)] && !Open(c.log, id)
  {
    ghost var log := c.log;
    first := Deliver(c, id, pubrec);
    Discharge(c, id, pubcomp);
    assert c.log == log + [Delivered(id), Released(id)];
    ghost var before := c.log;
    var rv;
    rv, second := c.Handle(Publish(2, id), pubrec);
    assert c.log == before;
  }

  /** The same from the start: a client that has only connected. */
  method LosingClient(connect: Packet, pubrec: Packet, pubcomp: Packet) returns (c: Client, first: bool, second: bool)
    requires connect.Packet? && pubrec.Packet? && pubcomp.Packet?
    requires 0 < |connect.bytes| <= 256 && 0 < |pubrec.bytes| <= 4 && 0 < |pubcomp.bytes| <= 4
    ensures c.Valid() && c.log == [Delivered(7), Released(7)] && first && !second && !Open(c.log, 7)
  {
    var buf := new Byte[1024];
    NativeSound();
    c := new Client(buf, NATIVE);
    assert c.mq.messages == [];
    assert c.mq.currSz == 984;
    CleanedRoom(c.mq.messages, c.mq.mem.Length, c.mq.layout.size);
    var rv := c.Connect(60, connect);
    RoomAfter([], c.history, c.mq.mem.Length, c.mq.layout.size);
    assert c.mq.messages == c.history;
    first, second := LostMessage(c, 7, pubrec, pubcomp);
  }
}
