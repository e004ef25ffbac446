/** Requests that carry a new packet id (lib/mqtt/mqtt.c): the id register and the message queue. */
module MqttRequests {
  import opened MqttClient
  import opened MqttErrors
  import opened PacketId
  import opened Qos
  import opened SendBuffer

  /** Some queued message holds the id. */
  predicate Holds(ms: seq<Message>, id: Pid) {
    exists i :: 0 <= i < |ms| && ms[i].id == id
  }

  function Word(n: Pid): Id {
    n as bv16
  }

  function Unsigned(w: Id): (n: Pid)
    ensures Word(n) == w && (w != 0 ==> n != 0)
  {
    w as int
  }

  /** The ids of the messages. */
  predicate Ids(ms: seq<Message>, queue: seq<Id>) {
    |queue| == |ms| && forall i :: 0 <= i < |ms| ==> queue[i] == Word(ms[i].id)
  }

  method QueuedIds(mq: MessageQueue) returns (queue: seq<Id>)
    requires mq.Valid()
    ensures Ids(mq.messages, queue)
  {
    var n := mq.Length();
    queue := [];
    while |queue| < n
      invariant |queue| <= n && Ids(mq.messages[..|queue|], queue)
    {
      var h := mq.Get(|queue|);
      queue := queue + [Word(h.id)];
    }
    assert mq.messages[..n] == mq.messages;
  }

  /** __mqtt_next_pid on the client's queue: of fewer than 65535 messages none holds the new id. */
  method NextPid(mq: MessageQueue, register: Register) returns (pid: Pid)
    requires mq.Valid() && |mq.messages| < 65535
    modifies register
    ensures pid != 0 && !Holds(mq.messages, pid)
  {
    var queue := QueuedIds(mq);
    ghost var free := FewIds(queue);
    var w, moves := register.NextPid(queue);
    pid := Unsigned(w);
    forall i | 0 <= i < |mq.messages| ensures mq.messages[i].id != pid {
      assert queue[i] in queue;
    }
  }

  /** mqtt_publish, mqtt_subscribe and mqtt_unsubscribe: the request is packed with a new id, and of all
      messages in the queue it alone holds that id. */
  method RequestNew(c: Client, register: Register, kind: Kind, pack: Pid -> Packet) returns (rv: int, pid: Pid)
    requires c.Valid() && kind != PUBREC && |c.mq.messages| < 65535 && forall id :: Proper(pack(id))
    modifies c, c.mq, c.mq.mem, register
    ensures c.Valid() && Onward(old(c.history), c.history) && pid != 0
    ensures rv == Verdict(old(c.error), pack(pid), old(c.mq.currSz), old(c.CleanRoom()))
    ensures rv != OK ==> |c.history| == |old(c.history)|
    ensures rv == OK ==> |c.history| == |old(c.history)| + 1 && c.mq.messages != []
                         && var ms := c.mq.messages;
                            c.NewMessage(ms[|ms| - 1], kind, true, pid, pack(pid)) && !Holds(ms[..|ms| - 1], pid)
  {
    ghost var h, gone := c.history, c.gone;
    pid := NextPid(c.mq, register);
    rv := c.Request(kind, true, pid, pack(pid));
    if rv == OK {
      StillFree(h, c.history, gone, c.gone, pid);
      assert c.mq.messages == c.history[c.gone..];
    }
  }

  lemma StillFree(a: seq<Message>, b: seq<Message>, gone: nat, later: nat, pid: Pid)
    requires gone <= later <= |a| && |b| == |a| + 1 && Onward(a, b) && !Holds(a[gone..], pid)
    ensures b[later..] != [] && b[later..][|b[later..]| - 1] == b[|a|]
    ensures !Holds(b[later..][..|b[later..]| - 1], pid)
  {
    forall i | later <= i < |a| ensures b[i].id != pid {
      assert Advanced(a[i], b[i]);
      assert a[gone..][i - gone] == a[i];
    }
  }
}
