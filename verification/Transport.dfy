/** Remote calls over MQTT (lib/proto/transport.c): a call is published under a topic that names its
    method, and a received message is handed to the method that its topic names. */
module Transport {
  import opened Bytes
  import opened Qos
  import opened MqttCodec
  import opened MqttErrors
  import opened Options

  const SLASH: Byte := 47

  /** Decimal digits, as "%hu" prints them. */
  function Digits(n: nat): seq<Byte> {
    if n < 10 then [(48 + n) as Byte] else Digits(n / 10) + [(48 + n % 10) as Byte]
  }

  function Value(s: seq<Byte>): int {
    if s == [] then 0 else 10 * Value(s[..|s| - 1]) + (s[|s| - 1] as int - 48)
  }

  lemma {:induction false} DigitsValue(n: nat)
    ensures Digits(n) != [] && Value(Digits(n)) == n
    ensures SLASH !in Digits(n)
  {
    if n >= 10 {
      DigitsValue(n / 10);
      assert Digits(n)[..|Digits(n)| - 1] == Digits(n / 10);
    }
  }

  /** "%s/%s/%s/%hu" */
  function Topic(to: seq<Byte>, name: seq<Byte>, host: seq<Byte>, port: nat): seq<Byte> {
    to + [SLASH] + (name + [SLASH] + (host + [SLASH] + Digits(port)))
  }

  /** The first slash, or -1 (memchr). */
  function Slash(s: seq<Byte>): int {
    if s == [] then -1 else if s[0] == SLASH then 0
    else var i := Slash(s[1..]); if i < 0 then -1 else i + 1
  }

  lemma {:induction false} SlashIs(s: seq<Byte>, k: nat)
    requires k <= |s| && SLASH !in s[..k] && (k < |s| ==> s[k] == SLASH)
    ensures Slash(s) == if k < |s| then k else -1
  {
    if k > 0 {
      assert s[0] == s[..k][0];
      assert forall x :: x in s[1..][..k - 1] ==> x in s[..k];
      SlashIs(s[1..], k - 1);
    }
  }

  lemma SlashAfter(a: seq<Byte>, b: seq<Byte>)
    requires SLASH !in a
    ensures Slash(a + [SLASH] + b) == |a|
    ensures (a + [SLASH] + b)[..|a|] == a && (a + [SLASH] + b)[|a| + 1..] == b
  {
    var s := a + [SLASH] + b;
    assert s[..|a|] == a;
    SlashIs(s, |a|);
  }

  /** The parts before and after the first slash. */
  datatype Parts = Whole | Parts(head: seq<Byte>, tail: seq<Byte>)

  function Split(s: seq<Byte>): Parts {
    SlashBelow(s);
    if Slash(s) < 0 then Whole else Parts(s[..Slash(s)], s[Slash(s) + 1..])
  }

  /** What get_topic takes for the method: the part between the first two slashes, if there are three. */
  function MethodPart(s: seq<Byte>): Option<seq<Byte>> {
    match Split(s)
    case Whole => None
    case Parts(_, t) => UpToSlash(t)
  }

  function UpToSlash(t: seq<Byte>): Option<seq<Byte>> {
    match Split(t)
    case Whole => None
    case Parts(m, u) => if Split(u).Whole? then None else Some(m)
  }

  lemma {:induction false} SlashBelow(s: seq<Byte>)
    ensures Slash(s) < |s| && (Slash(s) >= 0 ==> s[Slash(s)] == SLASH && SLASH !in s[..Slash(s)])
    ensures Slash(s) >= -1 && (Slash(s) < 0 ==> SLASH !in s)
  {
    if s != [] && s[0] != SLASH {
      SlashBelow(s[1..]);
      if Slash(s) >= 0 {
        assert s[..Slash(s)] == [s[0]] + s[1..][..Slash(s) - 1];
      } else {
        assert s == [s[0]] + s[1..];
      }
    }
  }

  /** The bytes up to the first NUL: what strcmp sees. */
  function CString(s: seq<Byte>): seq<Byte> {
    if s == [] || s[0] == 0 then [] else [s[0]] + CString(s[1..])
  }

  lemma {:induction false} CStringSame(s: seq<Byte>)
    requires 0 !in s
    ensures CString(s) == s
  {
    if s != [] {
      CStringSame(s[1..]);
    }
  }

  /** The last method of the name that the topic carries, counted from 1; or 0. */
  function MethodOf(names: seq<seq<Byte>>, topic: seq<Byte>): nat {
    match MethodPart(topic)
    case None => 0
    case Some(m) => LastOf(names, CString(m))
  }

  function LastOf(names: seq<seq<Byte>>, name: seq<Byte>): nat {
    if names == [] then 0
    else if names[|names| - 1] == name then |names|
    else LastOf(names[..|names| - 1], name)
  }

  /** Names that can be told apart in a topic. */
  predicate Nameable(names: seq<seq<Byte>>) {
    && (forall i, j :: 0 <= i < j < |names| ==> names[i] != names[j])
    && (forall i :: 0 <= i < |names| ==> SLASH !in names[i] && 0 !in names[i])
  }

  lemma {:induction false} LastOfDistinct(names: seq<seq<Byte>>, k: nat)
    requires k < |names| && forall i, j :: 0 <= i < j < |names| ==> names[i] != names[j]
    ensures LastOf(names, names[k]) == k + 1
  {
    if k < |names| - 1 {
      LastOfDistinct(names[..|names| - 1], k);
    }
  }

  /** The topic of a call names its method. */
  lemma TopicNames(to: seq<Byte>, names: seq<seq<Byte>>, k: nat, host: seq<Byte>, port: nat)
    requires SLASH !in to && k < |names| && Nameable(names)
    ensures MethodOf(names, Topic(to, names[k], host, port)) == k + 1
  {
    var u := host + [SLASH] + Digits(port);
    var t := names[k] + [SLASH] + u;
    SlashAfter(to, t);
    SlashAfter(names[k], u);
    SlashBelow(u);
    assert u[|host|] == SLASH;
    CStringSame(names[k]);
    LastOfDistinct(names, k);
  }

  /** A topic tells all that it was made of. */
  lemma TopicParts(to: seq<Byte>, name: seq<Byte>, host: seq<Byte>, port: nat,
                   to': seq<Byte>, name': seq<Byte>, host': seq<Byte>, port': nat)
    requires SLASH !in to && SLASH !in name && SLASH !in host && SLASH !in to' && SLASH !in name' && SLASH !in host'
    requires Topic(to, name, host, port) == Topic(to', name', host', port')
    ensures to == to' && name == name' && host == host' && port == port'
  {
    var u, u' := host + [SLASH] + Digits(port), host' + [SLASH] + Digits(port');
    var t, t' := name + [SLASH] + u, name' + [SLASH] + u';
    SlashAfter(to, t);
    SlashAfter(to', t');
    SlashAfter(name, u);
    SlashAfter(name', u');
    SlashAfter(host, Digits(port));
    SlashAfter(host', Digits(port'));
    DigitsValue(port);
    DigitsValue(port');
  }

  /** Where the topic lies in an unpacked PUBLISH. */
  function TopicStart(value: Decoded, used: nat): int
    requires value.Publish?
  {
    used - |value.payload| - (if value.hasId then 2 else 0) - |value.topic|
  }

  lemma TopicPlace(s: seq<Byte>, value: Decoded, used: nat)
    requires Unpack(s) == Unpacked(value, used) && value.Publish?
    ensures var p := TopicStart(value, used);
      0 <= p && p + |value.topic| <= used <= |s| && s[p..p + |value.topic|] == value.topic
  {
    var flags, u, n := PublishParsed(s, value, used);
    PublishTopic(flags, s[u..u + n], u, value, used);
    Nested(s, u, u + n, 2, 2 + |value.topic|);
  }

  lemma PublishParsed(s: seq<Byte>, value: Decoded, used: nat) returns (flags: nat, u: nat, n: nat)
    requires Unpack(s) == Unpacked(value, used) && value.Publish?
    ensures u + n <= |s| && UnpackPublish(flags, s[u..u + n], u) == Unpacked(value, used)
  {
    var h := UnpackHeader(s).header;
    flags, u, n := h.flags, UnpackHeader(s).used, h.remaining;
    assert Unpack(s) == UnpackBody(h, s[u..u + n], u);
  }

  lemma TopicInBuffer(buf: array<Byte>, size: nat, value: Decoded, used: nat)
    requires size <= buf.Length && Unpack(buf[..size]) == Unpacked(value, used) && value.Publish?
    ensures var p := TopicStart(value, used);
      0 <= p && p + |value.topic| <= buf.Length && buf[p..p + |value.topic|] == value.topic
  {
    TopicPlace(buf[..size], value, used);
    Inside(buf, size, TopicStart(value, used), |value.topic|);
  }

  lemma Inside(buf: array<Byte>, size: nat, p: nat, n: nat)
    requires p + n <= size <= buf.Length
    ensures buf[..size][p..p + n] == buf[p..p + n]
  {
    var left, right := buf[..size][p..p + n], buf[p..p + n];
    assert |left| == |right| && forall i :: 0 <= i < n ==> left[i] == right[i];
  }

  lemma Nested(s: seq<Byte>, a: nat, b: nat, c: nat, d: nat)
    requires a <= b <= |s| && c <= d <= b - a
    ensures s[a..b][c..d] == s[a + c..a + d]
  {
    var left, right := s[a..b][c..d], s[a + c..a + d];
    assert |left| == |right| && forall i :: 0 <= i < |left| ==> left[i] == right[i];
  }

  lemma PublishTopic(flags: nat, b: seq<Byte>, u: nat, value: Decoded, used: nat)
    requires UnpackPublish(flags, b, u) == Unpacked(value, used)
    ensures TopicStart(value, used) == u + 2 && 2 + |value.topic| <= |b|
    ensures b[2..2 + |value.topic|] == value.topic && used == u + |b|
  {
  }

  /** The messages of a service, and how they are packed and unpacked. */
  datatype Format<!M> = Format(pack: M -> seq<Byte>, unpack: (nat, seq<Byte>) -> Option<M>)

  datatype Reply = Consumed(size: nat) | Reported(error: int)

  /** memchr for a slash in `n` bytes from `p` on. */
  method FindSlash(buf: array<Byte>, p: nat, n: nat) returns (i: int)
    requires p + n <= buf.Length
    ensures i == Slash(buf[p..p + n]) && -1 <= i < n
  {
    i := 0;
    ghost var s := buf[p..p + n];
    while i < n && buf[p + i] != SLASH
      invariant 0 <= i <= n && SLASH !in s[..i]
    {
      assert s[..i + 1] == s[..i] + [s[i]];
      i := i + 1;
    }
    SlashIs(s, i);
    if i == n {
      i := -1;
    }
  }

  /** Overwrite the first slash of the `n` bytes from `p` on by a NUL. */
  method Cut(buf: array<Byte>, p: nat, n: nat, ghost s: seq<Byte>) returns (i: int)
    requires p + n <= buf.Length && buf[p..p + n] == s
    modifies buf
    ensures OnlyWithin(buf, p, n) && -1 <= i < n
    ensures i < 0 <==> Split(s).Whole?
    ensures i < 0 ==> buf[p..p + n] == s
    ensures i >= 0 ==> buf[p + i] == 0 && buf[p..p + i] == Split(s).head && buf[p + i + 1..p + n] == Split(s).tail
  {
    i := FindSlash(buf, p, n);
    SlashBelow(s);
    if i >= 0 {
      buf[p + i] := 0;
      assert buf[p..p + i] == s[..i];
      assert buf[p + i + 1..p + n] == s[i + 1..];
    }
  }

  /** get_topic: cut the topic at its first three slashes, in place; the method's name starts at
      `start` and has `size` bytes. */
  method GetTopic(buf: array<Byte>, p: nat, n: nat, ghost s: seq<Byte>) returns (found: bool, start: nat, size: nat)
    requires p + n <= buf.Length && buf[p..p + n] == s
    modifies buf
    ensures OnlyWithin(buf, p, n)
    ensures found <==> MethodPart(s).Some?
    ensures found ==> start + size < p + n && buf[start..start + size] == MethodPart(s).value && buf[start + size] == 0
  {
    found, start, size := false, 0, 0;
    var i := Cut(buf, p, n, s);
    if i >= 0 {
      found, start, size := CutMethod(buf, p + i + 1, p + n, Split(s).tail);
    }
  }

  /** The second and the third cut. */
  method CutMethod(buf: array<Byte>, p: nat, end: nat, ghost t: seq<Byte>) returns (found: bool, start: nat, size: nat)
    requires p <= end <= buf.Length && buf[p..end] == t
    modifies buf
    ensures OnlyWithin(buf, p, end - p)
    ensures found <==> UpToSlash(t).Some?
    ensures found ==> start + size < end && buf[start..start + size] == UpToSlash(t).value && buf[start + size] == 0
  {
    found, start, size := false, p, 0;
    var j := Cut(buf, p, end - p, t);
    if j >= 0 {
      size := j;
      found := CutPort(buf, p, size, end, Split(t).tail);
    }
  }

  /** The third cut leaves the method's name alone. */
  method CutPort(buf: array<Byte>, start: nat, size: nat, end: nat, ghost u: seq<Byte>) returns (found: bool)
    requires start + size < end <= buf.Length && buf[start + size + 1..end] == u
    modifies buf
    ensures OnlyWithin(buf, start + size + 1, end - start - size - 1)
    ensures buf[start..start + size] == old(buf[start..start + size]) && buf[start + size] == old(buf[start + size])
    ensures found <==> !Split(u).Whole?
  {
    var p := start + size + 1;
    var k := Cut(buf, p, end - p, u);
    found := k >= 0;
  }

  /** strcmp(method, name) == 0, `method` being the bytes from `p` up to a NUL. */
  method SameName(buf: array<Byte>, p: nat, n: nat, name: seq<Byte>) returns (same: bool)
    requires p + n < buf.Length && buf[p + n] == 0 && 0 !in name
    ensures same <==> CString(buf[p..p + n]) == name
  {
    var i := 0;
    ghost var s := buf[p..p + n];
    while i < |name| && buf[p + i] == name[i]
      invariant 0 <= i <= |name| && i <= n
      invariant CString(s) == name <==> CString(s[i..]) == name[i..]
    {
      assert i < n;
      assert s[i..][0] == name[i] && s[i..][1..] == s[i + 1..] && name[i..][1..] == name[i + 1..];
      i := i + 1;
    }
    assert i < n ==> s[i..][0] == buf[p + i];
    same := i == |name| && buf[p + i] == 0;
  }

  /** How many return codes of a SUBACK, counted from the last, come before one that refuses. */
  function Accepted(codes: seq<Byte>): (n: nat)
    ensures n <= |codes| && forall k :: |codes| - n <= k < |codes| ==> codes[k] <= 2
    ensures n < |codes| ==> codes[|codes| - 1 - n] > 2
  {
    if codes == [] || codes[|codes| - 1] > 2 then 0 else 1 + Accepted(codes[..|codes| - 1])
  }

  class Transport<M> {
    const format: Format<M>
    const service: seq<Byte>
    const names: seq<seq<Byte>>
    const to: seq<Byte>
    const host: seq<Byte>
    var port: nat
    /** the id of the last call, a 16-bit counter */
    var id: nat
    var subscribes: nat
    var ready: bool
    /** what was relayed, reported and called, and the topics subscribed to */
    ghost var relayed: seq<seq<Byte>>
    ghost var errors: seq<int>
    ghost var calls: seq<(nat, M)>
    ghost var topics: seq<seq<Byte>>

    predicate Valid()
      reads this
    {
      id < 65536 && port < 65536 && forall i :: 0 <= i < |names| ==> 0 !in names[i]
    }

    constructor (format: Format<M>, service: seq<Byte>, names: seq<seq<Byte>>,
                 to: seq<Byte>, host: seq<Byte>, port: nat)
      requires port < 65536 && forall i :: 0 <= i < |names| ==> 0 !in names[i]
      ensures Valid() && this.names == names && this.format == format && this.service == service
      ensures this.to == to && this.host == host && this.port == port
      ensures relayed == [] && errors == [] && calls == [] && topics == []
    {
      this.format, this.service, this.names, this.to, this.host, this.port := format, service, names, to, host, port;
      id, subscribes, ready := 0, 0, false;
      relayed, errors, calls, topics := [], [], [], [];
    }

    /** The error callback. */
    method Report(e: int)
      modifies `errors
      ensures errors == old(errors) + [e]
    {
      errors := errors + [e];
    }

    /** invoke: pack the message, publish it under the method's topic; `accepted` is the answer of
        the relay. The closure is called at once, with nothing, if the call did not get away. */
    method Invoke(index: nat, input: M, accepted: bool) returns (buf: array?<Byte>, len: int, closed: bool)
      requires Valid() && index < |names| && |format.pack(input)| <= 4096
      requires |Topic(to, names[index], host, port)| < 128
      modifies `id, `relayed, `errors
      ensures Valid() && errors == old(errors)
      ensures closed <==> format.pack(input) == [] || !accepted
      ensures format.pack(input) == [] ==> relayed == old(relayed)
      ensures format.pack(input) != [] ==> buf != null && 0 < len <= buf.Length && fresh(buf)
      ensures format.pack(input) != [] ==> id == (old(id) + 1) % 65536 && relayed == old(relayed) + [buf[..len]]
      ensures format.pack(input) != [] ==>
        buf[..len] == PublishBytes(Topic(to, names[index], host, port), id, format.pack(input), 0)
    {
      var message := format.pack(input);
      buf, len, closed := null, 0, true;
      if |message| > 0 {
        var b := new Byte[256 + |message|];
        var topic := Topic(to, names[index], host, port);
        id := (id + 1) % 65536;
        TopicSize(to, names[index], host, port);
        SmallPublish(topic, id, message);
        len := PackPublish(b, 0, 256 + |message|, topic, id, message, 0);
        buf := b;
        relayed := relayed + [b[..len]];
        closed := !accepted;
      }
    }

    /** get_method: the number of the method that the topic names, or 0; the topic is cut in place. */
    method GetMethod(buf: array<Byte>, p: nat, n: nat) returns (i: nat)
      requires Valid() && p + n <= buf.Length
      modifies buf
      ensures OnlyWithin(buf, p, n)
      ensures i == MethodOf(names, old(buf[p..p + n])) && i <= |names|
    {
      ghost var s := buf[p..p + n];
      var found, start, size := GetTopic(buf, p, n, s);
      if !found {
        return 0;
      }
      i := FindMethod(buf, start, size);
    }

    method FindMethod(buf: array<Byte>, start: nat, size: nat) returns (i: nat)
      requires Valid() && start + size < buf.Length && buf[start + size] == 0
      ensures i == LastOf(names, CString(buf[start..start + size])) && i <= |names|
    {
      i := |names|;
      ghost var name := CString(buf[start..start + size]);
      assert names[..i] == names;
      while i > 0
        invariant i <= |names| && LastOf(names, name) == LastOf(names[..i], name)
      {
        var same := SameName(buf, start, size, names[i - 1]);
        assert names[..i][..i - 1] == names[..i - 1];
        if same {
          return;
        }
        i := i - 1;
      }
    }

    /** input: unpack the message and call the method, or report that it cannot be unpacked. */
    method Input(buf: array<Byte>, topicStart: nat, topicSize: nat, payload: seq<Byte>, ghost topic: seq<Byte>)
      requires Valid() && topicStart + topicSize <= buf.Length && buf[topicStart..topicStart + topicSize] == topic
      modifies buf, `errors, `calls
      ensures OnlyWithin(buf, topicStart, topicSize)
      ensures var i := MethodOf(names, topic);
        && i <= |names|
        && calls == old(calls) + (if i > 0 && format.unpack(i - 1, payload).Some?
                                  then [(i - 1, format.unpack(i - 1, payload).value)] else [])
        && errors == old(errors) + (if i > 0 && format.unpack(i - 1, payload).None? then [NULLPTR] else [])
    {
      var i := GetMethod(buf, topicStart, topicSize);
      if i == 0 {
        return;
      }
      match format.unpack(i - 1, payload)
      case Some(message) =>
        calls := calls + [(i - 1, message)];
      case None =>
        Report(NULLPTR);
    }

    /** Every method's subscription is sent and its topic fits the source's buffer. */
    predicate Subscribable(accepted: nat -> bool)
      requires Valid()
      reads this
    {
      forall i :: 0 <= i < |names| ==> accepted(i) && |Topic(service, names[i], host, port)| < 256
    }

    /** subscribe: one subscription a method, the last first, each under the topic that calls of it
        are published under; `accepted` are the answers of the relay. */
    method Subscribe(accepted: nat -> bool) returns (r: Reply)
      requires Valid()
      modifies `topics, `errors
      ensures r.Consumed? <==> Subscribable(accepted)
      ensures r.Consumed? ==> errors == old(errors) && |topics| == |old(topics)| + |names|
      ensures r.Reported? ==> errors == old(errors) || errors == old(errors) + [SUBSCRIBE_FAILED]
      ensures r.Consumed? ==> forall i :: 0 <= i < |names| ==>
        topics[|topics| - 1 - i] == Topic(service, names[i], host, port)
    {
      var i := |names|;
      while i > 0
        invariant 0 <= i <= |names| && errors == old(errors) && |topics| == |old(topics)| + |names| - i
        invariant forall k :: i <= k < |names| ==> accepted(k) && |Topic(service, names[k], host, port)| < 256
        invariant forall k :: i <= k < |names| ==>
          topics[|old(topics)| + |names| - 1 - k] == Topic(service, names[k], host, port)
      {
        i := i - 1;
        var topic := Topic(service, names[i], host, port);
        if |topic| >= 256 {
          Report(SUBSCRIBE_FAILED);
          return Reported(SUBSCRIBE_FAILED);
        }
        if !accepted(i) {
          return Reported(-1);
        }
        topics := topics + [topic];
      }
      r := Consumed(0);
    }

    /** The return codes of a SUBACK, the last first: count the subscriptions granted before the first
        that is refused. */
    method Granted(codes: seq<Byte>) returns (ok: bool)
      modifies `subscribes, `ready
      ensures ok <==> Accepted(codes) == |codes|
      ensures Counted(Accepted(codes))
    {
      var n := |codes|;
      assert codes[..n] == codes;
      while n > 0
        invariant 0 <= n <= |codes| && Accepted(codes) == |codes| - n + Accepted(codes[..n])
        invariant Counted(|codes| - n)
      {
        n := n - 1;
        assert codes[..n + 1][..n] == codes[..n];
        if codes[n] > 2 {
          return false;
        }
        subscribes := subscribes + 1;
        if subscribes == |names| {
          ready := true;
        }
      }
      ok := true;
    }

    /** After so many granted subscriptions more, the peer is ready from the time that there is one a method. */
    twostate predicate Counted(granted: nat)
      reads this
    {
      && subscribes == old(subscribes) + granted
      && ready == (old(ready) || old(subscribes) < |names| <= subscribes)
    }

    /** What a CONNACK with the code leads to: a subscription for each method if the broker accepts, and
        an error if it refuses or a subscription does not get away. */
    twostate predicate Connected(code: nat, accepted: nat -> bool, r: Reply, used: nat)
      requires Valid()
      reads this
    {
      && calls == old(calls)
      && (r.Consumed? <==> code == 0 && Subscribable(accepted))
      && (code != 0 ==> r == Reported(CONNECTION_REFUSED) && errors == old(errors) + [CONNECTION_REFUSED])
      && (code != 0 ==> topics == old(topics) && subscribes == old(subscribes) && ready == old(ready))
      && (code == 0 ==> subscribes == 0 && !ready)
      && (r.Consumed? ==> r == Consumed(used) && errors == old(errors) && |topics| == |old(topics)| + |names|)
      && (r.Consumed? ==> forall i :: 0 <= i < |names| ==>
            topics[|topics| - 1 - i] == Topic(service, names[i], host, port))
      && (r.Reported? && code == 0 ==> r == Reported(SUBSCRIBE_FAILED))
      && (r.Reported? && code == 0 ==>
            errors == old(errors) + [SUBSCRIBE_FAILED] || errors == old(errors) + [SUBSCRIBE_FAILED, SUBSCRIBE_FAILED])
    }

    /** What a SUBACK leads to: the granted subscriptions are counted, and a refused one is an error. */
    twostate predicate Subscribed(codes: seq<Byte>, r: Reply, used: nat)
      reads this
    {
      && calls == old(calls) && topics == old(topics)
      && Counted(Accepted(codes))
      && (if Accepted(codes) == |codes| then r == Consumed(used) && errors == old(errors)
          else r == Reported(SUBSCRIBE_FAILED) && errors == old(errors) + [SUBSCRIBE_FAILED])
    }

    /** command, for a packet that the unpacker does not run out of. */
    method Command(buf: array<Byte>, size: nat, accepted: nat -> bool) returns (r: Reply)
      requires Valid() && size <= buf.Length && size < 65536 && !Overrun(buf[..size])
      modifies buf, `errors, `calls, `topics, `subscribes, `ready
      ensures Valid()
      ensures var u := old(Unpack(buf[..size]));
        && (u.Failed? ==> r == Reported(u.code) && errors == old(errors) + [u.code])
        && (u.Incomplete? || (u.Unpacked? && u.used > 32767) ==>
              r == Reported(MALFORMED_REQUEST) && errors == old(errors) + [MALFORMED_REQUEST])
        && (u.Unpacked? && u.used <= 32767 && u.value.Publish? ==> r == Consumed(u.used) && Handled(u.value))
        && (u.Unpacked? && u.used <= 32767 && (u.value.Ack? || u.value.Pingresp?) ==>
              r == Consumed(u.used) && calls == old(calls) && errors == old(errors))
        && (u.Unpacked? && u.used <= 32767 && u.value.Connack? ==> Connected(u.value.code, accepted, r, u.used))
        && (u.Unpacked? && u.used <= 32767 && u.value.Suback? ==> Subscribed(u.value.codes, r, u.used))
    {
      OverrunExactly(buf[..size]);
      var u := UnpackResponse(buf, size);
      match u
      case Failed(e) =>
        Report(e);
        r := Reported(e);
      case Incomplete =>
        Report(MALFORMED_REQUEST);
        r := Reported(MALFORMED_REQUEST);
      case Unpacked(value, used) =>
        if used > 32767 {
          Report(MALFORMED_REQUEST);
          return Reported(MALFORMED_REQUEST);
        }
        r := Dispatch(buf, size, value, used, accepted);
    }

    /** A PUBLISH calls the method that its topic names with the message that its payload holds. */
    twostate predicate Handled(value: Decoded)
      requires value.Publish?
      reads this
    {
      var i := MethodOf(names, value.topic);
      && i <= |names|
      && calls == old(calls) + (if i > 0 && format.unpack(i - 1, value.payload).Some?
                                then [(i - 1, format.unpack(i - 1, value.payload).value)] else [])
      && errors == old(errors) + (if i > 0 && format.unpack(i - 1, value.payload).None? then [NULLPTR] else [])
    }

    method DispatchPublish(buf: array<Byte>, p: nat, value: Decoded)
      requires Valid() && value.Publish? && p + |value.topic| <= buf.Length && buf[p..p + |value.topic|] == value.topic
      modifies buf, `errors, `calls
      ensures Handled(value)
    {
      Input(buf, p, |value.topic|, value.payload, value.topic);
    }

    method Dispatch(buf: array<Byte>, size: nat, value: Decoded, used: nat, accepted: nat -> bool) returns (r: Reply)
      requires Valid() && size <= buf.Length && Unpack(buf[..size]) == Unpacked(value, used)
      modifies buf, `errors, `calls, `topics, `subscribes, `ready
      ensures Valid()
      ensures value.Publish? ==> r == Consumed(used) && Handled(value)
      ensures value.Ack? || value.Pingresp? ==> r == Consumed(used) && calls == old(calls) && errors == old(errors)
      ensures value.Connack? ==> Connected(value.code, accepted, r, used)
      ensures value.Suback? ==> Subscribed(value.codes, r, used)
    {
      r := Consumed(used);
      match value
      case Connack(_, code) =>
        if code == 0 {
          subscribes, ready := 0, false;
          var sub := Subscribe(accepted);
          if sub.Reported? {
            Report(SUBSCRIBE_FAILED);
            r := Reported(SUBSCRIBE_FAILED);
          }
        } else {
          Report(CONNECTION_REFUSED);
          r := Reported(CONNECTION_REFUSED);
        }
      case Suback(_, codes) =>
        var ok := Granted(codes);
        if !ok {
          Report(SUBSCRIBE_FAILED);
          r := Reported(SUBSCRIBE_FAILED);
        }
      case Publish(_, _, _, _, _, _, _) =>
        TopicInBuffer(buf, size, value, used);
        DispatchPublish(buf, TopicStart(value, used), value);
      case _ =>
    }
  }

  /** A call that `a` makes of method `k` arrives at `b`, a peer with the same methods, as a call of
      method `k` with the same message, and uses up the whole packet. */
  method Call<M>(a: Transport<M>, b: Transport<M>, k: nat, message: M, accepted: nat -> bool) returns (r: Reply)
    requires a != b && a.Valid() && b.Valid() && a.names == b.names && a.format == b.format
    requires k < |a.names| && Nameable(a.names) && SLASH !in a.to && |Topic(a.to, a.names[k], a.host, a.port)| < 128
    requires 0 < |a.format.pack(message)| <= 4096
    requires a.format.unpack(k, a.format.pack(message)) == Some(message)
    modifies a, b
    ensures b.calls == old(b.calls) + [(k, message)] && b.errors == old(b.errors)
    ensures |a.relayed| == |old(a.relayed)| + 1 && r == Consumed(|a.relayed[|old(a.relayed)|]|)
  {
    var buf, len, closed := a.Invoke(k, message, true);
    CallUnpacked(a.to, a.names, k, a.host, a.port, a.id, a.format.pack(message));
    r := b.Command(buf, len, accepted);
  }

  /** A call is unpacked as a PUBLISH whose topic names the method and whose payload is the message. */
  lemma CallUnpacked(to: seq<Byte>, names: seq<seq<Byte>>, k: nat,
                     host: seq<Byte>, port: nat, id: nat, payload: seq<Byte>)
    requires SLASH !in to && k < |names| && Nameable(names) && id < 65536 && |payload| <= 4096
    requires |Topic(to, names[k], host, port)| < 128
    ensures var topic := Topic(to, names[k], host, port);
      var p := PublishBytes(topic, id, payload, 0);
      && Unpack(p) == Unpacked(Original(topic, id, payload, 0), |p|) && |p| <= 32767
      && MethodOf(names, topic) == k + 1
  {
    var topic := Topic(to, names[k], host, port);
    TopicSize(to, names[k], host, port);
    SmallPublish(topic, id, payload);
    TopicNames(to, names, k, host, port);
    var p := PublishBytes(topic, id, payload, 0);
    PublishRoundTrip(topic, id, payload, 0, []);
    assert p + [] == p;
  }

  /** A call is published under a topic that the peer subscribed to exactly if it is addressed to the
      peer's service, at the same host and port. */
  lemma Routed(to: seq<Byte>, k: nat, host: seq<Byte>, port: nat,
               service: seq<Byte>, names: seq<seq<Byte>>, host': seq<Byte>, port': nat)
    requires k < |names| && Nameable(names)
    requires SLASH !in to && SLASH !in host && SLASH !in service && SLASH !in host'
    ensures (exists i :: 0 <= i < |names| && Topic(to, names[k], host, port) == Topic(service, names[i], host', port'))
      <==> to == service && host == host' && port == port'
  {
    if i :| 0 <= i < |names| && Topic(to, names[k], host, port) == Topic(service, names[i], host', port') {
      TopicParts(to, names[k], host, port, service, names[i], host', port');
    }
    assert to == service && host == host' && port == port' ==>
      Topic(to, names[k], host, port) == Topic(service, names[k], host', port');
  }

  lemma TopicSize(to: seq<Byte>, name: seq<Byte>, host: seq<Byte>, port: nat)
    ensures |Topic(to, name, host, port)| >= 4
  {
    DigitsValue(port);
  }

  /** A call is small enough to be packed. */
  lemma SmallPublish(topic: seq<Byte>, id: nat, payload: seq<Byte>)
    requires id < 65536 && 2 <= |topic| < 128 && |payload| <= 4096
    ensures PackPublishResult(topic, id, payload, 0, 256 + |payload|) == |PublishBytes(topic, id, payload, 0)| > 0
    ensures |PublishBytes(topic, id, payload, 0)| <= 5 + 2 + |topic| + |payload| < 32767
  {
    var h := PublishHeader(topic, payload, 0);
    assert QosOf(0) == 0;
    HeaderRoundTrip(h, []);
    BodySize(topic, id, payload, 0);
  }
}
