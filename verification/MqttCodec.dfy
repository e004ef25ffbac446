/** Packing and unpacking control packets of MQTT 3.1.1 (lib/mqtt/mqtt.c). */
module MqttCodec {
  import opened Bytes
  import opened Division
  import opened MqttErrors
  import opened Qos

  const LENGTH_LIMIT: nat := 0x1000_0000

  datatype FixedHeader = FixedHeader(kind: nat, flags: nat, remaining: nat)

  /** Two four-bit fields and a 32-bit length. */
  predicate InRange(h: FixedHeader) {
    h.kind < 16 && h.flags < 16 && h.remaining < 0x1_0000_0000
  }

  function RequiredFlags(kind: nat): nat {
    if kind in {PUBREL, SUBSCRIBE, UNSUBSCRIBE} then 2 else 0
  }

  /** mqtt_fixed_header_rule_violation: only a PUBLISH may choose its flags. */
  function RuleViolation(kind: nat, flags: nat): int {
    if kind == 0 || kind >= 15 then CONTROL_FORBIDDEN_TYPE
    else if kind != PUBLISH && flags != RequiredFlags(kind) then CONTROL_INVALID_FLAGS
    else 0
  }

  /** The variable length encoding of section 2.2.3: seven bits a byte, the low ones first. */
  function Varint(n: nat): seq<Byte> {
    if n < 128 then [n as Byte] else [(n % 128 + 128) as Byte] + Varint(n / 128)
  }

  lemma {:induction false} VarintLength(n: nat, k: nat)
    requires 0 < k <= 4 && n < Power128(k)
    ensures 1 <= |Varint(n)| <= k
  {
    if n >= 128 {
      VarintLength(n / 128, k - 1);
    }
  }

  function Power128(k: nat): nat {
    if k == 0 then 1 else 128 * Power128(k - 1)
  }

  /** First byte and length of a header. */
  function HeaderBytes(h: FixedHeader): seq<Byte>
    requires InRange(h)
  {
    [(h.kind * 16 + h.flags) as Byte] + Varint(h.remaining)
  }

  /** mqtt_pack_fixed_header: what it returns in a buffer of `room` bytes. */
  function PackHeaderResult(h: FixedHeader, room: nat): int
    requires InRange(h)
  {
    if RuleViolation(h.kind, h.flags) != 0 then RuleViolation(h.kind, h.flags)
    else if room == 0 then 0
    else if h.remaining >= LENGTH_LIMIT then INVALID_REMAINING_LENGTH
    else if room < |HeaderBytes(h)| + h.remaining then 0
    else |HeaderBytes(h)|
  }

  datatype LengthRead = Missing | Excess | Value(value: nat, used: nat)

  /** The length at the start of `t`, of which `k` bytes were read before. */
  function ReadLength(t: seq<Byte>, k: nat): LengthRead
    requires k <= 4
    decreases 4 - k
  {
    if k == 4 then Excess
    else if t == [] then Missing
    else if t[0] < 128 then Value(t[0] as nat, 1)
    else match ReadLength(t[1..], k + 1)
      case Value(v, n) => Value(t[0] as nat - 128 + 128 * v, n + 1)
      case r => r
  }

  datatype HeaderRead = Short | Wrong(code: int) | Parsed(header: FixedHeader, used: nat)

  /** mqtt_unpack_fixed_header */
  function UnpackHeader(s: seq<Byte>): HeaderRead {
    if s == [] then Short
    else match ReadLength(s[1..], 0)
      case Missing => Short
      case Excess => Wrong(INVALID_REMAINING_LENGTH)
      case Value(v, n) =>
        var kind, flags := s[0] as nat / 16, s[0] as nat % 16;
        if RuleViolation(kind, flags) != 0 then Wrong(RuleViolation(kind, flags))
        else if |s| < 1 + n + v then Short
        else Parsed(FixedHeader(kind, flags, v), 1 + n)
  }

  lemma {:induction false} ReadVarint(n: nat, t: seq<Byte>, k: nat)
    requires k <= 3 && n < Power128(4 - k)
    ensures ReadLength(Varint(n) + t, k) == Value(n, |Varint(n)|)
  {
    var s := Varint(n) + t;
    if n >= 128 {
      assert s[1..] == Varint(n / 128) + t;
      assert k < 3 by {
        assert Power128(1) == 128;
      }
      ReadVarint(n / 128, t, k + 1);
    }
  }

  lemma {:induction false} ReadPrefix(n: nat, j: nat, k: nat)
    requires k <= 3 && n < Power128(4 - k) && j < |Varint(n)|
    ensures ReadLength(Varint(n)[..j], k) == Missing
  {
    var s := Varint(n)[..j];
    if j > 0 {
      assert n >= 128;
      assert s[1..] == Varint(n / 128)[..j - 1];
      assert k < 3 by {
        assert Power128(1) == 128;
      }
      ReadPrefix(n / 128, j - 1, k + 1);
    }
  }

  /** What a header that is packed is read as: any bytes may follow, but nothing may be missing. */
  lemma HeaderRoundTrip(h: FixedHeader, rest: seq<Byte>)
    requires InRange(h) && RuleViolation(h.kind, h.flags) == 0 && h.remaining < LENGTH_LIMIT
    ensures 2 <= |HeaderBytes(h)| <= 5
    ensures UnpackHeader(HeaderBytes(h) + rest) ==
      if |rest| < h.remaining then Short else Parsed(h, |HeaderBytes(h)|)
  {
    var s := HeaderBytes(h) + rest;
    assert s[1..] == Varint(h.remaining) + rest;
    assert Power128(4) == LENGTH_LIMIT;
    VarintLength(h.remaining, 4);
    ReadVarint(h.remaining, rest, 0);
  }

  lemma HeaderPrefix(h: FixedHeader, j: nat)
    requires InRange(h) && RuleViolation(h.kind, h.flags) == 0 && h.remaining < LENGTH_LIMIT
    requires j < |HeaderBytes(h)|
    ensures UnpackHeader(HeaderBytes(h)[..j]) == Short
  {
    if j > 0 {
      assert HeaderBytes(h)[..j][1..] == Varint(h.remaining)[..j - 1];
      assert Power128(4) == LENGTH_LIMIT;
      ReadPrefix(h.remaining, j - 1, 0);
    }
  }

  function U16(n: nat): seq<Byte>
    requires n < 65536
  {
    [(n / 256) as Byte, (n % 256) as Byte]
  }

  function ReadU16(s: seq<Byte>): nat
    requires |s| >= 2
  {
    s[0] as nat * 256 + s[1] as nat
  }

  // PUBLISH

  /** The 32-bit remaining length that the packer computes. */
  function Remaining(topic: seq<Byte>, qos: nat, payload: seq<Byte>): nat {
    2 + |topic| + (if qos > 0 then 2 else 0) + |payload|
  }

  /** Variable header and payload; the topic's length is cut to 16 bits. */
  function Body(topic: seq<Byte>, qos: nat, id: nat, payload: seq<Byte>): seq<Byte>
    requires id < 65536
  {
    Variable(topic, qos, id) + payload
  }

  function Variable(topic: seq<Byte>, qos: nat, id: nat): seq<Byte>
    requires id < 65536
  {
    var n := |topic| % 65536;
    U16(n) + topic[..n] + if qos > 0 then U16(id) else []
  }

  function PublishHeader(topic: seq<Byte>, payload: seq<Byte>, flags: Byte): FixedHeader {
    FixedHeader(PUBLISH, flags as nat % 8, Remaining(topic, QosOf(flags), payload))
  }

  /** Sizes that the packer's 32-bit sum can hold. */
  predicate Fits32(topic: seq<Byte>, payload: seq<Byte>) {
    4 + |topic| + |payload| < 0x1_0000_0000
  }

  /** mqtt_pack_publish_request: what it returns in a buffer of `room` bytes. */
  function PackPublishResult(topic: seq<Byte>, id: nat, payload: seq<Byte>, flags: Byte, room: nat): int
    requires id < 65536 && Fits32(topic, payload)
  {
    if QosOf(flags) == 3 then PUBLISH_FORBIDDEN_QOS
    else
      var rv := PackHeaderResult(PublishHeader(topic, payload, flags), room);
      if rv <= 0 then rv else |PublishBytes(topic, id, payload, flags)|
  }

  function PublishBytes(topic: seq<Byte>, id: nat, payload: seq<Byte>, flags: Byte): seq<Byte>
    requires id < 65536 && Fits32(topic, payload)
  {
    HeaderBytes(PublishHeader(topic, payload, flags)) + Body(topic, QosOf(flags), id, payload)
  }

  datatype Decoded =
    | Connack(session: nat, code: nat)
    | Publish(dup: bool, qos: nat, retain: bool, topic: seq<Byte>, hasId: bool, id: nat, payload: seq<Byte>)
    | Ack(kind: nat, id: nat)
    | Suback(id: nat, codes: seq<Byte>)
    | Pingresp

  /** Undefined: the code reads past the packet. */
  datatype Unpacked = Incomplete | Failed(code: int) | Undefined | Unpacked(value: Decoded, used: nat)

  /** mqtt_unpack_publish_response on the `remaining` bytes after the header. */
  function UnpackPublish(flags: nat, s: seq<Byte>, used: nat): Unpacked {
    if |s| < 4 then Failed(MALFORMED_RESPONSE)
    else
      var n, qos := ReadU16(s), flags / 2 % 4;
      var start := 2 + n + if qos > 0 then 2 else 0;
      if start > |s| then Undefined
      else
        var id := if qos > 0 then ReadU16(s[2 + n..]) else 0;
        Unpacked(Publish(flags / 8 % 2 == 1, qos, flags % 2 == 1, s[2..2 + n], qos > 0, id, s[start..]), used + |s|)
  }

  /** mqtt_unpack_response */
  function Unpack(s: seq<Byte>): Unpacked {
    match UnpackHeader(s)
    case Short => Incomplete
    case Wrong(e) => Failed(e)
    case Parsed(h, used) => UnpackBody(h, s[used..used + h.remaining], used)
  }

  function UnpackBody(h: FixedHeader, b: seq<Byte>, used: nat): Unpacked {
    if h.kind == CONNACK then
      if |b| != 2 then Failed(MALFORMED_RESPONSE)
      else if b[0] > 1 then Failed(CONNACK_FORBIDDEN_FLAGS)
      else if b[1] > 5 then Failed(CONNACK_FORBIDDEN_CODE)
      else Unpacked(Connack(b[0] as nat, b[1] as nat), used + 2)
    else if h.kind == PUBLISH then UnpackPublish(h.flags, b, used)
    else if h.kind in {PUBACK, PUBREC, PUBREL, PUBCOMP, UNSUBACK} then
      if |b| != 2 then Failed(MALFORMED_RESPONSE) else Unpacked(Ack(h.kind, ReadU16(b)), used + 2)
    else if h.kind == SUBACK then
      if |b| < 3 then Failed(MALFORMED_RESPONSE) else Unpacked(Suback(ReadU16(b), b[2..]), used + |b|)
    else if h.kind == PINGRESP then Unpacked(Pingresp, used)
    else Failed(RESPONSE_INVALID_CONTROL_TYPE)
  }

  /** A whole PUBLISH whose topic, with the packet id of a quality above 0, runs past its remaining length. */
  predicate Overrun(s: seq<Byte>) {
    match UnpackHeader(s)
    case Parsed(h, used) =>
      && h.kind == PUBLISH && h.remaining >= 4
      && 2 + ReadU16(s[used..]) + (if h.flags / 2 % 4 > 0 then 2 else 0) > h.remaining
    case _ => false
  }

  /** The unpacker reads past exactly those packets; a topic length that leaves no room for a payload
      is not checked. */
  lemma OverrunExactly(s: seq<Byte>)
    ensures Unpack(s).Undefined? <==> Overrun(s)
  {
    match UnpackHeader(s) {
      case Parsed(h, used) =>
        assert h.remaining >= 2 ==> ReadU16(s[used..used + h.remaining]) == ReadU16(s[used..]);
      case _ =>
    }
  }

  /** The message that was packed; a DUP flag is not sent. */
  function Original(topic: seq<Byte>, id: nat, payload: seq<Byte>, flags: Byte): Decoded {
    var qos := QosOf(flags);
    Publish(false, qos, flags as nat % 2 == 1, topic, qos > 0, if qos > 0 then id else 0, payload)
  }

  lemma ReadBack(n: nat)
    requires n < 65536
    ensures ReadU16(U16(n)) == n
  {
  }

  lemma FlagBits(n: nat)
    ensures n % 8 / 2 % 4 == n / 2 % 4 && n % 8 % 2 == n % 2
  {
    assert n == 8 * (n / 8) + n % 8;
    assert n / 2 == 4 * (n / 8) + n % 8 / 2;
  }

  lemma BodyRead(topic: seq<Byte>, id: nat, payload: seq<Byte>, flags: Byte, used: nat)
    requires id < 65536 && |topic| < 65536 && QosOf(flags) != 3 && Remaining(topic, QosOf(flags), payload) >= 4
    ensures |Body(topic, QosOf(flags), id, payload)| == Remaining(topic, QosOf(flags), payload)
    ensures UnpackPublish(flags as nat % 8, Body(topic, QosOf(flags), id, payload), used)
      == Unpacked(Original(topic, id, payload, flags), used + Remaining(topic, QosOf(flags), payload))
  {
    var qos, n := QosOf(flags), |topic|;
    var s := Body(topic, qos, id, payload);
    ReadBack(n);
    FlagBits(flags as nat);
    BodyParts(topic, qos, id, payload);
    if qos > 0 {
      ReadBack(id);
      assert ReadU16(s[2 + n..]) == ReadU16(s[2 + n..4 + n]);
    }
  }

  lemma BodyParts(topic: seq<Byte>, qos: nat, id: nat, payload: seq<Byte>)
    requires id < 65536 && |topic| < 65536
    ensures var s, n := Body(topic, qos, id, payload), |topic|;
      && |s| == 2 + n + (if qos > 0 then 2 else 0) + |payload|
      && ReadU16(s) == ReadU16(U16(n)) && s[2..2 + n] == topic
      && (qos > 0 ==> s[2 + n..4 + n] == U16(id) && s[4 + n..] == payload)
      && (qos == 0 ==> s[2 + n..] == payload)
  {
    var n := |topic|;
    assert topic[..n] == topic;
    Cut4(U16(n), topic, if qos > 0 then U16(id) else [], payload);
  }

  lemma Cut4(a: seq<Byte>, b: seq<Byte>, c: seq<Byte>, d: seq<Byte>)
    ensures var s := a + b + c + d;
      && s[..|a|] == a && s[|a|..|a| + |b|] == b && s[|a| + |b|..|a| + |b| + |c|] == c && s[|a| + |b| + |c|..] == d
  {
  }

  /** Unpacking undoes packing: whatever follows, the message comes back and is all that is consumed. */
  lemma PublishRoundTrip(topic: seq<Byte>, id: nat, payload: seq<Byte>, flags: Byte, rest: seq<Byte>)
    requires id < 65536 && |topic| < 65536 && QosOf(flags) != 3
    requires 4 <= Remaining(topic, QosOf(flags), payload) < LENGTH_LIMIT
    ensures var p := PublishBytes(topic, id, payload, flags);
      Unpack(p + rest) == Unpacked(Original(topic, id, payload, flags), |p|)
  {
    var h, b := PublishHeader(topic, payload, flags), Body(topic, QosOf(flags), id, payload);
    var p := PublishBytes(topic, id, payload, flags);
    var used := |HeaderBytes(h)|;
    BodyRead(topic, id, payload, flags, used);
    HeaderRoundTrip(h, b + rest);
    assert p + rest == HeaderBytes(h) + (b + rest);
    assert (p + rest)[used..used + h.remaining] == b;
  }

  /** A packet that lacks its end is never taken for one. */
  lemma PublishPrefix(topic: seq<Byte>, id: nat, payload: seq<Byte>, flags: Byte, k: nat)
    requires id < 65536 && QosOf(flags) != 3 && Remaining(topic, QosOf(flags), payload) < LENGTH_LIMIT
    requires k < |PublishBytes(topic, id, payload, flags)|
    ensures Unpack(PublishBytes(topic, id, payload, flags)[..k]) == Incomplete
  {
    var h, b := PublishHeader(topic, payload, flags), Body(topic, QosOf(flags), id, payload);
    var p, used := HeaderBytes(h) + b, |HeaderBytes(h)|;
    if k < used {
      assert p[..k] == HeaderBytes(h)[..k];
      HeaderPrefix(h, k);
    } else {
      assert p[..k] == HeaderBytes(h) + b[..k - used];
      BodySize(topic, id, payload, flags);
      HeaderRoundTrip(h, b[..k - used]);
    }
  }

  lemma BodySize(topic: seq<Byte>, id: nat, payload: seq<Byte>, flags: Byte)
    requires id < 65536
    ensures |Body(topic, QosOf(flags), id, payload)|
      == Remaining(topic, QosOf(flags), payload) - |topic| + |topic| % 65536
  {
  }

  /** Exactly the messages with a topic of at most 65535 bytes and a remaining length of at least 4
      come back from the packet made of them. */
  lemma PublishExact(topic: seq<Byte>, id: nat, payload: seq<Byte>, flags: Byte)
    requires id < 65536 && QosOf(flags) != 3 && Remaining(topic, QosOf(flags), payload) < LENGTH_LIMIT
    ensures var p := PublishBytes(topic, id, payload, flags);
      Unpack(p) == Unpacked(Original(topic, id, payload, flags), |p|)
      <==> |topic| <= 65535 && Remaining(topic, QosOf(flags), payload) >= 4
  {
    var h, b := PublishHeader(topic, payload, flags), Body(topic, QosOf(flags), id, payload);
    var p := PublishBytes(topic, id, payload, flags);
    assert p + [] == p;
    BodySize(topic, id, payload, flags);
    HeaderRoundTrip(h, b);
    if |topic| <= 65535 && h.remaining >= 4 {
      PublishRoundTrip(topic, id, payload, flags, []);
    } else if |topic| > 65535 {
      assert |topic| % 65536 < |topic|;
    } else {
      assert p[|HeaderBytes(h)|..|HeaderBytes(h)| + h.remaining] == b;
    }
  }

  // PUBACK, PUBREC, PUBREL, PUBCOMP

  /** A message that is packed and not taken: QoS 0, a topic of one byte, nothing else. */
  lemma ShortPublish(b: Byte)
    ensures Unpack(PublishBytes([b], 0, [], 0)) == Failed(MALFORMED_RESPONSE)
  {
    var h, s := PublishHeader([b], [], 0), Body([b], 0, 0, []);
    assert s == [0, 1, b] && h == FixedHeader(PUBLISH, 0, 3);
    HeaderRoundTrip(h, s);
    var p := HeaderBytes(h) + s;
    assert p[|HeaderBytes(h)|..|HeaderBytes(h)| + 3] == s;
  }

  function AckHeader(kind: nat): FixedHeader {
    FixedHeader(kind, if kind == PUBREL then 2 else 0, 2)
  }

  /** mqtt_pack_pubxxx_request */
  function AckBytes(kind: nat, id: nat): seq<Byte>
    requires kind in {PUBACK, PUBREC, PUBREL, PUBCOMP} && id < 65536
  {
    HeaderBytes(AckHeader(kind)) + U16(id)
  }

  lemma AckRoundTrip(kind: nat, id: nat, rest: seq<Byte>)
    requires kind in {PUBACK, PUBREC, PUBREL, PUBCOMP} && id < 65536
    ensures |AckBytes(kind, id)| == 4
    ensures Unpack(AckBytes(kind, id) + rest) == Unpacked(Ack(kind, id), 4)
  {
    var h, p := AckHeader(kind), AckBytes(kind, id);
    ReadBack(id);
    HeaderRoundTrip(h, U16(id) + rest);
    assert p + rest == HeaderBytes(h) + (U16(id) + rest);
    assert (p + rest)[2..4] == U16(id);
  }

  // The packers write through a moving pointer, `p`; `left` is the room from it on.

  /** Nothing outside of the room was written. */
  twostate predicate OnlyWithin(buf: array<Byte>, start: nat, room: nat)
    reads buf
  {
    forall k :: 0 <= k < buf.Length && !(start <= k < start + room) ==> buf[k] == old(buf[k])
  }

  lemma Join(buf: array<Byte>, a: nat, b: nat, c: nat)
    requires a <= b <= c <= buf.Length
    ensures buf[a..c] == buf[a..b] + buf[b..c]
  {
  }

  method PutByte(buf: array<Byte>, start: nat, size: nat, b: Byte)
    requires start + size < buf.Length
    modifies buf
    ensures buf[start..start + size + 1] == old(buf[start..start + size]) + [b]
    ensures OnlyWithin(buf, start + size, 1)
  {
    buf[start + size] := b;
  }

  /** What is still to be written when `done` is. */
  ghost predicate Progress(done: seq<Byte>, more: bool, remaining: nat, all: seq<Byte>) {
    done + (if more then Varint(remaining) else []) == all
  }

  lemma Peel(done: seq<Byte>, n: nat, all: seq<Byte>)
    requires Progress(done, true, n, all)
    ensures |all| > |done|
    ensures Progress(done + [LengthByte(n)], n > 127, n / 128, all)
  {
    VarintNonempty(n);
    assert done + Varint(n) == done + [LengthByte(n)] + if n > 127 then Varint(n / 128) else [];
  }

  method PutLengthByte(buf: array<Byte>, start: nat, size: nat, remaining: nat, ghost all: seq<Byte>)
      returns (more: bool, next: nat)
    requires start + size < buf.Length && Progress(buf[start..start + size], true, remaining, all)
    modifies buf
    ensures OnlyWithin(buf, start + size, 1) && Progress(buf[start..start + size + 1], more, next, all)
    ensures more ==> next < remaining
  {
    Peel(buf[start..start + size], remaining, all);
    PutByte(buf, start, size, LengthByte(remaining));
    more := remaining > 127;
    next := remaining / 128;
  }

  /** The length bytes, each after a check that there is room for it. */
  method PackLength(buf: array<Byte>, start: nat, room: nat, length: nat) returns (size: nat)
    requires start + room <= buf.Length && length < LENGTH_LIMIT
    modifies buf
    ensures OnlyWithin(buf, start, room)
    ensures size == if |Varint(length)| <= room then |Varint(length)| else 0
    ensures size > 0 ==> buf[start..start + size] == Varint(length)
  {
    size := PackBytes(buf, start, room, length, Varint(length));
  }

  method PackBytes(buf: array<Byte>, start: nat, room: nat, length: nat, ghost all: seq<Byte>) returns (size: nat)
    requires start + room <= buf.Length && all == Varint(length)
    modifies buf
    ensures OnlyWithin(buf, start, room) && size == if |all| <= room then |all| else 0
    ensures size > 0 ==> buf[start..start + size] == all
  {
    var remaining, more := length, true;
    size := 0;
    while more
      invariant size <= room && OnlyWithin(buf, start, room)
      invariant Progress(buf[start..start + size], more, remaining, all)
      decreases more, remaining
    {
      Peel(buf[start..start + size], remaining, all);
      if size == room {
        return 0;
      }
      more, remaining := PutLengthByte(buf, start, size, remaining, all);
      size := size + 1;
    }
  }

  function LengthByte(remaining: nat): Byte {
    if remaining > 127 then (remaining % 128 + 128) as Byte else remaining as Byte
  }

  method PackFixedHeader(buf: array<Byte>, start: nat, room: nat, h: FixedHeader) returns (rv: int)
    requires start + room <= buf.Length && InRange(h)
    modifies buf
    ensures rv == PackHeaderResult(h, room) && OnlyWithin(buf, start, room)
    ensures rv > 0 ==> start + rv <= buf.Length && buf[start..start + rv] == HeaderBytes(h)
  {
    rv := RuleViolation(h.kind, h.flags);
    if rv != 0 {
      return;
    }
    if room == 0 {
      return;
    }
    buf[start] := (h.kind * 16 + h.flags) as Byte;
    if h.remaining >= LENGTH_LIMIT {
      return INVALID_REMAINING_LENGTH;
    }
    var size := PackLength(buf, start + 1, room - 1, h.remaining);
    if size == 0 || room - 1 - size < h.remaining {
      VarintNonempty(h.remaining);
      return 0;
    }
    rv := 1 + size;
    Join(buf, start, start + 1, start + rv);
  }

  lemma {:induction false} VarintNonempty(n: nat)
    ensures |Varint(n)| >= 1
  {
  }

  method PackUint16(buf: array<Byte>, p: nat, n: nat)
    requires p + 2 <= buf.Length && n < 65536
    modifies buf
    ensures buf[p..p + 2] == U16(n) && OnlyWithin(buf, p, 2)
  {
    buf[p], buf[p + 1] := (n / 256) as Byte, (n % 256) as Byte;
  }

  method PackStr(buf: array<Byte>, p: nat, str: seq<Byte>) returns (size: nat)
    requires p + 2 + |str| % 65536 <= buf.Length
    modifies buf
    ensures size == 2 + |str| % 65536 && OnlyWithin(buf, p, size)
    ensures buf[p..p + size] == U16(|str| % 65536) + str[..|str| % 65536]
  {
    var length := |str| % 65536;
    PackUint16(buf, p, length);
    var i := 0;
    while i < length
      invariant 0 <= i <= length
      invariant OnlyWithin(buf, p, 2 + length) && buf[p..p + 2] == U16(length)
      invariant forall k :: 0 <= k < i ==> buf[p + 2 + k] == str[k]
    {
      buf[p + 2 + i] := str[i];
      i := i + 1;
    }
    size := 2 + length;
    assert buf[p..p + size] == buf[p..p + 2] + buf[p + 2..p + size];
  }

  /** memcpy */
  method Copy(buf: array<Byte>, p: nat, data: seq<Byte>)
    requires p + |data| <= buf.Length
    modifies buf
    ensures buf[p..p + |data|] == data && OnlyWithin(buf, p, |data|)
  {
    forall k | 0 <= k < |data| {
      buf[p + k] := data[k];
    }
  }

  /** The topic, and the id if there is one. */
  method PackVariable(buf: array<Byte>, p: nat, topic: seq<Byte>, qos: nat, id: nat) returns (size: nat)
    requires id < 65536 && p + |Variable(topic, qos, id)| <= buf.Length
    modifies buf
    ensures size == |Variable(topic, qos, id)| && OnlyWithin(buf, p, size)
    ensures buf[p..p + size] == Variable(topic, qos, id)
  {
    size := PackStr(buf, p, topic);
    if qos > 0 {
      ghost var a := buf[p..p + size];
      PackUint16(buf, p + size, id);
      assert buf[p..p + size] == a;
      Join(buf, p, p + size, p + size + 2);
      size := size + 2;
    }
  }

  /** Variable header and payload, from `p` on. */
  method PackBody(buf: array<Byte>, p: nat, topic: seq<Byte>, qos: nat, id: nat, payload: seq<Byte>) returns (size: nat)
    requires id < 65536 && p + |Body(topic, qos, id, payload)| <= buf.Length
    modifies buf
    ensures size == |Body(topic, qos, id, payload)| && OnlyWithin(buf, p, size)
    ensures buf[p..p + size] == Body(topic, qos, id, payload)
  {
    size := PackVariable(buf, p, topic, qos, id);
    ghost var a := buf[p..p + size];
    Copy(buf, p + size, payload);
    assert buf[p..p + size] == a;
    Join(buf, p, p + size, p + size + |payload|);
    size := size + |payload|;
  }

  /** The body after a packed header. */
  method PackAfter(buf: array<Byte>, start: nat, used: nat, topic: seq<Byte>, qos: nat, id: nat, payload: seq<Byte>)
      returns (rv: nat)
    requires id < 65536 && start + used + |Body(topic, qos, id, payload)| <= buf.Length
    modifies buf
    ensures rv == used + |Body(topic, qos, id, payload)| && OnlyWithin(buf, start + used, rv - used)
    ensures buf[start..start + rv] == old(buf[start..start + used]) + Body(topic, qos, id, payload)
  {
    ghost var a := buf[start..start + used];
    var size := PackBody(buf, start + used, topic, qos, id, payload);
    assert buf[start..start + used] == a;
    rv := used + size;
    Join(buf, start, start + used, start + rv);
  }

  /** mqtt_pack_publish_request */
  method PackPublish(buf: array<Byte>, start: nat, room: nat,
                     topic: seq<Byte>, id: nat, payload: seq<Byte>, flags: Byte)
      returns (rv: int)
    requires start + room <= buf.Length && id < 65536 && Fits32(topic, payload)
    modifies buf
    ensures rv == PackPublishResult(topic, id, payload, flags, room) && OnlyWithin(buf, start, room)
    ensures rv > 0 ==> rv <= room && buf[start..start + rv] == PublishBytes(topic, id, payload, flags)
  {
    var qos := QosOf(flags);
    var sent := if qos == 0 && flags as int / 8 % 2 == 1 then flags - 8 else flags;
    if qos == 3 {
      return PUBLISH_FORBIDDEN_QOS;
    }
    assert sent as nat % 8 == flags as nat % 8;
    var h := FixedHeader(PUBLISH, sent as nat % 8, Remaining(topic, qos, payload));
    BodySize(topic, id, payload, flags);
    rv := PackFixedHeader(buf, start, room, h);
    if rv > 0 {
      rv := PackAfter(buf, start, rv, topic, qos, id, payload);
    }
  }

  /** mqtt_pack_pubxxx_request */
  method PackAck(buf: array<Byte>, start: nat, room: nat, kind: nat, id: nat) returns (rv: int)
    requires start + room <= buf.Length && kind in {PUBACK, PUBREC, PUBREL, PUBCOMP} && id < 65536
    modifies buf
    ensures rv == (if room < 4 then 0 else 4) && OnlyWithin(buf, start, room)
    ensures rv > 0 ==> buf[start..start + rv] == AckBytes(kind, id)
  {
    rv := PackFixedHeader(buf, start, room, AckHeader(kind));
    assert Varint(2) == [2];
    if rv > 0 {
      ghost var a := buf[start..start + rv];
      PackUint16(buf, start + rv, id);
      assert buf[start..start + rv] == a;
      Join(buf, start, start + rv, start + rv + 2);
      rv := rv + 2;
    }
  }

  /** What of a length was read so far: `k` bytes that come to `value`. */
  function Carry(r: LengthRead, value: nat, k: nat): LengthRead {
    match r
    case Value(v, n) => Value(value + Power128(k) * v, n + k)
    case _ => r
  }

  /** Seven bits more. */
  function Shifted(value: nat, b: nat, k: nat): nat {
    value + b % 128 * Power128(k)
  }

  /** The loop of mqtt_unpack_fixed_header: seven bits a turn, shifted into place. */
  method UnpackLength(buf: array<Byte>, bufsz: nat) returns (r: LengthRead)
    requires 0 < bufsz <= buf.Length
    ensures r == ReadLength(buf[1..bufsz], 0)
  {
    var p, k: nat, value: nat := 0, 0, 0;
    ghost var t := buf[1..bufsz];
    while true
      invariant k <= 4 && p == k && p < bufsz
      invariant ReadLength(t, 0) == Carry(ReadLength(t[k..], k), value, k)
      decreases 4 - k
    {
      if k == 4 {
        return Excess;
      }
      p := p + 1;
      if p == bufsz {
        return Missing;
      }
      var b := buf[p] as nat;
      assert t[k..][0] == buf[p] && t[k..][1..] == t[k + 1..];
      CarryStep(t[k..], value, k);
      value := Shifted(value, b, k);
      k := k + 1;
      if b < 128 {
        return Value(value, k);
      }
    }
  }

  lemma CarryStep(t: seq<Byte>, value: nat, k: nat)
    requires k < 4 && t != []
    ensures var b := t[0] as nat;
      var next := Shifted(value, b, k);
      Carry(ReadLength(t, k), value, k)
      == if b < 128 then Value(next, k + 1) else Carry(ReadLength(t[1..], k + 1), next, k + 1)
  {
    var b, p, rest := t[0] as nat, Power128(k), ReadLength(t[1..], k + 1);
    assert Power128(k + 1) == 128 * p;
    if b < 128 {
      Remainder(b, 128, 0, b);
      assert p * b == b * p;
    } else if rest.Value? {
      Remainder(b, 128, 1, b - 128);
      Distribute(p, b - 128, rest.value);
    }
  }

  lemma Distribute(p: nat, x: nat, v: nat)
    ensures p * (x + 128 * v) == x * p + 128 * p * v
  {
  }

  method UnpackFixedHeader(buf: array<Byte>, bufsz: nat) returns (r: HeaderRead)
    requires bufsz <= buf.Length
    ensures r == UnpackHeader(buf[..bufsz])
  {
    if bufsz == 0 {
      return Short;
    }
    assert buf[..bufsz][1..] == buf[1..bufsz];
    var kind, flags := buf[0] as nat / 16, buf[0] as nat % 16;
    var length := UnpackLength(buf, bufsz);
    match length
    case Missing =>
      r := Short;
    case Excess =>
      r := Wrong(INVALID_REMAINING_LENGTH);
    case Value(v, n) =>
      var errcode := RuleViolation(kind, flags);
      if errcode != 0 {
        r := Wrong(errcode);
      } else if bufsz - 1 - n < v {
        r := Short;
      } else {
        r := Parsed(FixedHeader(kind, flags, v), 1 + n);
      }
  }

  method UnpackResponse(buf: array<Byte>, bufsz: nat) returns (r: Unpacked)
    requires bufsz <= buf.Length
    ensures r == Unpack(buf[..bufsz])
  {
    var rv := UnpackFixedHeader(buf, bufsz);
    match rv
    case Short =>
      r := Incomplete;
    case Wrong(e) =>
      r := Failed(e);
    case Parsed(h, used) =>
      assert buf[..bufsz][used..used + h.remaining] == buf[used..used + h.remaining];
      r := UnpackBody(h, buf[used..used + h.remaining], used);
  }
}
