/** The send buffer of the MQTT client (lib/mqtt/mqtt.c, lib/mqtt/mqtt.h): in one block of memory,
    packets grow up from the start and message headers grow down from the end. */
module SendBuffer {
  import opened Bytes
  import opened LittleEndian

  datatype State = Unsent | AwaitingAck | Complete

  /** A control packet type, a packet id, and a time in seconds of 64 bits. */
  type Kind = n: nat | n < 16
  type Pid = n: nat | n < 0x1_0000
  type Time = t: int | -0x8000_0000_0000_0000 <= t < 0x8000_0000_0000_0000

  datatype Header = Header(start: nat, size: nat, state: State, sent: Time, kind: Kind, id: Pid)

  /** How a header is laid out in memory. */
  datatype Layout = Layout(size: nat, write: Header -> seq<Byte>, read: seq<Byte> -> Header)

  /** The place and the size of a packet are numbers of 64 bits. */
  predicate Fits(h: Header) {
    h.start < TWO64 && h.size < TWO64
  }

  /** A header that fits is read back as it was written. */
  ghost predicate Sound(l: Layout) {
    && l.size > 0
    && forall h :: |l.write(h)| == l.size && (Fits(h) ==> l.read(l.write(h)) == h)
  }

  // The layout of struct mqtt_queued_message where pointers and sizes have 64 bits, enumerations 32,
  // and everything is aligned to its size: 40 bytes.

  const NATIVE := Layout(40, WriteNative, ReadNative)

  function WriteNative(h: Header): (r: seq<Byte>)
    ensures |r| == 40
  {
    Little(h.start, 8) + Little(h.size, 8) + Little(Number(h.state), 4) + Zeros(4)
    + Little(h.sent % TWO64, 8) + Little(h.kind, 4) + Little(h.id, 2) + Zeros(2)
  }

  function ReadNative(s: seq<Byte>): Header {
    if |s| != 40 then Header(0, 0, Unsent, 0, 0, 0)
    else
      Header(Value(s[..8]), Value(s[8..16]), Numbered(Value(s[16..20])), Signed(Value(s[24..32])),
             Value(s[32..36]) % 16, Value(s[36..38]) % 0x1_0000)
  }

  function Number(s: State): nat {
    match s
    case Unsent => 0
    case AwaitingAck => 1
    case Complete => 2
  }

  function Numbered(n: nat): State {
    if n == 0 then Unsent else if n == 1 then AwaitingAck else Complete
  }

  /** Two's complement. */
  function Signed(n: nat): Time {
    var m := n % TWO64;
    if m < 0x8000_0000_0000_0000 then m else m - TWO64
  }

  lemma NativeSound()
    ensures Sound(NATIVE)
  {
    forall h | Fits(h) ensures NATIVE.read(NATIVE.write(h)) == h {
      NativeBack(h, WriteNative(h));
    }
  }

  lemma NativeBack(h: Header, s: seq<Byte>)
    requires s == WriteNative(h) && Fits(h)
    ensures ReadNative(s) == h
  {
    NativePlace(h, s);
    NativeRest(h, s);
  }

  lemma NativePlace(h: Header, s: seq<Byte>)
    requires s == WriteNative(h) && Fits(h)
    ensures Value(s[..8]) == h.start && Value(s[8..16]) == h.size && Numbered(Value(s[16..20])) == h.state
  {
    NativeParts(h, s);
    Powers();
    Restored(h.start, 8);
    Restored(h.size, 8);
    Restored(Number(h.state), 4);
  }

  lemma NativeRest(h: Header, s: seq<Byte>)
    requires s == WriteNative(h)
    ensures Signed(Value(s[24..32])) == h.sent && Value(s[32..36]) == h.kind && Value(s[36..38]) == h.id
  {
    NativeParts(h, s);
    Powers();
    Restored(h.sent % TWO64, 8);
    SignedBack(h.sent);
    Restored(h.kind, 4);
    Restored(h.id, 2);
  }

  lemma SignedBack(t: Time)
    ensures Signed(t % TWO64) == t
  {
  }

  lemma NativeParts(h: Header, s: seq<Byte>)
    requires s == WriteNative(h)
    ensures s[..8] == Little(h.start, 8) && s[8..16] == Little(h.size, 8) && s[16..20] == Little(Number(h.state), 4)
    ensures s[24..32] == Little(h.sent % TWO64, 8) && s[32..36] == Little(h.kind, 4) && s[36..38] == Little(h.id, 2)
  {
  }

  /** What a client sees of a queued message. */
  datatype Message = Message(bytes: seq<Byte>, state: State, sent: Time, kind: Kind, id: Pid)

  lemma Shorter(m: seq<Byte>, n: seq<Byte>, p: nat, f: nat)
    requires f <= p <= |m| && p <= |n| && n[..p] == m[..p]
    ensures n[..f] == m[..f]
  {
    assert n[..f] == n[..p][..f] && m[..f] == m[..p][..f];
  }

  lemma Longer(m: seq<Byte>, a: seq<Byte>, b: seq<Byte>)
    requires |a| + |b| <= |m| && m[..|a|] == a && m[|a|..|a| + |b|] == b
    ensures m[..|a| + |b|] == a + b
  {
  }

  lemma Inner(m: seq<Byte>, a: seq<Byte>, b: seq<Byte>)
    requires |a| + |b| <= |m| && m[..|a| + |b|] == a + b
    ensures m[|a|..|a| + |b|] == b
  {
    assert m[|a|..|a| + |b|] == m[..|a| + |b|][|a|..];
  }

  function Flat(ms: seq<Message>): seq<Byte> {
    if ms == [] then [] else ms[0].bytes + Flat(ms[1..])
  }

  lemma {:induction false} FlatJoin(a: seq<Message>, b: seq<Message>)
    ensures Flat(a + b) == Flat(a) + Flat(b)
  {
    if a == [] {
      assert a + b == b;
    } else {
      FlatJoin(a[1..], b);
      assert (a + b)[0] == a[0] && (a + b)[1..] == a[1..] + b;
      Associate(a[0].bytes, Flat(a[1..]), Flat(b));
    }
  }

  /** The header of message `i`. */
  function HeaderOf(ms: seq<Message>, i: nat): Header
    requires i < |ms|
  {
    Header(|Flat(ms[..i])|, |ms[i].bytes|, ms[i].state, ms[i].sent, ms[i].kind, ms[i].id)
  }

  /** Where the header of message `i` starts. */
  function Place(m: seq<Byte>, l: Layout, i: nat): int {
    |m| - (i + 1) * l.size
  }

  lemma Places(m: seq<Byte>, l: Layout, i: nat, j: nat)
    requires i < j
    ensures Place(m, l, j) + l.size <= Place(m, l, i)
  {
    assert (j + 1) * l.size == (i + 1) * l.size + l.size + (j - i - 1) * l.size;
    Times(j - i - 1, l.size);
  }

  lemma Times(x: nat, y: nat)
    ensures x * y >= 0
  {
  }

  function ReadHeader(m: seq<Byte>, l: Layout, i: nat): Header
    requires Place(m, l, i) >= 0
  {
    Times(i, l.size);
    assert (i + 1) * l.size == i * l.size + l.size;
    l.read(m[Place(m, l, i)..Place(m, l, i) + l.size])
  }

  /** The memory holds exactly these messages. */
  ghost predicate Represents(m: seq<Byte>, l: Layout, ms: seq<Message>) {
    && |m| < TWO64
    && |Flat(ms)| <= |m| - |ms| * l.size
    && m[..|Flat(ms)|] == Flat(ms)
    && forall i :: 0 <= i < |ms| ==> Place(m, l, i) >= |Flat(ms)| && ReadHeader(m, l, i) == HeaderOf(ms, i)
  }

  /** Drop the longest prefix of messages that are complete. */
  function Cleaned(ms: seq<Message>): seq<Message> {
    if ms == [] || ms[0].state != Complete then ms else Cleaned(ms[1..])
  }

  /** `a` with the bytes from `p` on replaced by `b`. */
  function Patched(a: seq<Byte>, p: nat, b: seq<Byte>): seq<Byte>
    requires p + |b| <= |a|
  {
    a[..p] + b + a[p + |b|..]
  }

  /** A header write is read back, and no other header and no byte below it changes. */
  lemma PatchHeader(m: seq<Byte>, l: Layout, i: nat, h: Header)
    requires Sound(l) && Fits(h) && Place(m, l, i) >= 0
    ensures Place(m, l, i) + l.size <= |m|
    ensures var n := Patched(m, Place(m, l, i), l.write(h));
      && |n| == |m| && ReadHeader(n, l, i) == h && n[..Place(m, l, i)] == m[..Place(m, l, i)]
      && forall j: nat :: j != i && Place(m, l, j) >= 0 ==> ReadHeader(n, l, j) == ReadHeader(m, l, j)
  {
    PlaceIn(m, l, i);
    var p := Place(m, l, i);
    var n := Patched(m, p, l.write(h));
    PatchedHere(m, p, l.write(h));
    forall j: nat | j != i && Place(m, l, j) >= 0 ensures ReadHeader(n, l, j) == ReadHeader(m, l, j) {
      if j < i {
        Places(m, l, j, i);
      } else {
        Places(m, l, i, j);
      }
      PlaceIn(m, l, j);
      PatchedElsewhere(m, p, l.write(h), Place(m, l, j), l.size);
    }
  }

  lemma PlaceIn(m: seq<Byte>, l: Layout, i: nat)
    ensures Place(m, l, i) + l.size <= |m|
  {
    Times(i, l.size);
    assert (i + 1) * l.size == i * l.size + l.size;
  }

  lemma PatchedHere(m: seq<Byte>, p: nat, b: seq<Byte>)
    requires p + |b| <= |m|
    ensures var n := Patched(m, p, b); |n| == |m| && n[p..p + |b|] == b && n[..p] == m[..p]
  {
  }

  lemma PatchedElsewhere(m: seq<Byte>, p: nat, b: seq<Byte>, q: nat, h: nat)
    requires p + |b| <= |m| && q + h <= |m| && (q + h <= p || p + |b| <= q)
    ensures Patched(m, p, b)[q..q + h] == m[q..q + h]
  {
    var n := Patched(m, p, b);
    var left, right := n[q..q + h], m[q..q + h];
    forall x | 0 <= x < h ensures left[x] == right[x] {
      assert n[q + x] == m[q + x];
    }
  }

  lemma FlatOneMore(ms: seq<Message>, x: Message)
    ensures Flat(ms + [x]) == Flat(ms) + x.bytes
    ensures forall i :: 0 <= i < |ms| ==> HeaderOf(ms + [x], i) == HeaderOf(ms, i)
    ensures HeaderOf(ms + [x], |ms|).start == |Flat(ms)|
  {
    FlatJoin(ms, [x]);
    assert Flat([x]) == x.bytes + Flat([]) == x.bytes;
    forall i | 0 <= i < |ms| ensures HeaderOf(ms + [x], i) == HeaderOf(ms, i) {
      assert (ms + [x])[..i] == ms[..i];
    }
    assert (ms + [x])[..|ms|] == ms;
  }

  /** One message more. */
  lemma Appended(m: seq<Byte>, l: Layout, ms: seq<Message>, x: Message)
    requires Sound(l) && Represents(m, l, ms)
    requires |Flat(ms)| + |x.bytes| <= Place(m, l, |ms|) && m[|Flat(ms)|..|Flat(ms)| + |x.bytes|] == x.bytes
    ensures Place(m, l, |ms|) + l.size <= |m|
    ensures Represents(Patched(m, Place(m, l, |ms|), l.write(HeaderOf(ms + [x], |ms|))), l, ms + [x])
  {
    var ns, p := ms + [x], Place(m, l, |ms|);
    var h := HeaderOf(ns, |ms|);
    FlatOneMore(ms, x);
    Times(|ms|, l.size);
    PatchHeader(m, l, |ms|, h);
    var n, f := Patched(m, p, l.write(h)), |Flat(ns)|;
    Longer(m, Flat(ms), x.bytes);
    Shorter(m, n, p, f);
    forall i | 0 <= i < |ns| ensures Place(n, l, i) >= f {
      AtLeastLast(m, l, i, |ms|);
      assert Place(n, l, i) == Place(m, l, i);
    }
    forall i | 0 <= i < |ns| ensures ReadHeader(n, l, i) == HeaderOf(ns, i) {
      AtLeastLast(m, l, i, |ms|);
      if i < |ms| {
        assert ReadHeader(n, l, i) == ReadHeader(m, l, i) == HeaderOf(ms, i);
      }
    }
    TailIsPlace(m, l, |ms|);
    Factor(|ms|, 1, l.size);
  }

  lemma AtLeastLast(m: seq<Byte>, l: Layout, i: nat, last: nat)
    requires i <= last
    ensures Place(m, l, last) <= Place(m, l, i)
  {
    if i < last {
      Places(m, l, i, last);
    }
  }

  /** Of one message, anything but its bytes changes: so do no other headers. */
  lemma HeadersKept(ms: seq<Message>, i: nat, x: Message, j: nat)
    requires i < |ms| && x.bytes == ms[i].bytes && j < |ms|
    ensures Flat(ms[i := x]) == Flat(ms)
    ensures j != i ==> HeaderOf(ms[i := x], j) == HeaderOf(ms, j)
    ensures HeaderOf(ms[i := x], i) == Header(|Flat(ms[..i])|, |x.bytes|, x.state, x.sent, x.kind, x.id)
  {
    var ns := ms[i := x];
    SameFlat(ms, ns);
    SameFlat(ms[..j], ns[..j]);
    SameFlat(ms[..i], ns[..i]);
  }

  /** A message whose state, time, kind or id changes. */
  lemma Changed(m: seq<Byte>, l: Layout, ms: seq<Message>, i: nat, x: Message)
    requires Sound(l) && Represents(m, l, ms) && i < |ms| && x.bytes == ms[i].bytes
    ensures Place(m, l, i) + l.size <= |m|
    ensures Represents(Patched(m, Place(m, l, i), l.write(HeaderOf(ms[i := x], i))), l, ms[i := x])
  {
    var ns := ms[i := x];
    var h := HeaderOf(ns, i);
    HeadersKept(ms, i, x, i);
    Times(|ms|, l.size);
    HeaderFits(ns, i);
    PatchHeader(m, l, i, h);
    var n := Patched(m, Place(m, l, i), l.write(h));
    assert n[..|Flat(ns)|] == m[..|Flat(ns)|];
    forall j | 0 <= j < |ns| ensures Place(n, l, j) >= |Flat(ns)| && ReadHeader(n, l, j) == HeaderOf(ns, j) {
      HeadersKept(ms, i, x, j);
    }
  }

  lemma {:induction false} SameFlat(a: seq<Message>, b: seq<Message>)
    requires |a| == |b| && forall i :: 0 <= i < |a| ==> a[i].bytes == b[i].bytes
    ensures Flat(a) == Flat(b)
  {
    if a != [] {
      SameFlat(a[1..], b[1..]);
    }
  }

  function WithFirst(x: Message, b: Byte): Message
    requires x.bytes != []
  {
    x.(bytes := x.bytes[0 := b])
  }

  lemma FlatAt(ms: seq<Message>, i: nat)
    requires i < |ms|
    ensures |Flat(ms[..i])| + |ms[i].bytes| <= |Flat(ms)|
    ensures Flat(ms) == Flat(ms[..i]) + ms[i].bytes + Flat(ms[i + 1..])
  {
    FlatJoin(ms[..i], ms[i..]);
    assert ms == ms[..i] + ms[i..];
    assert ms[i..][1..] == ms[i + 1..];
    Associate(Flat(ms[..i]), ms[i].bytes, Flat(ms[i + 1..]));
  }

  lemma HeaderFits(ms: seq<Message>, i: nat)
    requires i < |ms| && |Flat(ms)| < TWO64
    ensures Fits(HeaderOf(ms, i))
  {
    FlatAt(ms, i);
  }

  /** Changing a packet's first byte changes the concatenation in one place. */
  lemma FlatSet(ms: seq<Message>, i: nat, b: Byte)
    requires i < |ms| && ms[i].bytes != []
    ensures |Flat(ms[..i])| < |Flat(ms)|
    ensures Flat(ms[i := WithFirst(ms[i], b)]) == Flat(ms)[|Flat(ms[..i])| := b]
  {
    var ns := ms[i := WithFirst(ms[i], b)];
    FlatAt(ms, i);
    FlatAt(ns, i);
    assert ns[..i] == ms[..i] && ns[i + 1..] == ms[i + 1..];
    UpdateJoined(Flat(ms[..i]), ms[i].bytes, Flat(ms[i + 1..]), b);
  }

  lemma UpdateJoined(a: seq<Byte>, x: seq<Byte>, c: seq<Byte>, b: Byte)
    requires x != []
    ensures a + x[0 := b] + c == (a + x + c)[|a| := b]
  {
  }

  lemma {:induction false} SameSizes(a: seq<Message>, b: seq<Message>)
    requires |a| == |b| && forall i :: 0 <= i < |a| ==> |a[i].bytes| == |b[i].bytes|
    ensures |Flat(a)| == |Flat(b)|
  {
    if a != [] {
      SameSizes(a[1..], b[1..]);
    }
  }

  lemma FirstByteSet(m: seq<Byte>, l: Layout, ms: seq<Message>, i: nat, b: Byte)
    requires Sound(l) && Represents(m, l, ms) && i < |ms| && ms[i].bytes != []
    ensures |Flat(ms[..i])| < |Flat(ms)| == |Flat(ms[i := WithFirst(ms[i], b)])| <= |m|
    ensures Represents(m[|Flat(ms[..i])| := b], l, ms[i := WithFirst(ms[i], b)])
  {
    var ns, a, f := ms[i := WithFirst(ms[i], b)], |Flat(ms[..i])|, |Flat(ms)|;
    Times(|ms|, l.size);
    FlatSet(ms, i, b);
    var n := m[a := b];
    assert n[..f] == m[..f][a := b];
    forall j | 0 <= j < |ns| ensures Place(n, l, j) >= f && ReadHeader(n, l, j) == HeaderOf(ns, j) {
      HeaderAbove(m, l, |ms|, j);
      assert n[f..] == m[f..];
      Unmoved(m, n, f, Place(m, l, j), l.size);
      SameSizes(ms[..j], ns[..j]);
    }
  }

  lemma FirstByteAt(m: seq<Byte>, l: Layout, ms: seq<Message>, i: nat)
    requires Represents(m, l, ms) && i < |ms| && ms[i].bytes != []
    ensures Place(m, l, i) >= 0
    ensures var h := ReadHeader(m, l, i); h.start < |m| && m[h.start] == ms[i].bytes[0]
  {
    var s := |Flat(ms[..i])|;
    Times(|ms|, l.size);
    FlatAt(ms, i);
    Within(Flat(ms[..i]), ms[i].bytes, Flat(ms[i + 1..]));
    assert m[s] == m[..|Flat(ms)|][s];
  }

  lemma Within(a: seq<Byte>, x: seq<Byte>, c: seq<Byte>)
    requires x != []
    ensures (a + x + c)[|a|] == x[0]
  {
  }

  // Cleaning away the first `k` messages: the bytes of the others move to the front, their headers
  // to the end, and then each start is set back.

  /** The header of a message that has `j` before it once `k` are gone. */
  function Later(ms: seq<Message>, k: nat, j: nat): Header
    requires j + k < |ms|
  {
    HeaderOf(ms, j + k)
  }

  /** Both blocks are moved, and the first `i` starts set back. */
  ghost predicate Halfway(m: seq<Byte>, l: Layout, ms: seq<Message>, k: nat, i: nat) {
    && |m| < TWO64 && k <= |ms| && i <= |ms| - k
    && |Flat(ms[k..])| <= |m| - (|ms| - k) * l.size
    && m[..|Flat(ms[k..])|] == Flat(ms[k..])
    && (forall j: nat :: j < |ms| - k ==> Place(m, l, j) >= |Flat(ms[k..])|)
    && (forall j: nat :: j < i ==> ReadHeader(m, l, j) == HeaderOf(ms[k..], j))
    && (forall j: nat :: i <= j < |ms| - k ==> ReadHeader(m, l, j) == Later(ms, k, j))
  }

  /** Setting a start back by the bytes removed. */
  lemma SetBack(ms: seq<Message>, k: nat, j: nat)
    requires j + k < |ms|
    ensures Later(ms, k, j).start >= |Flat(ms[..k])|
    ensures HeaderOf(ms[k..], j) == Later(ms, k, j).(start := Later(ms, k, j).start - |Flat(ms[..k])|)
  {
    FlatJoin(ms[..k], ms[k..][..j]);
    assert ms[..k] + ms[k..][..j] == ms[..j + k];
  }

  lemma Bumped(m: seq<Byte>, l: Layout, ms: seq<Message>, k: nat, i: nat)
    requires Sound(l) && Halfway(m, l, ms, k, i) && i < |ms| - k
    ensures Place(m, l, i) + l.size <= |m| && ReadHeader(m, l, i).start >= |Flat(ms[..k])|
    ensures var h := ReadHeader(m, l, i);
      Halfway(Patched(m, Place(m, l, i), l.write(h.(start := h.start - |Flat(ms[..k])|))), l, ms, k, i + 1)
  {
    SetBack(ms, k, i);
    BumpedTo(m, l, ms, k, i, HeaderOf(ms[k..], i));
  }

  lemma BumpedTo(m: seq<Byte>, l: Layout, ms: seq<Message>, k: nat, i: nat, h: Header)
    requires Sound(l) && Halfway(m, l, ms, k, i) && i < |ms| - k && h == HeaderOf(ms[k..], i)
    ensures Place(m, l, i) + l.size <= |m|
    ensures Halfway(Patched(m, Place(m, l, i), l.write(h)), l, ms, k, i + 1)
  {
    Times(|ms| - k, l.size);
    HeaderFits(ms[k..], i);
    PatchHeader(m, l, i, h);
    var n := Patched(m, Place(m, l, i), l.write(h));
    var f := |Flat(ms[k..])|;
    assert n[..f] == n[..Place(m, l, i)][..f] == m[..f];
    forall j: nat | j < |ms| - k ensures Place(n, l, j) >= f {
      assert Place(n, l, j) == Place(m, l, j);
    }
    assert forall j: nat :: j < i + 1 ==> ReadHeader(n, l, j) == HeaderOf(ms[k..], j);
    assert forall j: nat :: i + 1 <= j < |ms| - k ==> ReadHeader(n, l, j) == Later(ms, k, j);
  }

  /** What the first move does: `n` bytes from `a` on go to the front. */
  function Front(m: seq<Byte>, a: nat, n: nat): seq<Byte>
    requires a + n <= |m|
  {
    m[a..a + n] + m[n..]
  }

  /** What the second move does: `n` bytes from `a` on go to the end. */
  function Back(m: seq<Byte>, a: nat, n: nat): seq<Byte>
    requires a + n <= |m|
  {
    m[..|m| - n] + m[a..a + n]
  }

  /** A piece of the block that moves to the end. */
  lemma BackPiece(m: seq<Byte>, m1: seq<Byte>, t: nat, n: nat, d: nat, h: nat)
    requires t + n <= |m| == |m1| && m1[t..] == m[t..] && d + h <= n
    ensures Back(m1, t, n)[|m| - n + d..|m| - n + d + h] == m[t + d..t + d + h]
  {
    var left, right, p := Back(m1, t, n)[|m| - n + d..|m| - n + d + h], m[t + d..t + d + h], |m| - n + d;
    forall x | 0 <= x < h ensures left[x] == right[x] {
      assert left[x] == Back(m1, t, n)[p + x] == m1[t + d + x];
      assert m1[t + d + x] == m1[t..][d + x] && m[t + d + x] == m[t..][d + x];
    }
  }

  lemma Factor(a: nat, b: nat, h: nat)
    ensures (a + b) * h == a * h + b * h && a * h >= 0 && b * h >= 0
  {
    Times(a, h);
    Times(b, h);
  }

  /** The header of a message that stays, `count` being the number of messages. */
  lemma MovedHeader(m: seq<Byte>, l: Layout, count: nat, k: nat, j: nat, m1: seq<Byte>)
    requires l.size > 0 && j + k < count && Place(m, l, count - 1) >= 0 && |m1| == |m|
    requires m1[Place(m, l, count - 1)..] == m[Place(m, l, count - 1)..]
    ensures Place(m, l, count - 1) + (count - k) * l.size <= |m| && (count - k) * l.size >= 0
    ensures var m2 := Back(m1, Place(m, l, count - 1), (count - k) * l.size);
      |m2| == |m| && Place(m, l, j + k) >= 0 && Place(m2, l, j) >= 0
      && ReadHeader(m2, l, j) == ReadHeader(m, l, j + k)
  {
    var h, t, n := l.size, Place(m, l, count - 1), (count - k) * l.size;
    Factor(count - k, k, h);
    Factor(j + 1, k, h);
    Factor(j, 1, h);
    Factor(j + 1, count - k - j - 1, h);
    var d := (count - k - j - 1) * h;
    BackPiece(m, m1, t, n, d, h);
  }

  lemma FrontBytes(m: seq<Byte>, a: seq<Byte>, b: seq<Byte>, t: nat)
    requires |a| + |b| <= t <= |m| && m[..|a| + |b|] == a + b
    ensures Front(m, |a|, |b|)[..|b|] == b && Front(m, |a|, |b|)[t..] == m[t..]
  {
    Inner(m, a, b);
  }

  lemma MovedBytes(m: seq<Byte>, ms: seq<Message>, k: nat, t: nat, c: nat)
    requires |Flat(ms)| <= t && t + c <= |m| && m[..|Flat(ms)|] == Flat(ms) && k <= |ms|
    ensures |Flat(ms[..k])| + |Flat(ms[k..])| == |Flat(ms)|
    ensures |Flat(ms[k..])| <= |m| - c
    ensures var n := |Flat(ms[k..])|;
      var m1 := Front(m, |Flat(ms[..k])|, n);
      Back(m1, t, c)[..n] == Flat(ms[k..]) && m1[t..] == m[t..]
  {
    var a, b := Flat(ms[..k]), Flat(ms[k..]);
    FlatJoin(ms[..k], ms[k..]);
    assert ms[..k] + ms[k..] == ms;
    FrontBytes(m, a, b, t);
    var m1 := Front(m, |a|, |b|);
    Shorter(m1, Back(m1, t, c), |m| - c, |b|);
  }

  lemma Moved(m: seq<Byte>, l: Layout, ms: seq<Message>, k: nat)
    requires l.size > 0 && Represents(m, l, ms) && k < |ms|
    ensures |Flat(ms[..k])| + |Flat(ms[k..])| == |Flat(ms)| <= |m|
    ensures Place(m, l, |ms| - 1) + (|ms| - k) * l.size <= |m| && (|ms| - k) * l.size >= 0
    ensures var m1 := Front(m, |Flat(ms[..k])|, |Flat(ms[k..])|);
      Halfway(Back(m1, Place(m, l, |ms| - 1), (|ms| - k) * l.size), l, ms, k, 0)
  {
    var t, c := Place(m, l, |ms| - 1), (|ms| - k) * l.size;
    Factor(|ms| - k, k, l.size);
    MovedBytes(m, ms, k, t, c);
    var m1 := Front(m, |Flat(ms[..k])|, |Flat(ms[k..])|);
    var m2 := Back(m1, t, c);
    forall j: nat | j < |ms| - k
      ensures Place(m2, l, j) >= |Flat(ms[k..])| && ReadHeader(m2, l, j) == Later(ms, k, j)
    {
      MovedHeader(m, l, |ms|, k, j, m1);
      Factor(|ms| - k - j - 1, j + 1, l.size);
    }
  }

  /** The longest complete prefix is what cleaning drops. */
  lemma {:induction false} CleanedIs(ms: seq<Message>, k: nat)
    requires k <= |ms| && forall i :: 0 <= i < k ==> ms[i].state == Complete
    requires k < |ms| ==> ms[k].state != Complete
    ensures Cleaned(ms) == ms[k..]
  {
    if k > 0 {
      CleanedIs(ms[1..], k - 1);
    }
  }

  function Room(curr: nat, tail: int, header: nat): nat {
    if curr >= tail - header then 0 else tail - header - curr
  }

  /** Cleaning never takes room away. */
  lemma {:induction false} CleanedRoom(ms: seq<Message>, memory: nat, header: nat)
    ensures Room(|Flat(Cleaned(ms))|, memory - |Cleaned(ms)| * header, header)
         >= Room(|Flat(ms)|, memory - |ms| * header, header)
  {
    if ms != [] && ms[0].state == Complete {
      CleanedRoom(ms[1..], memory, header);
      Factor(|ms| - 1, 1, header);
    }
  }

  class MessageQueue {
    const mem: array<Byte>
    const layout: Layout
    var curr: nat
    var queueTail: int
    var currSz: nat
    ghost var messages: seq<Message>

    ghost predicate Valid()
      reads this, mem
    {
      && Sound(layout) && Represents(mem[..], layout, messages)
      && curr == |Flat(messages)| && queueTail == mem.Length - |messages| * layout.size
      && currSz == Room(curr, queueTail, layout.size)
    }

    /** mqtt_mq_init */
    constructor (buf: array<Byte>, layout: Layout)
      requires Sound(layout) && buf.Length < TWO64
      ensures Valid() && messages == [] && mem == buf && this.layout == layout
    {
      mem, this.layout := buf, layout;
      curr, queueTail, messages := 0, buf.Length, [];
      currSz := Room(0, buf.Length, layout.size);
    }

    method Write(p: nat, bytes: seq<Byte>)
      requires p + |bytes| <= mem.Length
      modifies mem
      ensures mem[..] == Patched(old(mem[..]), p, bytes)
    {
      ghost var m := mem[..];
      var i := 0;
      while i < |bytes|
        invariant 0 <= i <= |bytes|
        invariant forall k :: 0 <= k < mem.Length ==> mem[k] == if p <= k < p + i then bytes[k - p] else m[k]
      {
        mem[p + i] := bytes[i];
        i := i + 1;
      }
      assert mem[..] == Patched(m, p, bytes);
    }

    /** The packers write their packet from `curr` on. */
    method Pack(bytes: seq<Byte>)
      requires Valid() && |bytes| <= currSz
      modifies mem
      ensures Valid() && messages == old(messages)
      ensures curr + |bytes| <= mem.Length && mem[curr..curr + |bytes|] == bytes
    {
      Packed(mem[..], layout, messages, bytes);
      Write(curr, bytes);
      assert mem[curr..curr + |bytes|] == mem[..][curr..curr + |bytes|];
    }

    method WriteHeader(i: nat, h: Header)
      requires Sound(layout) && 0 <= Place(mem[..], layout, i) && Place(mem[..], layout, i) + layout.size <= mem.Length
      modifies mem
      ensures mem[..] == Patched(old(mem[..]), Place(old(mem[..]), layout, i), layout.write(h))
    {
      Write(Place(mem[..], layout, i), layout.write(h));
    }

    /** mqtt_mq_length */
    function Length(): (n: nat)
      requires Valid()
      reads this, mem
      ensures n == |messages|
    {
      Quotient(|messages|, layout.size);
      (mem.Length - queueTail) / layout.size
    }

    /** mqtt_mq_register: the bytes just packed become a message. Its time, kind and id are what the
        memory happened to hold. */
    method Register(nbytes: nat) returns (ghost x: Message)
      requires Valid() && 0 < nbytes <= currSz
      modifies this, mem
      ensures Valid() && messages == old(messages) + [x]
      ensures x.bytes == old(mem[curr..curr + nbytes]) && x.state == Unsent
      ensures queueTail == old(queueTail) - layout.size && curr == old(curr) + nbytes
    {
      ghost var ms := messages;
      var i := Length();
      x := AddHeader(i, nbytes);
      FlatOneMore(ms, x);
      Factor(|ms|, 1, layout.size);
      messages := ms + [x];
      queueTail := queueTail - layout.size;
      curr := curr + nbytes;
      currSz := Room(curr, queueTail, layout.size);
    }

    /** The header of the new message goes below the last one. */
    method AddHeader(i: nat, nbytes: nat) returns (ghost x: Message)
      requires Valid() && 0 < nbytes <= currSz && i == |messages|
      modifies mem
      ensures x.bytes == old(mem[curr..curr + nbytes]) && x.state == Unsent
      ensures Represents(mem[..], layout, messages + [x])
    {
      TailIsPlace(mem[..], layout, i);
      var g := ReadHeader(mem[..], layout, i);
      x := Message(mem[curr..curr + nbytes], Unsent, g.sent, g.kind, g.id);
      FlatOneMore(messages, x);
      assert mem[..][curr..curr + nbytes] == x.bytes;
      Appended(mem[..], layout, messages, x);
      WriteHeader(i, Header(curr, nbytes, Unsent, g.sent, g.kind, g.id));
    }

    /** What the client stores in a message: everything but its place and size. */
    method SetMessage(i: nat, state: State, sent: Time, kind: Kind, id: Pid)
      requires Valid() && i < |messages|
      modifies `messages, mem
      ensures Valid() && messages == old(messages)[i := Message(old(messages)[i].bytes, state, sent, kind, id)]
    {
      ghost var ms, x := messages, Message(messages[i].bytes, state, sent, kind, id);
      var h := ReadHeader(mem[..], layout, i);
      HeadersKept(ms, i, x, i);
      Changed(mem[..], layout, ms, i, x);
      WriteHeader(i, h.(state := state, sent := sent, kind := kind, id := id));
      messages := ms[i := x];
    }

    /** A client may change the first byte of a packet where it lies. */
    method SetFirstByte(i: nat, b: Byte)
      requires Valid() && i < |messages| && messages[i].bytes != []
      modifies `messages, mem
      ensures Valid() && messages == old(messages)[i := WithFirst(old(messages)[i], b)]
    {
      var h := ReadHeader(mem[..], layout, i);
      assert h == HeaderOf(messages, i);
      FirstByteSet(mem[..], layout, messages, i, b);
      mem[h.start] := b;
      messages := messages[i := WithFirst(messages[i], b)];
    }

    /** The first byte of a packet, read where it lies. */
    method FirstByte(i: nat) returns (b: Byte)
      requires Valid() && i < |messages| && messages[i].bytes != []
      ensures b == messages[i].bytes[0]
    {
      var h := ReadHeader(mem[..], layout, i);
      FirstByteAt(mem[..], layout, messages, i);
      b := mem[h.start];
    }

    /** The header of message `i` as the client reads it. */
    function Get(i: nat): (h: Header)
      requires Valid() && i < |messages|
      reads this, mem
      ensures h == HeaderOf(messages, i)
    {
      ReadHeader(mem[..], layout, i)
    }

    /** mqtt_mq_find: the first message of a kind that has the given id, or is not yet complete. */
    method Find(kind: Kind, hasId: bool, id: Pid) returns (found: int)
      requires Valid()
      ensures found == First(messages, kind, hasId, id)
    {
      var curr, n := 0, Length();
      while curr < n
        invariant 0 <= curr <= n
        invariant forall i :: 0 <= i < curr ==> !Matches(messages[i], kind, hasId, id)
      {
        var h := ReadHeader(mem[..], layout, curr);
        assert h == HeaderOf(messages, curr);
        if h.kind == kind && (if hasId then h.id == id else h.state != Complete) {
          FirstIs(messages, kind, hasId, id, curr);
          return curr;
        }
        curr := curr + 1;
      }
      FirstIs(messages, kind, hasId, id, curr);
      found := -1;
    }

    /** memmove */
    method Move(to: nat, from: nat, n: nat)
      requires to + n <= mem.Length && from + n <= mem.Length
      modifies mem
      ensures mem[..] == Patched(old(mem[..]), to, old(mem[..])[from..from + n])
    {
      forall i | 0 <= i < n {
        mem[to + i] := mem[from + i];
      }
    }

    /** The first message that is not complete. */
    method NewHead() returns (k: nat)
      requires Valid()
      ensures k <= |messages| && Cleaned(messages) == messages[k..]
      ensures forall i :: 0 <= i < k ==> messages[i].state == Complete
      ensures k < |messages| ==> messages[k].state != Complete
    {
      var n := Length();
      k := 0;
      while k < n && ReadHeader(mem[..], layout, k).state == Complete
        invariant 0 <= k <= n
        invariant forall i :: 0 <= i < k ==> messages[i].state == Complete
      {
        assert ReadHeader(mem[..], layout, k) == HeaderOf(messages, k);
        k := k + 1;
      }
      assert k < n ==> ReadHeader(mem[..], layout, k) == HeaderOf(messages, k);
      CleanedIs(messages, k);
    }

    /** Every start is set back by the bytes removed. */
    method BumpStarts(removing: nat, count: nat, ghost ms: seq<Message>, ghost k: nat)
      requires Sound(layout) && Halfway(mem[..], layout, ms, k, 0)
      requires k <= |ms| && count == |ms| - k && removing == |Flat(ms[..k])|
      modifies mem
      ensures Represents(mem[..], layout, ms[k..])
    {
      var i := 0;
      while i < count
        invariant 0 <= i <= count && Halfway(mem[..], layout, ms, k, i)
      {
        Bumped(mem[..], layout, ms, k, i);
        var h := ReadHeader(mem[..], layout, i);
        WriteHeader(i, h.(start := h.start - removing));
        i := i + 1;
      }
    }

    /** The bytes that stay go to the front. */
    method MoveFront(start: nat, n: nat)
      requires start + n <= mem.Length
      modifies mem
      ensures mem[..] == Front(old(mem[..]), start, n)
    {
      Move(0, start, n);
    }

    /** The headers that stay go to the end. */
    method MoveBack(from: nat, n: nat)
      requires from + n <= mem.Length
      modifies mem
      ensures mem[..] == Back(old(mem[..]), from, n)
    {
      Move(mem.Length - n, from, n);
    }

    /** The start of message `k`, and the number of messages from it on. */
    method Split(k: nat) returns (start: nat, count: nat)
      requires Valid() && k < |messages|
      ensures start == |Flat(messages[..k])| && count == |messages| - k
      ensures start <= curr && curr - start == |Flat(messages[k..])|
      ensures queueTail == Place(mem[..], layout, |messages| - 1)
    {
      var h := ReadHeader(mem[..], layout, k);
      assert h == HeaderOf(messages, k);
      start, count := h.start, Length() - k;
      FlatJoin(messages[..k], messages[k..]);
      assert messages[..k] + messages[k..] == messages;
      TailIsPlace(mem[..], layout, |messages| - 1);
      Factor(|messages| - 1, 1, layout.size);
    }

    method MoveBoth(start: nat, n: nat, from: nat, c: nat)
      requires start + n <= mem.Length && from + c <= mem.Length
      modifies mem
      ensures mem[..] == Back(Front(old(mem[..]), start, n), from, c)
    {
      MoveFront(start, n);
      MoveBack(from, c);
    }

    /** Both moves, and the starts set back. */
    method Shift(k: nat) returns (n: nat)
      requires Valid() && k < |messages|
      modifies mem
      ensures Represents(mem[..], layout, messages[k..]) && n == |Flat(messages[k..])|
    {
      ghost var ms := messages;
      var start, count := Split(k);
      n := curr - start;
      MoveKept(start, n, count, k);
      BumpStarts(start, count, ms, k);
    }

    method MoveKept(start: nat, n: nat, count: nat, ghost k: nat)
      requires Valid() && k < |messages| && start == |Flat(messages[..k])| && n == |Flat(messages[k..])|
      requires count == |messages| - k && queueTail == Place(mem[..], layout, |messages| - 1)
      modifies mem
      ensures Halfway(mem[..], layout, messages, k, 0)
    {
      ghost var m := mem[..];
      Moved(m, layout, messages, k);
      var c := count * layout.size;
      MoveBoth(start, n, queueTail, c);
      assert mem[..] == Back(Front(m, start, n), queueTail, c);
    }

    /** mqtt_mq_clean */
    method Clean()
      requires Valid()
      modifies this, mem
      ensures Valid() && messages == Cleaned(old(messages))
    {
      var newHead := NewHead();
      if newHead == Length() {
        curr, queueTail, messages := 0, mem.Length, [];
      } else if newHead == 0 {
        return;
      } else {
        var count := Length() - newHead;
        curr := Shift(newHead);
        queueTail, messages := mem.Length - count * layout.size, messages[newHead..];
      }
      currSz := Room(curr, queueTail, layout.size);
    }
  }

  predicate Matches(x: Message, kind: Kind, hasId: bool, id: Pid) {
    x.kind == kind && if hasId then x.id == id else x.state != Complete
  }

  /** The index of the first match, or -1. */
  function First(ms: seq<Message>, kind: Kind, hasId: bool, id: Pid): int {
    if ms == [] then -1
    else if Matches(ms[0], kind, hasId, id) then 0
    else var r := First(ms[1..], kind, hasId, id); if r < 0 then -1 else r + 1
  }

  lemma {:induction false} FirstIs(ms: seq<Message>, kind: Kind, hasId: bool, id: Pid, k: nat)
    requires k <= |ms| && forall i :: 0 <= i < k ==> !Matches(ms[i], kind, hasId, id)
    requires k < |ms| ==> Matches(ms[k], kind, hasId, id)
    ensures First(ms, kind, hasId, id) == if k < |ms| then k else -1
  {
    if k > 0 {
      FirstIs(ms[1..], kind, hasId, id, k - 1);
    }
  }

  lemma TailIsPlace(m: seq<Byte>, l: Layout, i: nat)
    ensures Place(m, l, i) == |m| - i * l.size - l.size
  {
    Factor(i, 1, l.size);
  }

  lemma Quotient(i: nat, h: nat)
    requires h > 0
    ensures i * h / h == i
  {
    var q, r := i * h / h, i * h % h;
    assert i * h == q * h + r;
    if i > q {
      Factor(i - q - 1, 1, h);
      Factor(i - q, q, h);
    } else {
      Factor(q - i, i, h);
      if q > i {
        Factor(q - i - 1, 1, h);
      }
    }
  }

  /** Bytes written where there is room do no harm. */
  lemma Packed(m: seq<Byte>, l: Layout, ms: seq<Message>, bytes: seq<Byte>)
    requires Sound(l) && Represents(m, l, ms)
    requires |Flat(ms)| + |bytes| <= |m| - |ms| * l.size
    ensures |Flat(ms)| + |bytes| <= |m|
    ensures Represents(Patched(m, |Flat(ms)|, bytes), l, ms)
  {
    Times(|ms|, l.size);
    var f := |Flat(ms)|;
    var n := Patched(m, f, bytes);
    assert |n| == |m| && n[..f] == m[..f] && n[f + |bytes|..] == m[f + |bytes|..];
    forall i | 0 <= i < |ms| ensures Place(n, l, i) >= f && ReadHeader(n, l, i) == HeaderOf(ms, i) {
      HeaderAbove(m, l, |ms|, i);
      Unmoved(m, n, f + |bytes|, Place(m, l, i), l.size);
    }
  }

  lemma Unmoved(m: seq<Byte>, n: seq<Byte>, t: nat, p: nat, h: nat)
    requires |n| == |m| && t <= p && p + h <= |m| && n[t..] == m[t..]
    ensures n[p..p + h] == m[p..p + h]
  {
    var left, right := n[p..p + h], m[p..p + h];
    forall x | 0 <= x < h ensures left[x] == right[x] {
      assert n[p + x] == n[t..][p - t + x] && m[p + x] == m[t..][p - t + x];
    }
  }

  lemma HeaderAbove(m: seq<Byte>, l: Layout, count: nat, i: nat)
    requires i < count
    ensures |m| - count * l.size <= Place(m, l, i) && Place(m, l, i) + l.size <= |m|
  {
    Factor(i + 1, count - i - 1, l.size);
    Factor(i, 1, l.size);
  }
}
