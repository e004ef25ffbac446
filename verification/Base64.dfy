/** The encoder that carries bits from byte to byte and the decoder (lib/common/base64.c). */
module Base64 {
  import opened Bytes
  import opened Division
  import opened Options

  /** The two last characters of the alphabet, and the one that fills up. */
  datatype Tail = Tail(plus: Byte, slash: Byte, pad: Byte)

  /** The character of a value below 64. */
  function Letter(v: nat, tail: Tail): Byte
    requires v < 64
  {
    if v < 26 then (65 + v) as Byte
    else if v < 52 then (97 + v - 26) as Byte
    else if v < 62 then (48 + v - 52) as Byte
    else if v == 62 then tail.plus
    else tail.slash
  }

  /** map2: the value of a character of the standard alphabet. */
  function ValueOf(c: Byte): (r: Option<nat>)
    ensures r.Some? ==> r.value < 64
  {
    var n := c as int;
    if n == 43 then Some(62)
    else if n == 47 then Some(63)
    else if 48 <= n <= 57 then Some(n - 48 + 52)
    else if 65 <= n <= 90 then Some(n - 65)
    else if 97 <= n <= 122 then Some(n - 97 + 26)
    else None
  }

  function Nth(s: seq<Byte>, i: nat): nat {
    At(s, i) as nat
  }

  /** Section 4 of RFC 4648: a group of 24 bits is four characters; at the end zero bits complete the
      last character, and pads the group. */
  function Encoded(s: seq<Byte>, tail: Tail): seq<Byte> {
    if s == [] then []
    else
      var group := Group(Nth(s, 0) * 0x1_0000 + Nth(s, 1) * 0x100 + Nth(s, 2), tail);
      if |s| >= 3 then group + Encoded(s[3..], tail)
      else group[..|s| + 1] + seq(3 - |s|, i => tail.pad)
  }

  function Group(v: nat, tail: Tail): (r: seq<Byte>)
    requires v < 0x100_0000
    ensures |r| == 4
  {
    [Letter(v / 0x4_0000, tail), Letter(v / 0x1000 % 64, tail), Letter(v / 64 % 64, tail), Letter(v % 64, tail)]
  }

  /** How many characters carry bits of `n` bytes. */
  function Carrying(n: nat): nat {
    (4 * n + 2) / 3
  }

  /** The six bits of character `j`, out of the bytes they lie in. */
  function Sextet(s: seq<Byte>, j: nat): (r: nat)
    ensures r < 64
  {
    var q := j / 4 * 3;
    if j % 4 == 0 then Nth(s, q) / 4
    else if j % 4 == 1 then Nth(s, q) % 4 * 16 + Nth(s, q + 1) / 16
    else if j % 4 == 2 then Nth(s, q + 1) % 16 * 4 + Nth(s, q + 2) / 64
    else Nth(s, q + 2) % 64
  }

  lemma Split24(a: nat, b: nat, c: nat)
    requires a < 256 && b < 256 && c < 256
    ensures var v := a * 0x1_0000 + b * 0x100 + c;
      v / 0x4_0000 == a / 4 && v / 0x1000 == a * 16 + b / 16 && v / 64 == a * 1024 + b * 4 + c / 64
  {
    var v := a * 0x1_0000 + b * 0x100 + c;
    Remainder(v, 0x4_0000, a / 4, a % 4 * 0x1_0000 + b * 0x100 + c);
    Remainder(v, 0x1000, a * 16 + b / 16, b % 16 * 0x100 + c);
    Remainder(v, 64, a * 1024 + b * 4 + c / 64, c % 64);
  }

  lemma Split6(a: nat, b: nat, c: nat)
    requires a < 256 && b < 256 && c < 256
    ensures (a * 16 + b / 16) % 64 == a % 4 * 16 + b / 16
    ensures (a * 1024 + b * 4 + c / 64) % 64 == b % 16 * 4 + c / 64
    ensures (a * 0x1_0000 + b * 0x100 + c) % 64 == c % 64
  {
    Remainder(a * 16 + b / 16, 64, a / 4, a % 4 * 16 + b / 16);
    Remainder(a * 1024 + b * 4 + c / 64, 64, a * 16 + b / 16, b % 16 * 4 + c / 64);
    Remainder(a * 0x1_0000 + b * 0x100 + c, 64, a * 1024 + b * 4 + c / 64, c % 64);
  }

  lemma GroupAt(s: seq<Byte>, tail: Tail, j: nat)
    requires j < 4
    ensures Group(Nth(s, 0) * 0x1_0000 + Nth(s, 1) * 0x100 + Nth(s, 2), tail)[j] == Letter(Sextet(s, j), tail)
  {
    Split24(Nth(s, 0), Nth(s, 1), Nth(s, 2));
    Split6(Nth(s, 0), Nth(s, 1), Nth(s, 2));
  }

  /** The length is four characters to every three bytes begun, and every character that carries bits
      stands for its own six. */
  lemma {:induction false} EncodedAt(s: seq<Byte>, tail: Tail)
    ensures |Encoded(s, tail)| == (|s| + 2) / 3 * 4
    ensures forall j :: 0 <= j < |Encoded(s, tail)| ==>
              Encoded(s, tail)[j] == if j < Carrying(|s|) then Letter(Sextet(s, j), tail) else tail.pad
  {
    var e := Encoded(s, tail);
    if s != [] {
      var group := Group(Nth(s, 0) * 0x1_0000 + Nth(s, 1) * 0x100 + Nth(s, 2), tail);
      forall j | 0 <= j < 4 ensures group[j] == Letter(Sextet(s, j), tail) {
        GroupAt(s, tail, j);
      }
      if |s| >= 3 {
        EncodedAt(s[3..], tail);
        forall j | 4 <= j < |e|
          ensures e[j] == if j < Carrying(|s|) then Letter(Sextet(s, j), tail) else tail.pad
        {
          assert e[j] == Encoded(s[3..], tail)[j - 4];
          SextetLater(s, j);
        }
      }
    }
  }

  lemma SextetLater(s: seq<Byte>, j: nat)
    requires |s| >= 3 && j >= 4
    ensures Sextet(s, j) == Sextet(s[3..], j - 4)
  {
    var q := j / 4 * 3;
    assert (j - 4) / 4 * 3 == q - 3;
    assert forall k: nat :: k >= 3 ==> Nth(s, k) == Nth(s[3..], k - 3);
  }

  // Decoding

  /** Where the text stops: at the first NUL or '='. */
  function Stop(s: seq<Byte>): (r: nat)
    ensures r <= |s|
    ensures forall i :: 0 <= i < r ==> s[i] != 0 && s[i] != Chr('=')
    ensures r < |s| ==> s[r] == 0 || s[r] == Chr('=')
  {
    if s == [] || s[0] == 0 || s[0] == Chr('=') then 0
    else
      var r := Stop(s[1..]);
      assert forall i :: 0 < i < |s| ==> s[i] == s[1..][i - 1];
      r + 1
  }

  predicate Legal(s: seq<Byte>) {
    forall i :: 0 <= i < |s| ==> ValueOf(s[i]).Some?
  }

  /** The byte that character `i`, not the first of its four, completes. */
  function Completed(s: seq<Byte>, i: nat): Byte
    requires 0 < i < |s| && Legal(s)
  {
    var v := ValueOf(s[i - 1]).value * 64 + ValueOf(s[i]).value;
    ((if i % 4 == 1 then v / 16 else if i % 4 == 2 then v / 4 else v) % 256) as Byte
  }

  /** How many bytes the first `m` characters complete. */
  function Completes(m: nat): nat {
    3 * m / 4
  }

  /** What the characters `s` decode to: byte `k` is completed by character `k + k / 3 + 1`. */
  function Decoded(s: seq<Byte>): (r: seq<Byte>)
    requires Legal(s)
    ensures |r| == Completes(|s|)
  {
    seq(Completes(|s|), (k: nat) requires k < Completes(|s|) => Completed(s, k + k / 3 + 1))
  }

  /** The text up to its stop, unless a character is not of the alphabet. */
  function Decode(s: seq<Byte>): Option<seq<Byte>> {
    var text := s[..Stop(s)];
    if Legal(text) then Some(Decoded(text)) else None
  }

  lemma LetterValue(v: nat, tail: Tail)
    requires v < 64 && tail.plus == Chr('+') && tail.slash == Chr('/')
    ensures ValueOf(Letter(v, tail)) == Some(v)
    ensures Letter(v, tail) != 0 && Letter(v, tail) != Chr('=')
  {
  }

  lemma StopIs(s: seq<Byte>, n: nat)
    requires n <= |s| && forall i :: 0 <= i < n ==> s[i] != 0 && s[i] != Chr('=')
    requires n < |s| ==> s[n] == 0 || s[n] == Chr('=')
    ensures Stop(s) == n
  {
  }

  lemma Join12(a: nat, b: nat, c: nat)
    requires a < 256 && b < 256 && c < 256
    ensures (a / 4 * 64 + (a % 4 * 16 + b / 16)) / 16 % 256 == a
    ensures ((a % 4 * 16 + b / 16) * 64 + (b % 16 * 4 + c / 64)) / 4 % 256 == b
    ensures ((b % 16 * 4 + c / 64) * 64 + c % 64) % 256 == c
  {
    Remainder(a / 4 * 64 + (a % 4 * 16 + b / 16), 16, a, b / 16);
    Remainder((a % 4 * 16 + b / 16) * 64 + (b % 16 * 4 + c / 64), 4, a % 4 * 256 + b, c / 64);
    Remainder(a % 4 * 256 + b, 256, a % 4, b);
    Remainder((b % 16 * 4 + c / 64) * 64 + c % 64, 256, b % 16, c);
  }

  /** The sextets of a group, by its bytes. */
  lemma SextetsOf(s: seq<Byte>, q: nat)
    ensures var a, b, c := Nth(s, 3 * q), Nth(s, 3 * q + 1), Nth(s, 3 * q + 2);
      && Sextet(s, 4 * q) == a / 4 && Sextet(s, 4 * q + 1) == a % 4 * 16 + b / 16
      && Sextet(s, 4 * q + 2) == b % 16 * 4 + c / 64 && Sextet(s, 4 * q + 3) == c % 64
  {
    Remainder(4 * q, 4, q, 0);
    Remainder(4 * q + 1, 4, q, 1);
    Remainder(4 * q + 2, 4, q, 2);
    Remainder(4 * q + 3, 4, q, 3);
  }

  /** The byte out of sextets `i - 1` and `i`. */
  function Joined(s: seq<Byte>, i: nat): nat
    requires i > 0
  {
    var v := Sextet(s, i - 1) * 64 + Sextet(s, i);
    (if i % 4 == 1 then v / 16 else if i % 4 == 2 then v / 4 else v) % 256
  }

  lemma JoinedIs(s: seq<Byte>, q: nat)
    ensures Joined(s, 4 * q + 1) == Nth(s, 3 * q)
    ensures Joined(s, 4 * q + 2) == Nth(s, 3 * q + 1)
    ensures Joined(s, 4 * q + 3) == Nth(s, 3 * q + 2)
  {
    SextetsOf(s, q);
    Join12(Nth(s, 3 * q), Nth(s, 3 * q + 1), Nth(s, 3 * q + 2));
  }

  /** The byte that two neighbouring sextets complete. */
  lemma CompletedIs(s: seq<Byte>, k: nat)
    ensures Joined(s, k + k / 3 + 1) == Nth(s, k)
  {
    var q := k / 3;
    JoinedIs(s, q);
    assert k == 3 * q || k == 3 * q + 1 || k == 3 * q + 2;
  }

  lemma Positions(n: nat, k: nat)
    ensures Completes(Carrying(n)) == n && Carrying(n) <= (n + 2) / 3 * 4
    ensures k < n ==> k + k / 3 + 1 < Carrying(n)
  {
  }

  /** Text that carries the bits of `s` decodes to `s`. */
  lemma DecodedIs(s: seq<Byte>, text: seq<Byte>)
    requires |text| == Carrying(|s|)
    requires forall j :: 0 <= j < |text| ==> ValueOf(text[j]) == Some(Sextet(s, j))
    ensures Decoded(text) == s
  {
    Positions(|s|, 0);
    forall k | 0 <= k < |s| ensures Decoded(text)[k] == s[k] {
      Positions(|s|, k);
      CompletedIs(s, k);
      var i := k + k / 3 + 1;
      assert ValueOf(text[i]).value == Sextet(s, i) && ValueOf(text[i - 1]).value == Sextet(s, i - 1);
    }
  }

  /** The tail "+/=", or "+/" with a NUL. */
  predicate Standard(tail: Tail) {
    tail.plus == Chr('+') && tail.slash == Chr('/') && (tail.pad == Chr('=') || tail.pad == 0)
  }

  /** The encoder's text in memory, up to its NUL, and what follows. */
  function Memory(s: seq<Byte>, tail: Tail, rest: seq<Byte>): seq<Byte> {
    Encoded(s, tail) + [0] + rest
  }

  lemma RoundTrip(s: seq<Byte>, tail: Tail, rest: seq<Byte>)
    requires Standard(tail)
    ensures Decode(Memory(s, tail, rest)) == Some(s)
  {
    var e, n, m := Encoded(s, tail), Carrying(|s|), Memory(s, tail, rest);
    EncodedAt(s, tail);
    Positions(|s|, 0);
    forall j | 0 <= j < n ensures ValueOf(m[j]) == Some(Sextet(s, j)) && m[j] != 0 && m[j] != Chr('=') {
      LetterValue(Sextet(s, j), tail);
      assert m[j] == e[j];
    }
    assert m[n] == if n < |e| then e[n] else 0;
    StopIs(m, n);
    DecodedIs(s, m[..n]);
  }

  /** A byte above 0xF7 is told by the tail. */
  lemma Told(s: seq<Byte>, tail: Tail)
    requires s == [0xF8] || s == [0xFC]
    requires Decode(Memory(s, tail, [])) == Some(s)
    ensures s == [0xF8] ==> tail.plus == Chr('+')
    ensures s == [0xFC] ==> tail.slash == Chr('/')
    ensures tail.pad == Chr('=') || tail.pad == 0
  {
    var e := Memory(s, tail, []);
    EncodedAt(s, tail);
    assert e[0] == (if s[0] == 0xF8 then tail.plus else tail.slash) && e[1] == Chr('A') && e[2] == tail.pad;
    assert Stop(e) == 2;
    assert Decoded(e[..2])[0] == Completed(e[..2], 1);
    var v := ValueOf(e[0]).value;
    Remainder(v * 64, 16, v * 4, 0);
  }

  /** Decoding undoes encoding for every byte string, exactly with those tails. */
  lemma RoundTripExact(tail: Tail)
    ensures (forall s: seq<Byte>, rest: seq<Byte> :: Decode(Memory(s, tail, rest)) == Some(s)) <==> Standard(tail)
  {
    if Standard(tail) {
      forall s: seq<Byte>, rest: seq<Byte> ensures Decode(Memory(s, tail, rest)) == Some(s) {
        RoundTrip(s, tail, rest);
      }
    }
    if forall s: seq<Byte>, rest: seq<Byte> :: Decode(Memory(s, tail, rest)) == Some(s) {
      assert Decode(Memory([0xF8], tail, [])) == Some([0xF8]);
      assert Decode(Memory([0xFC], tail, [])) == Some([0xFC]);
      Told([0xF8], tail);
      Told([0xFC], tail);
    }
  }

  // The encoder

  /** Six bits of a product that wraps above them. */
  lemma Wrapped(x: nat, d: nat, k: nat)
    requires d > 0 && k > 0 && d * 64 * k == 0x1_0000_0000
    ensures x % 0x1_0000_0000 / d % 64 == x / d % 64
  {
    var q, r := x / 0x1_0000_0000, x % 0x1_0000_0000;
    var y, z := r / d, r % d;
    assert x == q * (d * 64 * k) + (y * d + z);
    Regroup(x, q, d, k, y, z);
    Remainder(x, d, q * k * 64 + y, z);
    Remainder(q * k * 64 + y, 64, q * k + y / 64, y % 64);
  }

  lemma Regroup(x: int, q: int, d: int, k: int, y: int, z: int)
    requires x == q * (d * 64 * k) + (y * d + z)
    ensures x == (q * k * 64 + y) * d + z
  {
  }

  /** Six bits out of the low two bytes `a` and `b`, by how many bits are left. */
  function Six(shift: int, a: nat, b: nat): nat {
    if shift == 2 then b % 4 * 16
    else if shift == 4 then b % 16 * 4
    else if shift == 6 then b % 64
    else if shift == 8 then b / 4
    else if shift == 10 then a % 4 * 16 + b / 16
    else if shift == 12 then a % 16 * 4 + b / 64
    else a % 64
  }

  lemma SixIs(bits: nat, h: nat, a: nat, b: nat)
    requires a < 256 && b < 256 && bits == h * 0x1_0000 + a * 0x100 + b
    ensures bits * 64 / 4 % 64 == Six(2, a, b)
    ensures bits * 64 / 16 % 64 == Six(4, a, b)
    ensures bits * 64 / 64 % 64 == Six(6, a, b)
    ensures bits * 64 / 256 % 64 == Six(8, a, b)
  {
    var x := bits * 64;
    Remainder(x, 4, bits * 16, 0);
    Remainder(bits * 16, 64, h * 0x4000 + a * 64 + b / 4, b % 4 * 16);
    Remainder(x, 16, bits * 4, 0);
    Remainder(bits * 4, 64, h * 0x1000 + a * 16 + b / 16, b % 16 * 4);
    Remainder(x, 64, bits, 0);
    Remainder(bits, 64, h * 0x400 + a * 4 + b / 64, b % 64);
    Remainder(x, 256, h * 0x4000 + a * 64 + b / 4, b % 4 * 64);
    Remainder(h * 0x4000 + a * 64 + b / 4, 64, h * 0x100 + a, b / 4);
  }

  lemma SixIsToo(bits: nat, h: nat, a: nat, b: nat)
    requires a < 256 && b < 256 && bits == h * 0x1_0000 + a * 0x100 + b
    ensures bits * 64 / 0x400 % 64 == Six(10, a, b)
    ensures bits * 64 / 0x1000 % 64 == Six(12, a, b)
    ensures bits * 64 / 0x4000 % 64 == Six(14, a, b)
  {
    var x := bits * 64;
    Remainder(x, 0x400, h * 0x1000 + a * 16 + b / 16, b % 16 * 64);
    Remainder(h * 0x1000 + a * 16 + b / 16, 64, h * 64 + a / 4, a % 4 * 16 + b / 16);
    Remainder(x, 0x1000, h * 0x400 + a * 4 + b / 64, b % 64 * 64);
    Remainder(h * 0x400 + a * 4 + b / 64, 64, h * 16 + a / 16, a % 16 * 4 + b / 64);
    Remainder(x, 0x4000, h * 0x100 + a, b * 64);
    Remainder(h * 0x100 + a, 64, h * 4 + a / 64, a % 64);
  }

  /** The shift that the encoder can stand at, as a power of two. */
  function Weight(shift: int): nat {
    if shift == 2 then 4
    else if shift == 4 then 0x10
    else if shift == 6 then 0x40
    else if shift == 8 then 0x100
    else if shift == 10 then 0x400
    else if shift == 12 then 0x1000
    else 0x4000
  }

  /** `i_bits << 6 >> i_shift & 0x3f` in 32 bits. */
  function Taken(bits: nat, shift: int): (r: nat)
    ensures r < 64
  {
    bits * 64 % 0x1_0000_0000 / Weight(shift) % 64
  }

  lemma WrappedAt(x: nat, shift: int)
    requires shift in {2, 4, 6, 8, 10, 12, 14}
    ensures x % 0x1_0000_0000 / Weight(shift) % 64 == x / Weight(shift) % 64
  {
    var k := if shift == 2 then 0x100_0000 else if shift == 4 then 0x40_0000 else if shift == 6 then 0x10_0000
             else if shift == 8 then 0x4_0000 else if shift == 10 then 0x1_0000
             else if shift == 12 then 0x4000 else 0x1000;
    Wrapped(x, Weight(shift), k);
  }

  lemma TakenIs(bits: nat, shift: int)
    requires shift in {2, 4, 6, 8, 10, 12, 14}
    ensures Taken(bits, shift) == Six(shift, bits / 0x100 % 0x100, bits % 0x100)
  {
    var h, a, b := bits / 0x100 / 0x100, bits / 0x100 % 0x100, bits % 0x100;
    Remainder(bits, 0x100, h * 0x100 + a, b);
    SixIs(bits, h, a, b);
    SixIsToo(bits, h, a, b);
    WrappedAt(bits * 64, shift);
  }

  /** The character that the carried bits give when `shift` of them are left: the last byte is in the low
      eight, the one before it, if bits of it are left, in the next. */
  lemma Carried(s: seq<Byte>, p: nat, j: nat, shift: int, bits: nat)
    requires 1 <= p <= |s| && shift == 8 * p - 6 * j && 0 < shift <= 14
    requires shift < 6 ==> p == |s|
    requires bits % 0x100 == s[p - 1] as int
    requires shift > 8 ==> p >= 2 && bits / 0x100 % 0x100 == s[p - 2] as int
    ensures Taken(bits, shift) == Sextet(s, j)
  {
    TakenIs(bits, shift);
    var q := j / 4;
    assert j % 4 == if shift == 2 || shift == 10 then 1 else if shift == 4 || shift == 12 then 2
                    else if shift == 8 then 0 else 3;
  }

  /** The first `e` characters are written, and nothing behind them. */
  predicate Written(now: seq<Byte>, was: seq<Byte>, s: seq<Byte>, e: nat, tail: Tail) {
    && e <= |now| == |was|
    && (forall j :: 0 <= j < e ==> now[j] == Letter(Sextet(s, j), tail))
    && forall j :: e <= j < |now| ==> now[j] == was[j]
  }

  /** The bits left over after `p` bytes and `e` characters, the last bytes among them. */
  predicate Left(s: seq<Byte>, p: nat, e: nat, shift: int, bits: nat) {
    && p <= |s| && shift == 8 * p - 6 * e
    && (p > 0 ==> bits % 0x100 == s[p - 1] as int)
  }

  /** The encoder between two bytes: fewer than eight bits are left; after the last byte none. */
  predicate Between(s: seq<Byte>, p: nat, e: nat, shift: int, bits: nat) {
    && Left(s, p, e, shift, bits)
    && if p < |s| then 0 <= shift <= 6 else -6 < shift <= 0
  }

  /** base64_encode: refused when the size is out of range or the buffer too small for the text and its
      NUL. */
  method Encode(out: array<Byte>, outSize: int, s: seq<Byte>, inSize: int, tail: Tail) returns (ok: bool)
    requires outSize <= out.Length && inSize <= |s|
    modifies out
    ensures ok <==> 0 <= inSize < 0x3FFF_FFFF && outSize > (inSize + 2) / 3 * 4
    ensures !ok ==> out[..] == old(out[..])
    ensures ok ==>
      var e := Encoded(s[..inSize], tail);
      |e| < out.Length && out[..] == e + [0] + old(out[..])[|e| + 1..]
  {
    if inSize < 0 || inSize >= 0x3FFF_FFFF || outSize < (inSize + 2) / 3 * 4 + 1 {
      return false;
    }
    ghost var t, was := s[..inSize], out[..];
    var p, e, shift := 0, 0, 0;
    var bits: nat := 0;
    while p < inSize
      invariant p <= inSize && Between(t, p, e, shift, bits)
      invariant Written(out[..], was, t, e, tail)
    {
      ghost var before: nat := bits;
      bits := (bits * 0x100 + s[p] as int) % 0x1_0000_0000;
      Shifted(before, s[p] as int, bits);
      p := p + 1;
      e, shift := Characters(out, t, was, p, e, shift + 8, bits, p == inSize, tail);
    }
    Fill(out, t, was, e, tail);
    ok := true;
  }

  lemma Shifted(before: nat, b: nat, bits: nat)
    requires b < 0x100 && bits == (before * 0x100 + b) % 0x1_0000_0000
    ensures bits % 0x100 == b && bits / 0x100 % 0x100 == before % 0x100
  {
    var q := (before * 0x100 + b) / 0x1_0000_0000;
    Remainder(bits, 0x100, before - q * 0x100_0000, b);
    Remainder(before - q * 0x100_0000, 0x100, before / 0x100 - q * 0x1_0000, before % 0x100);
  }

  /** The characters that can be written after a byte: all but the last six bits at most, which wait for
      the next byte, or all of them after the last. */
  method Characters(out: array<Byte>, ghost s: seq<Byte>, ghost was: seq<Byte>, ghost p: nat,
                    e0: nat, shift0: int, bits: nat, last: bool, tail: Tail)
    returns (e: nat, shift: int)
    requires 0 < p && Left(s, p, e0, shift0, bits) && 8 <= shift0 <= 14 && (last <==> p == |s|)
    requires p > 1 ==> bits / 0x100 % 0x100 == s[p - 2] as int
    requires Written(out[..], was, s, e0, tail) && (|s| + 2) / 3 * 4 < out.Length
    modifies out
    ensures Between(s, p, e, shift, bits) && Written(out[..], was, s, e, tail)
  {
    e, shift := e0, shift0;
    var more := true;
    while more
      invariant Left(s, p, e, shift, bits) && Written(out[..], was, s, e, tail)
      invariant if more then 0 < shift <= 14 && (shift > 6 || last) else Between(s, p, e, shift, bits)
      decreases shift + 6, more
    {
      Carried(s, p, e, shift, bits);
      out[e] := Letter(Taken(bits, shift), tail);
      e := e + 1;
      shift := shift - 6;
      more := shift > 6 || (last && shift > 0);
    }
  }

  lemma AllCarried(n: nat, e: nat)
    requires -6 < 8 * n - 6 * e <= 0
    ensures e == Carrying(n) <= (n + 2) / 3 * 4 < Carrying(n) + 3
  {
  }

  /** What is written is all but the padding. */
  lemma PadLeft(o: seq<Byte>, s: seq<Byte>, was: seq<Byte>, e0: nat, tail: Tail)
    requires -6 < 8 * |s| - 6 * e0 <= 0 && Written(o, was, s, e0, tail) && (|s| + 2) / 3 * 4 < |o|
    ensures var encoded := Encoded(s, tail);
      && |encoded| == (|s| + 2) / 3 * 4 && e0 <= |encoded| < e0 + 3 && |encoded| <= |was|
      && (forall j :: e0 <= j < |encoded| ==> encoded[j] == tail.pad)
      && o == encoded[..e0] + was[e0..]
  {
    EncodedAt(s, tail);
    AllCarried(|s|, e0);
  }

  lemma NulAfter(o: seq<Byte>, e: seq<Byte>, was: seq<Byte>)
    requires |e| < |was| && o == e + was[|e|..]
    ensures o[|e| := 0] == e + [0] + was[|e| + 1..]
  {
  }

  /** The pads and the NUL. */
  method Fill(out: array<Byte>, ghost s: seq<Byte>, ghost was: seq<Byte>, e0: nat, tail: Tail)
    requires -6 < 8 * |s| - 6 * e0 <= 0 && Written(out[..], was, s, e0, tail) && (|s| + 2) / 3 * 4 < out.Length
    modifies out
    ensures var e := Encoded(s, tail);
      |e| < |was| == out.Length && out[..] == e + [0] + was[|e| + 1..]
  {
    ghost var encoded := Encoded(s, tail);
    PadLeft(out[..], s, was, e0, tail);
    var e := Pad(out, encoded, was, e0, tail.pad);
    ghost var padded := out[..];
    NulAfter(padded, encoded, was);
    out[e] := 0;
    assert out[..] == padded[e := 0];
  }

  method Pad(out: array<Byte>, ghost encoded: seq<Byte>, ghost was: seq<Byte>, e0: nat, pad: Byte) returns (e: nat)
    requires e0 <= |encoded| < e0 + 3 && |encoded| % 4 == 0 && |encoded| < out.Length == |was|
    requires forall j :: e0 <= j < |encoded| ==> encoded[j] == pad
    requires out[..] == encoded[..e0] + was[e0..]
    modifies out
    ensures e == |encoded| && out[..] == encoded + was[e..]
  {
    e := e0;
    while e % 4 != 0
      invariant e0 <= e <= |encoded| && out[..] == encoded[..e] + was[e..]
      decreases |encoded| - e
    {
      out[e] := pad;
      e := e + 1;
    }
    assert encoded[..e] == encoded;
  }

  // The decoder

  /** What `text` has completed when the characters before `i` are read and `room` bytes fit. */
  function Fitting(text: seq<Byte>, room: nat): (r: seq<Byte>)
    requires Legal(text)
    ensures |r| == if Completes(|text|) <= room then Completes(|text|) else room
  {
    if Completes(|text|) <= room then Decoded(text) else Decoded(text)[..room]
  }

  lemma DecodedMore(s: seq<Byte>, i: nat)
    requires i < |s| && Legal(s[..i + 1])
    ensures Legal(s[..i])
    ensures Decoded(s[..i + 1]) == if i % 4 == 0 then Decoded(s[..i]) else Decoded(s[..i]) + [Completed(s[..i + 1], i)]
  {
    var t, u := s[..i], s[..i + 1];
    forall k | 0 <= k < i ensures ValueOf(t[k]).Some? {
      assert t[k] == u[k];
    }
    Place(i);
    forall k | 0 <= k < Completes(i) ensures Decoded(u)[k] == Decoded(t)[k] {
      Before(i, k);
    }
  }

  lemma Place(i: nat)
    ensures Completes(i + 1) == if i % 4 == 0 then Completes(i) else Completes(i) + 1
    ensures i % 4 != 0 ==> Completes(i) + Completes(i) / 3 + 1 == i
  {
  }

  lemma Before(i: nat, k: nat)
    requires k < Completes(i)
    ensures k + k / 3 + 1 < i
  {
  }

  /** One more character: nothing, a byte that does not fit, or a byte. */
  lemma FittingMore(s: seq<Byte>, i: nat, room: nat)
    requires i < |s| && Legal(s[..i + 1])
    ensures Legal(s[..i])
    ensures var d, e := Fitting(s[..i], room), Fitting(s[..i + 1], room);
      e == if i % 4 == 0 || |d| == room then d else d + [Completed(s[..i + 1], i)]
  {
    DecodedMore(s, i);
    Place(i);
  }

  /** The byte out of the last two values. */
  lemma ByteOf(v: nat, x: nat, y: nat, before: nat)
    requires before % 64 == x && y < 64 && v == (before * 64 + y) % 0x1_0000_0000
    ensures v % 64 == y
    ensures v / 16 % 256 == (x * 64 + y) / 16 % 256
    ensures v / 4 % 256 == (x * 64 + y) / 4 % 256
    ensures v % 256 == (x * 64 + y) % 256
  {
    var q, h := (before * 64 + y) / 0x1_0000_0000, before / 64;
    var w, k := x * 64 + y, h - q * 0x10_0000;
    assert v == k * 4096 + w;
    Remainder(v, 64, k * 64 + x, y);
    Remainder(v, 16, k * 256 + w / 16, w % 16);
    Remainder(k * 256 + w / 16, 256, k, w / 16);
    Remainder(v, 4, k * 1024 + w / 4, w % 4);
    Remainder(k * 1024 + w / 4, 256, k * 4 + w / 4 / 256, w / 4 % 256);
    Remainder(v, 256, k * 16 + w / 256, w % 256);
  }

  /** The text up to `i` is decoded into the buffer, as far as it fits. */
  predicate Stored(now: seq<Byte>, was: seq<Byte>, text: seq<Byte>, room: nat, r: int) {
    && Legal(text) && |Fitting(text, room)| <= |was|
    && r == |Fitting(text, room)| && now == Fitting(text, room) + was[r..]
  }

  /** Reading the encoder's text back into a buffer that is large enough gives the bytes. */
  lemma ReadBack(s: seq<Byte>, tail: Tail, rest: seq<Byte>, now: seq<Byte>, was: seq<Byte>, room: nat, r: int)
    requires Standard(tail) && |s| <= room
    requires var m := Memory(s, tail, rest); Stored(now, was, m[..Stop(m)], room, r)
    ensures r == |s| && now == s + was[|s|..]
  {
    RoundTrip(s, tail, rest);
  }

  /** base64_decode: -1 at a character that is not of the alphabet; what does not fit is left out. */
  method DecodeInto(out: array<Byte>, s: seq<Byte>, outSize: int) returns (r: int)
    requires outSize <= out.Length
    modifies out
    ensures var text := s[..Stop(s)];
      if Legal(text) then Stored(out[..], old(out[..]), text, if outSize < 0 then 0 else outSize, r) else r == -1
  {
    ghost var room: nat, was := if outSize < 0 then 0 else outSize, out[..];
    var i: nat, v: nat := 0, 0;
    r := 0;
    while At(s, i) != 0 && At(s, i) != Chr('=')
      invariant i <= Stop(s) && 0 <= r && Stored(out[..], was, s[..i], room, r)
      invariant i > 0 ==> ValueOf(s[i - 1]) == Some(v % 64)
      decreases |s| - i
    {
      var value := ValueOf(s[i]);
      if value.None? {
        assert s[..Stop(s)][i] == s[i];
        return -1;
      }
      assert s[..i + 1][..i] == s[..i];
      v, r := Take(out, s[..i + 1], was, i, v, r, outSize);
      i := i + 1;
    }
  }

  /** One character of the alphabet: its six bits come in, and the byte goes out that it completes. */
  method Take(out: array<Byte>, text: seq<Byte>, ghost was: seq<Byte>, i: nat, v0: nat, r0: nat, outSize: int)
    returns (v: nat, r: nat)
    requires |text| == i + 1 && outSize <= out.Length && ValueOf(text[i]).Some?
    requires Stored(out[..], was, text[..i], if outSize < 0 then 0 else outSize, r0)
    requires i > 0 ==> ValueOf(text[i - 1]) == Some(v0 % 64)
    modifies out
    ensures Stored(out[..], was, text, if outSize < 0 then 0 else outSize, r)
    ensures ValueOf(text[i]) == Some(v % 64)
  {
    var value := ValueOf(text[i]).value;
    v, r := (v0 * 64 + value) % 0x1_0000_0000, r0;
    ByteOf(v, v0 % 64, value, v0);
    LegalMore(text, i);
    assert text[..i + 1] == text;
    if i % 4 != 0 {
      r := Store(out, text, was, i, v, r0, outSize);
    } else {
      FittingMore(text, i, if outSize < 0 then 0 else outSize);
    }
  }

  lemma LegalMore(s: seq<Byte>, i: nat)
    requires i < |s| && Legal(s[..i]) && ValueOf(s[i]).Some?
    ensures Legal(s[..i + 1])
  {
    forall k | 0 <= k < i ensures ValueOf(s[k]).Some? {
      assert s[..i][k] == s[k];
    }
  }

  /** The byte that character `i` completes goes to the end, if it fits. */
  method Store(out: array<Byte>, text: seq<Byte>, ghost was: seq<Byte>, i: nat, v: nat, r0: nat, outSize: int)
    returns (r: nat)
    requires |text| == i + 1 && i % 4 != 0 && Legal(text) && outSize <= out.Length
    requires Stored(out[..], was, text[..i], if outSize < 0 then 0 else outSize, r0)
    requires Completed(text, i) as int == (if i % 4 == 1 then v / 16 else if i % 4 == 2 then v / 4 else v) % 256
    modifies out
    ensures Stored(out[..], was, text, if outSize < 0 then 0 else outSize, r)
  {
    r := r0;
    ghost var room: nat := if outSize < 0 then 0 else outSize;
    FittingMore(text, i, room);
    assert text[..i + 1] == text;
    if r < outSize {
      ghost var d, before := Fitting(text[..i], room), out[..];
      out[r] := ((if i % 4 == 1 then v / 16 else if i % 4 == 2 then v / 4 else v) % 256) as Byte;
      OneMore(before, out[..], was, d, Completed(text, i));
      r := r + 1;
    }
  }

  lemma OneMore(before: seq<Byte>, now: seq<Byte>, was: seq<Byte>, d: seq<Byte>, x: Byte)
    requires |d| < |was| && before == d + was[|d|..] && now == before[|d| := x]
    ensures now == d + [x] + was[|d| + 1..]
  {
  }
}
