/** Incremental hashing and padding of MD5 (lib/common/md5.c), for any compression function. */
module Md5 {
  import opened Bytes
  import opened Division
  import opened LittleEndian

  newtype Word = x: int | 0 <= x < 0x1_0000_0000

  /** The four registers. */
  type Words = s: seq<Word> | |s| == 4 witness [0, 0, 0, 0]

  /** One block of 64 bytes worked into the registers. */
  type Process = (Words, seq<Byte>) -> Words

  const INITIAL: Words := [0x67452301, 0xefcdab89, 0x98badcfe, 0x10325476]

  /** The registers after the full blocks of `m`. */
  function Folded(process: Process, abcd: Words, m: seq<Byte>): Words
    decreases |m|
  {
    if |m| < 64 then abcd else Folded(process, process(abcd, m[..64]), m[64..])
  }

  /** What follows the full blocks of `m`. */
  function Rest(m: seq<Byte>): (r: seq<Byte>)
    ensures |r| == |m| % 64
  {
    m[|m| / 64 * 64..]
  }

  /** Sections 3.1 and 3.2 of RFC 1321: a one bit, zero bits up to 56 bytes modulo 64, and the length in
      bits modulo 2^64. */
  function Padding(length: nat): (r: seq<Byte>)
    ensures (length + |r|) % 64 == 0 && 9 <= |r| <= 72
  {
    var n := (55 - length) % 64;
    PadLength(length, n);
    [0x80] + Zeros(n) + Little(8 * length, 8)
  }

  lemma PadLength(length: nat, n: nat)
    requires n == (55 - length) % 64
    ensures (length + n + 9) % 64 == 0
  {
    assert length + n + 9 == 64 * (1 - (55 - length) / 64);
  }

  function Digest(process: Process, m: seq<Byte>): seq<Byte> {
    Serial(Folded(process, INITIAL, m + Padding(|m|)))
  }

  /** Words as four bytes each. */
  function Serial(words: seq<Word>): (r: seq<Byte>)
    ensures |r| == 4 * |words|
  {
    if words == [] then [] else Serial(words[..|words| - 1]) + Little(words[|words| - 1] as nat, 4)
  }

  // Folding and cutting

  /** Whole blocks can be worked in first. */
  lemma {:induction false} FoldedCut(process: Process, abcd: Words, m: seq<Byte>, n: seq<Byte>)
    requires |m| % 64 == 0
    ensures Folded(process, abcd, m + n) == Folded(process, Folded(process, abcd, m), n)
    decreases |m|
  {
    if m == [] {
      assert m + n == n;
    } else {
      assert (m + n)[..64] == m[..64];
      assert (m + n)[64..] == m[64..] + n;
      FoldedCut(process, process(abcd, m[..64]), m[64..], n);
    }
  }

  lemma FoldedRest(process: Process, abcd: Words, m: seq<Byte>, n: seq<Byte>)
    ensures Folded(process, abcd, m + n) == Folded(process, Folded(process, abcd, m), Rest(m) + n)
    ensures Rest(m + n) == Rest(Rest(m) + n)
  {
    var k := |m| / 64 * 64;
    assert m == m[..k] + m[k..];
    assert m + n == m[..k] + (m[k..] + n);
    FoldedCut(process, abcd, m[..k], m[k..] + n);
    FoldedCut(process, abcd, m[..k], m[k..]);
    RestCut(m[..k], m[k..] + n);
  }

  lemma RestCut(m: seq<Byte>, n: seq<Byte>)
    requires |m| % 64 == 0
    ensures Rest(m + n) == Rest(n)
  {
    var k := |n| / 64 * 64;
    assert (|m| + |n|) / 64 * 64 == |m| + k;
    assert (m + n)[|m| + k..] == n[k..];
  }

  // The count of bits

  lemma CountOf(low: int, high: int, length: nat)
    requires 0 <= low < 0x1_0000_0000 && 0 <= high < 0x1_0000_0000
    requires high * 0x1_0000_0000 + low == 8 * length % TWO64
    ensures low == 8 * length % 0x1_0000_0000
    ensures low / 8 % 64 == length % 64
  {
    var q := 8 * length / TWO64;
    var a := q * 0x1_0000_0000 + high;
    assert 8 * length == a * 0x1_0000_0000 + low;
    Remainder(8 * length, 0x1_0000_0000, a, low);
    Eighth(low, a, length);
  }

  lemma Eighth(low: nat, a: int, length: nat)
    requires 8 * length == a * 0x1_0000_0000 + low
    ensures low / 8 % 64 == length % 64
  {
    assert low / 8 == length - a * 0x2000_0000;
    Remainder(low / 8, 64, length / 64 - a * 0x80_0000, length % 64);
  }

  /** Adding the bits of `n` more bytes with a carry. */
  lemma CountUp(low: int, high: int, length: nat, n: nat, nbits: int, low': int, high': int)
    requires 0 <= low < 0x1_0000_0000 && 0 <= high < 0x1_0000_0000 && n < 0x8000_0000
    requires high * 0x1_0000_0000 + low == 8 * length % TWO64
    requires nbits == 8 * n % 0x1_0000_0000
    requires low' == (low + nbits) % 0x1_0000_0000
    requires high' == (high + n / 0x2000_0000 + (if low' < nbits then 1 else 0)) % 0x1_0000_0000
    ensures high' * 0x1_0000_0000 + low' == 8 * (length + n) % TWO64
  {
    assert 8 * n == n / 0x2000_0000 * 0x1_0000_0000 + nbits;
    var carry := if low' < nbits then 1 else 0;
    assert low + nbits == carry * 0x1_0000_0000 + low';
    var top := high + n / 0x2000_0000 + carry;
    var q, p := 8 * length / TWO64, top / 0x1_0000_0000;
    assert 8 * (length + n) == q * TWO64 + top * 0x1_0000_0000 + low';
    assert 8 * (length + n) == (q + p) * TWO64 + (high' * 0x1_0000_0000 + low');
    Remainder(8 * (length + n), TWO64, q + p, high' * 0x1_0000_0000 + low');
  }

  // Bytes of a number

  lemma {:induction false} LittleCut(low: nat, high: nat, n: nat, j: nat, k: nat)
    requires n == low + Power(j) * high && low < Power(j)
    ensures Little(n, j + k) == Little(low, j) + Little(high, k)
    decreases j
  {
    if j == 0 {
      assert low == 0 && n == high;
      assert Little(low, 0) + Little(high, k) == Little(high, k);
    } else {
      var d := Power(j - 1);
      assert n == low + 256 * (d * high);
      assert n / 256 == low / 256 + d * high && n % 256 == low % 256;
      LittleCut(low / 256, high, n / 256, j - 1, k);
    }
  }

  lemma {:induction false} LittleLow(n: nat, m: nat, q: nat, k: nat)
    requires n == m + Power(k) * q
    ensures Little(n, k) == Little(m, k)
  {
    if k > 0 {
      var d := Power(k - 1);
      assert n == m + 256 * (d * q);
      assert n / 256 == m / 256 + d * q && n % 256 == m % 256;
      LittleLow(n / 256, m / 256, q, k - 1);
    }
  }

  /** Padding loses nothing: two messages that are padded alike are alike. */
  lemma PaddedDiffer(m: seq<Byte>, n: seq<Byte>)
    requires m + Padding(|m|) == n + Padding(|n|)
    ensures m == n
  {
    var p, q := m + Padding(|m|), n + Padding(|n|);
    var k := |p| - 8;
    assert p[k..] == Little(8 * |m|, 8);
    assert q[k..] == Little(8 * |n|, 8);
    LittleValue(8 * |m|, 8);
    LittleValue(8 * |n|, 8);
    Powers();
    SameLength(|m|, |n|);
    assert m == p[..|m|] && n == q[..|n|];
  }

  lemma SameLength(m: nat, n: nat)
    requires 8 * m % TWO64 == 8 * n % TWO64 && -72 < m - n < 72
    ensures m == n
  {
    var a, b := 8 * m / TWO64, 8 * n / TWO64;
    assert 8 * (m - n) == (a - b) * TWO64;
  }

  // The operations

  /** md5_state_t; the message taken so far is remembered for the specification. */
  class State {
    const process: Process
    var low: Word
    var high: Word
    var abcd: Words
    const buf: array<Byte>
    ghost var message: seq<Byte>

    ghost predicate Counted()
      reads this
    {
      high as int * 0x1_0000_0000 + low as int == 8 * |message| % TWO64
    }

    /** The registers hold the full blocks of the message, the buffer its rest, the count its bits. */
    ghost predicate Valid()
      reads this, buf
    {
      && buf.Length == 64
      && Counted()
      && abcd == Folded(process, INITIAL, message)
      && buf[..|message| % 64] == Rest(message)
    }

    /** md5_init */
    constructor (process: Process)
      ensures Valid() && message == [] && this.process == process && fresh(buf)
    {
      this.process := process;
      low, high, abcd, message := 0, 0, INITIAL, [];
      buf := new Byte[64];
    }

    /** md5_append; lengths up to what an int holds. */
    method Append(data: seq<Byte>, nbytes: int)
      requires Valid() && nbytes <= |data| && |message| % 64 + nbytes < 0x8000_0000
      modifies this`low, this`high, this`abcd, this`message, buf
      ensures Valid()
      ensures message == old(message) + (if nbytes <= 0 then [] else data[..nbytes])
    {
      if nbytes <= 0 {
        return;
      }
      CountOf(low as int, high as int, |message|);
      var offset := low as int / 8 % 64;
      Count(nbytes);
      var d := data[..nbytes];
      FoldedRest(process, INITIAL, message, d);
      Work(d, offset, Rest(message));
      assert |message + d| % 64 == |Rest(message + d)|;
      message := message + d;
    }

    /** The count of bits, modulo 2^64 over two words. */
    method Count(nbytes: nat)
      requires Counted() && nbytes < 0x8000_0000
      modifies this`low, this`high
      ensures high as int * 0x1_0000_0000 + low as int == 8 * (|message| + nbytes) % TWO64
    {
      var nbits: Word := (nbytes * 8 % 0x1_0000_0000) as Word;
      ghost var l, h := low as int, high as int;
      high := Add(high, (nbytes / 0x2000_0000) as Word);
      low := Add(low, nbits);
      if low < nbits {
        high := Add(high, 1);
      }
      TwoAdds(h, nbytes / 0x2000_0000, if low < nbits then 1 else 0);
      CountUp(l, h, |message|, nbytes, nbits as int, low as int, high as int);
    }

    /** The bytes after `offset` bytes in the buffer: every block that is full is worked in. */
    method Work(d: seq<Byte>, offset: nat, ghost rest: seq<Byte>)
      requires buf.Length == 64 && offset < 64 && d != [] && rest == buf[..offset]
      modifies this`abcd, buf
      ensures abcd == Folded(process, old(abcd), rest + d)
      ensures buf[..|rest + d| % 64] == Rest(rest + d)
    {
      var p := 0;
      if offset > 0 {
        var copy := if offset + |d| > 64 then 64 - offset else |d|;
        Copy(offset, d[..copy]);
        assert buf[..offset + copy] == rest + d[..copy];
        if offset + copy < 64 {
          assert d[..copy] == d;
          assert Rest(rest + d) == rest + d;
          return;
        }
        p := copy;
        FoldedFirst(process, abcd, rest, d, copy);
        assert buf[..] == buf[..64];
        abcd := process(abcd, buf[..]);
      } else {
        assert rest + d == d;
      }
      Blocks(d[p..]);
    }

    /** Full blocks straight from the data, and what is left into the buffer. */
    method Blocks(d: seq<Byte>)
      requires buf.Length == 64
      modifies this`abcd, buf
      ensures abcd == Folded(process, old(abcd), d)
      ensures buf[..|d| % 64] == Rest(d)
    {
      var p := 0;
      while |d| - p >= 64
        invariant 0 <= p <= |d| && p % 64 == 0
        invariant Folded(process, old(abcd), d) == Folded(process, abcd, d[p..])
        invariant buf[..] == old(buf[..])
      {
        assert d[p..][..64] == d[p..p + 64] && d[p..][64..] == d[p + 64..];
        abcd := process(abcd, d[p..p + 64]);
        p := p + 64;
      }
      assert p == |d| / 64 * 64;
      Copy(0, d[p..]);
    }

    /** memcpy into the buffer */
    method Copy(at: nat, d: seq<Byte>)
      requires at + |d| <= buf.Length
      modifies buf
      ensures buf[..at] == old(buf[..at]) && buf[at..at + |d|] == d
    {
      forall k | 0 <= k < |d| {
        buf[at + k] := d[k];
      }
    }

    /** md5_finish: the digest is that of the whole message. */
    method Finish() returns (digest: seq<Byte>)
      requires Valid()
      modifies this`low, this`high, this`abcd, this`message, buf
      ensures digest == Digest(process, old(message))
    {
      ghost var m := message;
      var data := Bytewise([low, high]);
      LittleCount(low as int, high as int, |m|);
      CountOf(low as int, high as int, |m|);
      var n := (55 - low as int / 8) % 64;
      SamePad(low as int / 8, |m|);
      PadTaken(n);
      Append([0x80] + Zeros(63), n + 1);
      Append(data, 8);
      assert data[..8] == data;
      Joined(m, message, n, data);
      digest := Bytewise(abcd);
    }
  }

  lemma SamePad(x: nat, length: nat)
    requires x % 64 == length % 64
    ensures (55 - x) % 64 == (55 - length) % 64
  {
    var q := x / 64 - length / 64;
    Remainder(55 - x, 64, (55 - length) / 64 - q, (55 - length) % 64);
  }

  /** The bytes of the constant that are appended. */
  lemma PadTaken(n: nat)
    requires n < 64
    ensures ([0x80] + Zeros(63))[..n + 1] == [0x80] + Zeros(n)
  {
  }

  lemma Joined(m: seq<Byte>, all: seq<Byte>, n: nat, data: seq<Byte>)
    requires n == (55 - |m|) % 64 && data == Little(8 * |m|, 8) && all == m + ([0x80] + Zeros(n)) + data
    ensures all == m + Padding(|m|)
  {
    assert Padding(|m|) == [0x80] + Zeros(n) + data;
  }

  /** Words byte by byte, lowest first. */
  method Bytewise(words: seq<Word>) returns (data: seq<Byte>)
    ensures data == Serial(words)
  {
    data := [];
    var i := 0;
    while i < 4 * |words|
      invariant 0 <= i <= 4 * |words| && data == Part(words, i)
    {
      PartStep(words, i);
      data := data + [(words[i / 4] as int / Power(i % 4) % 256) as Byte];
      i := i + 1;
    }
    assert words[..i / 4] == words;
  }

  /** The first `i` bytes of the words. */
  function Part(words: seq<Word>, i: nat): seq<Byte>
    requires i <= 4 * |words|
  {
    Serial(words[..i / 4]) + (if i / 4 < |words| then Little(words[i / 4] as nat, 4)[..i % 4] else [])
  }

  lemma PartStep(words: seq<Word>, i: nat)
    requires i < 4 * |words|
    ensures Part(words, i + 1) == Part(words, i) + [(words[i / 4] as int / Power(i % 4) % 256) as Byte]
  {
    var w := Little(words[i / 4] as nat, 4);
    LittleAt(words[i / 4] as nat, 4, i % 4);
    assert w[..i % 4 + 1] == w[..i % 4] + [w[i % 4]];
    if i % 4 == 3 {
      var k := i / 4;
      assert words[..k + 1][..k] == words[..k] && w[..4] == w;
      assert (i + 1) / 4 == k + 1;
    }
  }

  lemma {:induction false} LittleAt(n: nat, k: nat, j: nat)
    requires j < k
    ensures Little(n, k)[j] == (n / Power(j) % 256) as Byte
  {
    if j > 0 {
      LittleAt(n / 256, k - 1, j - 1);
      Div256(n, Power(j - 1));
    }
  }

  lemma Div256(n: nat, d: nat)
    requires d > 0
    ensures n / 256 / d == n / (256 * d)
  {
    var m := n / 256;
    Spread(n, m, n % 256, d, m / d, m % d);
    Remainder(n, 256 * d, m / d, 256 * (m % d) + n % 256);
  }

  lemma LittleCount(low: int, high: int, length: nat)
    requires 0 <= low < 0x1_0000_0000 && 0 <= high < 0x1_0000_0000
    requires high * 0x1_0000_0000 + low == 8 * length % TWO64
    ensures Serial([low as Word, high as Word]) == Little(8 * length, 8)
  {
    Powers();
    var n := 8 * length % TWO64;
    LittleCut(low, high, n, 4, 4);
    LittleLow(8 * length, n, 8 * length / TWO64, 8);
    assert [low as Word, high as Word][..1] == [low as Word];
    assert Serial([low as Word]) == Serial([]) + Little(low, 4);
  }

  lemma TwoAdds(a: int, b: int, c: int)
    requires 0 <= c <= 1
    ensures ((a + b) % 0x1_0000_0000 + c) % 0x1_0000_0000 == (a + b + c) % 0x1_0000_0000
  {
  }

  /** The sum of two words. */
  function Add(a: Word, b: Word): Word {
    ((a as int + b as int) % 0x1_0000_0000) as Word
  }

  lemma FoldedFirst(process: Process, abcd: Words, rest: seq<Byte>, d: seq<Byte>, copy: nat)
    requires copy <= |d| && |rest| + copy == 64
    ensures Folded(process, abcd, rest + d) == Folded(process, process(abcd, rest + d[..copy]), d[copy..])
    ensures Rest(rest + d) == Rest(d[copy..])
  {
    var m := rest + d;
    assert m[..64] == rest + d[..copy] && m[64..] == d[copy..];
    assert m == m[..64] + m[64..];
    RestCut(m[..64], m[64..]);
  }

  function Concat(pieces: seq<seq<Byte>>): seq<Byte> {
    if pieces == [] then [] else Concat(pieces[..|pieces| - 1]) + pieces[|pieces| - 1]
  }

  /** However a message is cut, its digest is the same. */
  method DigestOf(process: Process, pieces: seq<seq<Byte>>) returns (digest: seq<Byte>)
    requires forall i :: 0 <= i < |pieces| ==> |pieces[i]| < 0x7FFF_FFC0
    ensures digest == Digest(process, Concat(pieces))
  {
    var state := new State(process);
    var i := 0;
    while i < |pieces|
      invariant 0 <= i <= |pieces|
      invariant state.Valid() && state.process == process && fresh(state) && fresh(state.buf)
      invariant state.message == Concat(pieces[..i])
    {
      state.Append(pieces[i], |pieces[i]|);
      assert pieces[i][..|pieces[i]|] == pieces[i];
      assert pieces[..i + 1][..i] == pieces[..i];
      i := i + 1;
    }
    assert pieces[..i] == pieces;
    digest := state.Finish();
  }
}
