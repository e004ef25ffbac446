/** Numbers as bytes, lowest first. */
module LittleEndian {
  import opened Bytes
  import opened Division

  /** The `k` lowest bytes of a number, lowest first. */
  function Little(n: nat, k: nat): (r: seq<Byte>)
    ensures |r| == k
  {
    if k == 0 then [] else [(n % 256) as Byte] + Little(n / 256, k - 1)
  }

  function Zeros(k: nat): seq<Byte> {
    seq(k, i => 0)
  }

  /** The bytes give the number back, up to what does not fit. */
  function Value(s: seq<Byte>): nat {
    if s == [] then 0 else s[0] as nat + 256 * Value(s[1..])
  }

  function Power(k: nat): (r: nat)
    ensures r > 0
  {
    if k == 0 then 1 else 256 * Power(k - 1)
  }

  lemma {:induction false} LittleValue(n: nat, k: nat)
    ensures Value(Little(n, k)) == n % Power(k)
  {
    if k > 0 {
      LittleValue(n / 256, k - 1);
      assert Little(n, k)[1..] == Little(n / 256, k - 1);
      Rem256(n, Power(k - 1));
    }
  }

  lemma Rem256(n: nat, d: nat)
    requires d > 0
    ensures n % (256 * d) == 256 * (n / 256 % d) + n % 256
  {
    var m := n / 256;
    var q, r := m / d, m % d;
    Spread(n, m, n % 256, d, q, r);
    Remainder(n, 256 * d, q, 256 * r + n % 256);
  }

  lemma Spread(n: nat, m: nat, b: nat, d: nat, q: nat, r: nat)
    requires n == 256 * m + b && m == q * d + r
    ensures n == q * (256 * d) + (256 * r + b)
  {
  }

  const TWO64: nat := 0x1_0000_0000_0000_0000

  lemma Powers()
    ensures Power(8) == TWO64 && Power(4) == 0x1_0000_0000 && Power(2) == 0x1_0000
  {
    assert Power(4) == 256 * (256 * (256 * (256 * Power(0))));
    assert Power(8) == 256 * (256 * (256 * (256 * Power(4))));
  }

  /** A number that fits is given back. */
  lemma Restored(n: nat, k: nat)
    requires n < Power(k)
    ensures Value(Little(n, k)) == n
  {
    LittleValue(n, k);
    Remainder(n, Power(k), 0, n);
  }
}
