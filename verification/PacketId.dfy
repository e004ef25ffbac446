/** The packet ids of the MQTT client (lib/mqtt/mqtt.c): a 16-bit shift register with feedback. */
module PacketId {
  import opened Counting

  type Id = bv16

  /** One move of the register: halve it, and fold the lost bit back in at the taps. */
  function Step(v: Id): Id {
    (v >> 1) ^ (0xB400 & (0 - (v & 1)))
  }

  function Iter(n: nat, v: Id): Id {
    if n == 0 then v else Step(Iter(n - 1, v))
  }

  lemma {:induction false} IterAdd(m: nat, n: nat, v: Id)
    ensures Iter(m + n, v) == Iter(m, Iter(n, v))
  {
    if m > 0 {
      IterAdd(m - 1, n, v);
    }
  }

  lemma {:induction false} IterNonzero(n: nat, v: Id)
    requires v != 0
    ensures Iter(n, v) != 0
  {
    if n > 0 {
      IterNonzero(n - 1, v);
    }
  }

  // The moves form a field: 0x8000 is its one, Step multiplies by its generator, and Iter(n, v) is
  // the product of v with Iter(n, 0x8000).

  const ONE: Id := 0x8000

  function Pick(v: Id, b: Id): Id {
    b & (0 - (v >> 15))
  }

  function Sum(a: Id, b: Id, c: Id, d: Id): Id {
    a ^ b ^ c ^ d
  }

  function Row(v: Id, b0: Id, b1: Id, b2: Id, b3: Id): Id {
    (b0 & (0 - (v >> 15))) ^ (b1 & (0 - ((v << 1) >> 15)))
    ^ (b2 & (0 - ((v << 2) >> 15))) ^ (b3 & (0 - ((v << 3) >> 15)))
  }

  lemma RowIsSum(v: Id, b0: Id, b1: Id, b2: Id, b3: Id)
    ensures Row(v, b0, b1, b2, b3) == Sum(Pick(v, b0), Pick(v << 1, b1), Pick(v << 2, b2), Pick(v << 3, b3))
  {
  }

  function Four(v: Id, b: Id): Id {
    Row(v, b, Step(b), Step(Step(b)), Step(Step(Step(b))))
  }

  function Step4(b: Id): Id {
    Step(Step(Step(Step(b))))
  }

  function Mul(v: Id, b: Id): Id {
    Sum(Four(v, b), Four(v << 4, Step4(b)), Four(v << 8, Step4(Step4(b))),
        Four(v << 12, Step4(Step4(Step4(b)))))
  }

  lemma StepSum(a: Id, b: Id, c: Id, d: Id)
    ensures Step(Sum(a, b, c, d)) == Sum(Step(a), Step(b), Step(c), Step(d))
  {
  }

  lemma StepPick(v: Id, b: Id)
    ensures Step(Pick(v, b)) == Pick(v, Step(b))
  {
    assert v >> 15 == 0 || v >> 15 == 1;
    if v >> 15 == 0 {
      assert Pick(v, b) == 0;
      assert Pick(v, Step(b)) == 0;
    } else {
      assert Pick(v, b) == b;
      assert Pick(v, Step(b)) == Step(b);
    }
  }

  lemma StepRow(v: Id, b0: Id, b1: Id, b2: Id, b3: Id)
    ensures Step(Row(v, b0, b1, b2, b3)) == Row(v, Step(b0), Step(b1), Step(b2), Step(b3))
  {
    StepPick(v, b0);
    StepPick(v << 1, b1);
    StepPick(v << 2, b2);
    StepPick(v << 3, b3);
    StepSum(Pick(v, b0), Pick(v << 1, b1), Pick(v << 2, b2), Pick(v << 3, b3));
    RowIsSum(v, b0, b1, b2, b3);
    RowIsSum(v, Step(b0), Step(b1), Step(b2), Step(b3));
  }

  lemma StepFour(v: Id, b: Id)
    ensures Step(Four(v, b)) == Four(v, Step(b))
  {
    StepRow(v, b, Step(b), Step(Step(b)), Step(Step(Step(b))));
  }

  lemma StepMul(v: Id, b: Id)
    ensures Step(Mul(v, b)) == Mul(v, Step(b))
  {
    var b1, b2, b3 := Step4(b), Step4(Step4(b)), Step4(Step4(Step4(b)));
    StepFour(v, b);
    StepFour(v << 4, b1);
    StepFour(v << 8, b2);
    StepFour(v << 12, b3);
    StepSum(Four(v, b), Four(v << 4, b1), Four(v << 8, b2), Four(v << 12, b3));
  }

  lemma {:induction false} IterCommutes(m: nat, f: Id -> Id, b: Id)
    requires forall x :: Step(f(x)) == f(Step(x))
    ensures Iter(m, f(b)) == f(Iter(m, b))
  {
    if m > 0 {
      IterCommutes(m - 1, f, b);
    }
  }

  lemma FourBits(v: Id)
    ensures Four(v, 0x8000) == v & 0xF000 && Four(v, 0x0800) == (v & 0xF000) >> 4
    ensures Four(v, 0x0080) == (v & 0xF000) >> 8 && Four(v, 0x0008) == (v & 0xF000) >> 12
  {
    assert Step(0x8000) == 0x4000 && Step(0x4000) == 0x2000 && Step(0x2000) == 0x1000;
    assert Step(0x0800) == 0x0400 && Step(0x0400) == 0x0200 && Step(0x0200) == 0x0100;
    assert Step(0x0080) == 0x0040 && Step(0x0040) == 0x0020 && Step(0x0020) == 0x0010;
    assert Step(0x0008) == 0x0004 && Step(0x0004) == 0x0002 && Step(0x0002) == 0x0001;
  }

  lemma MulOne(v: Id)
    ensures Mul(v, ONE) == v
  {
    FourBits(v);
    FourBits(v << 4);
    FourBits(v << 8);
    FourBits(v << 12);
    assert Step4(0x8000) == 0x0800 && Step4(0x0800) == 0x0080 && Step4(0x0080) == 0x0008;
  }

  lemma IterIsMul(n: nat, v: Id)
    ensures Iter(n, v) == Mul(v, Iter(n, ONE))
  {
    MulOne(v);
    forall x ensures Step(Mul(v, x)) == Mul(v, Step(x)) {
      StepMul(v, x);
    }
    IterCommutes(n, x => Mul(v, x), ONE);
  }

  lemma PowerAdd(m: nat, n: nat)
    ensures Iter(m + n, ONE) == Mul(Iter(n, ONE), Iter(m, ONE))
  {
    IterAdd(m, n, ONE);
    IterIsMul(m, Iter(n, ONE));
  }

  lemma Product(m: nat, n: nat, x: Id, y: Id, z: Id)
    requires Iter(m, ONE) == x && Iter(n, ONE) == y && Mul(y, x) == z
    ensures Iter(m + n, ONE) == z
  {
    PowerAdd(m, n);
  }

  lemma Power15()
    requires Iter(3, ONE) == 0x1000
    ensures Iter(15, ONE) == 0x0001
  {
    Product(3, 3, 0x1000, 0x1000, 0x0200);
    Product(6, 6, 0x0200, 0x0200, 0x0008);
    Product(3, 12, 0x1000, 0x0008, 0x0001);
  }

  lemma Power51()
    requires Iter(3, ONE) == 0x1000
    ensures Iter(51, ONE) == 0x8EB7
  {
    Product(3, 3, 0x1000, 0x1000, 0x0200);
    Product(6, 6, 0x0200, 0x0200, 0x0008);
    Product(12, 12, 0x0008, 0x0008, 0x00B4);
    Product(24, 24, 0x00B4, 0x00B4, 0xBDBD);
    Product(3, 48, 0x1000, 0xBDBD, 0x8EB7);
  }

  lemma Power85()
    requires Iter(5, ONE) == 0x0400
    ensures Iter(85, ONE) == 0xCF70
  {
    Product(5, 5, 0x0400, 0x0400, 0x0020);
    Product(10, 10, 0x0020, 0x0020, 0x0B40);
    Product(20, 20, 0x0B40, 0x0B40, 0x2D8A);
    Product(40, 40, 0x2D8A, 0x2D8A, 0xE61D);
    Product(5, 80, 0x0400, 0xE61D, 0xCF70);
  }

  lemma Power255()
    requires Iter(15, ONE) == 0x0001
    ensures Iter(255, ONE) == 0xA300
  {
    Product(15, 15, 0x0001, 0x0001, 0xF882);
    Product(30, 30, 0xF882, 0xF882, 0x448B);
    Product(60, 60, 0x448B, 0x448B, 0x361D);
    Product(120, 120, 0x361D, 0x361D, 0xF0E3);
    Product(15, 240, 0x0001, 0xF0E3, 0xA300);
  }

  lemma Power3855()
    requires Iter(15, ONE) == 0x0001
    ensures Iter(3855, ONE) == 0x2D35
  {
    Product(15, 15, 0x0001, 0x0001, 0xF882);
    Product(30, 30, 0xF882, 0xF882, 0x448B);
    Product(60, 60, 0x448B, 0x448B, 0x361D);
    Product(120, 120, 0x361D, 0x361D, 0xF0E3);
    Product(240, 240, 0xF0E3, 0xF0E3, 0x9AC9);
    Product(480, 480, 0x9AC9, 0x9AC9, 0xE3BE);
    Product(960, 960, 0xE3BE, 0xE3BE, 0x4F08);
    Product(1920, 1920, 0x4F08, 0x4F08, 0x201E);
    Product(15, 3840, 0x0001, 0x201E, 0x2D35);
  }

  lemma Power13107()
    requires Iter(51, ONE) == 0x8EB7
    ensures Iter(13107, ONE) == 0x5F61
  {
    Product(51, 51, 0x8EB7, 0x8EB7, 0x9F9C);
    Product(102, 102, 0x9F9C, 0x9F9C, 0x34E3);
    Product(204, 204, 0x34E3, 0x34E3, 0x3AE9);
    Product(408, 408, 0x3AE9, 0x3AE9, 0x60FE);
    Product(816, 816, 0x60FE, 0x60FE, 0xE202);
    Product(1632, 1632, 0xE202, 0xE202, 0xF203);
    Product(3264, 3264, 0xF203, 0xF203, 0x0881);
    Product(6528, 6528, 0x0881, 0x0881, 0x4C02);
    Product(51, 13056, 0x8EB7, 0x4C02, 0x5F61);
  }

  lemma Power21845()
    requires Iter(85, ONE) == 0xCF70
    ensures Iter(21845, ONE) == 0x5335
  {
    Product(85, 85, 0xCF70, 0xCF70, 0x843A);
    Product(170, 170, 0x843A, 0x843A, 0xD30F);
    Product(340, 340, 0xD30F, 0xD30F, 0x001A);
    Product(680, 680, 0x001A, 0x001A, 0x586F);
    Product(1360, 1360, 0x586F, 0x586F, 0xA6D0);
    Product(2720, 2720, 0xA6D0, 0xA6D0, 0x13F8);
    Product(5440, 5440, 0x13F8, 0x13F8, 0x922E);
    Product(10880, 10880, 0x922E, 0x922E, 0xD3DA);
    Product(85, 21760, 0xCF70, 0xD3DA, 0x5335);
  }

  lemma Power65535()
    requires Iter(255, ONE) == 0xA300
    ensures Iter(65535, ONE) == 0x8000
  {
    Product(255, 255, 0xA300, 0xA300, 0x880A);
    Product(510, 510, 0x880A, 0x880A, 0xDA3F);
    Product(1020, 1020, 0xDA3F, 0xDA3F, 0x0908);
    Product(2040, 2040, 0x0908, 0x0908, 0x0036);
    Product(4080, 4080, 0x0036, 0x0036, 0x53B6);
    Product(8160, 8160, 0x53B6, 0x53B6, 0xC5BC);
    Product(16320, 16320, 0xC5BC, 0xC5BC, 0x1D2B);
    Product(32640, 32640, 0x1D2B, 0x1D2B, 0xABDF);
    Product(255, 65280, 0xA300, 0xABDF, 0x8000);
  }


  lemma Rows(v: Id, b0: Id, b1: Id, b2: Id, b3: Id)
    requires b1 == Step(b0) && b2 == Step(b1) && b3 == Step(b2)
    ensures Four(v, b0) == Row(v, b0, b1, b2, b3) && Step4(b0) == Step(b3)
  {
  }

  lemma Kernel21845(v: Id)
    requires Mul(v, 0x5335) == v
    ensures v == 0
  {
    Rows(v, 0x5335, 0x9D9A, 0x4ECD, 0x9366);
    Rows(v << 4, 0x49B3, 0x90D9, 0xFC6C, 0x7E36);
    Rows(v << 8, 0x3F1B, 0xAB8D, 0xE1C6, 0x70E3);
    Rows(v << 12, 0x8C71, 0xF238, 0x791C, 0x3C8E);
  }

  lemma Kernel13107(v: Id)
    requires Mul(v, 0x5F61) == v
    ensures v == 0
  {
    Rows(v, 0x5F61, 0x9BB0, 0x4DD8, 0x26EC);
    Rows(v << 4, 0x1376, 0x09BB, 0xB0DD, 0xEC6E);
    Rows(v << 8, 0x7637, 0x8F1B, 0xF38D, 0xCDC6);
    Rows(v << 12, 0x66E3, 0x8771, 0xF7B8, 0x7BDC);
  }

  lemma Kernel3855(v: Id)
    requires Mul(v, 0x2D35) == v
    ensures v == 0
  {
    Rows(v, 0x2D35, 0xA29A, 0x514D, 0x9CA6);
    Rows(v << 4, 0x4E53, 0x9329, 0xFD94, 0x7ECA);
    Rows(v << 8, 0x3F65, 0xABB2, 0x55D9, 0x9EEC);
    Rows(v << 12, 0x4F76, 0x27BB, 0xA7DD, 0xE7EE);
  }

  lemma Kernel255(v: Id)
    requires Mul(v, 0xA300) == v
    ensures v == 0
  {
    Rows(v, 0xA300, 0x5180, 0x28C0, 0x1460);
    Rows(v << 4, 0x0A30, 0x0518, 0x028C, 0x0146);
    Rows(v << 8, 0x00A3, 0xB451, 0xEE28, 0x7714);
    Rows(v << 12, 0x3B8A, 0x1DC5, 0xBAE2, 0x5D71);
  }

  lemma Fixed21845(v: Id)
    requires Iter(21845, ONE) == 0x5335 && Iter(21845, v) == v
    ensures v == 0
  {
    IterIsMul(21845, v);
    Kernel21845(v);
  }

  lemma Fixed13107(v: Id)
    requires Iter(13107, ONE) == 0x5F61 && Iter(13107, v) == v
    ensures v == 0
  {
    IterIsMul(13107, v);
    Kernel13107(v);
  }

  lemma Fixed3855(v: Id)
    requires Iter(3855, ONE) == 0x2D35 && Iter(3855, v) == v
    ensures v == 0
  {
    IterIsMul(3855, v);
    Kernel3855(v);
  }

  lemma Fixed255(v: Id)
    requires Iter(255, ONE) == 0xA300 && Iter(255, v) == v
    ensures v == 0
  {
    IterIsMul(255, v);
    Kernel255(v);
  }

  /** 65535 moves are the identity; a 3rd, 5th, 17th or 257th of them fixes only 0. */
  lemma Cycle(v: Id)
    ensures Iter(65535, v) == v
    ensures v != 0 ==> Iter(21845, v) != v && Iter(13107, v) != v && Iter(3855, v) != v && Iter(255, v) != v
  {
    assert Iter(3, ONE) == 0x1000 && Iter(5, ONE) == 0x0400;
    Power15();
    Power51();
    Power85();
    Power255();
    Power3855();
    Power13107();
    Power21845();
    Power65535();
    MulOne(v);
    IterIsMul(65535, v);
    if v != 0 {
      if Iter(255, v) == v {
        Fixed255(v);
      }
      if Iter(3855, v) == v {
        Fixed3855(v);
      }
      if Iter(13107, v) == v {
        Fixed13107(v);
      }
      if Iter(21845, v) == v {
        Fixed21845(v);
      }
    }
  }

  lemma Unique(p: nat, q: int, r: nat, q': int, r': nat)
    requires r < p && r' < p && p * q + r == p * q' + r'
    ensures r == r'
  {
    var d := q - q';
    assert p * d == r' - r;
    if d >= 1 {
      assert p * d == p * (d - 1) + p;
    } else if d <= -1 {
      assert p * d == p * (d + 1) - p;
    }
  }

  lemma Mod(p: nat, q: nat, r: nat)
    requires r < p
    ensures (p * q + r) % p == r
  {
    var n := p * q + r;
    Unique(p, q, r, n / p, n % p);
  }

  lemma Multiple(g: nat, k: nat)
    requires g > 0
    ensures (g * k) % g == 0
  {
    Mod(g, k, 0);
  }

  lemma Shift(p: nat, x: nat, k: nat)
    requires p > 0
    ensures (x + p * k) % p == x % p
  {
    assert x + p * k == p * (x / p + k) + x % p;
    Mod(p, x / p + k, x % p);
  }

  lemma {:induction false} FixedTimes(n: nat, k: nat, v: Id)
    requires Iter(n, v) == v
    ensures Iter(n * k, v) == v
  {
    if k > 0 {
      FixedTimes(n, k - 1, v);
      assert n * k == n + n * (k - 1);
      IterAdd(n, n * (k - 1), v);
    }
  }

  /** If two numbers of moves fix a value, so does a common divisor. */
  lemma {:induction false} CommonPeriod(a: nat, b: nat, v: Id) returns (g: nat)
    requires a > 0 && Iter(a, v) == v && Iter(b, v) == v
    ensures g > 0 && a % g == 0 && b % g == 0 && Iter(g, v) == v
    decreases b
  {
    if b == 0 {
      g := a;
    } else {
      var q, r := a / b, a % b;
      FixedTimes(b, q, v);
      IterAdd(r, b * q, v);
      assert a == r + b * q;
      g := CommonPeriod(b, r, v);
      Divides(g, b, q, r);
    }
  }

  lemma Divides(g: nat, b: nat, q: nat, r: nat)
    requires g > 0 && b % g == 0 && r % g == 0
    ensures (r + b * q) % g == 0
  {
    var x, y := b / g, r / g;
    assert b == g * x && r == g * y;
    assert r + b * q == g * (y + x * q);
    Multiple(g, y + x * q);
  }

  predicate Prime(p: nat) {
    p > 1 && forall k :: 1 < k < p ==> p % k != 0
  }

  lemma Reduce(p: nat, a: nat, b: nat)
    requires p > 0 && (a * b) % p == 0
    ensures (a % p * b) % p == 0
  {
    assert a == p * (a / p) + a % p;
    assert a * b == a % p * b + p * ((a / p) * b);
    Shift(p, a % p * b, (a / p) * b);
  }

  lemma Reverse(p: nat, a: nat, b: nat)
    requires p > 0 && a > 0 && (a * b) % p == 0
    ensures (p % a * b) % p == 0
  {
    var k, c, m := p / a, p % a, (a * b) / p;
    Expand(p, a, k, c, b, m);
    Multiple(p, b);
    Shift(p, c * b, m * k);
  }

  lemma Expand(p: nat, a: nat, k: nat, c: nat, b: nat, m: nat)
    requires p == a * k + c && a * b == p * m
    ensures p * b == c * b + p * (m * k)
  {
    assert p * b == (a * k) * b + c * b;
    assert (a * k) * b == (a * b) * k;
    assert (p * m) * k == p * (m * k);
  }

  lemma {:induction false} Euclid(p: nat, a: nat, b: nat)
    requires Prime(p) && 0 < a < p && (a * b) % p == 0
    ensures b % p == 0
    decreases a
  {
    if a > 1 {
      Reverse(p, a, b);
      Euclid(p, p % a, b);
    }
  }

  lemma EitherFactor(p: nat, a: nat, b: nat)
    requires Prime(p) && (a * b) % p == 0
    ensures a % p == 0 || b % p == 0
  {
    Reduce(p, a, b);
    if a % p != 0 {
      Euclid(p, a % p, b);
    }
  }

  lemma NoSmallFactor(p: nat, k: nat)
    requires p in {3, 5, 17, 257} && 1 < k <= 16 && k < p
    ensures p % k != 0
  {
    if k < 9 {
      assert k == 2 || k == 3 || k == 4 || k == 5 || k == 6 || k == 7 || k == 8;
    } else {
      assert k == 9 || k == 10 || k == 11 || k == 12 || k == 13 || k == 14 || k == 15 || k == 16;
    }
  }

  lemma AtLeast(m: nat, k: nat)
    requires m >= 17 && k >= 17
    ensures m * k >= 289
  {
    assert m * k == 17 * k + (m - 17) * k;
  }

  lemma Cofactor(p: nat, k: nat) returns (m: nat)
    requires 16 < k < p <= 257 && p % k == 0
    ensures 1 < m <= 16 && m < p && p % m == 0
  {
    m := p / k;
    assert p == m * k;
    Multiple(m, k);
    if m > 16 {
      AtLeast(m, k);
      assert false;
    }
  }

  lemma SmallPrime(p: nat)
    requires p in {3, 5, 17, 257}
    ensures Prime(p)
  {
    forall k | 1 < k < p ensures p % k != 0 {
      if k <= 16 {
        NoSmallFactor(p, k);
      } else if p % k == 0 {
        var m := Cofactor(p, k);
        NoSmallFactor(p, m);
        assert false;
      }
    }
  }

  /** A proper divisor of 65535 = 3 * 5 * 17 * 257 divides 65535 / 3, / 5, / 17 or / 257. */
  lemma ProperDivisor(g: nat)
    requires 0 < g < 65535 && 65535 % g == 0
    ensures 21845 % g == 0 || 13107 % g == 0 || 3855 % g == 0 || 255 % g == 0
  {
    var q := 65535 / g;
    assert q * g == 65535;
    SmallPrime(3);
    SmallPrime(5);
    SmallPrime(17);
    SmallPrime(257);
    EitherFactor(3, q, g);
    EitherFactor(5, q, g);
    EitherFactor(17, q, g);
    EitherFactor(257, q, g);
    if q % 3 == 0 {
      assert 21845 == g * (q / 3);
      Multiple(g, q / 3);
    } else if q % 5 == 0 {
      assert 13107 == g * (q / 5);
      Multiple(g, q / 5);
    } else if q % 17 == 0 {
      assert 3855 == g * (q / 17);
      Multiple(g, q / 17);
    } else if q % 257 == 0 {
      assert 255 == g * (q / 257);
      Multiple(g, q / 257);
    } else {
      AllFactors(g);
      assert false;
    }
  }

  lemma AllFactors(g: nat)
    requires g > 0 && g % 3 == 0 && g % 5 == 0 && g % 17 == 0 && g % 257 == 0
    ensures g >= 65535
  {
    SmallPrime(5);
    SmallPrime(17);
    SmallPrime(257);
    var a := g / 3;
    EitherFactor(5, 3, a);
    var b := a / 5;
    EitherFactor(17, 15, b);
    var c := b / 17;
    EitherFactor(257, 255, c);
    assert c >= 257;
  }

  lemma MultipleFixes(g: nat, n: nat, v: Id)
    requires g > 0 && n % g == 0 && Iter(g, v) == v
    ensures Iter(n, v) == v
  {
    assert n == g * (n / g);
    FixedTimes(g, n / g, v);
  }

  /** The order of the register: no nonzero value comes back in fewer than 65535 moves. */
  lemma Order(n: nat, v: Id)
    requires v != 0 && 0 < n < 65535
    ensures Iter(n, v) != v
  {
    Cycle(v);
    if Iter(n, v) == v {
      var g := CommonPeriod(n, 65535, v);
      Bounded(g, n);
      ProperDivisor(g);
      if 21845 % g == 0 {
        MultipleFixes(g, 21845, v);
      } else if 13107 % g == 0 {
        MultipleFixes(g, 13107, v);
      } else if 3855 % g == 0 {
        MultipleFixes(g, 3855, v);
      } else {
        MultipleFixes(g, 255, v);
      }
    }
  }

  lemma Bounded(g: nat, n: nat)
    requires g > 0 && n > 0 && n % g == 0
    ensures g <= n
  {
  }

  /** The values met in 65535 moves differ. */
  lemma Apart(i: nat, j: nat, v: Id)
    requires v != 0 && i < j < i + 65535
    ensures Iter(i, v) != Iter(j, v)
  {
    IterAdd(j - i, i, v);
    IterNonzero(i, v);
    Order(j - i, Iter(i, v));
  }

  ghost function Orbit(n: nat, v: Id): set<Id> {
    if n == 0 then {} else Orbit(n - 1, v) + {Iter(n - 1, v)}
  }

  lemma {:induction false} OrbitFrom(n: nat, v: Id, x: Id) returns (i: nat)
    requires x in Orbit(n, v)
    ensures i < n && Iter(i, v) == x
  {
    if x in Orbit(n - 1, v) {
      i := OrbitFrom(n - 1, v, x);
    } else {
      i := n - 1;
    }
  }

  lemma {:induction false} OrbitSize(n: nat, v: Id)
    requires v != 0 && n <= 65535
    ensures |Orbit(n, v)| == n
  {
    if n > 0 {
      OrbitSize(n - 1, v);
      if Iter(n - 1, v) in Orbit(n - 1, v) {
        var i := OrbitFrom(n - 1, v, Iter(n - 1, v));
        Apart(i, n - 1, v);
      }
    }
  }

  function Number(x: Id): int {
    x as int
  }

  lemma NumberApart(x: Id, y: Id)
    requires x != y
    ensures Number(x) != Number(y)
  {
    assert (x as int) as Id == x && (y as int) as Id == y;
  }

  lemma NumberRange(x: Id)
    requires x != 0
    ensures 1 <= Number(x) <= 65535
  {
    NumberApart(x, 0);
    assert (0 as Id) as int == 0;
  }

  /** There are no more than 65535 nonzero ids. */
  lemma NonzeroIds(s: set<Id>)
    requires 0 !in s
    ensures |s| <= 65535
  {
    forall x, y | x in s && y in s && x != y ensures Number(x) != Number(y) {
      NumberApart(x, y);
    }
    forall x | x in s ensures 1 <= Number(x) <= 65535 {
      NumberRange(x);
    }
    InjectedBelow(s, Number, 65535);
  }

  /** The register is a single cycle through the 65535 nonzero values. */
  lemma SingleCycle(v: Id, w: Id) returns (n: nat)
    requires v != 0 && w != 0
    ensures 0 < n <= 65535 && Iter(n, v) == w
  {
    var s := Orbit(65535, v);
    OrbitSize(65535, v);
    if w !in s {
      if 0 in s {
        var i := OrbitFrom(65535, v, 0);
        IterNonzero(i, v);
      }
      NonzeroIds(s + {w});
      assert false;
    }
    n := OrbitFrom(65535, v, w);
    if n == 0 {
      Cycle(v);
      n := 65535;
    }
  }

  /** Fewer queued messages than nonzero ids leave an id free. */
  lemma FewIds(queue: seq<Id>) returns (w: Id)
    requires |queue| < 65535
    ensures w != 0 && w !in queue
  {
    var s, t := Orbit(65535, ONE), set x | x in queue;
    OrbitSize(65535, ONE);
    SeqSize(queue);
    w := Outside(s, t);
    var i := OrbitFrom(65535, ONE, w);
    IterNonzero(i, ONE);
  }

  /** The search meets a free id exactly if there is one; else it goes on for ever. */
  lemma SearchEnds(start: Id, queue: seq<Id>)
    requires start != 0
    ensures (exists n: nat :: n > 0 && Iter(n, start) !in queue) <==> exists w: Id :: w != 0 && w !in queue
  {
    if n: nat :| n > 0 && Iter(n, start) !in queue {
      IterNonzero(n, start);
    }
    if w: Id :| w != 0 && w !in queue {
      var n := SingleCycle(start, w);
      assert Iter(n, start) !in queue;
    }
  }

  lemma StepIs(v: Id)
    ensures Step(v) == if v & 1 != 0 then (v >> 1) ^ 0xB400 else v >> 1
  {
    assert v & 1 == 0 || v & 1 == 1;
    if v & 1 == 1 {
      assert 0xB400 & (0 - (v & 1)) == 0xB400;
    } else {
      assert 0xB400 & (0 - (v & 1)) == 0;
    }
  }

  class Register {
    /** pid_lfsr; 0 until the first use */
    var lfsr: Id

    function Start(): Id
      reads this
    {
      if lfsr == 0 then 163 else lfsr
    }

    method Move()
      modifies this
      ensures lfsr == Step(old(lfsr))
    {
      StepIs(lfsr);
      var lsb := lfsr & 1;
      lfsr := lfsr >> 1;
      if lsb != 0 {
        lfsr := lfsr ^ 0xB400;
      }
    }

    /** __mqtt_next_pid: the first id after the current one that no queued message holds. */
    method NextPid(queue: seq<Id>) returns (pid: Id, ghost moves: nat)
      requires exists w: Id :: w != 0 && w !in queue
      modifies this
      ensures pid == lfsr && pid != 0 && pid !in queue
      ensures 0 < moves <= 65535 && pid == Iter(moves, old(Start()))
      ensures forall k :: 0 < k < moves ==> Iter(k, old(Start())) in queue
    {
      ghost var start := Start();
      ghost var w: Id :| w != 0 && w !in queue;
      ghost var end := SingleCycle(start, w);
      if lfsr == 0 {
        lfsr := 163;
      }
      moves := 0;
      var pidExists := true;
      while pidExists
        invariant moves <= end && lfsr == Iter(moves, start)
        invariant pidExists <==> moves == 0 || lfsr in queue
        invariant forall k :: 0 < k < moves ==> Iter(k, start) in queue
        decreases end - moves, pidExists
      {
        Move();
        moves := moves + 1;
        pidExists := false;
        var curr := 0;
        while curr < |queue|
          invariant 0 <= curr <= |queue| && lfsr !in queue[..curr] && !pidExists
        {
          if queue[curr] == lfsr {
            pidExists := true;
            break;
          }
          curr := curr + 1;
        }
      }
      IterNonzero(moves, start);
      pid := lfsr;
    }
  }
}
