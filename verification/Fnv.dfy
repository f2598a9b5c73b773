/**
  The step of the FNV-1a hash on 64-bit words, as integers below 2^64: exclusive or with the data, then multiplication by
  a prime modulo 2^64. Nothing is lost by a step, and the order of two steps counts.
 */
module Fnv {
  const WORDS: int := 0x1_0000_0000_0000_0000

  type Code = c: int | 0 <= c < 0x1_0000_0000_0000_0000

  /** 0x00000100_000001B3 */
  const PRIME: int := 1_099_511_628_211
  /** The inverse of the prime modulo 2^64: their product is one more than UNIT times 2^64. */
  const INVERSE: int := 0xCE96_5057_AFF6_957B
  const UNIT: int := 887_285_111_055

  // ---------------------------------------------------------------- exclusive or

  /** Bit by bit, from the lowest on. */
  function XorBits(x: nat, y: nat): nat {
    if x == 0 then y
    else if y == 0 then x
    else 2 * XorBits(x / 2, y / 2) + if x % 2 == y % 2 then 0 else 1
  }

  function Pow2(n: nat): nat {
    if n == 0 then 1 else 2 * Pow2(n - 1)
  }

  lemma {:induction false} XorBelow(x: nat, y: nat, n: nat)
    requires x < Pow2(n) && y < Pow2(n)
    ensures XorBits(x, y) < Pow2(n)
  {
    if n > 0 && x > 0 && y > 0 {
      XorBelow(x / 2, y / 2, n - 1);
    }
  }

  lemma Pow2At64()
    ensures Pow2(64) == WORDS
  {
    assert Pow2(8) == 0x100;
    assert Pow2(16) == 0x1_0000;
    assert Pow2(24) == 0x100_0000;
    assert Pow2(32) == 0x1_0000_0000;
    assert Pow2(40) == 0x100_0000_0000;
    assert Pow2(48) == 0x1_0000_0000_0000;
    assert Pow2(56) == 0x100_0000_0000_0000;
  }

  function Xor(x: Code, y: Code): Code {
    Pow2At64();
    XorBelow(x, y, 64);
    XorBits(x, y)
  }

  lemma XorHalves(x: nat, y: nat)
    ensures XorBits(x, y) / 2 == XorBits(x / 2, y / 2)
    ensures XorBits(x, y) % 2 == (x % 2 + y % 2) % 2
  {
    hide XorBits;
    WithZero(x);
    WithZero(y);
    WithZero(x / 2);
    WithZero(y / 2);
    if x > 0 && y > 0 {
      XorStep(x, y);
      Doubled(XorBits(x / 2, y / 2), if x % 2 == y % 2 then 0 else 1);
      Parity(x, y);
    }
  }

  lemma XorStep(x: nat, y: nat)
    requires x > 0 && y > 0
    ensures XorBits(x, y) == 2 * XorBits(x / 2, y / 2) + if x % 2 == y % 2 then 0 else 1
  {
  }

  lemma Parity(x: nat, y: nat)
    ensures (x % 2 + y % 2) % 2 == if x % 2 == y % 2 then 0 else 1
  {
  }

  lemma Doubled(n: nat, b: nat)
    requires b < 2
    ensures (2 * n + b) / 2 == n && (2 * n + b) % 2 == b
  {
  }

  lemma {:induction false} Commutes(x: nat, y: nat)
    ensures XorBits(x, y) == XorBits(y, x)
  {
    if x > 0 && y > 0 {
      Commutes(x / 2, y / 2);
    }
  }

  lemma {:induction false} Associates(x: nat, y: nat, z: nat)
    ensures XorBits(XorBits(x, y), z) == XorBits(x, XorBits(y, z))
    decreases x + y + z
  {
    if x > 0 && y > 0 && z > 0 {
      var l, r := XorBits(XorBits(x, y), z), XorBits(x, XorBits(y, z));
      XorHalves(x, y);
      XorHalves(y, z);
      XorHalves(XorBits(x, y), z);
      XorHalves(x, XorBits(y, z));
      Associates(x / 2, y / 2, z / 2);
      assert l / 2 == r / 2 && l % 2 == r % 2;
    }
  }

  lemma {:induction false} ZeroIffEqual(x: nat, y: nat)
    ensures XorBits(x, y) == 0 <==> x == y
  {
    if x > 0 && y > 0 {
      ZeroIffEqual(x / 2, y / 2);
    }
  }

  /** Exclusive or with one word keeps different words different. */
  lemma XorCancels(x: Code, y: Code, z: Code)
    ensures Xor(x, z) == Xor(y, z) <==> x == y
    ensures Xor(z, x) == Xor(z, y) <==> x == y
  {
    hide XorBits;
    Commutes(x, z);
    Commutes(y, z);
    if Xor(x, z) == Xor(y, z) {
      Associates(x, z, z);
      Associates(y, z, z);
      ZeroIffEqual(z, z);
      WithZero(x);
      WithZero(y);
    }
  }

  lemma WithZero(x: nat)
    ensures XorBits(x, 0) == x && XorBits(0, x) == x
  {
  }

  lemma Regroup(x: Code, y: Code, z: Code)
    ensures Xor(Xor(x, y), z) == Xor(x, Xor(y, z)) && Xor(x, 0) == x
  {
    hide XorBits;
    Associates(x, y, z);
    WithZero(x);
  }

  lemma Commute(x: Code, y: Code)
    ensures Xor(x, y) == Xor(y, x)
  {
    Commutes(x, y);
  }

  /** Words whose exclusive or is below 256 agree above the low byte. */
  lemma Near(x: nat, y: nat)
    requires XorBits(x, y) < 256
    ensures x / 256 == y / 256
  {
    Shifted(x, y);
    ZeroIffEqual(x / 256, y / 256);
  }

  lemma Shifted(x: nat, y: nat)
    ensures XorBits(x, y) / 256 == XorBits(x / 256, y / 256)
  {
    ShiftedBy(x, y, 8);
    Quotients(x);
    Quotients(y);
    Quotients(XorBits(x, y));
  }

  function ShiftRight(x: nat, n: nat): nat {
    if n == 0 then x else ShiftRight(x / 2, n - 1)
  }

  lemma {:induction false} ShiftedBy(x: nat, y: nat, n: nat)
    ensures ShiftRight(XorBits(x, y), n) == XorBits(ShiftRight(x, n), ShiftRight(y, n))
    decreases n
  {
    hide XorBits;
    if n > 0 {
      XorHalves(x, y);
      ShiftedBy(x / 2, y / 2, n - 1);
    }
  }

  lemma Quotients(x: nat)
    ensures ShiftRight(x, 8) == x / 256
  {
    Nested(x);
    Quarters(x, 6);
    Quarters(x / 4, 4);
    Quarters(x / 16, 2);
    Quarters(x / 64, 0);
  }

  lemma Quarters(x: nat, n: nat)
    ensures ShiftRight(x, n + 2) == ShiftRight(x / 4, n)
  {
    assert x / 2 / 2 == x / 4;
    assert ShiftRight(x, n + 2) == ShiftRight(x / 2, n + 1);
  }

  lemma Nested(x: nat)
    ensures x / 4 / 4 == x / 16 && x / 16 / 4 == x / 64 && x / 64 / 4 == x / 256
  {
  }

  // ---------------------------------------------------------------- the product

  function Times(x: Code): Code {
    x * PRIME % WORDS
  }

  function Hash(h: Code, d: Code): Code {
    Times(Xor(h, d))
  }

  lemma Multiple(d: int, k: int)
    requires d == WORDS * k && -WORDS < d < WORDS
    ensures d == 0
  {
  }

  lemma Quotient(x: Code)
    ensures x * PRIME == WORDS * (x * PRIME / WORDS) + Times(x)
  {
  }

  /** What the prime takes to a multiple of 2^64 is one. */
  lemma Divides(d: int, k: int)
    requires d * PRIME == WORDS * k
    ensures d == WORDS * (k * INVERSE - d * UNIT)
  {
    assert d * PRIME * INVERSE == WORDS * k * INVERSE;
    assert d * PRIME * INVERSE == d * (1 + UNIT * WORDS);
  }

  /** The prime has an inverse, so multiplying by it loses nothing. */
  lemma TimesCancels(x: Code, y: Code)
    ensures Times(x) == Times(y) <==> x == y
  {
    if Times(x) == Times(y) {
      var q, r := x * PRIME / WORDS, y * PRIME / WORDS;
      Quotient(x);
      Quotient(y);
      Divides(x - y, q - r);
      Multiple(x - y, (q - r) * INVERSE - (x - y) * UNIT);
    }
  }

  /** A step keeps different codes different, and different data. */
  lemma HashCancels(h: Code, k: Code, d: Code, e: Code)
    ensures Hash(h, d) == Hash(k, d) <==> h == k
    ensures Hash(h, d) == Hash(h, e) <==> d == e
  {
    hide Times, Xor;
    TimesCancels(Xor(h, d), Xor(k, d));
    TimesCancels(Xor(h, d), Xor(h, e));
    XorCancels(h, k, d);
    XorCancels(d, e, h);
  }

  /** Different words that agree above the low byte are far apart once they are multiplied. */
  lemma TimesApart(x: Code, y: Code)
    requires x != y && x / 256 == y / 256
    ensures Times(x) / 256 != Times(y) / 256
  {
    var q, r := x * PRIME / WORDS, y * PRIME / WORDS;
    Quotient(x);
    Quotient(y);
    if Times(x) / 256 == Times(y) / 256 {
      var d := (x - y) * PRIME - (Times(x) - Times(y));
      assert d == WORDS * (q - r);
      Multiple(d, q - r);
    }
  }

  /** Two data that agree above the low byte leave different codes in the two orders. */
  lemma OrderMatters(h: Code, a: Code, b: Code)
    requires a != b && a / 256 == b / 256
    ensures Hash(Hash(h, a), b) != Hash(Hash(h, b), a)
  {
    hide *;
    var x, y := Xor(h, a), Xor(h, b);
    HighBytes(h, a);
    HighBytes(h, b);
    XorCancels(a, b, h);
    TimesApart(x, y);
    HighBytes(Times(x), b);
    HighBytes(Times(y), a);
    XorCancelsHigh(Times(x) / 256, Times(y) / 256, a / 256);
    HashIs(h, a);
    HashIs(h, b);
    HashIs(Hash(h, a), b);
    HashIs(Hash(h, b), a);
    TimesCancels(Xor(Times(x), b), Xor(Times(y), a));
  }

  lemma HashIs(h: Code, d: Code)
    ensures Hash(h, d) == Times(Xor(h, d))
  {
  }

  lemma HighBytes(x: Code, y: Code)
    ensures Xor(x, y) / 256 == XorBits(x / 256, y / 256)
  {
    hide XorBits;
    Shifted(x, y);
  }

  lemma XorCancelsHigh(x: nat, y: nat, z: nat)
    ensures XorBits(x, z) == XorBits(y, z) ==> x == y
  {
    hide XorBits;
    if XorBits(x, z) == XorBits(y, z) {
      Associates(x, z, z);
      Associates(y, z, z);
      ZeroIffEqual(z, z);
      WithZero(x);
      WithZero(y);
    }
  }

  // ---------------------------------------------------------------- the lowest two bits

  lemma TwoBits(x: nat)
    ensures x % 4 == 2 * (x / 2 % 2) + x % 2
  {
  }

  lemma XorLow(x: nat, y: nat)
    ensures XorBits(x, y) % 4 == 2 * ((x / 2 % 2 + y / 2 % 2) % 2) + (x % 2 + y % 2) % 2
  {
    hide XorBits;
    XorHalves(x, y);
    XorHalves(x / 2, y / 2);
    TwoBits(XorBits(x, y));
  }

  lemma BitsOf(x: nat)
    ensures x % 4 == 0 ==> x / 2 % 2 == 0 && x % 2 == 0
    ensures x % 4 == 1 ==> x / 2 % 2 == 0 && x % 2 == 1
    ensures x % 4 == 3 ==> x / 2 % 2 == 1 && x % 2 == 1
  {
    TwoBits(x);
  }

  lemma TimesLow(x: Code)
    ensures Times(x) % 4 == x % 4 * 3 % 4
  {
    Quotient(x);
    Quarter(Times(x), x, x * PRIME / WORDS);
  }

  lemma Quarter(t: int, x: int, q: int)
    requires x * 1_099_511_628_211 == 0x1_0000_0000_0000_0000 * q + t
    ensures t % 4 == x % 4 * 3 % 4
  {
    var k := 274_877_907_052 * x + 3 * (x / 4) - 0x4000_0000_0000_0000 * q;
    assert x == 4 * (x / 4) + x % 4;
    assert t == 3 * (x % 4) + 4 * k;
  }

  /** What a step does to the lowest two bits, for some of the cases. */
  lemma HashLow(h: Code, d: Code)
    ensures h % 4 == 0 && d % 4 == 0 ==> Hash(h, d) % 4 == 0
    ensures h % 4 == 0 && d % 4 == 1 ==> Hash(h, d) % 4 == 3
    ensures h % 4 == 0 && d % 4 == 3 ==> Hash(h, d) % 4 == 1
    ensures h % 4 == 1 && d % 4 == 0 ==> Hash(h, d) % 4 == 3
  {
    hide XorBits, Times;
    BitsOf(h);
    BitsOf(d);
    XorLow(h, d);
    TimesLow(Xor(h, d));
  }
}
