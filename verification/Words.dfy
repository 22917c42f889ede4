/** Unsigned words as numbers: exclusive or, and what it keeps. */
module Words {
  import opened Basics

  type word = x: int | 0 <= x < 0x1_0000_0000

  const WORD_BITS: nat := 32
  const HALF_BITS: nat := 16

  function Pow2(n: nat): (r: nat)
    ensures r >= 1
  {
    if n == 0 then 1 else 2 * Pow2(n - 1)
  }

  lemma PowersUsed()
    ensures Pow2(HALF_BITS) == 0x1_0000 && Pow2(WORD_BITS) == 0x1_0000_0000
  {
    assert Pow2(8) == 0x100;
    assert Pow2(16) == 0x100 * Pow2(8);
    assert Pow2(24) == 0x100 * Pow2(16);
    assert Pow2(32) == 0x100 * Pow2(24);
  }

  function LowXor(a: nat, b: nat): nat { if a % 2 == b % 2 then 0 else 1 }

  /** Exclusive or of the `n` low bits. */
  function XorBits(a: nat, b: nat, n: nat): nat
    decreases n, a
  {
    if n == 0 then 0 else LowXor(a, b) + 2 * XorBits(a / 2, b / 2, n - 1)
  }

  lemma {:induction false} XorBitsRange(a: nat, b: nat, n: nat)
    ensures XorBits(a, b, n) < Pow2(n)
  {
    if n > 0 {
      XorBitsRange(a / 2, b / 2, n - 1);
    }
  }

  function Xor(a: word, b: word): word {
    PowersUsed();
    XorBitsRange(a, b, WORD_BITS);
    XorBits(a, b, WORD_BITS)
  }

  lemma LowBit(low: nat, high: nat)
    requires low < 2
    ensures (low + 2 * high) / 2 == high && (low + 2 * high) % 2 == low
  {
  }

  lemma {:induction false} XorBitsTwice(a: nat, x: nat, n: nat)
    requires a < Pow2(n)
    ensures XorBits(XorBits(a, x, n), x, n) == a
  {
    if n > 0 {
      var low := LowXor(a, x);
      var high := XorBits(a / 2, x / 2, n - 1);
      LowBit(low, high);
      XorBitsTwice(a / 2, x / 2, n - 1);
    }
  }

  /** Exclusive or takes itself back. */
  lemma XorTwice(a: word, x: word)
    ensures Xor(Xor(a, x), x) == a
  {
    PowersUsed();
    XorBitsTwice(a, x, WORD_BITS);
  }

  lemma {:induction false} XorBitsCommutes(a: nat, b: nat, n: nat)
    ensures XorBits(a, b, n) == XorBits(b, a, n)
  {
    if n > 0 {
      XorBitsCommutes(a / 2, b / 2, n - 1);
    }
  }

  lemma {:induction false} XorWithZero(b: nat, n: nat)
    requires b < Pow2(n)
    ensures XorBits(0, b, n) == b
  {
    if n > 0 {
      XorWithZero(b / 2, n - 1);
    }
  }

  function Plus(a: word, b: word): word { (a + b) % 0x1_0000_0000 }

  function Minus(a: word, b: word): word { (a - b) % 0x1_0000_0000 }

  lemma PlusMinus(a: word, b: word)
    ensures Minus(Plus(a, b), b) == a && Plus(Minus(a, b), b) == a
  {
  }

  // ---- single bits ----

  lemma DivIs(x: nat, d: nat, q: nat, r: nat)
    requires r < d && x == q * d + r
    ensures x / d == q && x % d == r
  {
    var k := x / d - q;
    assert x == (x / d) * d + x % d;
    assert k * d == r - x % d;
    Multiples(k, d);
  }

  lemma DoubleMod(low: nat, high: nat, p: nat)
    requires low < 2 && p >= 1
    ensures (low + 2 * high) % (2 * p) == low + 2 * (high % p)
  {
    var q := high / p;
    assert high == q * p + high % p;
    assert low + 2 * high == q * (2 * p) + (low + 2 * (high % p));
    DivIs(low + 2 * high, 2 * p, q, low + 2 * (high % p));
  }

  lemma HalfOfMod(a: nat, p: nat)
    requires p >= 1
    ensures a % (2 * p) % 2 == a % 2 && a % (2 * p) / 2 == a / 2 % p
  {
    DoubleMod(a % 2, a / 2, p);
    LowBit(a % 2, a / 2 % p);
  }

  /** Bit `i`, the least significant one being bit 0. */
  predicate Bit(x: nat, i: nat) { x / Pow2(i) % 2 == 1 }

  lemma DivTwice(x: nat, p: nat)
    requires p >= 1
    ensures x / (2 * p) == x / 2 / p
  {
    var q, r := x / 2 / p, x / 2 % p;
    assert x / 2 == q * p + r;
    DivIs(x, 2 * p, q, 2 * r + x % 2);
  }

  lemma BitUp(x: nat, i: nat)
    requires i > 0
    ensures Bit(x, i) <==> Bit(x / 2, i - 1)
  {
    DivTwice(x, Pow2(i - 1));
  }

  lemma {:induction false} BitOfHigh(x: nat, m: nat, q: nat, i: nat)
    requires q == x / Pow2(m)
    ensures Bit(q, i) <==> Bit(x, i + m)
    decreases m
  {
    if m > 0 {
      DivTwice(x, Pow2(m - 1));
      BitOfHigh(x / 2, m - 1, q, i);
      BitUp(x, i + m);
    }
  }

  lemma {:induction false} BitOfLow(x: nat, m: nat, i: nat)
    requires i < m
    ensures Bit(x % Pow2(m), i) <==> Bit(x, i)
    decreases m
  {
    HalfOfMod(x, Pow2(m - 1));
    if i > 0 {
      BitUp(x, i);
      BitUp(x % Pow2(m), i);
      BitOfLow(x / 2, m - 1, i - 1);
    }
  }

  /** The bits of a number put together from a high and a low part. */
  lemma BitOfJoined(high: nat, low: nat, k: nat, i: nat)
    requires low < Pow2(k)
    ensures Bit(high * Pow2(k) + low, i) <==> if i < k then Bit(low, i) else Bit(high, i - k)
  {
    var x := high * Pow2(k) + low;
    DivIs(x, Pow2(k), high, low);
    if i < k {
      BitOfLow(x, k, i);
    } else {
      BitOfHigh(x, k, high, i - k);
    }
  }

  /** Bit by bit, exclusive or says where the two differ. */
  lemma {:induction false} BitOfXor(a: nat, b: nat, n: nat, i: nat)
    requires i < n
    ensures Bit(XorBits(a, b, n), i) <==> Bit(a, i) != Bit(b, i)
    decreases n
  {
    var high := XorBits(a / 2, b / 2, n - 1);
    LowBit(LowXor(a, b), high);
    if i > 0 {
      BitUp(a, i);
      BitUp(b, i);
      BitUp(XorBits(a, b, n), i);
      BitOfXor(a / 2, b / 2, n - 1, i - 1);
    }
  }

  ghost predicate SameBits(x: nat, y: nat, n: nat) {
    forall i :: 0 <= i < n ==> (Bit(x, i) <==> Bit(y, i))
  }

  /** The bits determine the number. */
  lemma {:induction false} BitsDetermine(x: nat, y: nat, n: nat)
    requires x < Pow2(n) && y < Pow2(n) && SameBits(x, y, n)
    ensures x == y
  {
    if n > 0 {
      assert Bit(x, 0) <==> Bit(y, 0);
      forall i | 0 <= i < n - 1
        ensures Bit(x / 2, i) <==> Bit(y / 2, i)
      {
        BitUp(x, i + 1);
        BitUp(y, i + 1);
        assert Bit(x, i + 1) <==> Bit(y, i + 1);
      }
      BitsDetermine(x / 2, y / 2, n - 1);
    }
  }

  lemma {:induction false} TopBelow(x: nat, n: nat, m: nat, q: nat)
    requires m <= n && x < Pow2(n) && q == x / Pow2(m)
    ensures q < Pow2(n - m)
    decreases m
  {
    if m > 0 {
      DivTwice(x, Pow2(m - 1));
      TopBelow(x / 2, n - 1, m - 1, q);
    }
  }

  /** Moving the low `m` bits up by `k` and the `k` high ones down rotates to the left. */
  lemma BitOfRotated(x: nat, m: nat, k: nat, low: nat, high: nat, y: nat, i: nat, j: nat)
    requires x < Pow2(m + k) && low == x % Pow2(m) && high == x / Pow2(m) && y == low * Pow2(k) + high
    requires i < m + k && j == if i < m then i + k else i - m
    ensures Bit(y, j) <==> Bit(x, i)
  {
    TopBelow(x, m + k, m, high);
    BitOfJoined(low, high, k, j);
    if i < m {
      BitOfLow(x, m, i);
    } else {
      BitOfHigh(x, m, high, j);
    }
  }

  lemma {:induction false} XorBitsOfLow(a: nat, b: nat, n: nat)
    ensures XorBits(a % Pow2(n), b % Pow2(n), n) == XorBits(a, b, n)
    decreases n
  {
    if n > 0 {
      HalfOfMod(a, Pow2(n - 1));
      HalfOfMod(b, Pow2(n - 1));
      XorBitsOfLow(a / 2, b / 2, n - 1);
    }
  }

  // ---- exclusive or worked out digit by digit ----

  /** The exclusive or of the last hexadecimal digits. */
  function XorDigit(a: nat, b: nat): nat {
    LowXor(a, b) + 2 * LowXor(a / 2, b / 2) + 4 * LowXor(a / 4, b / 4) + 8 * LowXor(a / 8, b / 8)
  }

  lemma XorStep(a: nat, b: nat, n: nat)
    requires n >= 4
    ensures XorBits(a, b, n) == XorDigit(a, b) + 16 * XorBits(a / 16, b / 16, n - 4)
  {
    assert a / 2 / 2 == a / 4 && a / 4 / 2 == a / 8 && a / 8 / 2 == a / 16;
    assert b / 2 / 2 == b / 4 && b / 4 / 2 == b / 8 && b / 8 / 2 == b / 16;
    assert XorBits(a, b, n) == LowXor(a, b) + 2 * XorBits(a / 2, b / 2, n - 1);
    assert XorBits(a / 2, b / 2, n - 1) == LowXor(a / 2, b / 2) + 2 * XorBits(a / 4, b / 4, n - 2);
    assert XorBits(a / 4, b / 4, n - 2) == LowXor(a / 4, b / 4) + 2 * XorBits(a / 8, b / 8, n - 3);
    assert XorBits(a / 8, b / 8, n - 3) == LowXor(a / 8, b / 8) + 2 * XorBits(a / 16, b / 16, n - 4);
  }

  lemma XorTwoSteps(a: nat, b: nat, n: nat)
    requires n >= 8
    ensures XorBits(a, b, n)
            == XorDigit(a, b) + 16 * XorDigit(a / 16, b / 16) + 0x100 * XorBits(a / 0x100, b / 0x100, n - 8)
  {
    XorStep(a, b, n);
    XorStep(a / 16, b / 16, n - 4);
    assert a / 16 / 16 == a / 0x100 && b / 16 / 16 == b / 0x100;
  }

  lemma XorFourSteps(a: nat, b: nat, n: nat)
    requires n >= 16
    ensures XorBits(a, b, n)
            == XorDigit(a, b) + 0x10 * XorDigit(a / 0x10, b / 0x10)
               + 0x100 * XorDigit(a / 0x100, b / 0x100) + 0x1000 * XorDigit(a / 0x1000, b / 0x1000)
               + 0x1_0000 * XorBits(a / 0x1_0000, b / 0x1_0000, n - 16)
  {
    XorTwoSteps(a, b, n);
    XorTwoSteps(a / 0x100, b / 0x100, n - 8);
    assert a / 0x100 / 0x10 == a / 0x1000 && b / 0x100 / 0x10 == b / 0x1000;
    assert a / 0x100 / 0x100 == a / 0x1_0000 && b / 0x100 / 0x100 == b / 0x1_0000;
  }

  /** The exclusive or of two half words, given its digits. */
  lemma XorOfHalves(a: nat, b: nat, d3: nat, d2: nat, d1: nat, d0: nat)
    requires XorDigit(a, b) == d0 && XorDigit(a / 0x10, b / 0x10) == d1
    requires XorDigit(a / 0x100, b / 0x100) == d2 && XorDigit(a / 0x1000, b / 0x1000) == d3
    ensures XorBits(a, b, HALF_BITS) == d0 + 0x10 * d1 + 0x100 * d2 + 0x1000 * d3
  {
    XorFourSteps(a, b, HALF_BITS);
  }

  lemma XorFromHalves(a: word, b: word, high: nat, low: nat)
    requires XorBits(a % 0x1_0000, b % 0x1_0000, HALF_BITS) == low
    requires XorBits(a / 0x1_0000, b / 0x1_0000, HALF_BITS) == high
    ensures Xor(a, b) == 0x1_0000 * high + low
  {
    PowersUsed();
    XorBitsOfLow(a, b, HALF_BITS);
    XorFourSteps(a, b, WORD_BITS);
    XorFourSteps(a, b, HALF_BITS);
  }
}
