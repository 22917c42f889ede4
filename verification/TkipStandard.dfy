/**
 * TKIP key mixing as section 8.3.2.5 of IEEE 802.11i-2004 defines it: sequences
 * of 16-bit words, indexed, one assignment per step.  The S-box is an arbitrary
 * function on 16-bit words.
 */
module TkipStandard {
  import opened Basics
  import opened Words

  function Low(x: int): nat { x % 0x1_0000 }

  function Xor16(a: int, b: int): nat { XorBits(Low(a), Low(b), HALF_BITS) }

  function RotR1(x: int): nat { Low(x) / 2 + 0x8000 * (Low(x) % 2) }

  /** An arbitrary S-box; its values count modulo 65536. */
  type Sbox = int -> int

  function Pair(low: byte, high: byte): nat { (low as int) + 0x100 * (high as int) }

  /** Word `n` of the temporal key, or of the transmitter address. */
  function Mk16(b: seq<byte>, n: nat): nat
    requires 2 * n + 1 < |b|
  {
    Pair(b[2 * n], b[2 * n + 1])
  }

  // ---- the two phases ----

  /** An operation of the ring: a word, the word before it and a key word make the new word. */
  type Op = (int, int, int) -> int

  /**
   * Both phases go around a ring of words.  Each step takes a key word and replaces one
   * word, from its value and the word before it.  The word whose turn it is stands first,
   * so the one before it stands last; once around, all are back in place.
   */
  function Ring(f: Op, w: seq<int>, ks: seq<int>): (r: seq<int>)
    requires |w| > 0
    ensures |r| == |w|
    decreases |ks|, |w|
  {
    if ks == [] then w
    else
      var q := Ring(f, w, ks[..|ks| - 1]);
      q[1..] + [f(q[0], q[|w| - 1], ks[|ks| - 1])]
  }

  /** Adds the S-box of the word before, mixed with a key word. */
  function Substitute(s: Sbox): Op { (w, before, k) => Low(w + s(Xor16(before, k))) }

  /** Adds the word before, mixed with a key word and rotated. */
  const ROTATE: Op := (w, before, k) => Low(w + RotR1(Xor16(before, k)))

  /** The key words of round `i` of phase 1: the even ones or the odd ones. */
  function RoundKeys(key: seq<byte>, i: nat): seq<int>
    requires |key| == 16
  {
    var j := i % 2;
    [Mk16(key, j), Mk16(key, 2 + j), Mk16(key, 4 + j), Mk16(key, 6 + j), Mk16(key, j)]
  }

  /** A round of phase 1 with operation `f`. */
  function TtakRound(f: Op, key: seq<byte>, w: seq<int>, i: nat): (r: seq<int>)
    requires |key| == 16 && |w| == 5
    ensures |r| == 5
  {
    var q := Ring(f, w, RoundKeys(key, i));
    q[4 := Low(q[4] + i)]
  }

  /** The intermediate key after `rounds` rounds. */
  function Ttak(f: Op, key: seq<byte>, ta: seq<byte>, pnh: int, rounds: nat): (r: seq<int>)
    requires |key| == 16 && |ta| == 6
    ensures |r| == 5
    decreases rounds, pnh
  {
    if rounds == 0 then [Low(pnh), Low(pnh / 0x1_0000), Mk16(ta, 0), Mk16(ta, 1), Mk16(ta, 2)]
    else TtakRound(f, key, Ttak(f, key, ta, pnh, rounds - 1), rounds - 1)
  }

  function FirstKeys(key: seq<byte>): seq<int>
    requires |key| == 16
  {
    [Mk16(key, 0), Mk16(key, 1), Mk16(key, 2), Mk16(key, 3), Mk16(key, 4), Mk16(key, 5)]
  }

  function LastKeys(key: seq<byte>): seq<int>
    requires |key| == 16
  {
    [Mk16(key, 6), Mk16(key, 7), 0, 0, 0, 0]
  }

  /** The words PPK: operation `f` on all six words, then `g`, the last four times without a key word. */
  function PpkOf(f: Op, g: Op, key: seq<byte>, ttak: seq<int>, pnl: int): (r: seq<int>)
    requires |key| == 16 && |ttak| == 5
    ensures |r| == 6
  {
    var p := ttak + [Low(ttak[4] + pnl)];
    Ring(g, Ring(f, p, FirstKeys(key)), LastKeys(key))
  }

  const ROUNDS: nat := 8

  /** Bit 5 set and bit 7 clear. */
  function Marked(b: byte): byte { 0x20 + b % 0x20 + 0x40 * (b / 0x40 % 2) }

  /** Byte `k` of the RC4 key. */
  function SeedByte(p: seq<int>, check: int, pnl: int, k: nat): byte
    requires |p| == 6 && k < 16
  {
    var high := Low(pnl) / 0x100;
    if k == 0 then high
    else if k == 1 then Marked(high)
    else if k == 2 then pnl % 0x100
    else if k == 3 then check / 2 % 0x100
    else if k % 2 == 0 then p[k / 2 - 2] % 0x100
    else p[k / 2 - 2] / 0x100 % 0x100
  }

  function SeedBytes(p: seq<int>, check: int, pnl: int): (r: seq<byte>)
    requires |p| == 6
    ensures |r| == 16
  {
    seq(16, k requires 0 <= k < 16 => SeedByte(p, check, pnl, k))
  }

  /** The RC4 key. */
  function Seed(s: Sbox, key: seq<byte>, ta: seq<byte>, pnl: int, pnh: int): (r: seq<byte>)
    requires |key| == 16 && |ta| == 6
    ensures |r| == 16
  {
    var p := PpkOf(Substitute(s), ROTATE, key, Ttak(Substitute(s), key, ta, pnh, ROUNDS), pnl);
    SeedBytes(p, Xor16(p[5], Mk16(key, 0)), pnl)
  }

  // ---- the operations, bit by bit ----

  lemma Xor16Bits(a: int, b: int, i: nat)
    requires i < HALF_BITS
    ensures Bit(Xor16(a, b), i) <==> Bit(Low(a), i) != Bit(Low(b), i)
  {
    BitOfXor(Low(a), Low(b), HALF_BITS, i);
  }

  /** RotR1 moves every bit down by one place, around the half word. */
  lemma RotR1Bits(x: int, i: nat)
    requires i < HALF_BITS
    ensures Bit(RotR1(x), if i == 0 then 15 else i - 1) <==> Bit(Low(x), i)
  {
    PowersUsed();
    assert Pow2(15) == 0x8000;
    var w := Low(x);
    BitOfRotated(w, 1, 15, w % 2, w / 2, RotR1(x), i, if i == 0 then 15 else i - 1);
  }

  // ---- what the bytes say ----

  ghost predicate AllLow(w: seq<int>) { forall j :: 0 <= j < |w| ==> 0 <= w[j] < 0x1_0000 }

  ghost predicate LowValued(f: Op) { forall a, b, k :: 0 <= f(a, b, k) < 0x1_0000 }

  lemma SubstituteLow(s: Sbox)
    ensures LowValued(Substitute(s))
  {
    forall a, b, k ensures 0 <= Substitute(s)(a, b, k) < 0x1_0000 {
      assert Substitute(s)(a, b, k) == Low(a + s(Xor16(b, k)));
    }
  }

  lemma RotateLow()
    ensures LowValued(ROTATE)
  {
  }

  lemma {:induction false} RingLow(f: Op, w: seq<int>, ks: seq<int>)
    requires |w| > 0 && AllLow(w) && LowValued(f)
    ensures AllLow(Ring(f, w, ks))
    decreases |ks|
  {
    if ks != [] {
      RingLow(f, w, ks[..|ks| - 1]);
      var q := Ring(f, w, ks[..|ks| - 1]);
      var a, b, k := q[0], q[|w| - 1], ks[|ks| - 1];
      assert 0 <= f(a, b, k) < 0x1_0000;
    }
  }

  lemma MarkedBits(b: byte, i: nat)
    requires i < 8
    ensures Bit(Marked(b), i) <==> i == 5 || (i < 7 && Bit(b, i))
  {
    assert Pow2(5) == 0x20 && Pow2(6) == 0x40;
    var top := 1 + 2 * (b / 0x40 % 2);
    BitOfJoined(top, b % 0x20, 5, i);
    if i < 5 {
      BitOfLow(b, 5, i);
    } else {
      assert Pow2(0) == 1 && Pow2(1) == 2 && Pow2(2) == 4;
      assert i == 5 || i == 6 || i == 7;
    }
  }

  /**
   * The bytes of an RC4 key: the low counter, with a marked copy of its upper byte between
   * its halves, a byte of check, and the words PPK.
   */
  ghost predicate SeedOf(k: seq<byte>, key: seq<byte>, p: seq<int>, pnl: int)
    requires |key| == 16 && |p| == 6
  {
    && |k| == 16 && Pair(k[2], k[0]) == pnl % 0x1_0000
    && (forall i: nat :: i < 8 ==> (Bit(k[1], i) <==> i == 5 || (i < 7 && Bit(k[0], i))))
    && k[3] == Xor16(p[5], Mk16(key, 0)) / 2 % 0x100
    && (forall i: nat :: i < 6 ==> Pair(k[2 * i + 4], k[2 * i + 5]) == p[i])
  }

  lemma LastByte(q: int, r: int)
    requires 0 <= r < 0x100
    ensures (0x100 * q + r) % 0x100 == r
  {
  }

  lemma CounterBytes(x: int)
    ensures 0x100 * (Low(x) / 0x100) + x % 0x100 == Low(x)
  {
    var high, last := Low(x) / 0x100, Low(x) % 0x100;
    assert x == 0x100 * (0x100 * (x / 0x1_0000) + high) + last;
    LastByte(0x100 * (x / 0x1_0000) + high, last);
  }

  lemma PpkBytes(p: seq<int>, check: int, pnl: int, i: nat)
    requires |p| == 6 && AllLow(p) && i < 6
    ensures Pair(SeedByte(p, check, pnl, 2 * i + 4), SeedByte(p, check, pnl, 2 * i + 5)) == p[i]
  {
    var x := p[i];
    assert (2 * i + 4) / 2 - 2 == i && (2 * i + 5) / 2 - 2 == i;
    assert x % 0x100 + 0x100 * (x / 0x100 % 0x100) == x;
  }

  lemma {:induction false} TtakLow(f: Op, key: seq<byte>, ta: seq<byte>, pnh: int, rounds: nat)
    requires |key| == 16 && |ta| == 6 && LowValued(f)
    ensures AllLow(Ttak(f, key, ta, pnh, rounds))
    decreases rounds
  {
    if rounds > 0 {
      TtakLow(f, key, ta, pnh, rounds - 1);
      RingLow(f, Ttak(f, key, ta, pnh, rounds - 1), RoundKeys(key, rounds - 1));
    }
  }

  lemma PpkLow(f: Op, g: Op, key: seq<byte>, ttak: seq<int>, pnl: int)
    requires |key| == 16 && |ttak| == 5 && AllLow(ttak) && LowValued(f) && LowValued(g)
    ensures AllLow(PpkOf(f, g, key, ttak, pnl))
  {
    var p := ttak + [Low(ttak[4] + pnl)];
    RingLow(f, p, FirstKeys(key));
    RingLow(g, Ring(f, p, FirstKeys(key)), LastKeys(key));
  }

  lemma SeedMeaning(s: Sbox, key: seq<byte>, ta: seq<byte>, pnl: int, pnh: int)
    requires |key| == 16 && |ta| == 6
    ensures var ttak := Ttak(Substitute(s), key, ta, pnh, ROUNDS);
            SeedOf(Seed(s, key, ta, pnl, pnh), key, PpkOf(Substitute(s), ROTATE, key, ttak, pnl), pnl)
  {
    var f := Substitute(s);
    var ttak := Ttak(f, key, ta, pnh, ROUNDS);
    var p := PpkOf(f, ROTATE, key, ttak, pnl);
    var k := Seed(s, key, ta, pnl, pnh);
    SubstituteLow(s);
    RotateLow();
    TtakLow(f, key, ta, pnh, ROUNDS);
    PpkLow(f, ROTATE, key, ttak, pnl);
    CounterBytes(pnl);
    forall i: nat | i < 8
      ensures Bit(k[1], i) <==> i == 5 || (i < 7 && Bit(k[0], i))
    {
      MarkedBits(k[0], i);
    }
    forall i: nat | i < 6
      ensures Pair(k[2 * i + 4], k[2 * i + 5]) == p[i]
    {
      PpkBytes(p, Xor16(p[5], Mk16(key, 0)), pnl, i);
    }
  }
}
