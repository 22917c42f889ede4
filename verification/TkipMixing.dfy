/**
 * TKIP key mixing (rt3070/common/cmm_tkip.c) against section 8.3.2.5 of IEEE
 * 802.11i-2004.  The standard adds modulo 65536; the driver lets the words of
 * phase 2 grow.  The S-box is an arbitrary function on 16-bit words.
 */
module TkipMixing {
  import opened Basics
  import opened Words
  import opened TkipStandard

  // Words are numbers here; every operation reduces its arguments to its own width.

  function Word(x: int): nat { x % 0x1_0000_0000 }

  function Xor32(a: int, b: int): nat { XorBits(Word(a), Word(b), WORD_BITS) }

  function Plus16(a: int, b: int): nat { Low(a + b) }

  function Plus32(a: int, b: int): nat { Word(a + b) }

  /** `(256 * key[i + 1]) + key[i]` */
  function KeyWord(key: seq<byte>, i: nat): nat
    requires i + 1 < |key|
  {
    256 * (key[i + 1] as int) + key[i] as int
  }

  // ---- exclusive or and the low half ----

  lemma DoubleLow(low: nat, high: nat, rest: nat, p: nat)
    requires low < 2 && p >= 1 && high % p == rest
    ensures (low + 2 * high) % (2 * p) == low + 2 * rest
  {
    DoubleMod(low, high, p);
  }

  lemma {:induction false} XorBitsLow(a: nat, b: nat, m: nat, n: nat)
    requires m <= n
    ensures XorBits(a, b, n) % Pow2(m) == XorBits(a, b, m)
    decreases n
  {
    if m > 0 {
      XorBitsLow(a / 2, b / 2, m - 1, n - 1);
      DoubleLow(LowXor(a, b), XorBits(a / 2, b / 2, n - 1), XorBits(a / 2, b / 2, m - 1), Pow2(m - 1));
    }
  }

  lemma LowIs(x: int, q: int, r: int)
    requires x == 0x1_0000 * q + r && 0 <= r < 0x1_0000
    ensures Low(x) == r
  {
  }

  lemma LowOfWord(x: int)
    ensures Low(Word(x)) == Low(x)
  {
    var q, w := x / 0x1_0000_0000, Word(x);
    LowIs(x, 0x1_0000 * q + w / 0x1_0000, Low(w));
  }

  lemma LowOfSum(a: int, b: int)
    ensures Low(a + b) == Low(Low(a) + Low(b))
  {
    var t := Low(a) + Low(b);
    LowIs(a + b, a / 0x1_0000 + b / 0x1_0000 + t / 0x1_0000, Low(t));
  }

  lemma LowOfLow(x: int)
    ensures Low(Low(x)) == Low(x)
  {
    LowIs(Low(x), 0, Low(x));
  }

  /** Adding in 32 bits adds the low halves in 16. */
  lemma PlusLow(a: int, y: int)
    ensures Low(Plus32(a, y)) == Plus16(Low(a), y)
  {
    LowOfWord(a + y);
    LowOfSum(a, y);
    LowOfSum(Low(a), y);
    LowOfLow(a);
  }

  /** The low half of an exclusive or is the exclusive or of the low halves. */
  lemma XorLow(a: int, b: int)
    ensures Low(Xor32(a, b)) == Xor16(Low(a), b)
  {
    assert Low(Xor32(a, b)) == XorBits(Word(a), Word(b), HALF_BITS) by {
      PowersUsed();
      XorBitsLow(Word(a), Word(b), HALF_BITS, WORD_BITS);
    }
    assert XorBits(Word(a), Word(b), HALF_BITS) == XorBits(Low(Word(a)), Low(Word(b)), HALF_BITS) by {
      PowersUsed();
      XorBitsOfLow(Word(a), Word(b), HALF_BITS);
    }
    LowOfWord(a);
    LowOfWord(b);
    LowOfLow(a);
  }

  // ---- phase 1 ----

  function Mix16(s: Sbox, a: int, b: int, k: int): nat { Plus16(a, s(Xor16(b, k))) }

  function MixOf(s: Sbox): Op { (a, b, k) => Mix16(s, a, b, k) }

  /** The five words of the intermediate key. */
  datatype P1k = P1k(w0: int, w1: int, w2: int, w3: int, w4: int)

  function Phase1Start(ta: seq<byte>, pnh: int): P1k
    requires |ta| == 6
  {
    P1k(Low(pnh), Low(pnh / 0x1_0000), KeyWord(ta, 0), KeyWord(ta, 2), KeyWord(ta, 4))
  }

  /** One round; `mix` adds an S-box value. */
  function Phase1Round(mix: Op, key: seq<byte>, p: P1k, i: nat): P1k
    requires |key| == 16
  {
    var j := 2 * (i % 2);
    var w0 := mix(p.w0, p.w4, KeyWord(key, j));
    var w1 := mix(p.w1, w0, KeyWord(key, 4 + j));
    var w2 := mix(p.w2, w1, KeyWord(key, 8 + j));
    var w3 := mix(p.w3, w2, KeyWord(key, 12 + j));
    var w4 := mix(p.w4, w3, KeyWord(key, j));
    P1k(w0, w1, w2, w3, Plus16(w4, i))
  }

  function Phase1(mix: Op, key: seq<byte>, ta: seq<byte>, pnh: int, rounds: nat): P1k
    requires |key| == 16 && |ta| == 6
  {
    if rounds == 0 then Phase1Start(ta, pnh)
    else Phase1Round(mix, key, Phase1(mix, key, ta, pnh, rounds - 1), rounds - 1)
  }

  // ---- phase 2 ----

  datatype Ppk = Ppk(p0: int, p1: int, p2: int, p3: int, p4: int, p5: int)

  /**
   * Steps 1 and 2 of phase 2: `mix` adds an S-box value, `turn` adds a rotated word, and
   * `xor` mixes in a key word.
   */
  function Phase2(mix: Op, turn: (int, int) -> int, xor: (int, int) -> int,
                  key: seq<byte>, p: P1k, w5: int): Ppk
    requires |key| == 16
  {
    var a0 := mix(p.w0, w5, KeyWord(key, 0));
    var a1 := mix(p.w1, a0, KeyWord(key, 2));
    var a2 := mix(p.w2, a1, KeyWord(key, 4));
    var a3 := mix(p.w3, a2, KeyWord(key, 6));
    var a4 := mix(p.w4, a3, KeyWord(key, 8));
    var a5 := mix(w5, a4, KeyWord(key, 10));
    var b0 := turn(a0, xor(a5, KeyWord(key, 12)));
    var b1 := turn(a1, xor(b0, KeyWord(key, 14)));
    var b2 := turn(a2, b1);
    var b3 := turn(a3, b2);
    var b4 := turn(a4, b3);
    Ppk(b0, b1, b2, b3, b4, turn(a5, b4))
  }

  // The same steps with every sum modulo 65536.

  function Turn16(a: int, b: int): nat { Plus16(a, RotR1(b)) }

  const TURN: (int, int) -> int := (a, b) => Turn16(a, b)
  const XOR: (int, int) -> int := (a, k) => Xor16(a, k)

  function NarrowPhase2(s: Sbox, key: seq<byte>, p: P1k, tsc: int): Ppk
    requires |key| == 16
  {
    Phase2(MixOf(s), TURN, XOR, key, p, Plus16(p.w4, tsc))
  }

  // The driver: 32-bit sums without reduction.

  function MixWide(s: Sbox, a: int, b: int, k: int): nat { Plus32(a, s(Low(Xor32(b, k)))) }

  /** rotr1 on a word that may have grown past 16 bits. */
  function Rotr1(a: int): nat {
    var b := Word(a) / 2;
    Low(if a % 2 == 1 then (if b / 0x8000 % 2 == 1 then b else b + 0x8000) else b % 0x8000)
  }

  function TurnWide(a: int, b: int): nat { Plus32(a, Rotr1(b)) }

  function WideMixOf(s: Sbox): Op { (a, b, k) => MixWide(s, a, b, k) }
  const WIDE_TURN: (int, int) -> int := (a, b) => TurnWide(a, b)
  const WIDE_XOR: (int, int) -> int := (a, k) => Xor32(a, k)

  function WidePhase2(s: Sbox, key: seq<byte>, p: P1k, tsc: int): Ppk
    requires |key| == 16
  {
    Phase2(WideMixOf(s), WIDE_TURN, WIDE_XOR, key, p, Plus16(p.w4, tsc))
  }

  lemma MixWideLow(s: Sbox, a: int, b: int, k: int)
    ensures Low(MixWide(s, a, b, k)) == Mix16(s, Low(a), Low(b), k)
  {
    XorLow(b, k);
    PlusLow(a, s(Xor16(Low(b), k)));
  }

  lemma EvenPart(k: int, r: int)
    ensures (2 * k + r) % 2 == r % 2
  {
  }

  lemma Parity(a: int)
    ensures a % 2 == Word(a) % 2 && a % 2 == Low(a) % 2
  {
    var p, q := 0x8000_0000 * (a / 0x1_0000_0000), 0x8000 * (a / 0x1_0000);
    assert a == 2 * p + Word(a) && a == 2 * q + Low(a);
    EvenPart(p, Word(a));
    EvenPart(q, Low(a));
  }

  lemma HalfOfWord(q: nat, x: nat)
    requires x < 0x1_0000
    ensures (0x1_0000 * q + x) / 2 == 0x8000 * q + x / 2
  {
  }

  lemma Bit15(q: nat, y: nat)
    requires y < 0x8000
    ensures (0x8000 * q + y) / 0x8000 == q && (0x8000 * q + y) % 0x8000 == y
    ensures q % 2 == 1 ==> Low(0x8000 * q + y) == y + 0x8000
    ensures q % 2 == 0 ==> Low(0x8000 * q + y + 0x8000) == y + 0x8000
  {
    var h := q / 2;
    if q % 2 == 1 {
      assert 0x8000 * q + y == 0x1_0000 * h + (y + 0x8000);
    } else {
      assert 0x8000 * q + y + 0x8000 == 0x1_0000 * h + (y + 0x8000);
    }
  }

  lemma RotatedParts(q: nat, y: nat, odd: bool)
    requires y < 0x8000
    ensures var b := 0x8000 * q + y;
            Low(if odd then (if b / 0x8000 % 2 == 1 then b else b + 0x8000) else b % 0x8000)
            == y + if odd then 0x8000 else 0
  {
    Bit15(q, y);
  }

  /** A word that has grown rotates like its low half. */
  lemma Rotr1Low(a: int)
    ensures Rotr1(a) == RotR1(Low(a))
  {
    var q := Word(a) / 0x1_0000;
    LowOfWord(a);
    LowOfLow(a);
    Parity(a);
    assert Word(a) / 2 == 0x8000 * q + Low(a) / 2 by { HalfOfWord(q, Low(a)); }
    RotatedParts(q, Low(a) / 2, a % 2 == 1);
  }

  lemma TurnWideLow(a: int, b: int)
    ensures Low(TurnWide(a, b)) == Turn16(Low(a), Low(b))
  {
    Rotr1Low(b);
    PlusLow(a, Rotr1(b));
  }

  ghost predicate SameLow(w: Ppk, n: Ppk) {
    && Low(w.p0) == n.p0 && Low(w.p1) == n.p1 && Low(w.p2) == n.p2
    && Low(w.p3) == n.p3 && Low(w.p4) == n.p4 && Low(w.p5) == n.p5
  }

  ghost predicate Reduced(p: P1k) {
    Low(p.w0) == p.w0 && Low(p.w1) == p.w1 && Low(p.w2) == p.w2 && Low(p.w3) == p.w3 && Low(p.w4) == p.w4
  }

  /** If the operations agree on low halves, so does all of phase 2. */
  lemma Phase2Low(
      mix: Op, turn: (int, int) -> int, xor: (int, int) -> int,
      mix16: Op, turn16: (int, int) -> int, xor16: (int, int) -> int,
      key: seq<byte>, p: P1k, w5: int)
    requires |key| == 16 && Reduced(p) && Low(w5) == w5
    requires forall a, b, k :: Low(mix(a, b, k)) == mix16(Low(a), Low(b), k)
    requires forall a, b :: Low(turn(a, b)) == turn16(Low(a), Low(b))
    requires forall a, k :: Low(xor(a, k)) == xor16(Low(a), k)
    ensures SameLow(Phase2(mix, turn, xor, key, p, w5), Phase2(mix16, turn16, xor16, key, p, w5))
  {
  }

  lemma MixesAgree(s: Sbox)
    ensures forall a, b, k :: Low(WideMixOf(s)(a, b, k)) == MixOf(s)(Low(a), Low(b), k)
  {
    forall a, b, k ensures Low(WideMixOf(s)(a, b, k)) == MixOf(s)(Low(a), Low(b), k) {
      MixWideLow(s, a, b, k);
    }
  }

  lemma TurnsAgree()
    ensures forall a, b :: Low(WIDE_TURN(a, b)) == TURN(Low(a), Low(b))
  {
    forall a, b ensures Low(WIDE_TURN(a, b)) == TURN(Low(a), Low(b)) {
      TurnWideLow(a, b);
    }
  }

  lemma XorsAgree()
    ensures forall a, k :: Low(WIDE_XOR(a, k)) == XOR(Low(a), k)
  {
    forall a, k ensures Low(WIDE_XOR(a, k)) == XOR(Low(a), k) {
      XorLow(a, k);
    }
  }

  /** The words that grow keep the low halves the standard asks for. */
  lemma WidePhase2Low(s: Sbox, key: seq<byte>, p: P1k, tsc: int)
    requires |key| == 16 && Reduced(p)
    ensures SameLow(WidePhase2(s, key, p, tsc), NarrowPhase2(s, key, p, tsc))
  {
    MixesAgree(s);
    TurnsAgree();
    XorsAgree();
    LowOfLow(p.w4 + tsc);
    Phase2Low(WideMixOf(s), WIDE_TURN, WIDE_XOR, MixOf(s), TURN, XOR, key, p, Plus16(p.w4, tsc));
  }

  // ---- the RC4 key ----

  /** `(b | 0x20) & 0x7f` */
  function SecondByte(b: int): byte { (if b / 0x20 % 2 == 1 then b else b + 0x20) % 0x80 }

  function LowByte(x: int): byte { x % 0x100 }

  function HighByte(x: int): byte { x / 0x100 % 0x100 }

  /** Phase 2, step 3; `mixed` is the last word with the first key word mixed in. */
  function RcKey(p: Ppk, mixed: int, tsc: int): seq<byte> {
    [HighByte(tsc), SecondByte(HighByte(tsc)), LowByte(tsc), LowByte(mixed / 2),
     LowByte(p.p0), HighByte(p.p0), LowByte(p.p1), HighByte(p.p1), LowByte(p.p2), HighByte(p.p2),
     LowByte(p.p3), HighByte(p.p3), LowByte(p.p4), HighByte(p.p4), LowByte(p.p5), HighByte(p.p5)]
  }

  lemma ByteIs(x: int, q: int, y: int)
    requires x == 0x100 * q + y
    ensures LowByte(x) == LowByte(y)
  {
    var r := y % 0x100;
    assert x == 0x100 * (q + y / 0x100) + r;
  }

  lemma BytesOfLow(x: int)
    ensures LowByte(x) == LowByte(Low(x)) && HighByte(x) == HighByte(Low(x))
    ensures LowByte(x / 2) == LowByte(Low(x) / 2)
  {
    var q, y := x / 0x1_0000, Low(x);
    ByteIs(x, 0x100 * q, y);
    ByteIs(x / 0x100, q, y / 0x100);
    ByteIs(x / 2, 0x80 * q, y / 2);
  }

  lemma RcKeyOfLow(w: Ppk, n: Ppk, mw: int, mn: int, tsc: int)
    requires SameLow(w, n) && Low(mw) == mn
    ensures RcKey(w, mw, tsc) == RcKey(n, mn, tsc)
  {
    BytesOfLow(w.p0);
    BytesOfLow(w.p1);
    BytesOfLow(w.p2);
    BytesOfLow(w.p3);
    BytesOfLow(w.p4);
    BytesOfLow(w.p5);
    BytesOfLow(mw);
  }

  /** The words that grow give the bytes of the words that are reduced. */
  lemma SameBytes(s: Sbox, key: seq<byte>, p1k: P1k, tsc: int)
    requires |key| == 16 && Reduced(p1k)
    ensures var w := WidePhase2(s, key, p1k, tsc);
            var n := NarrowPhase2(s, key, p1k, tsc);
            RcKey(w, Xor32(w.p5, KeyWord(key, 0)), tsc) == RcKey(n, Xor16(n.p5, KeyWord(key, 0)), tsc)
  {
    var w := WidePhase2(s, key, p1k, tsc);
    var n := NarrowPhase2(s, key, p1k, tsc);
    WidePhase2Low(s, key, p1k, tsc);
    XorLow(w.p5, KeyWord(key, 0));
    RcKeyOfLow(w, n, Xor32(w.p5, KeyWord(key, 0)), Xor16(n.p5, KeyWord(key, 0)), tsc);
  }

  // ---- the steps of the standard ----

  function Five(p: P1k): seq<int> { [p.w0, p.w1, p.w2, p.w3, p.w4] }

  function Six(p: Ppk): seq<int> { [p.p0, p.p1, p.p2, p.p3, p.p4, p.p5] }

  /** `a` is what once around the ring makes of `w`. */
  ghost predicate OnceAround(f: Op, w: seq<int>, ks: seq<int>, a: seq<int>) {
    && |a| == |w| == |ks| > 0 && a[0] == f(w[0], w[|w| - 1], ks[0])
    && forall j :: 0 < j < |w| ==> a[j] == f(w[j], a[j - 1], ks[j])
  }

  lemma RingNext(f: Op, w: seq<int>, ks: seq<int>, m: nat, q: seq<int>)
    requires |w| > 0 && m < |ks| && Ring(f, w, ks[..m]) == q
    ensures Ring(f, w, ks[..m + 1]) == q[1..] + [f(q[0], q[|w| - 1], ks[m])]
  {
    var k := ks[..m + 1];
    assert |k| == m + 1 && k[m] == ks[m] && k[..|k| - 1] == ks[..m];
    assert Ring(f, w, k) == q[1..] + [f(q[0], q[|w| - 1], k[|k| - 1])];
  }

  lemma {:induction false} RingUpTo(f: Op, w: seq<int>, ks: seq<int>, a: seq<int>, m: nat)
    requires OnceAround(f, w, ks, a) && m <= |w|
    ensures Ring(f, w, ks[..m]) == w[m..] + a[..m]
    decreases m
  {
    if m == 0 {
      assert w[0..] + a[..0] == w;
    } else {
      var q := w[m - 1..] + a[..m - 1];
      RingUpTo(f, w, ks, a, m - 1);
      RingNext(f, w, ks, m - 1, q);
      assert a[m - 1] == f(q[0], q[|w| - 1], ks[m - 1]);
      assert q[1..] == w[m..] + a[..m - 1] && a[..m] == a[..m - 1] + [a[m - 1]];
      Associate(w[m..], a[..m - 1], [a[m - 1]]);
    }
  }

  lemma RingIs(f: Op, w: seq<int>, ks: seq<int>, a: seq<int>)
    requires OnceAround(f, w, ks, a)
    ensures Ring(f, w, ks) == a
  {
    RingUpTo(f, w, ks, a, |w|);
    assert ks[..|w|] == ks && a[..|w|] == a;
  }

  lemma KeyWordIs(b: seq<byte>, n: nat, i: nat)
    requires 2 * n + 1 < |b| && i == 2 * n
    ensures KeyWord(b, i) == Mk16(b, n)
  {
  }

  lemma RoundKeysAre(key: seq<byte>, i: nat, j: nat)
    requires |key| == 16 && j == 2 * (i % 2)
    ensures RoundKeys(key, i)
            == [KeyWord(key, j), KeyWord(key, 4 + j), KeyWord(key, 8 + j), KeyWord(key, 12 + j), KeyWord(key, j)]
  {
    var m := i % 2;
    KeyWordIs(key, m, j);
    KeyWordIs(key, 2 + m, 4 + j);
    KeyWordIs(key, 4 + m, 8 + j);
    KeyWordIs(key, 6 + m, 12 + j);
  }

  ghost predicate SameOp(f: Op, g: Op) { forall a, b, k :: f(a, b, k) == g(a, b, k) }

  /** A round of phase 1 goes once around its words, whatever the operation. */
  lemma RoundIsRing(f: Op, mix: Op, key: seq<byte>, p: P1k, i: nat)
    requires |key| == 16 && SameOp(f, mix)
    ensures TtakRound(f, key, Five(p), i) == Five(Phase1Round(mix, key, p, i))
  {
    var j := 2 * (i % 2);
    var r := Phase1Round(mix, key, p, i);
    RoundKeysAre(key, i, j);
    RingIs(f, Five(p), RoundKeys(key, i), [r.w0, r.w1, r.w2, r.w3, mix(p.w4, r.w3, KeyWord(key, j))]);
  }

  lemma TtakStart(f: Op, key: seq<byte>, ta: seq<byte>, pnh: int)
    requires |key| == 16 && |ta| == 6
    ensures Ttak(f, key, ta, pnh, 0) == Five(Phase1Start(ta, pnh))
  {
    KeyWordIs(ta, 0, 0);
    KeyWordIs(ta, 1, 2);
    KeyWordIs(ta, 2, 4);
  }

  lemma TtakNext(f: Op, mix: Op, key: seq<byte>, ta: seq<byte>, pnh: int, i: nat)
    requires |key| == 16 && |ta| == 6 && SameOp(f, mix)
    requires Ttak(f, key, ta, pnh, i) == Five(Phase1(mix, key, ta, pnh, i))
    ensures Ttak(f, key, ta, pnh, i + 1) == Five(Phase1(mix, key, ta, pnh, i + 1))
  {
    RoundIsRing(f, mix, key, Phase1(mix, key, ta, pnh, i), i);
  }

  lemma {:induction false} Phase1IsTtak(f: Op, mix: Op, key: seq<byte>, ta: seq<byte>, pnh: int, rounds: nat)
    requires |key| == 16 && |ta| == 6 && SameOp(f, mix)
    ensures Ttak(f, key, ta, pnh, rounds) == Five(Phase1(mix, key, ta, pnh, rounds))
    decreases rounds
  {
    if rounds == 0 {
      TtakStart(f, key, ta, pnh);
    } else {
      Phase1IsTtak(f, mix, key, ta, pnh, rounds - 1);
      TtakNext(f, mix, key, ta, pnh, rounds - 1);
    }
  }

  lemma PhaseTwoKeysAre(key: seq<byte>)
    requires |key| == 16
    ensures FirstKeys(key)
            == [KeyWord(key, 0), KeyWord(key, 2), KeyWord(key, 4), KeyWord(key, 6), KeyWord(key, 8), KeyWord(key, 10)]
    ensures LastKeys(key) == [KeyWord(key, 12), KeyWord(key, 14), 0, 0, 0, 0]
  {
    forall n: nat | n < 8 ensures KeyWord(key, 2 * n) == Mk16(key, n) {
      KeyWordIs(key, n, 2 * n);
    }
  }

  /** `g` is `turn` of `xor`, or `turn` alone where there is no key word. */
  ghost predicate TurnsLike(g: Op, turn: (int, int) -> int, xor: (int, int) -> int) {
    && (forall a, b, k :: g(a, b, k) == turn(a, xor(b, k)))
    && (forall a, b :: g(a, b, 0) == turn(a, b))
  }

  /** Phase 2 goes around its words twice, whatever the operations. */
  lemma Phase2IsRing(f: Op, g: Op, mix: Op, turn: (int, int) -> int, xor: (int, int) -> int,
                     key: seq<byte>, p: P1k, w5: int)
    requires |key| == 16 && SameOp(f, mix) && TurnsLike(g, turn, xor)
    ensures Ring(g, Ring(f, Five(p) + [w5], FirstKeys(key)), LastKeys(key)) == Six(Phase2(mix, turn, xor, key, p, w5))
  {
    var w := Five(p) + [w5];
    var a0 := mix(p.w0, w5, KeyWord(key, 0));
    var a1 := mix(p.w1, a0, KeyWord(key, 2));
    var a2 := mix(p.w2, a1, KeyWord(key, 4));
    var a3 := mix(p.w3, a2, KeyWord(key, 6));
    var a4 := mix(p.w4, a3, KeyWord(key, 8));
    var a := [a0, a1, a2, a3, a4, mix(w5, a4, KeyWord(key, 10))];
    PhaseTwoKeysAre(key);
    RingIs(f, w, FirstKeys(key), a);
    RingIs(g, a, LastKeys(key), Six(Phase2(mix, turn, xor, key, p, w5)));
  }

  lemma PlusOfLow(a: int, b: int)
    ensures Plus16(a, Low(b)) == Low(a + b)
  {
    LowOfSum(a, b);
    LowOfSum(a, Low(b));
    LowOfLow(b);
  }

  lemma XorZero(b: int)
    ensures Xor16(b, 0) == Low(b)
  {
    PowersUsed();
    XorBitsCommutes(Low(b), 0, HALF_BITS);
    XorWithZero(Low(b), HALF_BITS);
  }

  lemma MixIsSubstitute(s: Sbox)
    ensures SameOp(Substitute(s), MixOf(s))
  {
    forall a, b, k ensures Substitute(s)(a, b, k) == MixOf(s)(a, b, k) {
      assert Substitute(s)(a, b, k) == Low(a + s(Xor16(b, k)));
    }
  }

  lemma RotR1OfLow(b: int)
    ensures RotR1(Low(b)) == RotR1(b)
  {
    LowOfLow(b);
  }

  lemma TurnWithKey(a: int, b: int, k: int)
    ensures ROTATE(a, b, k) == TURN(a, XOR(b, k))
  {
    assert ROTATE(a, b, k) == Low(a + RotR1(Xor16(b, k)));
    assert XOR(b, k) == Xor16(b, k);
  }

  lemma TurnWithoutKey(a: int, b: int)
    ensures ROTATE(a, b, 0) == TURN(a, b)
  {
    XorZero(b);
    RotR1OfLow(b);
    assert ROTATE(a, b, 0) == Low(a + RotR1(Xor16(b, 0)));
    assert TURN(a, b) == Turn16(a, b);
  }

  lemma TurnIsRotate()
    ensures TurnsLike(ROTATE, TURN, XOR)
  {
    forall a, b, k ensures ROTATE(a, b, k) == TURN(a, XOR(b, k)) {
      TurnWithKey(a, b, k);
    }
    forall a, b ensures ROTATE(a, b, 0) == TURN(a, b) {
      TurnWithoutKey(a, b);
    }
  }

  lemma PpkIs(f: Op, g: Op, mix: Op, turn: (int, int) -> int, xor: (int, int) -> int,
              key: seq<byte>, p: P1k, pnl: int, w5: int)
    requires |key| == 16 && SameOp(f, mix) && TurnsLike(g, turn, xor) && w5 == Low(p.w4 + pnl)
    ensures PpkOf(f, g, key, Five(p), pnl) == Six(Phase2(mix, turn, xor, key, p, w5))
  {
    Phase2IsRing(f, g, mix, turn, xor, key, p, w5);
  }

  /** The reduced words are those of the standard. */
  lemma NarrowIsPpk(s: Sbox, key: seq<byte>, p: P1k, pnl: int, tsc: int)
    requires |key| == 16 && tsc == Low(pnl)
    ensures PpkOf(Substitute(s), ROTATE, key, Five(p), pnl) == Six(NarrowPhase2(s, key, p, tsc))
  {
    MixIsSubstitute(s);
    TurnIsRotate();
    PlusOfLow(p.w4, pnl);
    PpkIs(Substitute(s), ROTATE, MixOf(s), TURN, XOR, key, p, pnl, Plus16(p.w4, tsc));
  }

  lemma MarkParts(h: nat, r: nat)
    requires h < 8 && r < 0x20
    ensures (0x20 * h + r) / 0x20 == h && (0x20 * h + r) % 0x20 == r && (0x20 * h + r) / 0x40 == h / 2
    ensures (0x20 * h + r) % 0x80 == 0x20 * (h % 4) + r
  {
  }

  lemma MarkIs(b: byte)
    ensures SecondByte(b) == Marked(b)
  {
    var h, r := b / 0x20, b % 0x20;
    MarkParts(h, r);
    if h % 2 == 0 {
      MarkParts(h + 1, r);
    }
  }

  lemma CounterBytesAre(pnl: int, tsc: int)
    requires tsc == Low(pnl)
    ensures HighByte(tsc) == tsc / 0x100 && LowByte(tsc) == pnl % 0x100
  {
    BytesOfLow(pnl);
  }

  lemma RcKeyIsSeed(p: Ppk, mixed: int, pnl: int, tsc: int)
    requires tsc == Low(pnl)
    ensures RcKey(p, mixed, tsc) == SeedBytes(Six(p), mixed, pnl)
  {
    CounterBytesAre(pnl, tsc);
    MarkIs(tsc / 0x100);
  }

  lemma FiveReduced(p: P1k)
    requires AllLow(Five(p))
    ensures Reduced(p)
  {
    assert Five(p)[0] == p.w0 && Five(p)[1] == p.w1 && Five(p)[2] == p.w2 && Five(p)[3] == p.w3 && Five(p)[4] == p.w4;
  }

  lemma Phase1Reduced(f: Op, mix: Op, key: seq<byte>, ta: seq<byte>, pnh: int, rounds: nat)
    requires |key| == 16 && |ta| == 6 && SameOp(f, mix) && LowValued(f)
    ensures Reduced(Phase1(mix, key, ta, pnh, rounds))
    ensures Ttak(f, key, ta, pnh, rounds) == Five(Phase1(mix, key, ta, pnh, rounds))
  {
    TtakLow(f, key, ta, pnh, rounds);
    Phase1IsTtak(f, mix, key, ta, pnh, rounds);
    FiveReduced(Phase1(mix, key, ta, pnh, rounds));
  }

  /**
   * RTMPTkipMixKey: the sixteen bytes are those of the standard for every key,
   * address, counter and S-box.
   */
  method MixKey(s: Sbox, key: seq<byte>, ta: seq<byte>, pnl: int, pnh: int) returns (rc4key: seq<byte>)
    requires |key| == 16 && |ta| == 6
    ensures rc4key == Seed(s, key, ta, pnl, pnh)
    ensures var ttak := Ttak(Substitute(s), key, ta, pnh, ROUNDS);
            SeedOf(rc4key, key, PpkOf(Substitute(s), ROTATE, key, ttak, pnl), pnl)
  {
    var tsc := Low(pnl);
    var p1k := Phase1Start(ta, pnh);
    for i := 0 to 8
      invariant p1k == Phase1(MixOf(s), key, ta, pnh, i)
    {
      p1k := Phase1Round(MixOf(s), key, p1k, i);
    }
    MixIsSubstitute(s);
    SubstituteLow(s);
    Phase1Reduced(Substitute(s), MixOf(s), key, ta, pnh, ROUNDS);
    var ppk := WidePhase2(s, key, p1k, tsc);
    rc4key := RcKey(ppk, Xor32(ppk.p5, KeyWord(key, 0)), tsc);
    SameBytes(s, key, p1k, tsc);
    NarrowIsPpk(s, key, p1k, pnl, tsc);
    ghost var n := NarrowPhase2(s, key, p1k, tsc);
    KeyWordIs(key, 0, 0);
    RcKeyIsSeed(n, Xor16(n.p5, KeyWord(key, 0)), pnl, tsc);
    SeedMeaning(s, key, ta, pnl, pnh);
  }
}
