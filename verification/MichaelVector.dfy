/**
 * A known answer of the Michael code: the empty message under the key of zeroes
 * (section 8.3.2.3 of IEEE 802.11i-2004), worked out round by round.
 */
module MichaelVector {
  import opened Basics
  import opened Words
  import opened Michael

  lemma FirstRound(h: Halves)
    requires h == Halves(0x5A, 0x0)
    ensures Round(h, Rol17) == Halves(0xB4_005A, 0xB4_0000)
  {
    var x := Rol17(h.l);
    assert x == 0xB4_0000;
    PowersUsed();
    XorWithZero(x, WORD_BITS);
  }

  lemma SecondLow(a: nat, b: nat)
    requires a == 0x0 && b == 0x5A00
    ensures XorBits(a, b, HALF_BITS) == 0x5A00
  {
    PowersUsed();
    XorWithZero(b, HALF_BITS);
  }

  lemma SecondHigh(a: nat, b: nat)
    requires a == 0xB4 && b == 0xB400
    ensures XorBits(a, b, HALF_BITS) == 0xB4B4
  {
    XorOfHalves(a, b, 0xB, 0x4, 0xB, 0x4);
  }

  lemma SecondXor(a: word, b: word)
    requires a == 0xB4_0000 && b == 0xB400_5A00
    ensures Xor(a, b) == 0xB4B4_5A00
  {
    var al, bl, ah, bh := a % 0x1_0000, b % 0x1_0000, a / 0x1_0000, b / 0x1_0000;
    assert al == 0x0 && bl == 0x5A00 && ah == 0xB4 && bh == 0xB400;
    assert XorBits(al, bl, HALF_BITS) == 0x5A00 by { SecondLow(al, bl); }
    assert XorBits(ah, bh, HALF_BITS) == 0xB4B4 by { SecondHigh(ah, bh); }
    XorFromHalves(a, b, 0xB4B4, 0x5A00);
  }

  lemma SecondRound(h: Halves)
    requires h == Halves(0xB4_005A, 0xB4_0000)
    ensures Round(h, Xswap) == Halves(0xB568_5A5A, 0xB4B4_5A00)
  {
    var x := Xswap(h.l);
    assert x == 0xB400_5A00;
    assert Plus(h.l, 0xB4B4_5A00) == 0xB568_5A5A;
    SecondXor(h.r, x);
  }

  lemma ThirdLow(a: nat, b: nat)
    requires a == 0x5A00 && b == 0xD2D5
    ensures XorBits(a, b, HALF_BITS) == 0x88D5
  {
    XorOfHalves(a, b, 0x8, 0x8, 0xD, 0x5);
  }

  lemma ThirdHigh(a: nat, b: nat)
    requires a == 0xB4B4 && b == 0xAB42
    ensures XorBits(a, b, HALF_BITS) == 0x1FF6
  {
    XorOfHalves(a, b, 0x1, 0xF, 0xF, 0x6);
  }

  lemma ThirdXor(a: word, b: word)
    requires a == 0xB4B4_5A00 && b == 0xAB42_D2D5
    ensures Xor(a, b) == 0x1FF6_88D5
  {
    var al, bl, ah, bh := a % 0x1_0000, b % 0x1_0000, a / 0x1_0000, b / 0x1_0000;
    assert al == 0x5A00 && bl == 0xD2D5 && ah == 0xB4B4 && bh == 0xAB42;
    assert XorBits(al, bl, HALF_BITS) == 0x88D5 by { ThirdLow(al, bl); }
    assert XorBits(ah, bh, HALF_BITS) == 0x1FF6 by { ThirdHigh(ah, bh); }
    XorFromHalves(a, b, 0x1FF6, 0x88D5);
  }

  lemma ThirdRound(h: Halves)
    requires h == Halves(0xB568_5A5A, 0xB4B4_5A00)
    ensures Round(h, Rol3) == Halves(0xD55E_E32F, 0x1FF6_88D5)
  {
    var x := Rol3(h.l);
    assert x == 0xAB42_D2D5;
    assert Plus(h.l, 0x1FF6_88D5) == 0xD55E_E32F;
    ThirdXor(h.r, x);
  }

  lemma FourthLow(a: nat, b: nat)
    requires a == 0x88D5 && b == 0xB8CB
    ensures XorBits(a, b, HALF_BITS) == 0x301E
  {
    XorOfHalves(a, b, 0x3, 0x0, 0x1, 0xE);
  }

  lemma FourthHigh(a: nat, b: nat)
    requires a == 0x1FF6 && b == 0xF557
    ensures XorBits(a, b, HALF_BITS) == 0xEAA1
  {
    XorOfHalves(a, b, 0xE, 0xA, 0xA, 0x1);
  }

  lemma FourthXor(a: word, b: word)
    requires a == 0x1FF6_88D5 && b == 0xF557_B8CB
    ensures Xor(a, b) == 0xEAA1_301E
  {
    var al, bl, ah, bh := a % 0x1_0000, b % 0x1_0000, a / 0x1_0000, b / 0x1_0000;
    assert al == 0x88D5 && bl == 0xB8CB && ah == 0x1FF6 && bh == 0xF557;
    assert XorBits(al, bl, HALF_BITS) == 0x301E by { FourthLow(al, bl); }
    assert XorBits(ah, bh, HALF_BITS) == 0xEAA1 by { FourthHigh(ah, bh); }
    XorFromHalves(a, b, 0xEAA1, 0x301E);
  }

  lemma FourthRound(h: Halves)
    requires h == Halves(0xD55E_E32F, 0x1FF6_88D5)
    ensures Round(h, Ror2) == Halves(0xC000_134D, 0xEAA1_301E)
  {
    var x := Ror2(h.l);
    assert x == 0xF557_B8CB;
    assert Plus(h.l, 0xEAA1_301E) == 0xC000_134D;
    FourthXor(h.r, x);
  }

  lemma FifthLow(a: nat, b: nat)
    requires a == 0x301E && b == 0x8000
    ensures XorBits(a, b, HALF_BITS) == 0xB01E
  {
    XorOfHalves(a, b, 0xB, 0x0, 0x1, 0xE);
  }

  lemma FifthHigh(a: nat, b: nat)
    requires a == 0xEAA1 && b == 0x269B
    ensures XorBits(a, b, HALF_BITS) == 0xCC3A
  {
    XorOfHalves(a, b, 0xC, 0xC, 0x3, 0xA);
  }

  lemma FifthXor(a: word, b: word)
    requires a == 0xEAA1_301E && b == 0x269B_8000
    ensures Xor(a, b) == 0xCC3A_B01E
  {
    var al, bl, ah, bh := a % 0x1_0000, b % 0x1_0000, a / 0x1_0000, b / 0x1_0000;
    assert al == 0x301E && bl == 0x8000 && ah == 0xEAA1 && bh == 0x269B;
    assert XorBits(al, bl, HALF_BITS) == 0xB01E by { FifthLow(al, bl); }
    assert XorBits(ah, bh, HALF_BITS) == 0xCC3A by { FifthHigh(ah, bh); }
    XorFromHalves(a, b, 0xCC3A, 0xB01E);
  }

  lemma FifthRound(h: Halves)
    requires h == Halves(0xC000_134D, 0xEAA1_301E)
    ensures Round(h, Rol17) == Halves(0x8C3A_C36B, 0xCC3A_B01E)
  {
    var x := Rol17(h.l);
    assert x == 0x269B_8000;
    assert Plus(h.l, 0xCC3A_B01E) == 0x8C3A_C36B;
    FifthXor(h.r, x);
  }

  lemma SixthLow(a: nat, b: nat)
    requires a == 0xB01E && b == 0x6BC3
    ensures XorBits(a, b, HALF_BITS) == 0xDBDD
  {
    XorOfHalves(a, b, 0xD, 0xB, 0xD, 0xD);
  }

  lemma SixthHigh(a: nat, b: nat)
    requires a == 0xCC3A && b == 0x3A8C
    ensures XorBits(a, b, HALF_BITS) == 0xF6B6
  {
    XorOfHalves(a, b, 0xF, 0x6, 0xB, 0x6);
  }

  lemma SixthXor(a: word, b: word)
    requires a == 0xCC3A_B01E && b == 0x3A8C_6BC3
    ensures Xor(a, b) == 0xF6B6_DBDD
  {
    var al, bl, ah, bh := a % 0x1_0000, b % 0x1_0000, a / 0x1_0000, b / 0x1_0000;
    assert al == 0xB01E && bl == 0x6BC3 && ah == 0xCC3A && bh == 0x3A8C;
    assert XorBits(al, bl, HALF_BITS) == 0xDBDD by { SixthLow(al, bl); }
    assert XorBits(ah, bh, HALF_BITS) == 0xF6B6 by { SixthHigh(ah, bh); }
    XorFromHalves(a, b, 0xF6B6, 0xDBDD);
  }

  lemma SixthRound(h: Halves)
    requires h == Halves(0x8C3A_C36B, 0xCC3A_B01E)
    ensures Round(h, Xswap) == Halves(0x82F1_9F48, 0xF6B6_DBDD)
  {
    var x := Xswap(h.l);
    assert x == 0x3A8C_6BC3;
    assert Plus(h.l, 0xF6B6_DBDD) == 0x82F1_9F48;
    SixthXor(h.r, x);
  }

  lemma SeventhLow(a: nat, b: nat)
    requires a == 0xDBDD && b == 0xFA44
    ensures XorBits(a, b, HALF_BITS) == 0x2199
  {
    XorOfHalves(a, b, 0x2, 0x1, 0x9, 0x9);
  }

  lemma SeventhHigh(a: nat, b: nat)
    requires a == 0xF6B6 && b == 0x178C
    ensures XorBits(a, b, HALF_BITS) == 0xE13A
  {
    XorOfHalves(a, b, 0xE, 0x1, 0x3, 0xA);
  }

  lemma SeventhXor(a: word, b: word)
    requires a == 0xF6B6_DBDD && b == 0x178C_FA44
    ensures Xor(a, b) == 0xE13A_2199
  {
    var al, bl, ah, bh := a % 0x1_0000, b % 0x1_0000, a / 0x1_0000, b / 0x1_0000;
    assert al == 0xDBDD && bl == 0xFA44 && ah == 0xF6B6 && bh == 0x178C;
    assert XorBits(al, bl, HALF_BITS) == 0x2199 by { SeventhLow(al, bl); }
    assert XorBits(ah, bh, HALF_BITS) == 0xE13A by { SeventhHigh(ah, bh); }
    XorFromHalves(a, b, 0xE13A, 0x2199);
  }

  lemma SeventhRound(h: Halves)
    requires h == Halves(0x82F1_9F48, 0xF6B6_DBDD)
    ensures Round(h, Rol3) == Halves(0x642B_C0E1, 0xE13A_2199)
  {
    var x := Rol3(h.l);
    assert x == 0x178C_FA44;
    assert Plus(h.l, 0xE13A_2199) == 0x642B_C0E1;
    SeventhXor(h.r, x);
  }

  lemma EighthLow(a: nat, b: nat)
    requires a == 0x2199 && b == 0xF038
    ensures XorBits(a, b, HALF_BITS) == 0xD1A1
  {
    XorOfHalves(a, b, 0xD, 0x1, 0xA, 0x1);
  }

  lemma EighthHigh(a: nat, b: nat)
    requires a == 0xE13A && b == 0x590A
    ensures XorBits(a, b, HALF_BITS) == 0xB830
  {
    XorOfHalves(a, b, 0xB, 0x8, 0x3, 0x0);
  }

  lemma EighthXor(a: word, b: word)
    requires a == 0xE13A_2199 && b == 0x590A_F038
    ensures Xor(a, b) == 0xB830_D1A1
  {
    var al, bl, ah, bh := a % 0x1_0000, b % 0x1_0000, a / 0x1_0000, b / 0x1_0000;
    assert al == 0x2199 && bl == 0xF038 && ah == 0xE13A && bh == 0x590A;
    assert XorBits(al, bl, HALF_BITS) == 0xD1A1 by { EighthLow(al, bl); }
    assert XorBits(ah, bh, HALF_BITS) == 0xB830 by { EighthHigh(ah, bh); }
    XorFromHalves(a, b, 0xB830, 0xD1A1);
  }

  lemma EighthRound(h: Halves)
    requires h == Halves(0x642B_C0E1, 0xE13A_2199)
    ensures Round(h, Ror2) == Halves(0x1C5C_9282, 0xB830_D1A1)
  {
    var x := Ror2(h.l);
    assert x == 0x590A_F038;
    assert Plus(h.l, 0xB830_D1A1) == 0x1C5C_9282;
    EighthXor(h.r, x);
  }

  lemma FirstBlock(h: Halves, m: word)
    requires h == Halves(0, 0) && m == 0x5A
    ensures Block(h, m) == Halves(0xC000_134D, 0xEAA1_301E)
  {
    PowersUsed();
    XorWithZero(m, WORD_BITS);
    var h0 := Halves(Xor(h.l, m), h.r);
    assert h0.l == 0x5A;
    FirstRound(h0);
    var h1 := Round(h0, Rol17);
    SecondRound(h1);
    var h2 := Round(h1, Xswap);
    ThirdRound(h2);
    FourthRound(Round(h2, Rol3));
  }

  lemma SecondBlock(h: Halves, m: word)
    requires h == Halves(0xC000_134D, 0xEAA1_301E) && m == 0
    ensures Block(h, m) == Halves(0x1C5C_9282, 0xB830_D1A1)
  {
    PowersUsed();
    XorWithZero(h.l, WORD_BITS);
    XorBitsCommutes(m, h.l, WORD_BITS);
    var h0 := Halves(Xor(h.l, m), h.r);
    assert h0 == h;
    FifthRound(h0);
    var h1 := Round(h0, Rol17);
    SixthRound(h1);
    var h2 := Round(h1, Xswap);
    SeventhRound(h2);
    EighthRound(Round(h2, Rol3));
  }

  lemma BothBlocks(h: Halves, w: seq<byte>, z: seq<byte>)
    requires h == Halves(0, 0) && w == [0x5A, 0, 0, 0] && z == [0, 0, 0, 0]
    ensures Hash(h, w + z) == Halves(0x1C5C_9282, 0xB830_D1A1)
  {
    var m, n := WordOf(w), WordOf(z);
    HashOneWord(h, w);
    HashSnoc(h, w, z, 1);
    FirstBlock(h, m);
    SecondBlock(Block(h, m), n);
  }

  lemma VectorBytes(h: Halves)
    requires h == Halves(0x1C5C_9282, 0xB830_D1A1)
    ensures BytesOf(h.l) + BytesOf(h.r) == [0x82, 0x92, 0x5C, 0x1C, 0xA1, 0xD1, 0x30, 0xB8]
  {
    assert BytesOf(h.l) == [0x82, 0x92, 0x5C, 0x1C];
    assert BytesOf(h.r) == [0xA1, 0xD1, 0x30, 0xB8];
  }

  /** The code of the empty message under the key of zeroes. */
  lemma EmptyMessage(key: Halves, b: seq<byte>)
    requires key == Halves(0, 0) && b == []
    ensures var h := Mic(key, b);
            BytesOf(h.l) + BytesOf(h.r) == [0x82, 0x92, 0x5C, 0x1C, 0xA1, 0xD1, 0x30, 0xB8]
  {
    var w: seq<byte>, z: seq<byte> := [0x5A, 0, 0, 0], [0, 0, 0, 0];
    assert Padded(b) == w + z;
    BothBlocks(key, w, z);
    VectorBytes(Mic(key, b));
  }
}
