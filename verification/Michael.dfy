/**
 * The Michael message integrity code (rt3070/common/cmm_tkip.c, section 8.3.2.3
 * of IEEE 802.11i-2004): bytes streamed into a word buffer, against the
 * definition on words.
 */
module Michael {
  import opened Basics
  import opened Words

  // ---- the block function ----

  function Rol17(x: word): word { (x % 0x8000) * 0x2_0000 + x / 0x8000 }
  function Rol3(x: word): word { (x % 0x2000_0000) * 8 + x / 0x2000_0000 }
  function Ror2(x: word): word { (x % 4) * 0x4000_0000 + x / 4 }

  /** Swaps the bytes of each half word. */
  function Xswap(x: word): word {
    (x / 0x1_0000 % 0x100) * 0x100_0000 + (x / 0x100_0000) * 0x1_0000 + (x % 0x100) * 0x100 + x / 0x100 % 0x100
  }

  lemma RotationPowers()
    ensures Pow2(2) == 4 && Pow2(3) == 8 && Pow2(15) == 0x8000 && Pow2(17) == 0x2_0000
    ensures Pow2(29) == 0x2000_0000 && Pow2(30) == 0x4000_0000
  {
    assert Pow2(13) == 0x2000;
    assert Pow2(21) == 0x100 * Pow2(13);
    assert Pow2(29) == 0x100 * Pow2(21);
  }

  lemma Around(i: nat, m: nat, k: nat)
    requires m + k == WORD_BITS && i < WORD_BITS
    ensures (i + k) % WORD_BITS == if i < m then i + k else i - m
  {
  }

  lemma WordRotated(x: word, m: nat, k: nat, low: nat, high: nat, y: nat, i: nat)
    requires m + k == WORD_BITS && low == x % Pow2(m) && high == x / Pow2(m) && y == low * Pow2(k) + high
    requires i < WORD_BITS
    ensures Bit(y, (i + k) % WORD_BITS) <==> Bit(x, i)
  {
    assert x < Pow2(m + k) by { PowersUsed(); }
    Around(i, m, k);
    BitOfRotated(x, m, k, low, high, y, i, (i + k) % WORD_BITS);
  }

  /** Rol17 moves every bit up by 17 places, around the word. */
  lemma Rol17Bits(x: word, i: nat)
    requires i < WORD_BITS
    ensures Bit(Rol17(x), (i + 17) % WORD_BITS) <==> Bit(x, i)
  {
    RotationPowers();
    WordRotated(x, 15, 17, x % 0x8000, x / 0x8000, Rol17(x), i);
  }

  lemma Rol3Bits(x: word, i: nat)
    requires i < WORD_BITS
    ensures Bit(Rol3(x), (i + 3) % WORD_BITS) <==> Bit(x, i)
  {
    RotationPowers();
    WordRotated(x, 29, 3, x % 0x2000_0000, x / 0x2000_0000, Rol3(x), i);
  }

  /** Ror2 moves every bit down by two places, around the word. */
  lemma Ror2Bits(x: word, i: nat)
    requires i < WORD_BITS
    ensures Bit(Ror2(x), (i + 30) % WORD_BITS) <==> Bit(x, i)
  {
    RotationPowers();
    WordRotated(x, 2, 30, x % 4, x / 4, Ror2(x), i);
  }

  /** Exclusive or, bit by bit. */
  lemma XorByBits(a: word, b: word, i: nat)
    requires i < WORD_BITS
    ensures Bit(Xor(a, b), i) <==> Bit(a, i) != Bit(b, i)
  {
    BitOfXor(a, b, WORD_BITS, i);
  }

  datatype Halves = Halves(l: word, r: word)

  /** Mixes `f` of the left half into the right, then adds the right to the left. */
  function Round(h: Halves, f: word -> word): Halves {
    var r := Xor(h.r, f(h.l));
    Halves(Plus(h.l, r), r)
  }

  function Unround(h: Halves, f: word -> word): Halves {
    var l := Minus(h.l, h.r);
    Halves(l, Xor(h.r, f(l)))
  }

  /** One word: four rounds. */
  function Block(h: Halves, m: word): Halves {
    Round(Round(Round(Round(Halves(Xor(h.l, m), h.r), Rol17), Xswap), Rol3), Ror2)
  }

  function Unblock(h: Halves, m: word): Halves {
    var h0 := Unround(Unround(Unround(Unround(h, Ror2), Rol3), Xswap), Rol17);
    Halves(Xor(h0.l, m), h0.r)
  }

  lemma RoundBijective(h: Halves, f: word -> word)
    ensures Unround(Round(h, f), f) == h
    ensures Round(Unround(h, f), f) == h
  {
    var r := Xor(h.r, f(h.l));
    PlusMinus(h.l, r);
    XorTwice(h.r, f(h.l));
    PlusMinus(h.l, h.r);
    XorTwice(h.r, f(Minus(h.l, h.r)));
  }

  /** The block function is a bijection of the two halves, for every word. */
  lemma BlockBijective(h: Halves, m: word)
    ensures Unblock(Block(h, m), m) == h
    ensures Block(Unblock(h, m), m) == h
  {
    var h0 := Halves(Xor(h.l, m), h.r);
    XorTwice(h.l, m);
    var h1 := Round(h0, Rol17);
    var h2 := Round(h1, Xswap);
    RoundBijective(h0, Rol17);
    RoundBijective(h1, Xswap);
    RoundBijective(h2, Rol3);
    RoundBijective(Round(h2, Rol3), Ror2);
    var u3 := Unround(h, Ror2);
    var u2 := Unround(u3, Rol3);
    var u1 := Unround(u2, Xswap);
    RoundBijective(h, Ror2);
    RoundBijective(u3, Rol3);
    RoundBijective(u2, Xswap);
    RoundBijective(u1, Rol17);
    XorTwice(Unround(u1, Rol17).l, m);
  }

  lemma XorCancels(x: word, a: word, b: word)
    requires Xor(x, a) == Xor(x, b)
    ensures a == b
  {
    XorBitsCommutes(x, a, WORD_BITS);
    XorBitsCommutes(x, b, WORD_BITS);
    XorTwice(a, x);
    XorTwice(b, x);
  }

  /** From the same state, different words lead to different states. */
  lemma BlockSeparates(h: Halves, m1: word, m2: word)
    requires Block(h, m1) == Block(h, m2)
    ensures m1 == m2
  {
    BlockBijective(h, m1);
    BlockBijective(h, m2);
    var h0 := Unround(Unround(Unround(Unround(Block(h, m1), Ror2), Rol3), Xswap), Rol17);
    assert Xor(h0.l, m1) == h.l == Xor(h0.l, m2);
    XorCancels(h0.l, m1, m2);
  }

  // ---- the definition on words ----

  function WordOf(b: seq<byte>): word
    requires |b| == 4
  {
    (b[0] as int) + 0x100 * ((b[1] as int) + 0x100 * ((b[2] as int) + 0x100 * (b[3] as int)))
  }

  /** The state after all whole words of `b`. */
  function Hash(h: Halves, b: seq<byte>): Halves
    decreases |b|
  {
    if |b| < 4 then h else Hash(Block(h, WordOf(b[..4])), b[4..])
  }

  function Zeroes(n: nat): (r: seq<byte>)
    ensures |r| == n
  {
    seq(n, _ => 0)
  }

  /** The message, 0x5a, four zeroes, and zeroes up to a word boundary. */
  function Padded(b: seq<byte>): (r: seq<byte>)
    ensures |r| % 4 == 0 && |b| + 5 <= |r| <= |b| + 8
  {
    b + [0x5a, 0, 0, 0, 0] + Zeroes((3 - |b|) % 4)
  }

  function Mic(key: Halves, b: seq<byte>): Halves { Hash(key, Padded(b)) }

  // ---- two messages that differ in one word ----

  lemma BlockInjective(h: Halves, g: Halves, m: word)
    requires Block(h, m) == Block(g, m)
    ensures h == g
  {
    BlockBijective(h, m);
    BlockBijective(g, m);
  }

  lemma {:induction false} HashSeparates(h: Halves, g: Halves, b: seq<byte>)
    requires Hash(h, b) == Hash(g, b)
    ensures h == g
    decreases |b|
  {
    if |b| >= 4 {
      var m := WordOf(b[..4]);
      HashSeparates(Block(h, m), Block(g, m), b[4..]);
      BlockInjective(h, g, m);
    }
  }

  function Upper(b: byte, x: nat): nat { (b as int) + 0x100 * x }

  /** A word is its low byte and the rest. */
  lemma BytePeels(a: byte, x: nat, b: byte, y: nat)
    requires Upper(a, x) == Upper(b, y)
    ensures a == b && x == y
  {
  }

  lemma WordSeparates(a: seq<byte>, b: seq<byte>)
    requires |a| == |b| == 4 && WordOf(a) == WordOf(b)
    ensures a == b
  {
    BytePeels(a[0], Upper(a[1], Upper(a[2], a[3])), b[0], Upper(b[1], Upper(b[2], b[3])));
    BytePeels(a[1], Upper(a[2], a[3]), b[1], Upper(b[2], b[3]));
    BytePeels(a[2], a[3], b[2], b[3]);
  }

  /** Byte strings that differ, and only inside one aligned word. */
  ghost predicate OneWordApart(a: seq<byte>, b: seq<byte>, j: nat) {
    && |a| == |b| && a != b
    && forall i :: 0 <= i < |a| && !(4 * j <= i < 4 * j + 4) ==> a[i] == b[i]
  }

  lemma {:induction false} HashOneWordApart(h: Halves, a: seq<byte>, b: seq<byte>, j: nat)
    requires |a| == |b| >= 4 * j + 4 && Hash(h, a) == Hash(h, b)
    requires forall i :: 0 <= i < |a| && !(4 * j <= i < 4 * j + 4) ==> a[i] == b[i]
    ensures a == b
    decreases j
  {
    var wa, wb := WordOf(a[..4]), WordOf(b[..4]);
    assert a == a[..4] + a[4..] && b == b[..4] + b[4..];
    if j == 0 {
      assert a[4..] == b[4..];
      HashSeparates(Block(h, wa), Block(h, wb), a[4..]);
      BlockSeparates(h, wa, wb);
      WordSeparates(a[..4], b[..4]);
    } else {
      assert a[..4] == b[..4];
      HashOneWordApart(Block(h, wa), a[4..], b[4..], j - 1);
    }
  }

  /** Under one key, two messages of one length that differ in one word have different codes. */
  lemma MicSeparates(key: Halves, a: seq<byte>, b: seq<byte>, j: nat)
    requires OneWordApart(a, b, j)
    ensures Mic(key, a) != Mic(key, b)
  {
    var tail := [0x5a, 0, 0, 0, 0] + Zeroes((3 - |a|) % 4);
    var i :| 0 <= i < |a| && a[i] != b[i];
    assert Padded(a) == a + tail && Padded(b) == b + tail;
    assert (a + tail)[i] != (b + tail)[i];
    if Mic(key, a) == Mic(key, b) {
      HashOneWordApart(key, a + tail, b + tail, j);
    }
  }

  // ---- the streaming form ----

  lemma HashOneWord(h: Halves, w: seq<byte>)
    requires |w| == 4
    ensures Hash(h, w) == Block(h, WordOf(w))
  {
    assert w[..4] == w;
    assert Hash(Block(h, WordOf(w)), w[4..]) == Block(h, WordOf(w));
  }

  lemma {:induction false} HashSnoc(h: Halves, b: seq<byte>, w: seq<byte>, n: nat)
    requires |b| == 4 * n && |w| == 4
    ensures Hash(h, b + w) == Block(Hash(h, b), WordOf(w))
    decreases n
  {
    var all := b + w;
    if n > 0 {
      assert all[..4] == b[..4] && all[4..] == b[4..] + w;
      HashSnoc(Block(h, WordOf(b[..4])), b[4..], w, n - 1);
    } else {
      assert all == w && all[..4] == w;
      HashOneWord(h, w);
    }
  }

  /** RTMPTkipPutUInt32, inverse of RTMPTkipGetUInt32. */
  function BytesOf(w: word): (r: seq<byte>)
    ensures |r| == 4 && WordOf(r) == w
  {
    var w1 := w / 0x100;
    var w2 := w1 / 0x100;
    [w % 0x100, w1 % 0x100, w2 % 0x100, w2 / 0x100]
  }

  lemma BytesSeparate(a: seq<byte>, w: word)
    requires |a| == 4 && WordOf(a) == w
    ensures BytesOf(w) == a
  {
    WordSeparates(BytesOf(w), a);
  }

  /** Xswap exchanges the bytes of each half word. */
  lemma XswapBytes(x: word)
    ensures var b := BytesOf(x); BytesOf(Xswap(x)) == [b[1], b[0], b[3], b[2]]
  {
    var b := BytesOf(x);
    assert x / 0x1_0000 == x / 0x100 / 0x100 && x / 0x100_0000 == x / 0x1_0000 / 0x100;
    assert Xswap(x) == WordOf([b[1], b[0], b[3], b[2]]);
    BytesSeparate([b[1], b[0], b[3], b[2]], Xswap(x));
  }

  /** The word buffer while it holds fewer than four bytes. */
  function Partial(b: seq<byte>): word
    requires |b| < 4
  {
    (if |b| > 0 then b[0] as int else 0)
    + (if |b| > 1 then 0x100 * (b[1] as int) else 0)
    + (if |b| > 2 then 0x1_0000 * (b[2] as int) else 0)
  }

  /** `uChar << (8 * n)`; or-ing it into a buffer of `n` bytes adds it. */
  function Placed(b: byte, n: nat): word
    requires n < 4
  {
    if n == 0 then b as int
    else if n == 1 then 0x100 * (b as int)
    else if n == 2 then 0x1_0000 * (b as int)
    else 0x100_0000 * (b as int)
  }

  lemma PartialNext(b: seq<byte>, x: byte)
    requires |b| < 4
    ensures Partial(b) + Placed(x, |b|) == if |b| == 3 then WordOf(b + [x]) else Partial(b + [x])
  {
    var all := b + [x];
    assert forall i :: 0 <= i < |b| ==> all[i] == b[i];
  }

  lemma MoreZeroes(b: seq<byte>, k: nat)
    ensures (b + Zeroes(k)) + [0] == b + Zeroes(k + 1)
  {
  }

  lemma PadCount(n: nat, k: nat, words: nat)
    requires n + 5 + k == 4 * words && k <= 3
    ensures k == (3 - n) % 4
  {
  }

  lemma PaddedIs(b: seq<byte>, data: seq<byte>, k: nat, words: nat)
    requires data == b + [0x5a, 0, 0, 0, 0] + Zeroes(k) && k <= 3 && |data| == 4 * words
    ensures data == Padded(b)
  {
    PadCount(|b|, k, words);
  }

  lemma CodeBytes(x: Halves, y: Halves)
    ensures BytesOf(x.l) + BytesOf(x.r) == BytesOf(y.l) + BytesOf(y.r) <==> x == y
  {
    var s, t := BytesOf(x.l) + BytesOf(x.r), BytesOf(y.l) + BytesOf(y.r);
    assert s[..4] == BytesOf(x.l) && s[4..] == BytesOf(x.r);
    assert t[..4] == BytesOf(y.l) && t[4..] == BytesOf(y.r);
  }

  /** Messages that differ in one word get different eight-byte codes. */
  lemma MicBytesSeparate(key: Halves, a: seq<byte>, b: seq<byte>, j: nat)
    requires OneWordApart(a, b, j)
    ensures var ha, hb := Mic(key, a), Mic(key, b);
            BytesOf(ha.l) + BytesOf(ha.r) != BytesOf(hb.l) + BytesOf(hb.r)
  {
    MicSeparates(key, a, b, j);
    CodeBytes(Mic(key, a), Mic(key, b));
  }

  class KeyInfo {
    var key: Halves
    var state: Halves         // L and R
    var m: word
    var nBytesInM: nat
    ghost var words: nat
    ghost var whole: seq<byte>
    ghost var rest: seq<byte>

    /** The state covers the whole words appended so far, the buffer the bytes left over. */
    ghost predicate Valid()
      reads this
    {
      && |whole| == 4 * words && |rest| == nBytesInM < 4
      && state == Hash(key, whole) && m == Partial(rest)
    }

    ghost function Data(): seq<byte>
      reads this
    {
      whole + rest
    }

    /** RTMPTkipSetMICKey */
    constructor (k: seq<byte>)
      requires |k| == 8
      ensures Valid() && Data() == [] && key == Halves(WordOf(k[..4]), WordOf(k[4..]))
    {
      key := Halves(WordOf(k[..4]), WordOf(k[4..]));
      state := Halves(WordOf(k[..4]), WordOf(k[4..]));
      m, nBytesInM, words, whole, rest := 0, 0, 0, [], [];
    }

    method AppendByte(x: byte)
      requires Valid()
      modifies this
      ensures Valid() && key == old(key) && Data() == old(Data()) + [x]
      ensures nBytesInM == if old(nBytesInM) == 3 then 0 else old(nBytesInM) + 1
    {
      PartialNext(rest, x);
      m := m + Placed(x, nBytesInM);
      nBytesInM := nBytesInM + 1;
      rest := rest + [x];
      if nBytesInM >= 4 {
        HashSnoc(key, whole, rest, words);
        state := Block(state, m);
        m, nBytesInM := 0, 0;
        words, whole, rest := words + 1, whole + rest, [];
      }
    }

    /** RTMPTkipAppend: the result does not depend on how the message is split into calls. */
    method Append(data: seq<byte>)
      requires Valid()
      modifies this
      ensures Valid() && key == old(key) && Data() == old(Data()) + data
    {
      for i := 0 to |data|
        invariant Valid() && key == old(key) && Data() == old(Data()) + data[..i]
      {
        AppendByte(data[i]);
        assert data[..i + 1] == data[..i] + [data[i]];
      }
      assert data[..|data|] == data;
    }

    /** Zeroes up to a word boundary, at most three. */
    method FillWord() returns (ghost k: nat)
      requires Valid()
      modifies this
      ensures Valid() && key == old(key) && nBytesInM == 0
      ensures k <= 3 && Data() == old(Data()) + Zeroes(k)
    {
      k := 0;
      while nBytesInM != 0
        invariant Valid() && key == old(key) && Data() == old(Data()) + Zeroes(k)
        invariant k <= 3 && (nBytesInM != 0 ==> k < nBytesInM)
        decreases if nBytesInM == 0 then 0 else 4 - nBytesInM
      {
        MoreZeroes(old(Data()), k);
        AppendByte(0);
        k := k + 1;
      }
    }

    /** The padding of RTMPTkipGetMIC ends on a word boundary. */
    method Pad()
      requires Valid()
      modifies this
      ensures Valid() && key == old(key) && nBytesInM == 0 && Data() == Padded(old(Data()))
    {
      ghost var b := Data();
      Append([0x5a, 0, 0, 0, 0]);
      ghost var k := FillWord();
      PaddedIs(b, Data(), k, words);
    }

    /** RTMPTkipGetMIC gives the code of the definition. */
    method GetMic() returns (mic: seq<byte>)
      requires Valid()
      modifies this
      ensures Valid() && nBytesInM == 0
      ensures var h := Mic(old(key), old(Data())); mic == BytesOf(h.l) + BytesOf(h.r)
    {
      Pad();
      assert whole == Data();
      mic := BytesOf(state.l) + BytesOf(state.r);
    }
  }
}
