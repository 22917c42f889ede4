/**
 * The row decompressors of the ispVM engine (ts7500ctl/ispvm.c, ispVMData and
 * ispVMDataSize) on a stream of bytes, and encoders they invert.
 */
module RowDecoder {
  import opened Basics
  import opened Words

  /** What was decoded and what is left of the stream; `None` if the stream is too short. */
  type Parsed<T> = Option<(T, seq<byte>)>

  // ---- VME-encoded numbers: seven bits a byte, least significant first ----

  function DecodeNumber(s: seq<byte>): Parsed<nat> {
    if s == [] then None
    else if s[0] < 0x80 then Some((s[0] as int, s[1..]))
    else
      match DecodeNumber(s[1..])
      case None => None
      case Some(r) => Some((s[0] - 0x80 + 0x80 * r.0, r.1))
  }

  function EncodeNumber(n: nat): seq<byte> {
    if n < 0x80 then [n] else [n % 0x80 + 0x80] + EncodeNumber(n / 0x80)
  }

  lemma {:induction false} NumberRoundTrip(n: nat, tail: seq<byte>)
    ensures DecodeNumber(EncodeNumber(n) + tail) == Some((n, tail))
  {
    var s := EncodeNumber(n) + tail;
    if n < 0x80 {
      assert s[1..] == tail;
    } else {
      assert s[1..] == EncodeNumber(n / 0x80) + tail;
      NumberRoundTrip(n / 0x80, tail);
    }
  }

  // ---- runs of one byte, 0x00 or 0xFF ----

  /** One byte of the row: what it is, the stream after it, and the copies of the key now due. */
  function NextOfRuns(s: seq<byte>, key: byte, run: nat): Option<(byte, seq<byte>, nat)> {
    if run > 0 then Some((key, s, run - 1))
    else if s == [] then None
    else if s[0] != key then Some((s[0], s[1..], 0))
    else
      match DecodeNumber(s[1..])
      case None => None
      case Some(r) => Some((key, r.1, r.0 % 0x1_0000))
  }

  function Prepend(b: byte, r: Parsed<seq<byte>>): Parsed<seq<byte>> {
    match r
    case None => None
    case Some(p) => Some(([b] + p.0, p.1))
  }

  /** The rest of a row: `run` more copies of the key are due before the stream goes on. */
  function DecodeRuns(s: seq<byte>, n: nat, key: byte, run: nat): Parsed<seq<byte>>
    decreases n
  {
    if n == 0 then Some(([], s))
    else
      match NextOfRuns(s, key, run)
      case None => None
      case Some(t) => Prepend(t.0, DecodeRuns(t.1, n - 1, key, t.2))
  }

  function LeadingKeys(row: seq<byte>, key: byte): (k: nat)
    ensures k <= |row|
  {
    if row == [] || row[0] != key then 0 else 1 + LeadingKeys(row[1..], key)
  }

  function EncodeRuns(row: seq<byte>, key: byte): seq<byte>
    decreases |row|
  {
    if row == [] then []
    else if row[0] != key then [row[0]] + EncodeRuns(row[1..], key)
    else
      var k := LeadingKeys(row[1..], key);
      [key] + (EncodeNumber(k) + EncodeRuns(row[1 + k..], key))
  }

  lemma Regroup(b: byte, x: seq<byte>, y: seq<byte>, z: seq<byte>)
    ensures var s := ([b] + (x + y)) + z; s[0] == b && s[1..] == x + (y + z)
  {
  }

  /** The encoding of a row that starts with the key. */
  lemma EncodesRun(row: seq<byte>, key: byte, tail: seq<byte>)
    requires row != [] && row[0] == key
    ensures var k := LeadingKeys(row[1..], key);
            var s := EncodeRuns(row, key) + tail;
            s != [] && s[0] == key
            && DecodeNumber(s[1..]) == Some((k, EncodeRuns(row[1 + k..], key) + tail))
  {
    var k := LeadingKeys(row[1..], key);
    var code := EncodeRuns(row[1 + k..], key);
    assert EncodeRuns(row, key) == [key] + (EncodeNumber(k) + code);
    Regroup(key, EncodeNumber(k), code, tail);
    NumberRoundTrip(k, code + tail);
  }

  lemma DecodeRun(row: seq<byte>, key: byte, k: nat, s: seq<byte>, rest: seq<byte>, tail: seq<byte>)
    requires k < 0x1_0000 && s != [] && s[0] == key && DecodeNumber(s[1..]) == Some((k, rest))
    requires DecodeRuns(rest, |row|, key, k) == Some((row, tail))
    ensures DecodeRuns(s, |row| + 1, key, 0) == Some(([key] + row, tail))
  {
    assert k % 0x1_0000 == k;
    assert NextOfRuns(s, key, 0) == Some((key, rest, k));
  }

  /** The copies a run still owes, then what follows it. */
  lemma {:induction false} DrainRun(row: seq<byte>, key: byte, s: seq<byte>, tail: seq<byte>)
    requires var k := LeadingKeys(row, key);
             DecodeRuns(s, |row| - k, key, 0) == Some((row[k..], tail))
    ensures DecodeRuns(s, |row|, key, LeadingKeys(row, key)) == Some((row, tail))
  {
    var k := LeadingKeys(row, key);
    if k > 0 {
      assert row[1..][k - 1..] == row[k..];
      DrainRun(row[1..], key, s, tail);
      assert row == [key] + row[1..];
    } else {
      assert row[0..] == row;
    }
  }

  /** A row that starts with the key, once what follows the run decodes. */
  lemma RunFirst(row: seq<byte>, key: byte, k: nat, s: seq<byte>, rest: seq<byte>, tail: seq<byte>)
    requires 0 < |row| < 0x1_0000 && row[0] == key && k == LeadingKeys(row[1..], key)
    requires s != [] && s[0] == key && DecodeNumber(s[1..]) == Some((k, rest))
    requires DecodeRuns(rest, |row| - 1 - k, key, 0) == Some((row[1 + k..], tail))
    ensures DecodeRuns(s, |row|, key, 0) == Some((row, tail))
  {
    assert row[1..][k..] == row[1 + k..];
    DrainRun(row[1..], key, rest, tail);
    DecodeRun(row[1..], key, k, s, rest, tail);
    assert row == [key] + row[1..];
  }

  lemma {:induction false} RunsRoundTrip(row: seq<byte>, key: byte, tail: seq<byte>)
    requires |row| < 0x1_0000
    ensures DecodeRuns(EncodeRuns(row, key) + tail, |row|, key, 0) == Some((row, tail))
    decreases |row|
  {
    var s := EncodeRuns(row, key) + tail;
    if row == [] {
      assert s == tail;
    } else if row[0] != key {
      assert s[1..] == EncodeRuns(row[1..], key) + tail;
      RunsRoundTrip(row[1..], key, tail);
      assert row == [row[0]] + row[1..];
    } else {
      var k := LeadingKeys(row[1..], key);
      RunsRoundTrip(row[1 + k..], key, tail);
      EncodesRun(row, key, tail);
      RunFirst(row, key, k, s, EncodeRuns(row[1 + k..], key) + tail, tail);
    }
  }

  lemma Distribute(w: int, b: int, v: int)
    ensures w * (b + 0x80 * v) == w * b + (w * 0x80) * v
  {
  }

  /** ispVMDataSize */
  method Number(s: seq<byte>) returns (n: nat, rest: seq<byte>)
    requires DecodeNumber(s).Some?
    ensures DecodeNumber(s) == Some((n, rest))
  {
    n, rest := 0, s;
    var weight: nat := 1;
    ghost var all := DecodeNumber(s).value;
    while rest[0] >= 0x80
      invariant DecodeNumber(rest).Some? && weight >= 1
      invariant n + weight * DecodeNumber(rest).value.0 == all.0 && DecodeNumber(rest).value.1 == all.1
      decreases |rest|
    {
      ghost var v := DecodeNumber(rest[1..]).value.0;
      Distribute(weight, rest[0] - 0x80, v);
      n := n + weight * (rest[0] - 0x80);
      weight := weight * 0x80;
      rest := rest[1..];
    }
    n := n + weight * rest[0];
    rest := rest[1..];
  }

  /** The byte loop of ispVMData for the codes 0x01 and 0x02. */
  method RunsRow(s: seq<byte>, size: nat, key: byte) returns (row: seq<byte>, rest: seq<byte>)
    requires DecodeRuns(s, size, key, 0).Some?
    ensures DecodeRuns(s, size, key, 0) == Some((row, rest))
  {
    row, rest := [], s;
    var ffCount := 0;
    ghost var all := DecodeRuns(s, size, key, 0).value;
    for index := 0 to size
      invariant ffCount >= 0 && DecodeRuns(rest, size - index, key, ffCount).Some?
      invariant var r := DecodeRuns(rest, size - index, key, ffCount).value;
                row + r.0 == all.0 && r.1 == all.1
    {
      if ffCount <= 0 {
        var b := rest[0];
        rest := rest[1..];
        row := row + [b];
        if b == key {
          var n;
          n, rest := Number(rest);
          ffCount := n % 0x1_0000;
        }
      } else {
        ffCount := ffCount - 1;
        row := row + [key];
      }
    }
    assert row + [] == row;
  }

  // ---- the most frequent byte as a single bit ----

  /** The low `n` bits of `x`, most significant first. */
  function BitsOf(x: nat, n: nat): (r: seq<bool>)
    ensures |r| == n
  {
    if n == 0 then [] else BitsOf(x / 2, n - 1) + [x % 2 == 1]
  }

  function Value(bits: seq<bool>): (v: nat)
    ensures v < Pow2(|bits|)
  {
    if bits == [] then 0
    else 2 * Value(bits[..|bits| - 1]) + if bits[|bits| - 1] then 1 else 0
  }

  lemma ValueSnoc(got: seq<bool>, bit: bool)
    ensures Value(got + [bit]) == 2 * Value(got) + if bit then 1 else 0
  {
    assert (got + [bit])[..|got|] == got;
  }

  lemma HalfBelow(x: nat, n: nat)
    requires n > 0 && x < Pow2(n)
    ensures x / 2 < Pow2(n - 1)
  {
  }

  lemma {:induction false} ValueOfBits(x: nat, n: nat)
    requires x < Pow2(n)
    ensures Value(BitsOf(x, n)) == x
    decreases n
  {
    if n > 0 {
      HalfBelow(x, n);
      ValueOfBits(x / 2, n - 1);
      ValueSnoc(BitsOf(x / 2, n - 1), x % 2 == 1);
    }
  }

  lemma {:induction false} BitsOfValue(bits: seq<bool>)
    ensures BitsOf(Value(bits), |bits|) == bits
  {
    if bits != [] {
      var n := |bits| - 1;
      BitsOfValue(bits[..n]);
      assert bits == bits[..n] + [bits[n]];
      LowBit(if bits[n] then 1 else 0, Value(bits[..n]));
    }
  }

  const BYTE_BITS: nat := 8

  lemma ByteRange()
    ensures Pow2(BYTE_BITS) == 0x100
  {
    assert Pow2(4) == 16;
    assert Pow2(8) == 16 * Pow2(4);
  }

  function StreamBits(s: seq<byte>): seq<bool> {
    if s == [] then [] else BitsOf(s[0], BYTE_BITS) + StreamBits(s[1..])
  }

  function ByteOf(bits: seq<bool>): byte
    requires |bits| == BYTE_BITS
  {
    ByteRange();
    Value(bits)
  }

  /** Packs bits into bytes, the last one filled up with zeroes. */
  function Pack(bits: seq<bool>): seq<byte>
    decreases |bits|
  {
    if bits == [] then []
    else if |bits| < BYTE_BITS then [ByteOf(bits + seq(BYTE_BITS - |bits|, _ => false))]
    else [ByteOf(bits[..BYTE_BITS])] + Pack(bits[BYTE_BITS..])
  }

  /** A packed byte gives its eight bits back. */
  lemma PackedByte(full: seq<bool>, rest: seq<byte>)
    requires |full| == BYTE_BITS
    ensures StreamBits([ByteOf(full)] + rest) == full + StreamBits(rest)
  {
    BitsOfValue(full);
    assert ([ByteOf(full)] + rest)[1..] == rest;
  }

  /** The bits come back with less than a byte of filling before what follows. */
  lemma {:induction false} StreamBitsOfPack(bits: seq<bool>, tail: seq<byte>) returns (fill: seq<bool>)
    ensures |fill| < BYTE_BITS && StreamBits(Pack(bits) + tail) == bits + (fill + StreamBits(tail))
    decreases |bits|
  {
    fill := [];
    if bits == [] {
      assert [] + tail == tail && [] + (fill + StreamBits(tail)) == StreamBits(tail);
    } else if |bits| < BYTE_BITS {
      fill := seq(BYTE_BITS - |bits|, _ => false);
      PackedByte(bits + fill, tail);
      Associate(bits, fill, StreamBits(tail));
    } else {
      var first, more := bits[..BYTE_BITS], bits[BYTE_BITS..];
      fill := StreamBitsOfPack(more, tail);
      Associate([ByteOf(first)], Pack(more), tail);
      PackedByte(first, Pack(more) + tail);
      Associate(first, more, fill + StreamBits(tail));
      assert bits == first + more;
    }
  }

  /** A zero bit is the key, a one bit announces the eight bits of another byte. */
  function NextOfKeyed(bits: seq<bool>, key: byte): Option<(byte, seq<bool>)> {
    if bits == [] then None
    else if !bits[0] then Some((key, bits[1..]))
    else if |bits| < 1 + BYTE_BITS then None
    else Some((ByteOf(bits[1..1 + BYTE_BITS]), bits[1 + BYTE_BITS..]))
  }

  function After(b: byte, r: Option<(seq<byte>, seq<bool>)>): Option<(seq<byte>, seq<bool>)> {
    match r
    case None => None
    case Some(t) => Some(([b] + t.0, t.1))
  }

  /** The row and the bits behind it. */
  function DecodeKeyed(bits: seq<bool>, n: nat, key: byte): (r: Option<(seq<byte>, seq<bool>)>)
    ensures r.Some? ==> |r.value.1| <= |bits|
    decreases n
  {
    if n == 0 then Some(([], bits))
    else
      match NextOfKeyed(bits, key)
      case None => None
      case Some(t) => After(t.0, DecodeKeyed(t.1, n - 1, key))
  }

  lemma {:induction false} StreamLength(s: seq<byte>)
    ensures |StreamBits(s)| == BYTE_BITS * |s|
  {
    if s != [] {
      StreamLength(s[1..]);
    }
  }

  /** The row and the bytes behind it: a byte is used up once its first bit is. */
  function DecodeKeyedRow(s: seq<byte>, n: nat, key: byte): Option<(seq<byte>, seq<byte>)> {
    StreamLength(s);
    match DecodeKeyed(StreamBits(s), n, key)
    case None => None
    case Some(t) => Some((t.0, s[|s| - |t.1| / BYTE_BITS..]))
  }

  function CodeOf(b: byte, key: byte): seq<bool> {
    if b == key then [false] else [true] + BitsOf(b, BYTE_BITS)
  }

  function EncodeKeyed(row: seq<byte>, key: byte): seq<bool> {
    if row == [] then [] else CodeOf(row[0], key) + EncodeKeyed(row[1..], key)
  }

  lemma NextOfCode(b: byte, key: byte, rest: seq<bool>)
    ensures NextOfKeyed(CodeOf(b, key) + rest, key) == Some((b, rest))
  {
    var bits := CodeOf(b, key) + rest;
    if b == key {
      assert bits[1..] == rest;
    } else {
      ByteRange();
      ValueOfBits(b, BYTE_BITS);
      assert bits[1..1 + BYTE_BITS] == BitsOf(b, BYTE_BITS);
      assert bits[1 + BYTE_BITS..] == rest;
    }
  }

  lemma {:induction false} KeyedBits(row: seq<byte>, key: byte, more: seq<bool>)
    ensures DecodeKeyed(EncodeKeyed(row, key) + more, |row|, key) == Some((row, more))
  {
    if row == [] {
      assert [] + more == more;
    } else {
      var rest := EncodeKeyed(row[1..], key) + more;
      KeyedBits(row[1..], key, more);
      NextOfCode(row[0], key, rest);
      Associate(CodeOf(row[0], key), EncodeKeyed(row[1..], key), more);
      assert row == [row[0]] + row[1..];
    }
  }

  /** Decoding inverts encoding for every row and key and leaves exactly what follows. */
  lemma KeyedRoundTrip(row: seq<byte>, key: byte, tail: seq<byte>)
    ensures DecodeKeyedRow(Pack(EncodeKeyed(row, key)) + tail, |row|, key) == Some((row, tail))
  {
    var s := Pack(EncodeKeyed(row, key)) + tail;
    var fill := StreamBitsOfPack(EncodeKeyed(row, key), tail);
    KeyedBits(row, key, fill + StreamBits(tail));
    StreamLength(tail);
    assert |fill + StreamBits(tail)| / BYTE_BITS == |tail|;
    assert s[|s| - |tail|..] == tail;
  }

  /** The bits a reader has still to deliver: `i` bits of `cur` are used up. */
  ghost function Remaining(s: seq<byte>, pos: nat, cur: byte, i: nat): seq<bool>
    requires pos <= |s| && i <= BYTE_BITS
  {
    BitsOf(cur, BYTE_BITS)[i..] + StreamBits(s[pos..])
  }

  lemma AtStart(s: seq<byte>)
    ensures Remaining(s, 0, 0, BYTE_BITS) == StreamBits(s)
  {
    assert s[0..] == s;
  }

  /** Once a bit of `cur` is used up, the whole bytes left are those not fetched. */
  lemma BytesLeft(s: seq<byte>, pos: nat, cur: byte, i: nat)
    requires pos <= |s| && 1 <= i <= BYTE_BITS
    ensures |Remaining(s, pos, cur, i)| / BYTE_BITS == |s| - pos
  {
    StreamLength(s[pos..]);
  }

  /** Fetches a byte if the last one is used up, then `(cDataByte << i++) & 0x80`. */
  method NextBit(s: seq<byte>, pos: nat, cur: byte, i: nat) returns (bit: bool, pos1: nat, cur1: byte, i1: nat)
    requires pos <= |s| && i <= BYTE_BITS && Remaining(s, pos, cur, i) != []
    ensures pos1 <= |s| && 1 <= i1 <= BYTE_BITS
    ensures Remaining(s, pos, cur, i) == [bit] + Remaining(s, pos1, cur1, i1)
  {
    pos1, cur1, i1 := pos, cur, i;
    if i1 > 7 {
      assert s[pos..] != [];
      cur1 := s[pos];
      pos1 := pos + 1;
      i1 := 0;
      assert s[pos..][1..] == s[pos1..];
      assert Remaining(s, pos, cur, i) == Remaining(s, pos1, cur1, 0);
    }
    bit := BitsOf(cur1, BYTE_BITS)[i1];
    i1 := i1 + 1;
  }

  lemma CutAt<T>(a: seq<T>, b: seq<T>)
    ensures (a + b)[..|a|] == a && (a + b)[|a|..] == b
  {
  }

  /** `0x80 >> j` */
  function Weight(j: nat): nat
    requires j < 8
  {
    if j < 4 then (if j < 2 then (if j == 0 then 128 else 64) else if j == 2 then 32 else 16)
    else if j < 6 then (if j == 4 then 8 else 4) else if j == 6 then 2 else 1
  }

  /** The bits read so far, each in its place of a byte. */
  ghost function OnTop(got: seq<bool>): nat
    requires |got| <= BYTE_BITS
  {
    if got == [] then 0
    else
      var n := |got| - 1;
      OnTop(got[..n]) + if got[n] then Weight(n) else 0
  }

  lemma OnTopNext(got: seq<bool>, bit: bool)
    requires |got| < BYTE_BITS
    ensures OnTop(got + [bit]) == OnTop(got) + if bit then Weight(|got|) else 0
  {
    var all := got + [bit];
    assert all[..|got|] == got && all[|got|] == bit;
  }

  lemma Weights(j: nat)
    requires j < 8
    ensures Weight(j) == Pow2(BYTE_BITS - 1 - j)
  {
    assert Pow2(0) == 1 && Pow2(1) == 2 && Pow2(2) == 4 && Pow2(3) == 8;
    assert Pow2(4) == 16 && Pow2(5) == 32 && Pow2(6) == 64 && Pow2(7) == 128;
  }

  lemma Scale(v: nat, w: nat)
    ensures (2 * v) * w == v * (2 * w) && (2 * v + 1) * w == v * (2 * w) + w
  {
  }

  lemma Weigh(got: seq<bool>, bit: bool, n: nat)
    requires n > 0
    ensures Value(got + [bit]) * Pow2(n - 1) == Value(got) * Pow2(n) + if bit then Pow2(n - 1) else 0
  {
    ValueSnoc(got, bit);
    Scale(Value(got), Pow2(n - 1));
  }

  lemma {:induction false} OnTopValue(got: seq<bool>)
    requires |got| <= BYTE_BITS
    ensures OnTop(got) == Value(got) * Pow2(BYTE_BITS - |got|)
  {
    if got != [] {
      var n := |got| - 1;
      var front := got[..n];
      assert got == front + [got[n]];
      OnTopValue(front);
      Weights(n);
      Weigh(front, got[n], BYTE_BITS - n);
    }
  }

  lemma OnTopByte(got: seq<bool>)
    requires |got| == BYTE_BITS
    ensures OnTop(got) == ByteOf(got)
  {
    OnTopValue(got);
  }

  /** The inner loop for a byte that is not the key: eight bits, most significant first. */
  method NextByte(s: seq<byte>, pos: nat, cur: byte, i: nat) returns (b: byte, pos1: nat, cur1: byte, i1: nat)
    requires pos <= |s| && i <= BYTE_BITS && |Remaining(s, pos, cur, i)| >= BYTE_BITS
    ensures pos1 <= |s| && 1 <= i1 <= BYTE_BITS
    ensures var r := Remaining(s, pos, cur, i);
            b == ByteOf(r[..BYTE_BITS]) && Remaining(s, pos1, cur1, i1) == r[BYTE_BITS..]
  {
    var acc := 0;
    ghost var all := Remaining(s, pos, cur, i);
    ghost var got: seq<bool> := [];
    pos1, cur1, i1 := pos, cur, i;
    for j := 0 to BYTE_BITS
      invariant pos1 <= |s| && i1 <= BYTE_BITS && |got| == j && (j > 0 ==> i1 > 0)
      invariant all == got + Remaining(s, pos1, cur1, i1)
      invariant acc == OnTop(got)
    {
      var bit;
      assert |Remaining(s, pos1, cur1, i1)| > 0;
      bit, pos1, cur1, i1 := NextBit(s, pos1, cur1, i1);
      Associate(got, [bit], Remaining(s, pos1, cur1, i1));
      OnTopNext(got, bit);
      acc := acc + if bit then Weight(j) else 0;
      got := got + [bit];
    }
    CutAt(got, Remaining(s, pos1, cur1, i1));
    OnTopByte(got);
    b := acc;
  }

  /** One byte of the row. */
  method NextKeyed(s: seq<byte>, pos: nat, cur: byte, i: nat, key: byte)
    returns (b: byte, pos1: nat, cur1: byte, i1: nat)
    requires pos <= |s| && i <= BYTE_BITS && NextOfKeyed(Remaining(s, pos, cur, i), key).Some?
    ensures pos1 <= |s| && 1 <= i1 <= BYTE_BITS
    ensures NextOfKeyed(Remaining(s, pos, cur, i), key) == Some((b, Remaining(s, pos1, cur1, i1)))
  {
    ghost var r := Remaining(s, pos, cur, i);
    var bit;
    bit, pos1, cur1, i1 := NextBit(s, pos, cur, i);
    assert r[1..] == Remaining(s, pos1, cur1, i1);
    b := key;
    if bit {
      b, pos1, cur1, i1 := NextByte(s, pos1, cur1, i1);
      assert r[1..][..BYTE_BITS] == r[1..1 + BYTE_BITS] && r[1..][BYTE_BITS..] == r[1 + BYTE_BITS..];
    }
  }

  /** The first byte of a row, and the rest of it. */
  lemma UnrollKeyed(bits: seq<bool>, n: nat, key: byte, row: seq<byte>, left: seq<bool>)
    requires n > 0 && DecodeKeyed(bits, n, key) == Some((row, left))
    ensures NextOfKeyed(bits, key).Some? && row != [] && row == [row[0]] + row[1..]
    ensures var t := NextOfKeyed(bits, key).value;
            row[0] == t.0 && DecodeKeyed(t.1, n - 1, key) == Some((row[1..], left))
  {
  }

  /** The loop of ispVMData for the code 0xFF, with `left` the bits behind the row. */
  method KeyedLoop(s: seq<byte>, size: nat, key: byte, ghost all: seq<byte>, ghost left: seq<bool>)
    returns (row: seq<byte>, rest: seq<byte>)
    requires DecodeKeyed(StreamBits(s), size, key) == Some((all, left))
    ensures row == all && |rest| == |left| / BYTE_BITS <= |s| && rest == s[|s| - |rest|..]
  {
    row := [];
    var pos: nat, cur: byte, i: nat := 0, 0, BYTE_BITS;
    AtStart(s);
    ghost var todo := all;
    for index := 0 to size
      invariant pos <= |s| && 1 <= i <= BYTE_BITS && row + todo == all
      invariant DecodeKeyed(Remaining(s, pos, cur, i), size - index, key) == Some((todo, left))
    {
      UnrollKeyed(Remaining(s, pos, cur, i), size - index, key, todo, left);
      var b;
      b, pos, cur, i := NextKeyed(s, pos, cur, i, key);
      Associate(row, [b], todo[1..]);
      row := row + [b];
      todo := todo[1..];
    }
    BytesLeft(s, pos, cur, i);
    rest := s[pos..];
  }

  /** The branch of ispVMData for the code 0xFF, after the key has been read. */
  method KeyedRow(s: seq<byte>, size: nat, key: byte) returns (row: seq<byte>, rest: seq<byte>)
    requires DecodeKeyedRow(s, size, key).Some?
    ensures DecodeKeyedRow(s, size, key) == Some((row, rest))
  {
    ghost var t := DecodeKeyed(StreamBits(s), size, key).value;
    row, rest := KeyedLoop(s, size, key, t.0, t.1);
  }

  // ---- a repeated block of nibbles ----

  function Nibble(s: seq<byte>, j: nat): nat
    requires j < 2 * |s|
  {
    if j % 2 == 0 then s[j / 2] / 16 else s[j / 2] % 16
  }

  /** Which nibble of the block goes to place `j`, and in which repetition. */
  function Spot(c: nat, j: nat): (r: nat)
    requires c > 0
    ensures r < c
  {
    j % c
  }

  function Turn(c: nat, j: nat): nat
    requires c > 0
  {
    j / c
  }

  /** Nibble `j` of the row: the block over and over as long as it fits whole, then zero. */
  function NibbleDue(s: seq<byte>, c: nat, size: nat, j: nat): nat
    requires 0 < c <= 2 * |s|
  {
    if Turn(c, j) < 2 * size / c then Nibble(s, Spot(c, j)) else 0
  }

  ghost predicate RowOfBlock(s: seq<byte>, c: nat, size: nat, row: seq<byte>)
    requires 0 < c <= 2 * |s|
  {
    |row| == size && forall j :: 0 <= j < 2 * size ==> Nibble(row, j) == NibbleDue(s, c, size, j)
  }

  /** `|=` on a nibble that is still zero. */
  function PutNibble(row: seq<byte>, j: nat, v: nat): (r: seq<byte>)
    requires j < 2 * |row| && v < 16 && Nibble(row, j) == 0
    ensures |r| == |row| && Nibble(r, j) == v
    ensures forall k :: 0 <= k < 2 * |row| && k != j ==> Nibble(r, k) == Nibble(row, k)
  {
    row[j / 2 := row[j / 2] + if j % 2 == 0 then 16 * v else v]
  }

  /** The nibbles written once turn `i` of block position `index` is reached. */
  predicate Written(c: nat, q: nat, index: nat, i: nat, j: nat)
    requires c > 0
  {
    Turn(c, j) < q && (Spot(c, j) < index || (Spot(c, j) == index && Turn(c, j) < i))
  }

  ghost predicate WrittenSoFar(s: seq<byte>, c: nat, q: nat, index: nat, i: nat, row: seq<byte>)
    requires 0 < c <= 2 * |s|
  {
    forall j :: 0 <= j < 2 * |row| ==>
      Nibble(row, j) == if Written(c, q, index, i, j) then Nibble(s, Spot(c, j)) else 0
  }

  lemma Position(c: nat, index: nat, i: nat)
    requires index < c
    ensures Turn(c, index + i * c) == i && Spot(c, index + i * c) == index
  {
    var j := index + i * c;
    var d := j / c - i;
    assert j == (j / c) * c + j % c;
    assert d * c == index - j % c;
    Multiples(d, c);
  }

  /** Nothing but the nibble at `index + i * c` separates one turn from the next. */
  lemma OneTurn(c: nat, q: nat, index: nat, i: nat, j: nat)
    requires index < c && i < q
    ensures Written(c, q, index, i + 1, j) <==> Written(c, q, index, i, j) || j == index + i * c
    ensures j == index + i * c ==> !Written(c, q, index, i, j)
  {
    Position(c, index, i);
    assert j == (j / c) * c + j % c;
  }

  method PutNext(s: seq<byte>, c: nat, q: nat, index: nat, i: nat, row: seq<byte>, v: nat) returns (next: seq<byte>)
    requires index < c <= 2 * |s| && i < q && v == Nibble(s, index) && v < 16
    requires index + i * c < 2 * |row| && WrittenSoFar(s, c, q, index, i, row)
    ensures |next| == |row| && WrittenSoFar(s, c, q, index, i + 1, next)
  {
    var j := index + i * c;
    OneTurn(c, q, index, i, j);
    next := PutNibble(row, j, v);
    forall k | 0 <= k < 2 * |row|
      ensures Nibble(next, k) == if Written(c, q, index, i + 1, k) then Nibble(s, Spot(c, k)) else 0
    {
      OneTurn(c, q, index, i, k);
      Position(c, index, i);
    }
  }

  lemma InRow(c: nat, q: nat, index: nat, i: nat, n: nat)
    requires index < c && i < q && q * c <= n
    ensures index + i * c < n
  {
    assert (i + 1) * c <= q * c;
  }

  lemma SameTurn(spot: nat, turn: nat, q: nat, index: nat)
    ensures turn < q && (spot < index || (spot == index && turn < q))
            <==> turn < q && (spot < index + 1 || (spot == index + 1 && turn < 0))
  {
  }

  lemma NextPosition(s: seq<byte>, c: nat, q: nat, index: nat, row: seq<byte>)
    requires index < c <= 2 * |s| && WrittenSoFar(s, c, q, index, q, row)
    ensures WrittenSoFar(s, c, q, index + 1, 0, row)
  {
    forall j | 0 <= j < 2 * |row|
      ensures Nibble(row, j) == if Written(c, q, index + 1, 0, j) then Nibble(s, Spot(c, j)) else 0
    {
      SameTurn(Spot(c, j), Turn(c, j), q, index);
    }
  }

  /** The inner loop: one nibble of the block into all its places. */
  method FillPosition(s: seq<byte>, c: nat, q: nat, index: nat, row: seq<byte>, v: nat) returns (next: seq<byte>)
    requires index < c <= 2 * |s| && q * c <= 2 * |row| && v == Nibble(s, index) && v < 16
    requires WrittenSoFar(s, c, q, index, 0, row)
    ensures |next| == |row| && WrittenSoFar(s, c, q, index + 1, 0, next)
  {
    next := row;
    for i := 0 to q
      invariant |next| == |row| && WrittenSoFar(s, c, q, index, i, next)
    {
      InRow(c, q, index, i, 2 * |row|);
      next := PutNext(s, c, q, index, i, next, v);
    }
    NextPosition(s, c, q, index, next);
  }

  lemma WholeTurns(n: nat, c: nat)
    requires c > 0
    ensures (n / c) * c <= n
  {
  }

  /** Nibble `index` of the stream, with a byte fetched for every other one. */
  method NextNibble(s: seq<byte>, index: nat, cur: byte, pos: nat) returns (v: nat, cur1: byte, pos1: nat)
    requires index < 2 * |s| && pos == (index + 1) / 2 && (index % 2 == 1 ==> cur == s[index / 2])
    ensures v == Nibble(s, index) && v < 16
    ensures pos1 == (index + 2) / 2 && ((index + 1) % 2 == 1 ==> cur1 == s[(index + 1) / 2])
  {
    cur1, pos1 := cur, pos;
    if index % 2 == 0 {
      cur1 := s[pos];
      pos1 := pos + 1;
      v := cur1 / 16;
    } else {
      v := cur1 % 16;
    }
  }

  lemma AllWritten(s: seq<byte>, c: nat, size: nat, row: seq<byte>)
    requires 0 < c <= 2 * |s| && |row| == size && WrittenSoFar(s, c, 2 * size / c, c, 0, row)
    ensures RowOfBlock(s, c, size, row)
  {
    forall j | 0 <= j < 2 * size
      ensures Nibble(row, j) == NibbleDue(s, c, size, j)
    {
      assert Spot(c, j) < c;
    }
  }

  /**
   * The default branch of ispVMData: a block of `c` nibbles repeated over the row.  It
   * takes the bytes the block needs from the stream and no more.
   */
  method NibbleRow(s: seq<byte>, c: nat, size: nat) returns (row: seq<byte>, rest: seq<byte>)
    requires 0 < c <= 2 * |s|
    ensures RowOfBlock(s, c, size, row) && rest == s[(c + 1) / 2..]
  {
    row := seq(size, _ => 0);
    var q := 2 * size / c;
    WholeTurns(2 * size, c);
    var cur: byte, pos: nat := 0, 0;
    for index := 0 to c
      invariant |row| == size && WrittenSoFar(s, c, q, index, 0, row)
      invariant pos == (index + 1) / 2 && (index % 2 == 1 ==> cur == s[index / 2])
    {
      var v;
      v, cur, pos := NextNibble(s, index, cur, pos);
      row := FillPosition(s, c, q, index, row, v);
    }
    AllWritten(s, c, size, row);
    rest := s[pos..];
  }

  /** The first `c` nibbles of the row, the last byte filled up with zero. */
  function EncodeBlock(row: seq<byte>, c: nat): (r: seq<byte>)
    requires c <= 2 * |row|
    ensures |r| == (c + 1) / 2 && forall j :: 0 <= j < c ==> Nibble(r, j) == Nibble(row, j)
  {
    if c % 2 == 0 then row[..c / 2] else row[..c / 2] + [row[c / 2] / 16 * 16]
  }

  lemma SameNibbles(a: seq<byte>, b: seq<byte>)
    requires |a| == |b| && forall j :: 0 <= j < 2 * |a| ==> Nibble(a, j) == Nibble(b, j)
    ensures a == b
  {
    forall k | 0 <= k < |a|
      ensures a[k] == b[k]
    {
      assert Nibble(a, 2 * k) == Nibble(b, 2 * k);
      assert Nibble(a, 2 * k + 1) == Nibble(b, 2 * k + 1);
    }
  }

  lemma WholeBlocks(n: nat, c: nat, j: nat)
    requires c > 0 && n % c == 0 && j < n
    ensures Turn(c, j) < n / c
  {
    assert n == (n / c) * c;
    assert j == (j / c) * c + j % c;
    Multiples(j / c - n / c + 1, c);
    assert (j / c - n / c) * c == (j / c) * c - (n / c) * c;
  }

  /**
   * A row that repeats its first `c` nibbles comes back exactly when what lies beyond
   * the last whole block is zero, as it always is when `c` divides the row.
   */
  lemma BlockRoundTrip(row: seq<byte>, c: nat, tail: seq<byte>, decoded: seq<byte>)
    requires 0 < c <= 2 * |row|
    requires forall j :: 0 <= j < 2 * |row| ==> Nibble(row, j) == Nibble(row, Spot(c, j))
    requires RowOfBlock(EncodeBlock(row, c) + tail, c, |row|, decoded)
    ensures decoded == row <==> forall j :: 0 <= j < 2 * |row| && Turn(c, j) >= 2 * |row| / c ==> Nibble(row, j) == 0
    ensures 2 * |row| % c == 0 ==> decoded == row
    ensures (EncodeBlock(row, c) + tail)[(c + 1) / 2..] == tail
  {
    var s := EncodeBlock(row, c) + tail;
    forall j | 0 <= j < 2 * |row|
      ensures Nibble(decoded, j) == if Turn(c, j) < 2 * |row| / c then Nibble(row, j) else 0
    {
      assert Nibble(s, Spot(c, j)) == Nibble(EncodeBlock(row, c), Spot(c, j));
    }
    if 2 * |row| % c == 0 {
      forall j | 0 <= j < 2 * |row|
        ensures Turn(c, j) < 2 * |row| / c
      {
        WholeBlocks(2 * |row|, c, j);
      }
    }
    if forall j :: 0 <= j < 2 * |row| ==> Nibble(decoded, j) == Nibble(row, j) {
      SameNibbles(decoded, row);
    }
  }
}
