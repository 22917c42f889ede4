/**
 * The Internet checksum of the interceptors (fred_framework/interceptors/utils.h,
 * csum) against the one's-complement sum of section 1 of RFC 1071.
 */
module Checksum {
  type half = x: int | 0 <= x < 0x1_0000

  // ---- the reference ----

  /** Addition with end-around carry. */
  function OnesAdd(a: half, b: half): half { if a + b < 0x1_0000 then a + b else a + b - 0xFFFF }

  function OnesSum(ws: seq<half>): half {
    if ws == [] then 0 else OnesAdd(OnesSum(ws[..|ws| - 1]), ws[|ws| - 1])
  }

  // ---- the code ----

  function Sum(ws: seq<half>): (s: nat)
    ensures s <= 0xFFFF * |ws|
  {
    if ws == [] then 0 else Sum(ws[..|ws| - 1]) + ws[|ws| - 1]
  }

  function Folded(sum: nat): half {
    var a := sum / 0x1_0000 + sum % 0x1_0000;
    (a + a / 0x1_0000) % 0x1_0000
  }

  lemma WrapStep(s: nat, w: half)
    ensures (s % 0x1_0000_0000 + w) % 0x1_0000_0000 == (s + w) % 0x1_0000_0000
  {
  }

  function Code(ws: seq<half>): half { 0xFFFF - Folded(Sum(ws) % 0x1_0000_0000) }

  /** csum: a 32-bit sum, two folds and the complement. */
  method Csum(buff: seq<half>) returns (c: half)
    ensures c == Code(buff)
  {
    var sum: int := 0;
    for i := 0 to |buff|
      invariant sum == Sum(buff[..i]) % 0x1_0000_0000
    {
      assert buff[..i + 1][..i] == buff[..i];
      WrapStep(Sum(buff[..i]), buff[i]);
      sum := (sum + buff[i]) % 0x1_0000_0000;
    }
    assert buff[..|buff|] == buff;
    sum := sum / 0x1_0000 + sum % 0x1_0000;
    sum := sum + sum / 0x1_0000;
    c := 0xFFFF - sum % 0x1_0000;
  }

  // ---- two folds suffice ----

  /** The residue modulo 65535, with 65535 in place of 0 unless the sum is 0. */
  function Residue(n: nat): half { if n == 0 then 0 else (n - 1) % 0xFFFF + 1 }

  lemma ResidueOf(q: nat, r: nat)
    requires 1 <= r <= 0xFFFF
    ensures Residue(0xFFFF * q + r) == r
  {
  }

  lemma FoldedIsResidue(n: nat)
    requires n < 0x1_0000_0000
    ensures Folded(n) == Residue(n)
  {
    var h, l := n / 0x1_0000, n % 0x1_0000;
    var a := h + l;
    assert n == 0xFFFF * h + a;
    if n > 0 {
      assert a >= 1 && a <= 2 * 0xFFFF;
      if a <= 0xFFFF {
        ResidueOf(h, a);
      } else {
        ResidueOf(h + 1, a - 0xFFFF);
      }
    }
  }

  lemma ResidueAdd(n: nat, w: half)
    ensures Residue(n + w) == OnesAdd(Residue(n), w)
  {
    if n > 0 {
      var q, r := (n - 1) / 0xFFFF, Residue(n);
      assert n == 0xFFFF * q + r;
      if r + w <= 0xFFFF {
        ResidueOf(q, r + w);
      } else {
        ResidueOf(q + 1, r + w - 0xFFFF);
      }
    } else if w > 0 {
      ResidueOf(0, w);
    }
  }

  lemma {:induction false} OnesSumIsResidue(ws: seq<half>)
    ensures OnesSum(ws) == Residue(Sum(ws))
  {
    if ws != [] {
      var front := ws[..|ws| - 1];
      OnesSumIsResidue(front);
      ResidueAdd(Sum(front), ws[|ws| - 1]);
    }
  }

  lemma NoOverflow(sum: nat, n: nat)
    requires n <= 65537 && sum <= 0xFFFF * n
    ensures sum < 0x1_0000_0000 && sum % 0x1_0000_0000 == sum
  {
  }

  /** For up to 65537 words the code is the complement of the one's-complement sum. */
  lemma CodeIsComplement(ws: seq<half>)
    requires |ws| <= 65537
    ensures Code(ws) == 0xFFFF - OnesSum(ws)
  {
    NoOverflow(Sum(ws), |ws|);
    assert Folded(Sum(ws)) == Residue(Sum(ws)) by { FoldedIsResidue(Sum(ws)); }
    assert OnesSum(ws) == Residue(Sum(ws)) by { OnesSumIsResidue(ws); }
  }

  lemma {:induction false} SumOfZeroes(ws: seq<half>, n: nat)
    ensures Sum(ws + seq(n, _ => 0)) == Sum(ws)
    decreases n
  {
    var all := ws + seq(n, _ => 0);
    if n > 0 {
      assert all[..|all| - 1] == ws + seq(n - 1, _ => 0);
      SumOfZeroes(ws, n - 1);
    } else {
      assert all == ws;
    }
  }

  lemma {:induction false} SumOfFull(ws: seq<half>)
    requires forall i :: 0 <= i < |ws| ==> ws[i] == 0xFFFF
    ensures Sum(ws) == 0xFFFF * |ws|
  {
    if ws != [] {
      SumOfFull(ws[..|ws| - 1]);
    }
  }

  /** For every larger size the 32-bit sum can overflow and the code goes wrong. */
  lemma LimitIsExact(n: nat) returns (ws: seq<half>)
    requires n > 65537
    ensures |ws| == n && Code(ws) != 0xFFFF - OnesSum(ws)
  {
    var full: seq<half> := seq(65538, _ => 0xFFFF);
    SumOfFull(full);
    ws := full + seq(n - 65538, _ => 0);
    SumOfZeroes(full, n - 65538);
    OnesSumIsResidue(ws);
    assert Sum(ws) == 0x1_0000_0000 + 65534;
    FoldedIsResidue(65534);
    ResidueOf(0, 65534);
    ResidueOf(65537, 0xFFFF);
  }

  // ---- word order, and verifying a stored checksum ----

  lemma {:induction false} SumSplit(ws: seq<half>, k: nat)
    requires k < |ws|
    ensures Sum(ws) == Sum(ws[..k] + ws[k + 1..]) + ws[k]
    decreases |ws|
  {
    var n := |ws| - 1;
    if k < n {
      SumSplit(ws[..n], k);
      var cut := ws[..k] + ws[k + 1..];
      assert cut[..|cut| - 1] == ws[..n][..k] + ws[..n][k + 1..];
    } else {
      assert ws[..k] + ws[k + 1..] == ws[..n];
    }
  }

  lemma WithoutOne(ws: seq<half>, k: nat)
    requires k < |ws|
    ensures multiset(ws) == multiset(ws[..k] + ws[k + 1..]) + multiset{ws[k]}
  {
    assert ws == ws[..k] + ([ws[k]] + ws[k + 1..]);
  }

  /** The other order without one copy of its own word is still a permutation. */
  lemma PermutationRest(a: seq<half>, b: seq<half>, k: nat)
    requires a != [] && multiset(a) == multiset(b) && k < |b| && b[k] == a[0]
    ensures multiset(a[..0] + a[1..]) == multiset(b[..k] + b[k + 1..])
  {
    WithoutOne(a, 0);
    WithoutOne(b, k);
    var m := multiset{a[0]};
    assert multiset(a) - m == multiset(a[..0] + a[1..]);
    assert multiset(b) - m == multiset(b[..k] + b[k + 1..]);
  }

  lemma {:induction false} SumOfPermutation(a: seq<half>, b: seq<half>)
    requires multiset(a) == multiset(b)
    ensures Sum(a) == Sum(b)
    decreases |a|
  {
    if a == [] {
      assert b == [] by { assert |multiset(b)| == |b| && |multiset(a)| == 0; }
    } else {
      var k :| 0 <= k < |b| && b[k] == a[0] by { assert a[0] in multiset(b); }
      PermutationRest(a, b, k);
      SumOfPermutation(a[..0] + a[1..], b[..k] + b[k + 1..]);
      SumSplit(a, 0);
      SumSplit(b, k);
    }
  }

  /** The checksum does not depend on the order of the words. */
  lemma OrderDoesNotMatter(a: seq<half>, b: seq<half>)
    requires multiset(a) == multiset(b)
    ensures Code(a) == Code(b)
  {
    SumOfPermutation(a, b);
  }

  /** A buffer whose zeroed word is replaced by the checksum sums up to zero. */
  lemma StoredChecksumVerifies(ws: seq<half>, k: nat)
    requires k < |ws| <= 65537 && ws[k] == 0
    ensures Code(ws[k := Code(ws)]) == 0
  {
    var c := Code(ws);
    var stored := ws[k := c];
    SumSplit(ws, k);
    SumSplit(stored, k);
    assert stored[..k] + stored[k + 1..] == ws[..k] + ws[k + 1..];
    CodeIsComplement(ws);
    CodeIsComplement(stored);
    OnesSumIsResidue(ws);
    OnesSumIsResidue(stored);
    ResidueAdd(Sum(ws), c);
  }
}
