/** What several of the models share. */
module Basics {
  datatype Option<T> = None | Some(value: T)

  type byte = x: int | 0 <= x < 256

  lemma Associate<T>(a: seq<T>, b: seq<T>, c: seq<T>)
    ensures (a + b) + c == a + (b + c)
  {
  }

  /** A multiple of `c` that is not zero is at least `c` away from it. */
  lemma {:induction false} Multiples(k: int, c: nat)
    requires c > 0
    ensures k >= 1 ==> k * c >= c
    ensures k <= -1 ==> k * c <= 0 - c
    decreases if k < 0 then 0 - k else k
  {
    if k >= 1 {
      Multiples(k - 1, c);
      assert k * c == (k - 1) * c + c;
    } else if k <= -1 {
      Multiples(k + 1, c);
      assert k * c == (k + 1) * c - c;
    }
  }
}
