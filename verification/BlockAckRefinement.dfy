/**
 * The 12-bit reordering of BlockAckReordering against an unbounded reorder
 * buffer.
 *
 * The reference buffer numbers frames by the sender's own counter, holds them
 * in a map and has one rule: slide the window far enough, then pass up
 * everything before the first gap.  A step of the driver agrees with it if and
 * only if `Clean` holds, and the order, window and delivery theorems follow.
 */
module BlockAckRefinement {
  import opened Basics
  import opened BlockAckReordering

  // ---- the reference buffer ----

  /** Nothing indicated yet, or everything up to `last` passed up or given up. */
  datatype Position = Unset | At(last: int)

  datatype Buffer = Buffer(pos: Position, held: map<int, Frame>, win: nat, timer: int)

  /** Passing up the held frames numbered `lo` to `hi`, in that order. */
  function Between(held: map<int, Frame>, lo: int, hi: int): (r: seq<Outcome>)
    decreases hi - lo + 1
  {
    if lo > hi then []
    else (if lo in held then [Announce(held[lo])] else []) + Between(held, lo + 1, hi)
  }

  lemma Shrinks(held: map<int, Frame>, n: int)
    requires n in held
    ensures |held - {n}| < |held|
  {
    var rest := held - {n};
    assert rest.Keys == held.Keys - {n};
    assert |rest.Keys| == |rest| && |held.Keys| == |held|;
  }

  /** The first number from `n` on that is not held. */
  function FirstGap(held: map<int, Frame>, n: int): (g: int)
    ensures n <= g && g !in held
    ensures forall k :: n <= k < g ==> k in held
    decreases |held|
  {
    if n !in held then n
    else
      assert |held - {n}| < |held| by { Shrinks(held, n); }
      var g := FirstGap(held - {n}, n + 1);
      assert forall k :: n <= k < g ==> k in held by {
        assert forall k :: k in held - {n} ==> k in held;
      }
      g
  }

  function Above(held: map<int, Frame>, k: int): map<int, Frame> {
    map n | n in held && n > k :: held[n]
  }

  /** Gives up on numbers up to `k`, then passes up everything before the next gap. */
  function Advance(b: Buffer, k: int): (Buffer, seq<Outcome>)
    requires b.pos.At?
  {
    var g := FirstGap(b.held, k + 1);
    (b.(pos := At(g - 1), held := Above(b.held, g - 1)), Between(b.held, b.pos.last + 1, g - 1))
  }

  function Max(a: int, b: int): int { if a < b then b else a }

  /** `keep` is false for a frame that cannot be buffered. */
  function Accept(b: Buffer, f: Frame, keep: bool): (Buffer, seq<Outcome>) {
    if b.pos.Unset? then
      (b.(pos := At(f.sn)), [Announce(f)])
    else if f.sn <= b.pos.last || f.sn in b.held then
      (b, [Release(f)])
    else
      var k := if keep then Max(b.pos.last, f.sn - b.win) else f.sn;
      Advance(b.(held := b.held[f.sn := f]), k)
  }

  function FlushBuffer(b: Buffer): (Buffer, seq<Outcome>) {
    var out := if b.pos.At? then Between(b.held, b.pos.last + 1, b.pos.last + b.win) else [];
    (b.(pos := Unset, held := map[]), out + [Reset])
  }

  function TimeoutBuffer(b: Buffer, now: int): (Buffer, seq<Outcome>) {
    if TimeAfter(now, b.timer + MAX_REORDERING_PACKET_TIMEOUT / 6) && |b.held| > 1 then
      var (d, out) := FlushBuffer(b);
      (d.(timer := now), out)
    else if TimeAfter(now, b.timer + REORDERING_PACKET_TIMEOUT) && |b.held| > 0 && b.pos.At? then
      Advance(b.(timer := now), b.pos.last + 1)
    else
      (b, [])
  }

  function BarBuffer(b: Buffer, start: int): (Buffer, seq<Outcome>) {
    if b.pos.Unset? then
      (b.(pos := At(start - 1)), [])
    else if start <= b.pos.last then
      (b, [])
    else
      Advance(b, start - 1)
  }

  function DataBuffer(b: Buffer, f: Frame, now: int, keep: bool): (Buffer, seq<Outcome>) {
    if Oversize(f) then (b, [Release(f)])
    else
      var (d, out1) := TimeoutBuffer(b, now);
      var (e, out2) := Accept(d.(timer := now), f, keep);
      (e, out1 + out2)
  }

  function BufferStep(b: Buffer, e: Event): (Buffer, seq<Outcome>) {
    match e
    case Data(f, now, alloc) => DataBuffer(b, f, now, alloc && !f.eapol)
    case Flush(now) => TimeoutBuffer(b, now)
    case Bar(start) => BarBuffer(b, start)
    case IdleTimeout(now) =>
      if TimeAfter(now, b.timer + REC_BA_SESSION_IDLE_TIMEOUT) then FlushBuffer(b) else (b, [])
  }

  // ---- the abstraction relation ----

  /** Strictly increasing, from `lo` to `hi`. */
  predicate Sorted(list: List, lo: int, hi: int) {
    list.Cons? ==> lo <= list.head.sn <= hi && Sorted(list.tail, list.head.sn + 1, hi)
  }

  function HeldOf(list: List): map<int, Frame> {
    if list.Nil? then map[] else HeldOf(list.tail)[list.head.sn := list.head]
  }

  /**
   * The session and the reference buffer are in the same state: same frames,
   * the list sorted, and every held frame 2..BAWinSize ahead of the last one.
   */
  predicate Rel(c: Session, b: Buffer) {
    && 1 <= c.win == b.win <= 255
    && c.timer == b.timer
    && b.held == HeldOf(c.list)
    && match b.pos
       case Unset => c.last == RESET_RCV_SEQ && c.list == Nil
       case At(last) => c.last == last % 4096 && Sorted(c.list, last + 2, last + c.win)
  }

  /** The sender is at most half the sequence space away from the receiver. */
  predicate Near(pos: Position, n: int) {
    pos.At? ==> pos.last - 2048 <= n < pos.last + 2048
  }

  predicate Numbered(b: Buffer, e: Event) {
    match e
    case Data(f, now, _) => Oversize(f) || Near(TimeoutBuffer(b, now).0.pos, f.sn)
    case Bar(start) => b.pos.At? ==> b.pos.last - 2047 <= start <= b.pos.last + 2048
    case _ => true
  }

  /** A frame that could not be buffered leaves neither a copy nor its successor behind. */
  predicate CleanAccept(b: Buffer, f: Frame, keep: bool) {
    keep || b.pos.Unset? || f.sn == b.pos.last + 1 || (f.sn !in b.held && f.sn + 1 !in b.held)
  }

  /**
   * A request whose start is not held and, before the first frame, is in the lower half of
   * the 12-bit numbers: RESET_RCV_SEQ compares as smaller with no other.
   */
  predicate CleanBar(b: Buffer, start: int) {
    start !in b.held && (b.pos.Unset? ==> start % 4096 < 2048)
  }

  predicate Clean(b: Buffer, e: Event) {
    match e
    case Data(f, now, alloc) =>
      Oversize(f) || CleanAccept(TimeoutBuffer(b, now).0, f, alloc && !f.eapol)
    case Bar(start) => CleanBar(b, start)
    case _ => true
  }

  // ---- 12-bit comparisons ----

  lemma CompareNear(a: int, b: int)
    requires -2048 <= a - b < 2048
    ensures SeqSmaller(a % 4096, b % 4096) <==> a < b
    ensures a % 4096 == b % 4096 <==> a == b
  {
    assert (a % 4096 - b % 4096) % 4096 == (a - b) % 4096;
  }

  lemma StepOneNear(a: int, b: int)
    requires -2048 <= a - b <= 2048
    ensures SeqStepOne(a % 4096, b % 4096) <==> a == b + 1
  {
    assert (b % 4096 + 1) % 4096 == (b + 1) % 4096;
  }

  // ---- the reference buffer, by parts ----

  lemma GapUnique(held: map<int, Frame>, n: int, g: int)
    requires n <= g && g !in held && forall k :: n <= k < g ==> k in held
    ensures FirstGap(held, n) == g
  {
  }

  lemma {:induction false} BetweenSplit(held: map<int, Frame>, lo: int, mid: int, hi: int)
    requires lo <= mid + 1 && mid <= hi
    ensures Between(held, lo, hi) == Between(held, lo, mid) + Between(held, mid + 1, hi)
    decreases mid - lo + 1
  {
    if lo <= mid {
      BetweenSplit(held, lo + 1, mid, hi);
    }
  }

  lemma {:induction false} BetweenAgree(a: map<int, Frame>, b: map<int, Frame>, lo: int, hi: int)
    requires forall n :: lo <= n <= hi ==> (n in a <==> n in b) && (n in a ==> a[n] == b[n])
    ensures Between(a, lo, hi) == Between(b, lo, hi)
    decreases hi - lo + 1
  {
    if lo <= hi {
      BetweenAgree(a, b, lo + 1, hi);
    }
  }

  lemma GapAbove(held: map<int, Frame>, k: int)
    ensures FirstGap(held, k + 1) == FirstGap(Above(held, k), k + 1)
  {
    var rest := Above(held, k);
    var g := FirstGap(rest, k + 1);
    assert forall n :: k + 1 <= n < g ==> n in held by {
      assert forall n :: n in rest ==> n in held;
    }
    GapUnique(held, k + 1, g);
  }

  /** Advancing to `k` first discards what is numbered up to `k`, then follows the run. */
  lemma AdvanceByParts(b: Buffer, k: int)
    requires b.pos.At? && b.pos.last <= k
    ensures var rest := Above(b.held, k);
            var g := FirstGap(rest, k + 1);
            Advance(b, k) == (b.(pos := At(g - 1), held := Above(rest, g - 1)),
                              Between(b.held, b.pos.last + 1, k) + Between(rest, k + 1, g - 1))
  {
    var rest := Above(b.held, k);
    var g := FirstGap(rest, k + 1);
    GapAbove(b.held, k);
    BetweenSplit(b.held, b.pos.last + 1, k, g - 1);
    BetweenAgree(b.held, rest, k + 1, g - 1);
    assert Above(rest, g - 1) == Above(b.held, g - 1);
  }

  // ---- sorted lists and the maps they stand for ----

  lemma {:induction false} HeldKeys(list: List, lo: int, hi: int)
    requires Sorted(list, lo, hi)
    ensures |HeldOf(list)| == list.Length()
    ensures forall n :: n in HeldOf(list) ==> lo <= n <= hi && HeldOf(list)[n].sn == n
  {
    if list.Cons? {
      HeldKeys(list.tail, list.head.sn + 1, hi);
    }
  }

  lemma {:induction false} SortedWiden(list: List, lo: int, hi: int, lo1: int, hi1: int)
    requires Sorted(list, lo, hi) && lo1 <= lo && hi <= hi1
    ensures Sorted(list, lo1, hi1)
  {
    if list.Cons? {
      SortedWiden(list.tail, list.head.sn + 1, hi, list.head.sn + 1, hi1);
    }
  }

  lemma {:induction false} SortedLength(list: List, lo: int, hi: int)
    requires Sorted(list, lo, hi) && lo <= hi + 1
    ensures list.Length() <= hi - lo + 1
  {
    if list.Cons? {
      SortedLength(list.tail, list.head.sn + 1, hi);
    }
  }

  lemma {:induction false} BetweenEmpty(held: map<int, Frame>, lo: int, hi: int)
    requires forall n :: lo <= n <= hi ==> n !in held
    ensures Between(held, lo, hi) == []
    decreases hi - lo + 1
  {
    if lo <= hi {
      BetweenEmpty(held, lo + 1, hi);
    }
  }

  lemma BetweenHead(list: List, lo: int, k: int, hi: int)
    requires list.Cons? && Sorted(list, lo, hi) && list.head.sn <= k
    ensures Between(HeldOf(list), lo, k)
            == [Announce(list.head)] + Between(HeldOf(list.tail), list.head.sn + 1, k)
  {
    var n := list.head.sn;
    HeldKeys(list.tail, n + 1, hi);
    BetweenSplit(HeldOf(list), lo, n - 1, k);
    BetweenEmpty(HeldOf(list), lo, n - 1);
    BetweenAgree(HeldOf(list), HeldOf(list.tail), n + 1, k);
  }

  lemma AboveHead(list: List, lo: int, k: int, hi: int)
    requires list.Cons? && Sorted(list, lo, hi)
    ensures list.head.sn <= k ==> Above(HeldOf(list), k) == Above(HeldOf(list.tail), k)
    ensures list.head.sn > k ==> Above(HeldOf(list), k) == HeldOf(list)
  {
    HeldKeys(list.tail, list.head.sn + 1, hi);
  }

  // ---- the 12-bit list functions on the sender's numbers ----

  lemma {:induction false} TakeLeMeaning(list: List, lo: int, k: int, hi: int)
    requires Sorted(list, lo, hi) && k - 2048 <= lo <= k + 1 && hi <= k + 2047
    ensures TakeLe(list, k % 4096) == Between(HeldOf(list), lo, k)
  {
    if list.Nil? {
      BetweenEmpty(HeldOf(list), lo, k);
    } else {
      CompareNear(list.head.sn, k);
      if list.head.sn <= k {
        TakeLeMeaning(list.tail, list.head.sn + 1, k, hi);
        BetweenHead(list, lo, k, hi);
      } else {
        HeldKeys(list, list.head.sn, hi);
        BetweenEmpty(HeldOf(list), lo, k);
      }
    }
  }

  lemma {:induction false} DropLeMeaning(list: List, lo: int, k: int, hi: int)
    requires Sorted(list, lo, hi) && k - 2048 <= lo <= k + 1 && hi <= k + 2047
    ensures Sorted(DropLe(list, k % 4096), k + 1, hi)
    ensures HeldOf(DropLe(list, k % 4096)) == Above(HeldOf(list), k)
  {
    if list.Cons? {
      AboveHead(list, lo, k, hi);
      CompareNear(list.head.sn, k);
      if list.head.sn <= k {
        DropLeMeaning(list.tail, list.head.sn + 1, k, hi);
      }
    }
  }

  /** Taking the frames up to number `k` from a list sorted by the sender's numbers. */
  lemma LeMeaning(list: List, lo: int, k: int, hi: int)
    requires Sorted(list, lo, hi) && k - 2048 <= lo <= k + 1 && hi <= k + 2047
    ensures TakeLe(list, k % 4096) == Between(HeldOf(list), lo, k)
    ensures Sorted(DropLe(list, k % 4096), k + 1, hi)
    ensures HeldOf(DropLe(list, k % 4096)) == Above(HeldOf(list), k)
  {
    TakeLeMeaning(list, lo, k, hi);
    DropLeMeaning(list, lo, k, hi);
  }

  lemma GapHead(list: List, k: int, hi: int)
    requires Sorted(list, k + 1, hi)
    ensures FirstGap(HeldOf(list), k + 1)
            == if list.Cons? && list.head.sn == k + 1 then FirstGap(HeldOf(list.tail), k + 2) else k + 1
  {
    if list.Cons? {
      HeldKeys(list.tail, list.head.sn + 1, hi);
      if list.head.sn == k + 1 {
        var g := FirstGap(HeldOf(list.tail), k + 2);
        assert forall n :: k + 2 <= n < g ==> n in HeldOf(list) by {
          assert forall n :: n in HeldOf(list.tail) ==> n in HeldOf(list);
        }
        GapUnique(HeldOf(list), k + 1, g);
      }
    }
  }

  lemma {:induction false} TakeRunMeaning(list: List, k: int, hi: int)
    requires Sorted(list, k + 1, hi) && hi <= k + 2048
    ensures var g := FirstGap(HeldOf(list), k + 1);
            RunEnd(list, k % 4096) == (g - 1) % 4096 && TakeRun(list, k % 4096) == Between(HeldOf(list), k + 1, g - 1)
  {
    GapHead(list, k, hi);
    if list.Cons? {
      StepOneNear(list.head.sn, k);
      if list.head.sn == k + 1 {
        TakeRunMeaning(list.tail, k + 1, hi);
        BetweenHead(list, k + 1, FirstGap(HeldOf(list), k + 1) - 1, hi);
      }
    }
  }

  lemma {:induction false} DropRunMeaning(list: List, k: int, hi: int)
    requires Sorted(list, k + 1, hi) && hi <= k + 2048
    ensures var g := FirstGap(HeldOf(list), k + 1);
            && Sorted(DropRun(list, k % 4096), g + 1, hi)
            && HeldOf(DropRun(list, k % 4096)) == Above(HeldOf(list), g - 1)
  {
    GapHead(list, k, hi);
    if list.Cons? {
      StepOneNear(list.head.sn, k);
      AboveHead(list, k + 1, FirstGap(HeldOf(list), k + 1) - 1, hi);
      if list.head.sn == k + 1 {
        DropRunMeaning(list.tail, k + 1, hi);
      }
    }
  }

  /** Taking the run that continues number `k` from a list sorted by the sender's numbers. */
  lemma RunMeaning(list: List, k: int, hi: int)
    requires Sorted(list, k + 1, hi) && hi <= k + 2048
    ensures var g := FirstGap(HeldOf(list), k + 1);
            && RunEnd(list, k % 4096) == (g - 1) % 4096
            && TakeRun(list, k % 4096) == Between(HeldOf(list), k + 1, g - 1)
            && Sorted(DropRun(list, k % 4096), g + 1, hi)
            && HeldOf(DropRun(list, k % 4096)) == Above(HeldOf(list), g - 1)
  {
    TakeRunMeaning(list, k, hi);
    DropRunMeaning(list, k, hi);
  }

  lemma {:induction false} InsertMeaning(list: List, f: Frame, lo: int, hi: int)
    requires Sorted(list, lo, hi) && lo <= f.sn <= hi && hi - lo < 2048
    ensures var r := InsertSorted(list, f);
            && (r.None? <==> f.sn in HeldOf(list))
            && (r.Some? ==> Sorted(r.value, lo, hi) && HeldOf(r.value) == HeldOf(list)[f.sn := f])
  {
    if list.Cons? {
      CompareNear(list.head.sn, f.sn);
      HeldKeys(list.tail, list.head.sn + 1, hi);
      if list.head.sn < f.sn {
        InsertMeaning(list.tail, f, list.head.sn + 1, hi);
      }
    }
  }

  // ---- the steps ----

  /** Passing up to `k`, moving there, and continuing in order is one `Advance`. */
  lemma LeThenInOrder(b: Buffer, list: List, k: int, hi: int)
    requires b.pos.At? && b.pos.last <= k && b.held == HeldOf(list)
    requires Sorted(list, b.pos.last + 1, hi)
    requires k - 2049 <= b.pos.last && hi <= k + 2047
    ensures var s := k % 4096;
            var rest := DropLe(list, s);
            var (a, out) := Advance(b, k);
            && out == TakeLe(list, s) + TakeRun(rest, s)
            && a == b.(pos := At(a.pos.last), held := HeldOf(DropRun(rest, s)))
            && k <= a.pos.last
            && RunEnd(rest, s) == a.pos.last % 4096
            && Sorted(DropRun(rest, s), a.pos.last + 2, hi)
  {
    var s := k % 4096;
    LeMeaning(list, b.pos.last + 1, k, hi);
    RunMeaning(DropLe(list, s), k, hi);
    AdvanceByParts(b, k);
  }

  /** Nothing is numbered below the run, so advancing just follows it. */
  lemma AdvanceAlongRun(b: Buffer, list: List, hi: int)
    requires b.pos.At? && b.held == HeldOf(list)
    requires Sorted(list, b.pos.last + 1, hi) && hi <= b.pos.last + 2047
    ensures var s := b.pos.last % 4096;
            var (a, out) := Advance(b, b.pos.last);
            && out == TakeRun(list, s)
            && a == b.(pos := At(a.pos.last), held := HeldOf(DropRun(list, s)))
            && b.pos.last <= a.pos.last
            && RunEnd(list, s) == a.pos.last % 4096
            && Sorted(DropRun(list, s), a.pos.last + 2, hi)
  {
    RunMeaning(list, b.pos.last, hi);
  }

  lemma AdvanceOverHeld(b: Buffer, k: int)
    requires b.pos.At? && k + 1 in b.held
    ensures Advance(b, k + 1) == Advance(b, k)
  {
    GapUnique(b.held, k + 1, FirstGap(b.held, k + 2));
  }

  lemma AcceptNextIsAdvance(b: Buffer, f: Frame, keep: bool)
    requires b.pos.At? && f.sn == b.pos.last + 1 && f.sn !in b.held && 1 <= b.win
    ensures Accept(b, f, keep) == Advance(b.(held := b.held[f.sn := f]), b.pos.last)
  {
    AdvanceOverHeld(b.(held := b.held[f.sn := f]), b.pos.last);
  }

  lemma RunOfNext(f: Frame, list: List, last: int)
    requires f.sn == last + 1
    ensures TakeRun(Cons(f, list), last % 4096) == [Announce(f)] + TakeRun(list, Seq(f))
    ensures DropRun(Cons(f, list), last % 4096) == DropRun(list, Seq(f))
    ensures RunEnd(Cons(f, list), last % 4096) == RunEnd(list, Seq(f))
  {
    StepOneNear(f.sn, last);
  }

  lemma AcceptNext(b: Buffer, list: List, f: Frame, keep: bool)
    requires b.pos.At? && f.sn == b.pos.last + 1 && 1 <= b.win <= 255
    requires b.held == HeldOf(list) && Sorted(list, b.pos.last + 2, b.pos.last + b.win)
    ensures var s := Seq(f);
            var (a, out) := Accept(b, f, keep);
            && out == [Announce(f)] + TakeRun(list, s)
            && a == b.(pos := At(a.pos.last), held := HeldOf(DropRun(list, s)))
            && RunEnd(list, s) == a.pos.last % 4096
            && b.pos.last <= a.pos.last
            && Sorted(DropRun(list, s), a.pos.last + 2, b.pos.last + b.win)
  {
    assert f.sn !in b.held by { HeldKeys(list, b.pos.last + 2, b.pos.last + b.win); }
    var b1 := b.(held := b.held[f.sn := f]);
    AdvanceAlongRun(b1, Cons(f, list), b.pos.last + b.win);
    RunOfNext(f, list, b.pos.last);
    AcceptNextIsAdvance(b, f, keep);
  }

  /** Case I: the next number in order. */
  lemma InOrderRefines(c: Session, b: Buffer, f: Frame, alloc: bool)
    requires Rel(c, b) && b.pos.At? && f.sn == b.pos.last + 1
    ensures var keep := alloc && !f.eapol;
            Receive(c, f, alloc).1 == Accept(b, f, keep).1
            && Rel(Receive(c, f, alloc).0, Accept(b, f, keep).0)
  {
    StepOneNear(f.sn, b.pos.last);
    AcceptNext(b, c.list, f, alloc && !f.eapol);
    var n := Accept(b, f, alloc && !f.eapol).0.pos.last;
    SortedWiden(DropRun(c.list, Seq(f)), n + 2, b.pos.last + c.win, n + 2, n + c.win);
  }

  /** Case IV: inside the window. */
  lemma KeepRefines(c: Session, b: Buffer, f: Frame)
    requires Rel(c, b) && b.pos.At? && b.pos.last + 2 <= f.sn <= b.pos.last + c.win
    requires !f.eapol
    ensures Enqueue(c, f, true).1 == Accept(b, f, true).1
            && Rel(Enqueue(c, f, true).0, Accept(b, f, true).0)
  {
    var last := b.pos.last;
    InsertMeaning(c.list, f, last + 2, last + c.win);
    var r := InsertSorted(c.list, f);
    if r.Some? {
      var b1 := b.(held := b.held[f.sn := f]);
      HeldKeys(r.value, last + 2, last + c.win);
      GapUnique(b1.held, last + 1, last + 1);
      assert Above(b1.held, last) == b1.held;
    }
  }

  lemma BetweenAdded(held: map<int, Frame>, f: Frame, lo: int)
    requires lo <= f.sn && f.sn !in held
    ensures Between(held[f.sn := f], lo, f.sn) == Between(held, lo, f.sn) + [Announce(f)]
  {
    var all := held[f.sn := f];
    BetweenSplit(all, lo, f.sn - 1, f.sn);
    BetweenSplit(held, lo, f.sn - 1, f.sn);
    BetweenAgree(all, held, lo, f.sn - 1);
    assert Between(all, f.sn, f.sn) == [Announce(f)];
    assert Between(held, f.sn, f.sn) == [];
  }

  /** Passing `f` up at once gives up on everything before it. */
  lemma LetThrough(b: Buffer, f: Frame)
    requires b.pos.At? && b.pos.last < f.sn && f.sn !in b.held
    ensures var rest := Above(b.held, f.sn);
            var g := FirstGap(rest, f.sn + 1);
            Accept(b, f, false)
            == (b.(pos := At(g - 1), held := Above(rest, g - 1)),
                Between(b.held, b.pos.last + 1, f.sn) + [Announce(f)] + Between(rest, f.sn + 1, g - 1))
  {
    var b1 := b.(held := b.held[f.sn := f]);
    AdvanceByParts(b1, f.sn);
    assert Above(b1.held, f.sn) == Above(b.held, f.sn);
    BetweenAdded(b.held, f, b.pos.last + 1);
  }

  /** What the driver does with a frame it has no block for, in the reference's terms. */
  lemma DropCode(c: Session, b: Buffer, f: Frame, alloc: bool)
    requires Rel(c, b) && b.pos.At? && b.pos.last + 2 <= f.sn <= b.pos.last + c.win
    requires !(alloc && !f.eapol)
    ensures var rest := DropLe(c.list, Seq(f));
            && Enqueue(c, f, alloc)
               == (c.(list := rest, last := Seq(f)), Between(b.held, b.pos.last + 1, f.sn) + [Announce(f)])
            && Sorted(rest, f.sn + 1, b.pos.last + c.win)
            && HeldOf(rest) == Above(b.held, f.sn)
  {
    var lo, hi := b.pos.last + 1, b.pos.last + c.win;
    SortedWiden(c.list, lo + 1, hi, lo, hi);
    LeMeaning(c.list, lo, f.sn, hi);
  }

  /** A copy of the frame in the list goes up first, where the reference gives the frame back. */
  lemma DropCopy(b: Buffer, f: Frame, out: seq<Outcome>)
    requires b.pos.At? && f.sn in b.held
    ensures out + [Announce(f)] != Accept(b, f, false).1
  {
    assert (out + [Announce(f)])[|out|] == Announce(f);
  }

  /** A successor in the list stays there, where the reference passes it up. */
  lemma DropSuccessor(b: Buffer, list: List, f: Frame, hi: int)
    requires b.pos.At? && b.pos.last < f.sn && f.sn !in b.held && f.sn + 1 in b.held
    requires b.held == HeldOf(list) && Sorted(list, b.pos.last + 1, hi) && hi <= f.sn + 255
    ensures Accept(b, f, false).0.pos.last % 4096 != Seq(f)
  {
    LetThrough(b, f);
    var rest := Above(b.held, f.sn);
    var g := FirstGap(rest, f.sn + 1);
    assert f.sn + 1 in rest;
    assert g - 1 in rest;
    assert f.sn < g - 1 <= hi by { HeldKeys(list, b.pos.last + 1, hi); }
    CompareNear(g - 1, f.sn);
  }

  lemma DropClean(b: Buffer, f: Frame)
    requires b.pos.At? && b.pos.last < f.sn && f.sn !in b.held && f.sn + 1 !in b.held
    ensures Accept(b, f, false)
            == (b.(pos := At(f.sn), held := Above(b.held, f.sn)),
                Between(b.held, b.pos.last + 1, f.sn) + [Announce(f)])
  {
    LetThrough(b, f);
    var rest := Above(b.held, f.sn);
    GapUnique(rest, f.sn + 1, f.sn + 1);
    assert Above(rest, f.sn) == rest;
    var out := Between(b.held, b.pos.last + 1, f.sn) + [Announce(f)];
    assert Between(rest, f.sn + 1, f.sn) == [];
    assert out + [] == out;
  }

  lemma {:induction false} SortedAfterGap(list: List, lo: int, hi: int)
    requires Sorted(list, lo, hi) && lo !in HeldOf(list)
    ensures Sorted(list, lo + 1, hi)
  {
    if list.Cons? {
      assert list.head.sn in HeldOf(list);
    }
  }

  /** Case IV with no block for the frame: exact, if and only if it is clean. */
  lemma DropRefines(c: Session, b: Buffer, f: Frame, alloc: bool)
    requires Rel(c, b) && b.pos.At? && b.pos.last + 2 <= f.sn <= b.pos.last + c.win
    requires !(alloc && !f.eapol)
    ensures CleanAccept(b, f, false) <==>
            Enqueue(c, f, alloc).1 == Accept(b, f, false).1
            && Rel(Enqueue(c, f, alloc).0, Accept(b, f, false).0)
  {
    var lo, hi := b.pos.last + 1, b.pos.last + c.win;
    DropCode(c, b, f, alloc);
    if f.sn in b.held {
      DropCopy(b, f, Between(b.held, lo, f.sn));
    } else if f.sn + 1 in b.held {
      SortedWiden(c.list, lo + 1, hi, lo, hi);
      DropSuccessor(b, c.list, f, hi);
    } else {
      DropClean(b, f);
      var rest := DropLe(c.list, Seq(f));
      SortedAfterGap(rest, f.sn + 1, hi);
      SortedWiden(rest, f.sn + 2, hi, f.sn + 2, f.sn + c.win);
    }
  }

  lemma WindowStartMeaning(n: int, win: int)
    requires 1 <= win <= 255
    ensures WindowStart(n % 4096, win) == (n - win) % 4096
  {
  }

  /** Inserting a later frame before or after the flush up to `k` is the same. */
  lemma {:induction false} InsertCommutesWithLe(list: List, f: Frame, lo: int, k: int)
    requires Sorted(list, lo, f.sn - 1) && k < f.sn && f.sn - lo < 2048 && k - 2048 <= lo && f.sn <= k + 2047
    ensures var s := k % 4096;
            var all := InsertSorted(list, f);
            var rest := InsertSorted(DropLe(list, s), f);
            && all.Some? && rest.Some?
            && DropLe(all.value, s) == rest.value
            && TakeLe(all.value, s) == TakeLe(list, s)
  {
    CompareNear(f.sn, k);
    if list.Cons? {
      CompareNear(list.head.sn, f.sn);
      CompareNear(list.head.sn, k);
      InsertCommutesWithLe(list.tail, f, list.head.sn + 1, k);
    }
  }

  lemma SlideKeepCode(c: Session, f: Frame, lo: int)
    requires Sorted(c.list, lo, f.sn - 1) && 1 <= c.win <= 255 && !f.eapol
    requires f.sn - lo < 2048
    ensures InsertSorted(c.list, f).Some?
    ensures var s := (f.sn - c.win) % 4096;
            var all := InsertSorted(c.list, f).value;
            var rest := DropLe(all, s);
            ReceiveBeyond(c, f, true)
            == (c.(list := DropRun(rest, s), last := RunEnd(rest, s)), TakeLe(all, s) + TakeRun(rest, s))
  {
    WindowStartMeaning(f.sn, c.win);
    InsertCommutesWithLe(c.list, f, lo, f.sn - c.win);
    var s := (f.sn - c.win) % 4096;
    assert TakeLe(c.list, s) + [] == TakeLe(c.list, s);
  }

  lemma AcceptSlide(b: Buffer, list: List, f: Frame)
    requires b.pos.At? && 1 <= b.win <= 255 && b.held == HeldOf(list)
    requires Sorted(list, b.pos.last + 1, f.sn - 1) && b.pos.last + b.win < f.sn < b.pos.last + 2048
    ensures InsertSorted(list, f).Some?
    ensures var s := (f.sn - b.win) % 4096;
            var all := InsertSorted(list, f).value;
            var rest := DropLe(all, s);
            var (a, out) := Accept(b, f, true);
            && out == TakeLe(all, s) + TakeRun(rest, s)
            && a == b.(pos := At(a.pos.last), held := HeldOf(DropRun(rest, s)))
            && f.sn - b.win <= a.pos.last
            && RunEnd(rest, s) == a.pos.last % 4096
            && Sorted(DropRun(rest, s), a.pos.last + 2, f.sn)
  {
    var k := f.sn - b.win;
    var b1 := b.(held := b.held[f.sn := f]);
    assert f.sn !in b.held by { HeldKeys(list, b.pos.last + 1, f.sn - 1); }
    assert InsertSorted(list, f).Some? && Sorted(InsertSorted(list, f).value, b.pos.last + 1, f.sn)
           && HeldOf(InsertSorted(list, f).value) == b1.held by {
      SortedWiden(list, b.pos.last + 1, f.sn - 1, b.pos.last + 1, f.sn);
      InsertMeaning(list, f, b.pos.last + 1, f.sn);
    }
    assert Accept(b, f, true) == Advance(b1, k);
    LeThenInOrder(b1, InsertSorted(list, f).value, k, f.sn);
  }

  /** Case V with a block: the frame goes in behind what is left of the list. */
  lemma SlideKeepRefines(c: Session, b: Buffer, f: Frame)
    requires Rel(c, b) && b.pos.At? && b.pos.last + c.win < f.sn < b.pos.last + 2048
    requires !f.eapol
    ensures ReceiveBeyond(c, f, true).1 == Accept(b, f, true).1
            && Rel(ReceiveBeyond(c, f, true).0, Accept(b, f, true).0)
  {
    var last := b.pos.last;
    SortedWiden(c.list, last + 2, last + c.win, last + 1, f.sn - 1);
    SlideKeepCode(c, f, last + 1);
    AcceptSlide(b, c.list, f);
    var n := Accept(b, f, true).0.pos.last;
    SortedWiden(ReceiveBeyond(c, f, true).0.list, n + 2, f.sn, n + 2, n + c.win);
  }

  lemma {:induction false} LeAll(list: List, lo: int, n: int)
    requires Sorted(list, lo, n) && n - 2048 <= lo
    ensures DropLe(list, n % 4096) == Nil
  {
    if list.Cons? {
      CompareNear(list.head.sn, n);
      LeAll(list.tail, list.head.sn + 1, n);
    }
  }

  lemma {:induction false} LeTwice(list: List, lo: int, k: int, n: int)
    requires Sorted(list, lo, n) && k <= n && n - 2048 <= lo && n <= k + 2047
    ensures TakeLe(list, k % 4096) + TakeLe(DropLe(list, k % 4096), n % 4096) == TakeLe(list, n % 4096)
    ensures DropLe(DropLe(list, k % 4096), n % 4096) == Nil
  {
    if list.Cons? {
      CompareNear(list.head.sn, k);
      CompareNear(list.head.sn, n);
      if list.head.sn <= k {
        LeTwice(list.tail, list.head.sn + 1, k, n);
      } else {
        LeAll(list, lo, n);
      }
    }
  }

  lemma SlideDropCode(c: Session, f: Frame, alloc: bool, lo: int)
    requires Sorted(c.list, lo, f.sn) && 1 <= c.win <= 255 && !(alloc && !f.eapol)
    requires f.sn - lo <= 2048
    ensures ReceiveBeyond(c, f, alloc)
            == (c.(list := Nil, last := Seq(f)), TakeLe(c.list, Seq(f)) + [Announce(f)])
  {
    WindowStartMeaning(f.sn, c.win);
    LeTwice(c.list, lo, f.sn - c.win, f.sn);
    var s := (f.sn - c.win) % 4096;
    var out := TakeLe(c.list, s);
    var more := TakeLe(DropLe(c.list, s), Seq(f));
    assert out + (more + [Announce(f)]) + [] == (out + more) + [Announce(f)];
  }

  /** Case V with no block: everything held goes up, then the frame. */
  lemma SlideDropRefines(c: Session, b: Buffer, f: Frame, alloc: bool)
    requires Rel(c, b) && b.pos.At? && b.pos.last + c.win < f.sn < b.pos.last + 2048
    requires !(alloc && !f.eapol)
    ensures ReceiveBeyond(c, f, alloc).1 == Accept(b, f, false).1
            && Rel(ReceiveBeyond(c, f, alloc).0, Accept(b, f, false).0)
  {
    var last := b.pos.last;
    SortedWiden(c.list, last + 2, last + c.win, last + 1, f.sn);
    SlideDropCode(c, f, alloc, last + 1);
    assert f.sn !in b.held by { HeldKeys(c.list, last + 2, last + c.win); }
    LetThrough(b, f);
    LeMeaning(c.list, last + 1, f.sn, f.sn);
    LeTwice(c.list, last + 1, f.sn, f.sn);
    assert FirstGap(map[], f.sn + 1) == f.sn + 1;
    assert Above(b.held, f.sn) == map[];
  }

  lemma WindowTest(n: int, last: int, win: int)
    requires 1 <= win <= 255 && last < n < last + 2048
    ensures SeqSmaller(n % 4096, (last % 4096 + win + 1) % 4096) <==> n <= last + win
  {
    var end := last + win + 1;
    assert (last % 4096 + win + 1) % 4096 == end % 4096;
    assert SeqSmaller(n % 4096, end % 4096) <==> n < end by { CompareNear(n, end); }
  }

  /** Which of the five cases the 12-bit tests select. */
  lemma ReceiveCases(c: Session, f: Frame, alloc: bool, last: int)
    requires c.last == last % 4096 && 1 <= c.win <= 255 && last - 2048 <= f.sn < last + 2048
    requires f.sn != last + 1
    ensures Receive(c, f, alloc)
            == if f.sn <= last then (c, [Release(f)])
               else if f.sn <= last + c.win then Enqueue(c, f, alloc)
               else ReceiveBeyond(c, f, alloc)
  {
    StepOneNear(f.sn, last);
    CompareNear(f.sn, last);
    if f.sn > last {
      WindowTest(f.sn, last, c.win);
    }
  }

  /** Receiving a frame agrees with the reference if and only if it is clean. */
  lemma ReceiveRefines(c: Session, b: Buffer, f: Frame, alloc: bool)
    requires Rel(c, b) && Near(b.pos, f.sn)
    ensures var keep := alloc && !f.eapol;
            CleanAccept(b, f, keep) <==>
            Receive(c, f, alloc).1 == Accept(b, f, keep).1
            && Rel(Receive(c, f, alloc).0, Accept(b, f, keep).0)
  {
    if b.pos.At? {
      var last := b.pos.last;
      if f.sn != last + 1 {
        ReceiveCases(c, f, alloc, last);
      }
      assert (f.sn <= last || last + c.win < f.sn) ==> f.sn !in b.held && (f.sn + 1 !in b.held) by {
        HeldKeys(c.list, last + 2, last + c.win);
      }
      if f.sn == last + 1 {
        InOrderRefines(c, b, f, alloc);
      } else if last < f.sn <= last + c.win {
        if alloc && !f.eapol {
          KeepRefines(c, b, f);
        } else {
          DropRefines(c, b, f, alloc);
        }
      } else if last + c.win < f.sn {
        if alloc && !f.eapol {
          SlideKeepRefines(c, b, f);
        } else {
          SlideDropRefines(c, b, f, alloc);
        }
      }
    }
  }

  lemma {:induction false} TakeAllMeaning(list: List, lo: int, hi: int)
    requires Sorted(list, lo, hi)
    ensures TakeAll(list) == Between(HeldOf(list), lo, hi)
  {
    if list.Nil? {
      BetweenEmpty(HeldOf(list), lo, hi);
    } else {
      TakeAllMeaning(list.tail, list.head.sn + 1, hi);
      BetweenHead(list, lo, hi, hi);
    }
  }

  lemma RefreshRefines(c: Session, b: Buffer)
    requires Rel(c, b)
    ensures Refresh(c).1 == FlushBuffer(b).1 && Rel(Refresh(c).0, FlushBuffer(b).0)
  {
    if b.pos.At? {
      SortedWiden(c.list, b.pos.last + 2, b.pos.last + c.win, b.pos.last + 1, b.pos.last + c.win);
      TakeAllMeaning(c.list, b.pos.last + 1, b.pos.last + c.win);
    }
  }

  lemma SkipOneCode(c: Session, now: int, last: int)
    requires c.last == last % 4096
    ensures var s := (last + 1) % 4096;
            var rest := DropLe(c.list, s);
            SkipOne(c, now) == (c.(list := DropRun(rest, s), last := RunEnd(rest, s), timer := now),
                                TakeLe(c.list, s) + TakeRun(rest, s))
  {
    assert (c.last + 1) % 4096 == (last + 1) % 4096;
  }

  lemma SkipOneRefines(c: Session, b: Buffer, now: int)
    requires Rel(c, b) && b.pos.At?
    ensures var (a, out) := Advance(b.(timer := now), b.pos.last + 1);
            SkipOne(c, now).1 == out && Rel(SkipOne(c, now).0, a)
  {
    var last, hi := b.pos.last, b.pos.last + c.win;
    var b1 := b.(timer := now);
    SkipOneCode(c, now, last);
    SortedWiden(c.list, last + 2, hi, last + 1, hi);
    LeThenInOrder(b1, c.list, last + 1, hi);
    var n := Advance(b1, last + 1).0.pos.last;
    SortedWiden(SkipOne(c, now).0.list, n + 2, hi, n + 2, n + c.win);
  }

  lemma SameLength(c: Session, b: Buffer)
    requires Rel(c, b)
    ensures |b.held| == c.list.Length()
  {
    if b.pos.At? {
      HeldKeys(c.list, b.pos.last + 2, b.pos.last + c.win);
    }
  }

  lemma FlushAllRefines(c: Session, b: Buffer, now: int, r: (Session, seq<Outcome>), s: (Buffer, seq<Outcome>))
    requires Rel(c, b)
    requires r == (Refresh(c).0.(timer := now), Refresh(c).1)
    requires s == (FlushBuffer(b).0.(timer := now), FlushBuffer(b).1)
    ensures r.1 == s.1 && Rel(r.0, s.0)
  {
    RefreshRefines(c, b);
  }

  lemma TimeoutRefines(c: Session, b: Buffer, now: int)
    requires Rel(c, b)
    ensures FlushTimeout(c, now).1 == TimeoutBuffer(b, now).1
            && Rel(FlushTimeout(c, now).0, TimeoutBuffer(b, now).0)
  {
    var r, s := FlushTimeout(c, now), TimeoutBuffer(b, now);
    SameLength(c, b);
    if TimeAfter(now, c.timer + MAX_REORDERING_PACKET_TIMEOUT / 6) && c.list.Length() > 1 {
      FlushAllRefines(c, b, now, r, s);
    } else if TimeAfter(now, c.timer + REORDERING_PACKET_TIMEOUT) && c.list.Length() > 0 && b.pos.At? {
      assert r == SkipOne(c, now) && s == Advance(b.(timer := now), b.pos.last + 1);
      SkipOneRefines(c, b, now);
    } else {
      assert r == (c, []) && s == (b, []);
    }
  }

  lemma BarOnReset(c: Session, start: int)
    requires c.last == RESET_RCV_SEQ && c.list == Nil
    ensures BlockAckRequest(c, start)
            == (if start % 4096 < 2048 then c.(last := (start - 1) % 4096) else c, [])
    ensures (start - 1) % 4096 != RESET_RCV_SEQ
  {
    assert (RESET_RCV_SEQ - start % 4096) % 4096 == 4095 - start % 4096;
  }

  lemma NumberBefore(start: int)
    ensures (start - 1) % 4096 == if start % 4096 == 0 then 4095 else start % 4096 - 1
  {
  }

  lemma BarCases(c: Session, start: int, last: int)
    requires c.last == last % 4096 && last - 2047 <= start <= last + 2048
    ensures var (d, out) := IndicateLe(c, start % 4096);
            BlockAckRequest(c, start)
            == if start <= last then (c, []) else (d.(last := (start - 1) % 4096), out)
  {
    NumberBefore(start);
    CompareNear(last, start);
    assert SeqSmaller(c.last, start % 4096) <==> last < start;
  }

  lemma BarCode(c: Session, b: Buffer, start: int)
    requires Rel(c, b) && b.pos.At? && b.pos.last < start <= b.pos.last + 2048
    ensures var (d, out) := IndicateLe(c, start % 4096);
            && out == Between(b.held, b.pos.last + 1, start)
            && Sorted(d.list, start + 1, b.pos.last + c.win)
            && HeldOf(d.list) == Above(b.held, start)
  {
    var last := b.pos.last;
    SortedWiden(c.list, last + 2, last + c.win, last + 1, last + c.win);
    LeMeaning(c.list, last + 1, start, last + c.win);
  }

  lemma BarHeld(b: Buffer, list: List, start: int, hi: int)
    requires b.pos.At? && start in b.held && b.held == HeldOf(list)
    requires Sorted(list, b.pos.last + 1, hi) && hi <= b.pos.last + 255 && b.pos.last < start
    ensures Advance(b, start - 1).0.pos.last % 4096 != (start - 1) % 4096
  {
    var g := FirstGap(b.held, start);
    assert g - 1 in b.held;
    assert g - 1 <= hi by { HeldKeys(list, b.pos.last + 1, hi); }
    CompareNear(g - 1, start - 1);
  }

  lemma BarFree(b: Buffer, start: int)
    requires b.pos.At? && start !in b.held && b.pos.last < start
    ensures Advance(b, start - 1)
            == (b.(pos := At(start - 1), held := Above(b.held, start)), Between(b.held, b.pos.last + 1, start))
  {
    GapUnique(b.held, start, start);
    BetweenSplit(b.held, b.pos.last + 1, start - 1, start);
    var out := Between(b.held, b.pos.last + 1, start - 1);
    assert Between(b.held, start, start) == [];
    assert out + [] == out;
    assert Above(b.held, start - 1) == Above(b.held, start);
  }

  lemma BarMoves(c: Session, b: Buffer, start: int)
    requires Rel(c, b) && b.pos.At? && b.pos.last < start <= b.pos.last + 2048
    ensures var (d, out) := IndicateLe(c, start % 4096);
            start !in b.held <==>
            out == Advance(b, start - 1).1
            && Rel(d.(last := (start - 1) % 4096), Advance(b, start - 1).0)
  {
    var last, hi := b.pos.last, b.pos.last + c.win;
    if start in b.held {
      SortedWiden(c.list, last + 2, hi, last + 1, hi);
      BarHeld(b, c.list, start, hi);
    } else {
      BarCode(c, b, start);
      BarFree(b, start);
      SortedWiden(DropLe(c.list, start % 4096), start + 1, hi, start + 1, start - 1 + c.win);
    }
  }

  /** A Block-Ack request agrees with the reference if and only if it is clean. */
  lemma BarRefines(c: Session, b: Buffer, start: int)
    requires Rel(c, b) && Numbered(b, Bar(start))
    ensures CleanBar(b, start) <==>
            BlockAckRequest(c, start).1 == BarBuffer(b, start).1
            && Rel(BlockAckRequest(c, start).0, BarBuffer(b, start).0)
  {
    if b.pos.At? {
      var last := b.pos.last;
      BarCases(c, start, last);
      if start <= last {
        assert start !in b.held by { HeldKeys(c.list, last + 2, last + c.win); }
      } else {
        BarMoves(c, b, start);
      }
    } else {
      BarOnReset(c, start);
    }
  }

  // ---- the refinement theorem ----

  ghost predicate Agrees(c: Session, b: Buffer, e: Event) {
    Step(c, e).1 == BufferStep(b, e).1 && Rel(Step(c, e).0, BufferStep(b, e).0)
  }

  lemma SameTail(a: seq<Outcome>, x: seq<Outcome>, y: seq<Outcome>)
    ensures a + x == a + y <==> x == y
  {
    assert (a + x)[|a|..] == x && (a + y)[|a|..] == y;
  }

  /**
   * From any state related to the reference buffer, the driver does what the
   * reference does, and stays related, exactly when the event is clean.
   */
  lemma StepRefines(c: Session, b: Buffer, e: Event)
    requires Rel(c, b) && Numbered(b, e)
    ensures Agrees(c, b, e) <==> Clean(b, e)
  {
    match e
    case Data(f, now, alloc) =>
      if !Oversize(f) {
        TimeoutRefines(c, b, now);
        var (d, out1) := FlushTimeout(c, now);
        var (a, _) := TimeoutBuffer(b, now);
        ReceiveRefines(d.(timer := now), a.(timer := now), f, alloc);
        SameTail(out1, Receive(d.(timer := now), f, alloc).1, Accept(a.(timer := now), f, alloc && !f.eapol).1);
      }
    case Flush(now) =>
      TimeoutRefines(c, b, now);
    case Bar(start) =>
      BarRefines(c, b, start);
    case IdleTimeout(now) =>
      RefreshRefines(c, b);
  }
}
