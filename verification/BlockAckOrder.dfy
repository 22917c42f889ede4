/**
 * What the reordering guarantees over whole runs: order, window and delivery,
 * and what goes wrong on the two kinds of step that are not clean.
 */
module BlockAckOrder {
  import opened BlockAckReordering
  import opened BlockAckRefinement

  // ---- order ----

  /**
   * The trace announces numbers above `p` in strictly increasing order, starting
   * afresh after each reset, and ends at or below `q`.
   */
  predicate Fits(out: seq<Outcome>, p: Position, q: Position) {
    if out == [] then p.At? ==> q.At? && p.last <= q.last
    else
      match out[0]
      case Announce(f) => (p.At? ==> p.last < f.sn) && Fits(out[1..], At(f.sn), q)
      case Release(_) => Fits(out[1..], p, q)
      case Reset => Fits(out[1..], Unset, q)
  }

  ghost predicate Ascending(out: seq<Outcome>) {
    forall i, j :: 0 <= i < j < |out| && out[i].Announce? && out[j].Announce?
      && (forall k :: i < k < j ==> !out[k].Reset?)
      ==> out[i].frame.sn < out[j].frame.sn
  }

  lemma {:induction false} FitsLower(out: seq<Outcome>, p: Position, q: Position, r: Position)
    requires Fits(out, q, r) && (p.At? ==> q.At? && p.last <= q.last)
    ensures Fits(out, p, r)
  {
    if out != [] && out[0].Release? {
      FitsLower(out[1..], p, q, r);
    }
  }

  lemma {:induction false} FitsConcat(a: seq<Outcome>, b: seq<Outcome>, p: Position, q: Position, r: Position)
    requires Fits(a, p, q) && Fits(b, q, r)
    ensures Fits(a + b, p, r)
  {
    if a == [] {
      assert a + b == b;
      FitsLower(b, p, q, r);
    } else {
      assert (a + b)[1..] == a[1..] + b;
      match a[0]
      case Announce(f) => FitsConcat(a[1..], b, At(f.sn), q, r);
      case Release(_) => FitsConcat(a[1..], b, p, q, r);
      case Reset => FitsConcat(a[1..], b, Unset, q, r);
    }
  }

  /** Until the first reset, everything announced is above the position. */
  lemma {:induction false} FitsAbove(out: seq<Outcome>, p: Position, q: Position, j: nat)
    requires Fits(out, p, q) && p.At? && j < |out| && out[j].Announce?
    requires forall k :: 0 <= k < j ==> !out[k].Reset?
    ensures p.last < out[j].frame.sn
  {
    if j > 0 {
      assert out[1..][j - 1] == out[j];
      assert forall k :: 0 <= k < j - 1 ==> out[1..][k] == out[k + 1];
      match out[0]
      case Announce(f) => FitsAbove(out[1..], At(f.sn), q, j - 1);
      case Release(_) => FitsAbove(out[1..], p, q, j - 1);
    }
  }

  lemma {:induction false} FitsAscending(out: seq<Outcome>, p: Position, q: Position)
    requires Fits(out, p, q)
    ensures Ascending(out)
  {
    if out != [] {
      var rest := out[1..];
      match out[0] {
        case Announce(f) => FitsAscending(rest, At(f.sn), q);
        case Release(_) => FitsAscending(rest, p, q);
        case Reset => FitsAscending(rest, Unset, q);
      }
      forall i, j | 0 <= i < j < |out| && out[i].Announce? && out[j].Announce?
                    && (forall k :: i < k < j ==> !out[k].Reset?)
        ensures out[i].frame.sn < out[j].frame.sn
      {
        assert rest[j - 1] == out[j];
        assert forall k :: 0 <= k < |rest| ==> rest[k] == out[k + 1];
        if i == 0 {
          FitsAbove(rest, At(out[0].frame.sn), q, j - 1);
        } else {
          assert rest[i - 1] == out[i];
        }
      }
    }
  }

  ghost predicate BufferOk(b: Buffer) {
    && 1 <= b.win <= 255
    && (forall n :: n in b.held ==> b.held[n].sn == n)
    && match b.pos
       case Unset => b.held == map[]
       case At(last) => forall n :: n in b.held ==> last + 2 <= n <= last + b.win
  }

  lemma RelOk(c: Session, b: Buffer)
    requires Rel(c, b)
    ensures BufferOk(b)
  {
    if b.pos.At? {
      HeldKeys(c.list, b.pos.last + 2, b.pos.last + c.win);
    }
  }

  lemma {:induction false} BetweenFits(held: map<int, Frame>, lo: int, hi: int, p: Position)
    requires forall n :: n in held ==> held[n].sn == n
    requires p.At? ==> p.last < lo && p.last <= hi
    ensures Fits(Between(held, lo, hi), p, At(hi))
    decreases hi - lo + 1
  {
    if lo <= hi {
      BetweenFits(held, lo + 1, hi, if lo in held then At(lo) else p);
      if lo in held {
        assert Between(held, lo, hi)[1..] == Between(held, lo + 1, hi);
      } else {
        assert Between(held, lo, hi) == Between(held, lo + 1, hi);
      }
    }
  }

  lemma AdvanceFits(b: Buffer, k: int)
    requires b.pos.At? && b.pos.last <= k && forall n :: n in b.held ==> b.held[n].sn == n
    ensures Fits(Advance(b, k).1, b.pos, Advance(b, k).0.pos)
  {
    BetweenFits(b.held, b.pos.last + 1, FirstGap(b.held, k + 1) - 1, b.pos);
  }

  lemma FlushFits(b: Buffer)
    requires BufferOk(b)
    ensures Fits(FlushBuffer(b).1, b.pos, Unset)
  {
    if b.pos.At? {
      BetweenFits(b.held, b.pos.last + 1, b.pos.last + b.win, b.pos);
      FitsConcat(Between(b.held, b.pos.last + 1, b.pos.last + b.win), [Reset], b.pos, At(b.pos.last + b.win), Unset);
    }
  }

  lemma TimeoutFits(b: Buffer, now: int)
    requires BufferOk(b)
    ensures Fits(TimeoutBuffer(b, now).1, b.pos, TimeoutBuffer(b, now).0.pos)
  {
    FlushFits(b);
    if b.pos.At? {
      AdvanceFits(b.(timer := now), b.pos.last + 1);
    }
  }

  lemma AcceptFits(b: Buffer, f: Frame, keep: bool)
    requires BufferOk(b)
    ensures Fits(Accept(b, f, keep).1, b.pos, Accept(b, f, keep).0.pos)
  {
    if b.pos.At? && f.sn > b.pos.last {
      AdvanceFits(b.(held := b.held[f.sn := f]), if keep then Max(b.pos.last, f.sn - b.win) else f.sn);
    }
  }

  lemma StepFits(c: Session, b: Buffer, e: Event)
    requires Rel(c, b)
    ensures Fits(BufferStep(b, e).1, b.pos, BufferStep(b, e).0.pos)
  {
    RelOk(c, b);
    match e
    case Data(f, now, alloc) =>
      if !Oversize(f) {
        TimeoutFits(b, now);
        var (d, out) := TimeoutBuffer(b, now);
        TimeoutRefines(c, b, now);
        RelOk(FlushTimeout(c, now).0, d);
        var d1 := d.(timer := now);
        AcceptFits(d1, f, alloc && !f.eapol);
        var (a, more) := Accept(d1, f, alloc && !f.eapol);
        FitsConcat(out, more, b.pos, d.pos, a.pos);
      }
    case Flush(now) =>
      TimeoutFits(b, now);
    case Bar(start) =>
      if b.pos.At? && start > b.pos.last {
        AdvanceFits(b, start - 1);
      }
    case IdleTimeout(now) =>
      FlushFits(b);
  }

  /** Every event of the run is numbered consistently and clean when it happens. */
  predicate CleanRun(b: Buffer, es: seq<Event>)
    decreases |es|
  {
    es != [] ==> Numbered(b, es[0]) && Clean(b, es[0]) && CleanRun(BufferStep(b, es[0]).0, es[1..])
  }

  function BufferRun(b: Buffer, es: seq<Event>): (Buffer, seq<Outcome>)
    decreases |es|
  {
    if es == [] then (b, [])
    else
      var (d, out1) := BufferStep(b, es[0]);
      var (a, out2) := BufferRun(d, es[1..]);
      (a, out1 + out2)
  }

  /** The 12-bit driver and the unbounded buffer produce the same trace. */
  lemma {:induction false} RunRefines(c: Session, b: Buffer, es: seq<Event>)
    requires Rel(c, b) && CleanRun(b, es)
    ensures Run(c, es).1 == BufferRun(b, es).1
    ensures Rel(Run(c, es).0, BufferRun(b, es).0)
    ensures Fits(Run(c, es).1, b.pos, BufferRun(b, es).0.pos)
    decreases |es|
  {
    if es != [] {
      StepRefines(c, b, es[0]);
      StepFits(c, b, es[0]);
      var (d, out1) := Step(c, es[0]);
      var a := BufferStep(b, es[0]).0;
      RunRefines(d, a, es[1..]);
      FitsConcat(out1, Run(d, es[1..]).1, b.pos, a.pos, BufferRun(a, es[1..]).0.pos);
    }
  }

  /**
   * Between resets the frames go up in strictly increasing order of the
   * sender's own numbers, none twice, over every clean run of a new session.
   */
  lemma InOrderDelivery(win: nat, timer: int, es: seq<Event>)
    requires 1 <= win <= 255
    requires CleanRun(Buffer(Unset, map[], win, timer), es)
    ensures Ascending(Run(Session(RESET_RCV_SEQ, Nil, win, timer), es).1)
  {
    var c := Session(RESET_RCV_SEQ, Nil, win, timer);
    var b := Buffer(Unset, map[], win, timer);
    RunRefines(c, b, es);
    FitsAscending(Run(c, es).1, b.pos, BufferRun(b, es).0.pos);
  }

  // ---- window ----

  /** Sorted, free of duplicates, 2..win ahead of the last number, at most win - 1 long. */
  ghost predicate InWindow(c: Session) {
    && c.list.Length() <= c.win - 1
    && (c.list.Cons? ==> exists last :: c.last == last % 4096 && Sorted(c.list, last + 2, last + c.win))
  }

  lemma RelInWindow(c: Session, b: Buffer)
    requires Rel(c, b)
    ensures InWindow(c)
  {
    if b.pos.At? {
      SortedLength(c.list, b.pos.last + 2, b.pos.last + c.win);
    }
  }

  lemma {:induction false} RunKeepsWin(c: Session, es: seq<Event>)
    ensures Run(c, es).0.win == c.win
    decreases |es|
  {
    if es != [] {
      RunKeepsWin(Step(c, es[0]).0, es[1..]);
    }
  }

  /** The list at rest stays in the window over every clean run of a new session. */
  lemma WindowAtRest(win: nat, timer: int, es: seq<Event>)
    requires 1 <= win <= 255
    requires CleanRun(Buffer(Unset, map[], win, timer), es)
    ensures var c := Run(Session(RESET_RCV_SEQ, Nil, win, timer), es).0;
            c.win == win && InWindow(c)
  {
    var c := Session(RESET_RCV_SEQ, Nil, win, timer);
    var b := Buffer(Unset, map[], win, timer);
    RunRefines(c, b, es);
    RunKeepsWin(c, es);
    RelInWindow(Run(c, es).0, BufferRun(b, es).0);
  }

  lemma WithinAfterEnqueue(c: Session, f: Frame, alloc: bool, lo: int, hi: int)
    requires Sorted(c.list, lo, hi) && lo <= f.sn <= hi && hi < lo + 255
    ensures Enqueue(c, f, alloc).0.list.Length() <= hi - lo + 1
  {
    InsertMeaning(c.list, f, lo, hi);
    SortedLength(c.list, lo, hi);
    LeMeaning(c.list, lo, f.sn, hi);
    SortedLength(DropLe(c.list, Seq(f)), f.sn + 1, hi);
    if InsertSorted(c.list, f).Some? {
      SortedLength(InsertSorted(c.list, f).value, lo, hi);
    }
  }

  /** The driver's assertion `qlen <= BAWinSize` holds at both calls that enqueue. */
  lemma WindowAssertion(c: Session, b: Buffer, f: Frame, alloc: bool)
    requires Rel(c, b) && b.pos.At? && b.pos.last + 2 <= f.sn < b.pos.last + 2048
    ensures f.sn <= b.pos.last + c.win ==> Enqueue(c, f, alloc).0.list.Length() <= c.win
    ensures f.sn > b.pos.last + c.win ==>
              var start := WindowStart(Seq(f), c.win);
              Enqueue(IndicateLe(c, start).0.(last := start), f, alloc).0.list.Length() <= c.win
  {
    var last := b.pos.last;
    if f.sn <= last + c.win {
      WithinAfterEnqueue(c, f, alloc, last + 2, last + c.win);
    } else {
      var k := f.sn - c.win;
      WindowStartMeaning(f.sn, c.win);
      LeMeaning(c.list, last + 2, k, last + c.win);
      var rest := DropLe(c.list, k % 4096);
      SortedWiden(rest, k + 1, last + c.win, k + 1, f.sn);
      WithinAfterEnqueue(c.(list := rest, last := k % 4096), f, alloc, k + 1, f.sn);
    }
  }

  // ---- delivery ----

  /** The trace announces exactly the numbers from `lo` to `hi`, each once and in order. */
  predicate Delivers(out: seq<Outcome>, lo: int, hi: int) {
    if out == [] then lo == hi + 1
    else
      match out[0]
      case Announce(f) => f.sn == lo && Delivers(out[1..], lo + 1, hi)
      case Release(_) => Delivers(out[1..], lo, hi)
      case Reset => false
  }

  lemma {:induction false} DeliversConcat(a: seq<Outcome>, b: seq<Outcome>, lo: int, mid: int, hi: int)
    requires Delivers(a, lo, mid) && Delivers(b, mid + 1, hi)
    ensures Delivers(a + b, lo, hi)
  {
    if a == [] {
      assert a + b == b;
    } else {
      assert (a + b)[1..] == a[1..] + b;
      DeliversConcat(a[1..], b, if a[0].Announce? then lo + 1 else lo, mid, hi);
    }
  }

  lemma {:induction false} BetweenDelivers(held: map<int, Frame>, lo: int, hi: int)
    requires lo <= hi + 1 && forall n :: lo <= n <= hi ==> n in held && held[n].sn == n
    ensures Delivers(Between(held, lo, hi), lo, hi)
    decreases hi - lo + 1
  {
    if lo <= hi {
      BetweenDelivers(held, lo + 1, hi);
      assert Between(held, lo, hi)[1..] == Between(held, lo + 1, hi);
    }
  }

  /** A frame of the window loses nothing: what it completes goes up without a skip. */
  lemma AcceptInWindow(b: Buffer, f: Frame)
    requires BufferOk(b) && b.pos.At? && f.sn <= b.pos.last + b.win
    ensures var (a, out) := Accept(b, f, true);
            && a == b.(pos := At(a.pos.last), held := a.held) && b.pos.last <= a.pos.last
            && Delivers(out, b.pos.last + 1, a.pos.last)
            && (f.sn <= a.pos.last || f.sn in a.held)
            && (a.pos.last <= b.pos.last || a.pos.last == f.sn || a.pos.last in b.held)
            && (forall n :: n in b.held ==> n <= a.pos.last || n in a.held)
            && (forall n :: n in a.held ==> n in b.held || n == f.sn)
            && a.pos.last + 1 !in a.held
            && BufferOk(a)
  {
    if f.sn > b.pos.last && f.sn !in b.held {
      var held := b.held[f.sn := f];
      var g := FirstGap(held, b.pos.last + 1);
      assert g - 1 > b.pos.last ==> g - 1 in held;
      BetweenDelivers(held, b.pos.last + 1, g - 1);
    }
  }

  predicate Punctual(timer: int, now: int) {
    && !TimeAfter(now, timer + REORDERING_PACKET_TIMEOUT)
    && !TimeAfter(now, timer + MAX_REORDERING_PACKET_TIMEOUT / 6)
  }

  /** In time means at most ten ticks after the last frame. */
  lemma PunctualByTicks(timer: int, now: int, d: nat)
    requires Elapsed(timer, now, d)
    ensures Punctual(timer, now) <==> d <= 10
  {
    Deadline(timer, now, d, 10);
    Deadline(timer, now, d, 50);
  }

  /** A data frame of the session, in time for the timer and not beyond the window. */
  predicate InStream(b: Buffer, e: Event, top: int) {
    && b.pos.At? && e.Data?
    && e.alloc && !e.frame.eapol && !Oversize(e.frame)
    && Punctual(b.timer, e.now)
    && b.pos.last - 2048 <= e.frame.sn <= b.pos.last + b.win
    && e.frame.sn <= top
  }

  predicate Stream(b: Buffer, es: seq<Event>, top: int)
    decreases |es|
  {
    es != [] ==> InStream(b, es[0], top) && Stream(BufferStep(b, es[0]).0, es[1..], top)
  }

  predicate Arrived(es: seq<Event>, n: int) {
    exists i :: 0 <= i < |es| && es[i].Data? && es[i].frame.sn == n
  }

  /** Everything held or just received is passed up or still held, without a skip. */
  ghost predicate Keeps(b: Buffer, d: Buffer, top: int) {
    && b.pos.At? && d.pos.At? && b.pos.last <= d.pos.last <= top
    && d.pos.last + 1 !in d.held
    && (forall n :: n in d.held ==> n <= top)
    && (forall n :: n in b.held ==> n <= d.pos.last || n in d.held)
  }

  predicate Got(d: Buffer, n: int) { d.pos.At? && (n <= d.pos.last || n in d.held) }

  predicate AllGot(d: Buffer, es: seq<Event>) {
    es != [] ==> es[0].Data? && Got(d, es[0].frame.sn) && AllGot(d, es[1..])
  }

  ghost predicate UpTo(b: Buffer, top: int) {
    && BufferOk(b) && b.pos.At? && b.pos.last <= top
    && forall n :: n in b.held ==> n <= top
  }

  lemma PunctualData(b: Buffer, e: Event, top: int)
    requires InStream(b, e, top)
    ensures TimeoutBuffer(b, e.now) == (b, [])
    ensures BufferStep(b, e) == Accept(b.(timer := e.now), e.frame, true)
  {
    var out := Accept(b.(timer := e.now), e.frame, true).1;
    assert [] + out == out;
  }

  lemma StreamStep(b: Buffer, e: Event, top: int) returns (d: Buffer, out: seq<Outcome>)
    requires UpTo(b, top) && InStream(b, e, top)
    ensures Numbered(b, e) && Clean(b, e) && e.Data?
    ensures BufferStep(b, e) == (d, out) && UpTo(d, top)
    ensures Keeps(b, d, top) && Delivers(out, b.pos.last + 1, d.pos.last) && Got(d, e.frame.sn)
  {
    PunctualData(b, e, top);
    var b1 := b.(timer := e.now);
    d, out := Accept(b1, e.frame, true).0, Accept(b1, e.frame, true).1;
    AcceptInWindow(b1, e.frame);
  }

  lemma {:induction false} StreamIsClean(b: Buffer, es: seq<Event>, top: int)
    requires UpTo(b, top) && Stream(b, es, top)
    ensures CleanRun(b, es)
    decreases |es|
  {
    if es != [] {
      var d, _ := StreamStep(b, es[0], top);
      StreamIsClean(d, es[1..], top);
    }
  }

  lemma StreamHead(b: Buffer, es: seq<Event>, top: int) returns (d: Buffer, out: seq<Outcome>)
    requires UpTo(b, top) && Stream(b, es, top) && es != []
    ensures UpTo(d, top) && Stream(d, es[1..], top) && Delivers(out, b.pos.last + 1, d.pos.last)
    ensures BufferRun(b, es) == (BufferRun(d, es[1..]).0, out + BufferRun(d, es[1..]).1)
  {
    d, out := StreamStep(b, es[0], top);
  }

  predicate SkipsNone(b: Buffer, r: (Buffer, seq<Outcome>)) {
    b.pos.At? && r.0.pos.At? && Delivers(r.1, b.pos.last + 1, r.0.pos.last)
  }

  lemma SkipsNoneConcat(b: Buffer, d: Buffer, out: seq<Outcome>, r: (Buffer, seq<Outcome>))
    requires SkipsNone(b, (d, out)) && SkipsNone(d, r)
    ensures SkipsNone(b, (r.0, out + r.1))
  {
    DeliversConcat(out, r.1, b.pos.last + 1, d.pos.last, r.0.pos.last);
  }

  /** A stream skips no number. */
  lemma {:induction false} StreamDelivers(b: Buffer, es: seq<Event>, top: int)
    requires UpTo(b, top) && Stream(b, es, top)
    ensures SkipsNone(b, BufferRun(b, es))
    decreases |es|
  {
    if es != [] {
      var d, out := StreamHead(b, es, top);
      StreamDelivers(d, es[1..], top);
      SkipsNoneConcat(b, d, out, BufferRun(d, es[1..]));
    }
  }

  lemma KeptThrough(b: Buffer, d: Buffer, a: Buffer, top: int, n: int)
    requires Keeps(b, d, top) && Keeps(d, a, top) && Got(d, n)
    ensures Keeps(b, a, top) && Got(a, n)
  {
  }

  /** Everything that arrives in a stream is passed up or held. */
  lemma {:induction false} StreamKeeps(b: Buffer, es: seq<Event>, top: int)
    requires UpTo(b, top) && Stream(b, es, top) && b.pos.last + 1 !in b.held
    ensures Keeps(b, BufferRun(b, es).0, top)
    ensures AllGot(BufferRun(b, es).0, es)
    decreases |es|
  {
    if es != [] {
      var d, _ := StreamStep(b, es[0], top);
      StreamKeeps(d, es[1..], top);
      KeptThrough(b, d, BufferRun(d, es[1..]).0, top, es[0].frame.sn);
    }
  }

  lemma {:induction false} AllGotAt(d: Buffer, es: seq<Event>, i: nat)
    requires AllGot(d, es) && i < |es|
    ensures es[i].Data? && Got(d, es[i].frame.sn)
  {
    if i > 0 {
      AllGotAt(d, es[1..], i - 1);
    }
  }

  lemma ReachesTop(b: Buffer, a: Buffer, es: seq<Event>, top: int)
    requires Keeps(b, a, top) && AllGot(a, es)
    requires forall n :: b.pos.last < n <= top ==> Arrived(es, n)
    ensures a.pos.last == top
  {
    if a.pos.last < top {
      assert Arrived(es, a.pos.last + 1);
      var i :| 0 <= i < |es| && es[i].Data? && es[i].frame.sn == a.pos.last + 1;
      AllGotAt(a, es, i);
      assert false;
    }
  }

  lemma NothingHeld(c: Session, b: Buffer, top: int)
    requires Rel(c, b) && b.pos == At(top) && forall n :: n in b.held ==> n <= top
    ensures c.list == Nil
  {
    RelOk(c, b);
    SameLength(c, b);
    assert forall n :: n in b.held ==> top + 2 <= n <= top;
    assert b.held.Keys == {};
    assert |b.held.Keys| == |b.held|;
  }

  /**
   * If every number up to `top` arrives at least once, in any order and with any
   * duplicates but never beyond the window, then exactly those numbers go up,
   * each once, in order, and nothing stays in the list.
   */
  lemma EveryFrameDelivered(c: Session, b: Buffer, es: seq<Event>, top: int)
    requires Rel(c, b) && b.pos.At? && b.held == map[] && b.pos.last <= top
    requires Stream(b, es, top)
    requires forall n :: b.pos.last < n <= top ==> Arrived(es, n)
    ensures var (d, out) := Run(c, es);
            && Delivers(out, b.pos.last + 1, top)
            && d.last == top % 4096 && d.list == Nil
  {
    RelOk(c, b);
    var a := BufferRun(b, es).0;
    StreamKeeps(b, es, top);
    ReachesTop(b, a, es, top);
    StreamDelivers(b, es, top);
    StreamIsClean(b, es, top);
    RunRefines(c, b, es);
    NothingHeld(Run(c, es).0, a, top);
  }

  // ---- the steps that are not clean ----

  /** A request whose start is held announces it and then accepts it again. */
  lemma BarDuplicates()
    ensures var f := Frame(7, 100, false, false);
            var c := Session(5, Cons(f, Nil), 8, 0);
            && Rel(c, Buffer(At(5), map[7 := f], 8, 0))
            && Run(c, [Bar(7), Data(f, 0, true)]).1 == [Announce(f), Announce(f)]
  {
    var f := Frame(7, 100, false, false);
    var list := Cons(f, Nil);
    var c := Session(5, list, 8, 0);
    assert HeldOf(list) == map[7 := f];
    assert TakeLe(list, 7) == [Announce(f)];
    var d := Session(6, Nil, 8, 0);
    assert Step(c, Bar(7)) == (d, [Announce(f)]);
    assert Step(d, Data(f, 0, true)).1 == [] + ([Announce(f)] + []);
    assert [Bar(7), Data(f, 0, true)][1..] == [Data(f, 0, true)];
    assert Run(d, [Data(f, 0, true)]).1 == [Announce(f)];
  }

  /**
   * A request before the first frame is ignored from the upper half of the numbers: a frame
   * it gave up on still goes up, where the reference buffer gives it back.
   */
  lemma BarIgnored()
    ensures var f := Frame(2000, 100, false, false);
            var c := Session(RESET_RCV_SEQ, Nil, 8, 0);
            var b := Buffer(Unset, map[], 8, 0);
            && Rel(c, b)
            && Run(c, [Bar(3000), Data(f, 0, true)]).1 == [Announce(f)]
            && BufferRun(b, [Bar(3000), Data(f, 0, true)]).1 == [Release(f)]
  {
    var f := Frame(2000, 100, false, false);
    var c := Session(RESET_RCV_SEQ, Nil, 8, 0);
    var b := Buffer(Unset, map[], 8, 0);
    assert [Bar(3000), Data(f, 0, true)][1..] == [Data(f, 0, true)];
    assert Step(c, Bar(3000)) == (c, []);
    assert Step(c, Data(f, 0, true)).1 == [] + [Announce(f)];
    assert Run(c, [Data(f, 0, true)]).1 == [Announce(f)];
    var d := b.(pos := At(2999));
    assert BufferStep(b, Bar(3000)) == (d, []);
    assert BufferStep(d, Data(f, 0, true)).1 == [] + [Release(f)];
    assert BufferRun(d, [Data(f, 0, true)]).1 == [Release(f)];
  }

  /** A second copy that finds no block goes up right after the first. */
  lemma NoBlockDuplicates()
    ensures var f := Frame(7, 100, false, false);
            var c := Session(5, Cons(f, Nil), 8, 0);
            && Rel(c, Buffer(At(5), map[7 := f], 8, 0))
            && Step(c, Data(f, 0, false)).1 == [Announce(f), Announce(f)]
  {
    var f := Frame(7, 100, false, false);
    var list := Cons(f, Nil);
    assert HeldOf(list) == map[7 := f];
    assert TakeLe(list, 7) == [Announce(f)];
    assert DropLe(list, 7) == Nil;
  }
}
