/**
 * The receive reordering of one 802.11n Block-Ack session
 * (rt3070/common/ba_action.c), as functions on values.
 *
 * A session keeps the 12-bit number of the last frame passed up and a list of
 * frames received ahead of it.  Every function below computes with the 12-bit
 * numbers only, branch by branch as the driver does.  BlockAckRefinement
 * compares it with an unbounded reorder buffer, and BlockAckDriver is the
 * linked-list code proved against it.
 */
module BlockAckReordering {
  import opened Basics

  const RESET_RCV_SEQ: int := 0xFFFF
  const MAX_RX_PKT_LEN: int := 1520
  const OS_HZ: int := 100
  const REORDERING_PACKET_TIMEOUT: int := 100 * OS_HZ / 1000
  const MAX_REORDERING_PACKET_TIMEOUT: int := 3000 * OS_HZ / 1000

  /** `sn` is the sender's own unbounded counter.  Only `sn % 4096` is on the air. */
  datatype Frame = Frame(sn: int, len: nat, amsdu: bool, eapol: bool)

  function Seq(f: Frame): nat { f.sn % 4096 }

  predicate SeqSmaller(a: int, b: int) { (a - b) % 4096 >= 2048 }

  predicate SeqStepOne(a: int, b: int) { a == (b + 1) % 4096 }

  /** Comparison of 32-bit tick counters, RTMP_TIME_AFTER. */
  predicate TimeAfter(a: int, b: int) { (b - a) % 0x1_0000_0000 >= 0x8000_0000 }

  /** What the driver does with a frame; `Reset` marks `LastIndSeq = RESET_RCV_SEQ`. */
  datatype Outcome = Announce(frame: Frame) | Release(frame: Frame) | Reset

  /** The reordering list, head first. */
  datatype List = Nil | Cons(head: Frame, tail: List) {
    function Length(): nat { if Nil? then 0 else 1 + tail.Length() }
  }

  datatype Session = Session(last: int, list: List, win: nat, timer: int)

  /** `alloc` tells whether the block pool can serve this frame. */
  datatype Event =
    | Data(frame: Frame, now: int, alloc: bool)
    | Flush(now: int)
    | Bar(start: int)
    | IdleTimeout(now: int)

  // ---- the reordering list ----

  predicate SeqLe(a: int, b: int) { a == b || SeqSmaller(a, b) }

  /** What is left once the frames numbered up to `s` are taken from the front. */
  function DropLe(list: List, s: int): List {
    if list.Cons? && SeqLe(Seq(list.head), s) then DropLe(list.tail, s) else list
  }

  function TakeLe(list: List, s: int): seq<Outcome> {
    if list.Cons? && SeqLe(Seq(list.head), s) then [Announce(list.head)] + TakeLe(list.tail, s) else []
  }

  /** What is left once the frames that continue `last` without a gap are taken. */
  function DropRun(list: List, last: int): List {
    if list.Cons? && SeqStepOne(Seq(list.head), last) then DropRun(list.tail, Seq(list.head)) else list
  }

  function TakeRun(list: List, last: int): seq<Outcome> {
    if list.Cons? && SeqStepOne(Seq(list.head), last)
    then [Announce(list.head)] + TakeRun(list.tail, Seq(list.head))
    else []
  }

  /** The number of the last frame of that run, `last` if it is empty. */
  function RunEnd(list: List, last: int): int {
    if list.Cons? && SeqStepOne(Seq(list.head), last) then RunEnd(list.tail, Seq(list.head)) else last
  }

  function TakeAll(list: List): seq<Outcome> {
    if list.Nil? then [] else [Announce(list.head)] + TakeAll(list.tail)
  }

  /** Sorted insertion; `None` for a number that is already in the list. */
  function InsertSorted(list: List, f: Frame): Option<List> {
    if list.Nil? then Some(Cons(f, Nil))
    else if SeqSmaller(Seq(list.head), Seq(f)) then
      match InsertSorted(list.tail, f)
      case Some(tail) => Some(Cons(list.head, tail))
      case None => None
    else if Seq(list.head) == Seq(f) then None
    else Some(Cons(f, list))
  }

  // ---- the steps of one session ----

  function IndicateLe(c: Session, s: int): (Session, seq<Outcome>) {
    (c.(list := DropLe(c.list, s)), TakeLe(c.list, s))
  }

  /** Passes up the run that continues `c.last` and moves `c.last` along it. */
  function IndicateInOrder(c: Session): (Session, seq<Outcome>) {
    (c.(list := DropRun(c.list, c.last), last := RunEnd(c.list, c.last)), TakeRun(c.list, c.last))
  }

  function Refresh(c: Session): (Session, seq<Outcome>) {
    (c.(list := Nil, last := RESET_RCV_SEQ), TakeAll(c.list) + [Reset])
  }

  /** Gives up on the next number and passes up what then is in order. */
  function SkipOne(c: Session, now: int): (Session, seq<Outcome>) {
    var s := (c.last + 1) % 4096;
    var (d, out1) := IndicateLe(c, s);
    var (e, out2) := IndicateInOrder(d.(timer := now, last := s));
    (e, out1 + out2)
  }

  function FlushTimeout(c: Session, now: int): (Session, seq<Outcome>) {
    if TimeAfter(now, c.timer + MAX_REORDERING_PACKET_TIMEOUT / 6) && c.list.Length() > 1 then
      var (d, out) := Refresh(c);
      (d.(timer := now), out)
    else if TimeAfter(now, c.timer + REORDERING_PACKET_TIMEOUT) && c.list.Length() > 0 then
      SkipOne(c, now)
    else
      (c, [])
  }

  function Enqueue(c: Session, f: Frame, alloc: bool): (Session, seq<Outcome>) {
    if alloc && !f.eapol then
      match InsertSorted(c.list, f)
      case Some(list) => (c.(list := list), [])
      case None => (c, [Release(f)])
    else
      var (d, out) := IndicateLe(c, Seq(f));
      (d.(last := Seq(f)), out + [Announce(f)])
  }

  /** Where the window has to start for it to end at number `s`. */
  function WindowStart(s: int, win: int): int {
    var tmp := s - win - 1;
    ((if tmp < 0 then 4096 + tmp else tmp) + 1) % 4096
  }

  /** A frame beyond the window: slide the window so that it ends at the frame. */
  function ReceiveBeyond(c: Session, f: Frame, alloc: bool): (Session, seq<Outcome>) {
    var start := WindowStart(Seq(f), c.win);
    var (d, out1) := IndicateLe(c, start);
    var (e, out2) := Enqueue(d.(last := start), f, alloc);
    var (g, out3) := IndicateInOrder(e);
    (g, out1 + out2 + out3)
  }

  /** The five cases of Indicate_AMPDU_Packet once the timeout flush is done. */
  function Receive(c: Session, f: Frame, alloc: bool): (Session, seq<Outcome>) {
    var s := Seq(f);
    if c.last == RESET_RCV_SEQ then
      (c.(last := s), [Announce(f)])
    else if SeqStepOne(s, c.last) then
      var (d, out) := IndicateInOrder(c.(last := s));
      (d, [Announce(f)] + out)
    else if SeqLe(s, c.last) then
      (c, [Release(f)])
    else if SeqSmaller(s, (c.last + c.win + 1) % 4096) then
      Enqueue(c, f, alloc)
    else
      ReceiveBeyond(c, f, alloc)
  }

  /** Whether receiving `f` gets as far as asking for a block. */
  predicate Enqueues(c: Session, f: Frame) {
    c.last != RESET_RCV_SEQ && !SeqStepOne(Seq(f), c.last) && !SeqLe(Seq(f), c.last)
  }

  predicate Oversize(f: Frame) { !f.amsdu && f.len > MAX_RX_PKT_LEN }

  function IndicateAmpdu(c: Session, f: Frame, now: int, alloc: bool): (Session, seq<Outcome>) {
    if Oversize(f) then
      (c, [Release(f)])
    else
      var (d, out1) := FlushTimeout(c, now);
      var (e, out2) := Receive(d.(timer := now), f, alloc);
      (e, out1 + out2)
  }

  /** A Block-Ack request moves the window to start at `start`. */
  function BlockAckRequest(c: Session, start: int): (Session, seq<Outcome>) {
    var s := start % 4096;
    if SeqSmaller(c.last, s) then
      var (d, out) := IndicateLe(c, s);
      (d.(last := if s == 0 then 4095 else s - 1), out)
    else
      (c, [])
  }

  const REC_BA_SESSION_IDLE_TIMEOUT: int := 1000

  function SessionIdleTimeout(c: Session, now: int): (Session, seq<Outcome>) {
    if TimeAfter(now, c.timer + REC_BA_SESSION_IDLE_TIMEOUT) then Refresh(c) else (c, [])
  }

  function Step(c: Session, e: Event): (Session, seq<Outcome>) {
    match e
    case Data(f, now, alloc) => IndicateAmpdu(c, f, now, alloc)
    case Flush(now) => FlushTimeout(c, now)
    case Bar(start) => BlockAckRequest(c, start)
    case IdleTimeout(now) => SessionIdleTimeout(c, now)
  }

  function Run(c: Session, es: seq<Event>): (Session, seq<Outcome>)
    decreases |es|
  {
    if es == [] then (c, [])
    else
      var (d, out1) := Step(c, es[0]);
      var (e, out2) := Run(d, es[1..]);
      (e, out1 + out2)
  }

  // ---- when the timeouts fire ----

  lemma SameResidue(x: int, k: int, y: int)
    requires y == x + 0x1_0000_0000 * k
    ensures x % 0x1_0000_0000 == y % 0x1_0000_0000
  {
  }

  /** The comparison only sees the ticks modulo 2^32. */
  lemma TickDifference(a: int, b: int)
    ensures (b % 0x1_0000_0000 - a % 0x1_0000_0000) % 0x1_0000_0000 == (b - a) % 0x1_0000_0000
  {
    var k := b / 0x1_0000_0000 - a / 0x1_0000_0000;
    SameResidue(b % 0x1_0000_0000 - a % 0x1_0000_0000, k, b - a);
  }

  /** On 32-bit tick counters less than half their range apart, the comparison is that of the ticks. */
  lemma TimeAfterNear(a: int, b: int)
    requires -0x8000_0000 <= b - a < 0x8000_0000
    ensures TimeAfter(a % 0x1_0000_0000, b % 0x1_0000_0000) <==> a > b
  {
    TickDifference(a, b);
  }

  /** `d` ticks have passed since the timer was set, whatever the counter has wrapped to. */
  predicate Elapsed(timer: int, now: int, d: nat) {
    d < 0x8000_0000 && now % 0x1_0000_0000 == (timer + d) % 0x1_0000_0000
  }

  /** A deadline of `t` ticks is over exactly when more than `t` have passed. */
  lemma Deadline(timer: int, now: int, d: nat, t: nat)
    requires Elapsed(timer, now, d) && t <= 0x7FFF_FFFF
    ensures TimeAfter(now, timer + t) <==> d > t
  {
    TimeAfterNear(timer + d, timer + t);
    TickDifference(now, timer + t);
    TickDifference(timer + d, timer + t);
  }

  /**
   * The flush by elapsed ticks: nothing up to 10 ticks or for an empty list, everything
   * after more than 50 for more than one frame, and one number given up otherwise.
   */
  lemma FlushByTicks(c: Session, now: int, d: nat)
    requires Elapsed(c.timer, now, d)
    ensures d <= 10 || c.list.Nil? ==> FlushTimeout(c, now) == (c, [])
    ensures d > 50 && c.list.Length() > 1 ==>
              FlushTimeout(c, now) == (Session(0xFFFF, Nil, c.win, now), TakeAll(c.list) + [Reset])
    ensures d > 10 && c.list.Cons? && !(d > 50 && c.list.Length() > 1) ==> FlushTimeout(c, now) == SkipOne(c, now)
  {
    Deadline(c.timer, now, d, 10);
    Deadline(c.timer, now, d, 50);
  }

  /** The idle timer flushes after more than 1000 ticks and not before. */
  lemma IdleByTicks(c: Session, now: int, d: nat)
    requires Elapsed(c.timer, now, d)
    ensures SessionIdleTimeout(c, now)
            == if d > 1000 then (Session(0xFFFF, Nil, c.win, c.timer), TakeAll(c.list) + [Reset]) else (c, [])
  {
    Deadline(c.timer, now, d, 1000);
  }

  /** Frame 7 waits for 6; after 1000 ticks 6 is given up and 7 goes up. */
  lemma GivesUpOnSix()
    ensures var f := Frame(7, 100, false, false);
            Step(Session(5, Cons(f, Nil), 8, 0), Flush(1000)) == (Session(7, Nil, 8, 1000), [Announce(f)])
  {
    var f := Frame(7, 100, false, false);
    var c := Session(5, Cons(f, Nil), 8, 0);
    FlushByTicks(c, 1000, 1000);
    assert c.list.Length() == 1;
    assert TakeLe(c.list, 6) == [] && DropLe(c.list, 6) == c.list;
    assert TakeRun(c.list, 6) == [Announce(f)] + [] && DropRun(c.list, 6) == Nil && RunEnd(c.list, 6) == 7;
    assert [] + ([Announce(f)] + []) == [Announce(f)];
    assert SkipOne(c, 1000) == (Session(7, Nil, 8, 1000), [Announce(f)]);
    assert Step(c, Flush(1000)) == FlushTimeout(c, 1000) == SkipOne(c, 1000);
  }

  /** A new session passes a frame up exactly when it is an A-MSDU or at most 1520 bytes long. */
  lemma LengthLimit(f: Frame, win: nat, timer: int, now: int, alloc: bool)
    ensures Step(Session(0xFFFF, Nil, win, timer), Data(f, now, alloc)).1
            == [if f.amsdu || f.len <= 1520 then Announce(f) else Release(f)]
  {
    assert [] + [Announce(f)] == [Announce(f)];
  }

  // ---- conservation, with no hypothesis on the session or the events ----

  function Count(list: List, f: Frame): (n: nat) {
    if list.Nil? then 0 else (if list.head == f then 1 else 0) + Count(list.tail, f)
  }

  /** How often a trace passes `f` up or gives it back. */
  function Leaves(out: seq<Outcome>, f: Frame): (n: nat) {
    if out == [] then 0
    else (if !out[0].Reset? && out[0].frame == f then 1 else 0) + Leaves(out[1..], f)
  }

  function Arrives(es: seq<Event>, f: Frame): (n: nat) {
    if es == [] then 0
    else (if es[0].Data? && es[0].frame == f then 1 else 0) + Arrives(es[1..], f)
  }

  function Is(g: Frame, f: Frame): nat { if g == f then 1 else 0 }

  lemma {:induction false} LeavesConcat(a: seq<Outcome>, b: seq<Outcome>, f: Frame)
    ensures Leaves(a + b, f) == Leaves(a, f) + Leaves(b, f)
  {
    if a == [] {
      assert a + b == b;
    } else {
      assert (a + b)[1..] == a[1..] + b;
      LeavesConcat(a[1..], b, f);
    }
  }

  lemma {:induction false} LeConserves(list: List, s: int, f: Frame)
    ensures Count(DropLe(list, s), f) + Leaves(TakeLe(list, s), f) == Count(list, f)
  {
    if list.Cons? && SeqLe(Seq(list.head), s) {
      LeConserves(list.tail, s, f);
      LeavesConcat([Announce(list.head)], TakeLe(list.tail, s), f);
    }
  }

  lemma {:induction false} RunTakenConserves(list: List, last: int, f: Frame)
    ensures Count(DropRun(list, last), f) + Leaves(TakeRun(list, last), f) == Count(list, f)
  {
    if list.Cons? && SeqStepOne(Seq(list.head), last) {
      RunTakenConserves(list.tail, Seq(list.head), f);
      LeavesConcat([Announce(list.head)], TakeRun(list.tail, Seq(list.head)), f);
    }
  }

  lemma {:induction false} TakeAllConserves(list: List, f: Frame)
    ensures Leaves(TakeAll(list) + [Reset], f) == Count(list, f)
  {
    if list.Cons? {
      TakeAllConserves(list.tail, f);
      LeavesConcat([Announce(list.head)], TakeAll(list.tail) + [Reset], f);
      assert TakeAll(list) + [Reset] == [Announce(list.head)] + (TakeAll(list.tail) + [Reset]);
    }
  }

  lemma {:induction false} InsertConserves(list: List, g: Frame, f: Frame)
    ensures InsertSorted(list, g).Some?
            ==> Count(InsertSorted(list, g).value, f) == Count(list, f) + Is(g, f)
  {
    if list.Cons? {
      InsertConserves(list.tail, g, f);
    }
  }

  lemma EnqueueConserves(c: Session, g: Frame, alloc: bool, f: Frame)
    ensures var (d, out) := Enqueue(c, g, alloc);
            Count(d.list, f) + Leaves(out, f) == Count(c.list, f) + Is(g, f)
  {
    InsertConserves(c.list, g, f);
    LeConserves(c.list, Seq(g), f);
    LeavesConcat(TakeLe(c.list, Seq(g)), [Announce(g)], f);
  }

  lemma FlushConserves(c: Session, now: int, f: Frame)
    ensures var (d, out) := FlushTimeout(c, now);
            Count(d.list, f) + Leaves(out, f) == Count(c.list, f)
  {
    TakeAllConserves(c.list, f);
    var s := (c.last + 1) % 4096;
    var rest := DropLe(c.list, s);
    LeConserves(c.list, s, f);
    RunTakenConserves(rest, s, f);
    LeavesConcat(TakeLe(c.list, s), TakeRun(rest, s), f);
  }

  lemma BeyondConserves(c: Session, g: Frame, alloc: bool, f: Frame)
    ensures var (d, out) := ReceiveBeyond(c, g, alloc);
            Count(d.list, f) + Leaves(out, f) == Count(c.list, f) + Is(g, f)
  {
    var start := WindowStart(Seq(g), c.win);
    var (d, out1) := IndicateLe(c, start);
    LeConserves(c.list, start, f);
    var d1 := d.(last := start);
    EnqueueConserves(d1, g, alloc, f);
    var (e, out2) := Enqueue(d1, g, alloc);
    RunTakenConserves(e.list, e.last, f);
    LeavesConcat(out1, out2, f);
    LeavesConcat(out1 + out2, TakeRun(e.list, e.last), f);
  }

  lemma OneLeaves(g: Frame, f: Frame)
    ensures Leaves([Announce(g)], f) == Leaves([Release(g)], f) == Is(g, f)
  {
  }

  lemma NextConserves(c: Session, g: Frame, f: Frame)
    ensures var (d, out) := IndicateInOrder(c.(last := Seq(g)));
            Count(d.list, f) + Leaves([Announce(g)] + out, f) == Count(c.list, f) + Is(g, f)
  {
    RunTakenConserves(c.list, Seq(g), f);
    LeavesConcat([Announce(g)], TakeRun(c.list, Seq(g)), f);
    OneLeaves(g, f);
  }

  lemma ReceiveConserves(c: Session, g: Frame, alloc: bool, f: Frame)
    ensures var (d, out) := Receive(c, g, alloc);
            Count(d.list, f) + Leaves(out, f) == Count(c.list, f) + Is(g, f)
  {
    var s := Seq(g);
    if c.last == RESET_RCV_SEQ || (!SeqStepOne(s, c.last) && SeqLe(s, c.last)) {
      OneLeaves(g, f);
    } else if SeqStepOne(s, c.last) {
      NextConserves(c, g, f);
    } else if SeqSmaller(s, (c.last + c.win + 1) % 4096) {
      EnqueueConserves(c, g, alloc, f);
    } else {
      BeyondConserves(c, g, alloc, f);
    }
  }

  lemma StepConserves(c: Session, e: Event, f: Frame)
    ensures var (d, out) := Step(c, e);
            Count(d.list, f) + Leaves(out, f)
            == Count(c.list, f) + (if e.Data? then Is(e.frame, f) else 0)
  {
    match e
    case Data(g, now, alloc) =>
      FlushConserves(c, now, f);
      var (d, out1) := FlushTimeout(c, now);
      ReceiveConserves(d.(timer := now), g, alloc, f);
      LeavesConcat(out1, Receive(d.(timer := now), g, alloc).1, f);
    case Flush(now) =>
      FlushConserves(c, now, f);
    case Bar(start) =>
      LeConserves(c.list, start % 4096, f);
    case IdleTimeout(now) =>
      TakeAllConserves(c.list, f);
  }

  /**
   * Over every run, from every session state and whatever the pool answers,
   * each frame is exactly one of announced, released or still in the list.
   */
  lemma {:induction false} RunConserves(c: Session, es: seq<Event>, f: Frame)
    ensures var (d, out) := Run(c, es);
            Count(d.list, f) + Leaves(out, f) == Count(c.list, f) + Arrives(es, f)
    decreases |es|
  {
    if es != [] {
      StepConserves(c, es[0], f);
      var (d, out1) := Step(c, es[0]);
      RunConserves(d, es[1..], f);
      LeavesConcat(out1, Run(d, es[1..]).1, f);
    }
  }
}
