/**
 * The linked-list code of the receive reordering (rt3070/common/ba_action.c):
 * blocks spliced between the pool's free list and a session's sorted list.
 *
 * Every method is proved against the function of BlockAckReordering that
 * models it, and says which blocks it moves.
 */
module BlockAckDriver {
  import opened Basics
  import opened BlockAckReordering
  import opened BlockAckShared

  class Mpdu {
    var next: Mpdu?
    var frame: Frame

    constructor ()
      ensures next == null
    {
      next := null;
      frame := Frame(0, 0, false, false);
    }
  }

  /** The frames stored along a chain of blocks. */
  ghost function Frames(spine: seq<Mpdu>): List
    reads spine`frame
  {
    if spine == [] then Nil else Cons(spine[0].frame, Frames(spine[1..]))
  }

  function BlockAt(spine: seq<Mpdu>, i: nat): Mpdu? {
    if i < |spine| then spine[i] else null
  }

  lemma {:induction false} FramesLength(spine: seq<Mpdu>)
    ensures Frames(spine).Length() == |spine|
  {
    if spine != [] {
      FramesLength(spine[1..]);
    }
  }

  /** `first` leads through the blocks of `spine`, all distinct, to null. */
  ghost predicate Linked(spine: seq<Mpdu>, first: Mpdu?)
    reads spine`next
  {
    if spine == [] then first == null
    else first == spine[0] && spine[0] !in spine[1..] && Linked(spine[1..], spine[0].next)
  }

  /** The same, block by block. */
  ghost predicate Chained(spine: seq<Mpdu>, first: Mpdu?)
    reads spine`next
  {
    && first == BlockAt(spine, 0)
    && (forall i, j :: 0 <= i < j < |spine| ==> spine[i] != spine[j])
    && (forall i :: 0 <= i < |spine| ==> spine[i].next == BlockAt(spine, i + 1))
  }

  lemma {:induction false} LinkedIsChained(spine: seq<Mpdu>, first: Mpdu?)
    ensures Linked(spine, first) <==> Chained(spine, first)
  {
    if spine != [] {
      var rest := spine[1..];
      LinkedIsChained(rest, spine[0].next);
      if Chained(rest, spine[0].next) && spine[0] !in rest && first == spine[0] {
        assert forall i :: 1 <= i < |spine| ==> spine[i] == rest[i - 1];
        forall i | 0 <= i < |spine|
          ensures spine[i].next == BlockAt(spine, i + 1)
        {
          assert i > 0 ==> rest[i - 1].next == BlockAt(rest, i);
        }
      }
    }
  }

  /** The list with `f` between two chains of blocks. */
  ghost function Splice(done: seq<Mpdu>, f: Frame, rest: seq<Mpdu>): List
    reads done`frame, rest`frame
  {
    if done == [] then Cons(f, Frames(rest)) else Cons(done[0].frame, Splice(done[1..], f, rest))
  }

  /** Insertion passes over the blocks with smaller numbers and stops at the first other. */
  lemma {:induction false} InsertPasses(done: seq<Mpdu>, rest: seq<Mpdu>, f: Frame)
    requires forall b :: b in done ==> SeqSmaller(Seq(b.frame), Seq(f))
    requires rest != [] ==> !SeqSmaller(Seq(rest[0].frame), Seq(f))
    ensures InsertSorted(Frames(done + rest), f)
            == if rest != [] && Seq(rest[0].frame) == Seq(f) then None else Some(Splice(done, f, rest))
  {
    if done == [] {
      assert done + rest == rest;
    } else {
      InsertPasses(done[1..], rest, f);
      assert (done + rest)[1..] == done[1..] + rest;
    }
  }

  lemma {:induction false} FramesSplice(done: seq<Mpdu>, blk: Mpdu, rest: seq<Mpdu>)
    ensures Frames(done + [blk] + rest) == Splice(done, blk.frame, rest)
  {
    var all := done + [blk] + rest;
    if done == [] {
      assert all[1..] == rest;
    } else {
      FramesSplice(done[1..], blk, rest);
      assert all[1..] == done[1..] + [blk] + rest;
    }
  }

  lemma SpliceAt(spine: seq<Mpdu>, k: nat, blk: Mpdu, i: nat)
    requires k <= |spine| && i <= |spine|
    ensures (spine[..k] + [blk] + spine[k..])[i]
            == if i < k then spine[i] else if i == k then blk else spine[i - 1]
  {
  }

  lemma DistinctSplice(spine: seq<Mpdu>, k: nat, blk: Mpdu)
    requires k <= |spine| && blk !in spine && forall i, j :: 0 <= i < j < |spine| ==> spine[i] != spine[j]
    ensures var all := spine[..k] + [blk] + spine[k..];
            forall i, j :: 0 <= i < j < |all| ==> all[i] != all[j]
  {
    var all := spine[..k] + [blk] + spine[k..];
    forall i, j | 0 <= i < j < |all|
      ensures all[i] != all[j]
    {
      SpliceAt(spine, k, blk, i);
      SpliceAt(spine, k, blk, j);
    }
  }

  /** Once the links around it are set, the block is part of the chain. */
  lemma ChainedSplice(spine: seq<Mpdu>, k: nat, blk: Mpdu, first: Mpdu?)
    requires k <= |spine| && blk !in spine && forall i, j :: 0 <= i < j < |spine| ==> spine[i] != spine[j]
    requires forall i :: 0 <= i < |spine| ==> spine[i].next == if i == k - 1 then blk else BlockAt(spine, i + 1)
    requires blk.next == BlockAt(spine, k) && first == if k == 0 then blk else spine[0]
    ensures Linked(spine[..k] + [blk] + spine[k..], first)
  {
    var all := spine[..k] + [blk] + spine[k..];
    forall i | 0 <= i < |all|
      ensures all[i].next == BlockAt(all, i + 1)
    {
      SpliceAt(spine, k, blk, i);
      if i + 1 < |all| {
        SpliceAt(spine, k, blk, i + 1);
      }
    }
    SpliceAt(spine, k, blk, 0);
    DistinctSplice(spine, k, blk);
    LinkedIsChained(all, first);
  }

  ghost function Blocks(spine: seq<Mpdu>): set<Mpdu> {
    set b | b in spine
  }

  lemma BlocksSplice(spine: seq<Mpdu>, k: nat, blk: Mpdu)
    requires k <= |spine|
    ensures Blocks(spine[..k] + [blk] + spine[k..]) == Blocks(spine) + {blk}
  {
    assert spine == spine[..k] + spine[k..];
    forall b | b in spine
      ensures b in spine[..k] + [blk] + spine[k..]
    {
      assert b in spine[..k] || b in spine[k..];
    }
  }

  lemma Spliced(spine: seq<Mpdu>, k: nat, blk: Mpdu)
    requires k <= |spine|
    ensures var all := spine[..k] + [blk] + spine[k..];
            && Frames(all) == Splice(spine[..k], blk.frame, spine[k..])
            && Frames(all).Length() == |spine| + 1
            && Blocks(all) == Blocks(spine) + {blk}
  {
    FramesSplice(spine[..k], blk, spine[k..]);
    FramesLength(spine[..k] + [blk] + spine[k..]);
    BlocksSplice(spine, k, blk);
  }

  class MpduList {
    var next: Mpdu?
    var qlen: int
    ghost var spine: seq<Mpdu>
    ghost var repr: set<Mpdu>
    ghost var contents: List

    /** `qlen` is the real length, and the blocks of `repr` hold `contents` in order. */
    ghost predicate Valid()
      reads this, repr
    {
      && repr == Blocks(spine)
      && qlen == |spine| == contents.Length()
      && Linked(spine, next)
      && contents == Frames(spine)
    }

    constructor ()
      ensures Valid() && repr == {} && contents == Nil
    {
      next := null;
      qlen := 0;
      spine := [];
      repr := {};
      contents := Nil;
    }

    /** ba_enqueue: puts the block in front. */
    method Enqueue(blk: Mpdu)
      requires Valid() && blk !in repr
      modifies this, blk`next
      ensures Valid() && repr == old(repr) + {blk} && contents == Cons(blk.frame, old(contents))
    {
      qlen := qlen + 1;
      blk.next := next;
      next := blk;
      spine := [blk] + spine;
      repr := repr + {blk};
      contents := Cons(blk.frame, contents);
      assert spine[1..] == old(spine);
    }

    /** ba_dequeue: takes the block in front, if there is one. */
    method Dequeue() returns (blk: Mpdu?)
      requires Valid()
      modifies this, repr`next
      ensures Valid()
      ensures blk == null <==> old(repr) == {}
      ensures blk == null ==> repr == {} && contents == old(contents) == Nil
      ensures blk != null ==> blk in old(repr) && repr == old(repr) - {blk}
      ensures blk != null ==> old(contents) == Cons(blk.frame, contents)
    {
      blk := null;
      if qlen != 0 {
        qlen := qlen - 1;
        blk := next;
        if blk != null {
          next := blk.next;
          blk.next := null;
          spine := spine[1..];
          repr := repr - {blk};
          contents := contents.tail;
          assert old(spine) == [blk] + spine;
        }
      }
    }

    /** The scan of ba_reordering_mpdu_insertsorted: where the block goes, or that it is a duplicate. */
    method FindPosition(f: Frame) returns (prev: Mpdu?, scan: Mpdu?, ghost k: nat, duplicate: bool)
      requires Valid()
      ensures k <= |spine| && scan == BlockAt(spine, k)
      ensures prev == if k == 0 then null else spine[k - 1]
      ensures InsertSorted(contents, f)
              == if duplicate then None else Some(Splice(spine[..k], f, spine[k..]))
    {
      LinkedIsChained(spine, next);
      prev, scan, k := null, next, 0;
      while scan != null && SeqSmaller(Seq(scan.frame), Seq(f))
        invariant 0 <= k <= |spine| && scan == BlockAt(spine, k)
        invariant prev == if k == 0 then null else spine[k - 1]
        invariant forall b :: b in spine[..k] ==> SeqSmaller(Seq(b.frame), Seq(f))
        decreases |spine| - k
      {
        assert spine[..k + 1] == spine[..k] + [spine[k]];
        prev := scan;
        scan := scan.next;
        k := k + 1;
      }
      duplicate := scan != null && Seq(scan.frame) == Seq(f);
      assert spine == spine[..k] + spine[k..];
      InsertPasses(spine[..k], spine[k..], f);
    }

    /** The splice of ba_reordering_mpdu_insertsorted, between `prev` and `scan`. */
    method LinkIn(blk: Mpdu, prev: Mpdu?, scan: Mpdu?, ghost k: nat)
      requires Linked(spine, next) && blk !in spine && k <= |spine|
      requires scan == BlockAt(spine, k) && prev == if k == 0 then null else spine[k - 1]
      modifies this`next, blk`next, spine`next
      ensures Linked(spine[..k] + [blk] + spine[k..], next)
    {
      LinkedIsChained(spine, next);
      blk.next := scan;
      if prev == null {
        next := blk;
      } else {
        prev.next := blk;
      }
      assert forall i :: 0 <= i < |spine| ==> spine[i].next == if i == k - 1 then blk else BlockAt(spine, i + 1);
      ChainedSplice(spine, k, blk, next);
    }

    /** ba_reordering_mpdu_insertsorted: false for a number already in the list. */
    method InsertSortedBlock(blk: Mpdu) returns (ok: bool)
      requires Valid() && blk !in repr
      modifies this, blk`next, repr`next
      ensures Valid() && repr == old(repr) + if ok then {blk} else {}
      ensures !ok ==> contents == old(contents)
      ensures InsertSorted(old(contents), blk.frame) == if ok then Some(contents) else None
    {
      var prev, scan, k, duplicate := FindPosition(blk.frame);
      if duplicate {
        return false;
      }
      Spliced(spine, k, blk);
      ghost var all := spine[..k] + [blk] + spine[k..];
      contents := Frames(all);
      LinkIn(blk, prev, scan, k);
      qlen := qlen + 1;
      spine := all;
      repr := repr + {blk};
      return true;
    }
  }

  /** Equal except for what the pool answered. */
  ghost predicate SameBut(a: Event, b: Event) {
    if a.Data? then b.Data? && a.frame == b.frame && a.now == b.now else a == b
  }

  ghost predicate Answered(inputs: seq<(nat, Event)>, events: seq<(nat, Event)>) {
    |events| == |inputs|
    && forall i :: 0 <= i < |inputs| ==> inputs[i].0 == events[i].0 && SameBut(inputs[i].1, events[i].1)
  }

  lemma AnsweredCons(inputs: seq<(nat, Event)>, first: (nat, Event), rest: seq<(nat, Event)>)
    requires inputs != [] && inputs[0].0 == first.0 && SameBut(inputs[0].1, first.1) && Answered(inputs[1..], rest)
    ensures Answered(inputs, [first] + rest)
  {
  }

  /** BA_REC_ENTRY, as far as reordering goes. */
  class RecEntry {
    var LastIndSeq: int
    var BAWinSize: nat
    var LastIndSeqAtTimer: int
    const list: MpduList

    constructor (win: nat)
      ensures State() == Session(RESET_RCV_SEQ, Nil, win, 0) && list.Valid() && list.repr == {} && fresh(list)
    {
      LastIndSeq := RESET_RCV_SEQ;
      BAWinSize := win;
      LastIndSeqAtTimer := 0;
      list := new MpduList();
    }

    ghost function State(): Session
      reads this, list
    {
      Session(LastIndSeq, list.contents, BAWinSize, LastIndSeqAtTimer)
    }
  }

  /** Two sessions have no block in common. */
  ghost predicate Apart(s: RecEntry, t: RecEntry)
    reads s.list, t.list
  {
    s.list != t.list && s.list.repr !! t.list.repr
  }

  predicate Distinct(sessions: seq<RecEntry>) {
    forall i, j :: 0 <= i < j < |sessions| ==> sessions[i] != sessions[j]
  }

  ghost predicate Separate(sessions: seq<RecEntry>)
    reads set s | s in sessions :: s.list
  {
    forall s, t :: s in sessions && t in sessions && s != t ==> Apart(s, t)
  }

  ghost function ListBlocks(sessions: seq<RecEntry>): set<Mpdu>
    reads set s | s in sessions :: s.list
  {
    set s, b | s in sessions && b in s.list.repr :: b
  }

  /** The sessions other than `e`. */
  ghost function Beside(sessions: seq<RecEntry>, e: RecEntry): seq<RecEntry> {
    if sessions == [] then []
    else (if sessions[0] == e then [] else [sessions[0]]) + Beside(sessions[1..], e)
  }

  lemma {:induction false} BesideMember(sessions: seq<RecEntry>, e: RecEntry, s: RecEntry)
    ensures s in Beside(sessions, e) <==> s in sessions && s != e
  {
    if sessions != [] {
      BesideMember(sessions[1..], e, s);
      assert sessions == [sessions[0]] + sessions[1..];
    }
  }

  ghost predicate InStates(sessions: seq<RecEntry>, cs: seq<Session>)
    reads sessions, set s | s in sessions :: s.list
  {
    |cs| == |sessions| && forall i :: 0 <= i < |cs| ==> cs[i] == sessions[i].State()
  }

  ghost function StatesOf(sessions: seq<RecEntry>): (cs: seq<Session>)
    reads sessions, set s | s in sessions :: s.list
    ensures InStates(sessions, cs)
  {
    if sessions == [] then [] else StatesOf(sessions[..|sessions| - 1]) + [sessions[|sessions| - 1].State()]
  }

  ghost function Buffered(sessions: seq<RecEntry>): int
    reads set s | s in sessions :: s.list
  {
    if sessions == [] then 0 else sessions[0].list.qlen + Buffered(sessions[1..])
  }

  lemma {:induction false} BlocksSize(spine: seq<Mpdu>, first: Mpdu?)
    requires Linked(spine, first)
    ensures |Blocks(spine)| == |spine|
  {
    if spine != [] {
      BlocksSize(spine[1..], spine[0].next);
      assert Blocks(spine) == Blocks(spine[1..]) + {spine[0]};
    }
  }

  lemma FirstAndRest(sessions: seq<RecEntry>)
    requires sessions != [] && Distinct(sessions) && Separate(sessions)
    ensures var first, rest := sessions[0], sessions[1..];
            && Distinct(rest) && Separate(rest) && (forall s :: s in rest ==> s in sessions)
            && ListBlocks(sessions) == first.list.repr + ListBlocks(rest)
            && first.list.repr !! ListBlocks(rest)
  {
    var first, rest := sessions[0], sessions[1..];
    assert forall s :: s in sessions <==> s == first || s in rest;
    forall s | s in rest
      ensures Apart(first, s)
    {
      var i :| 0 <= i < |rest| && rest[i] == s;
      assert sessions[i + 1] == s;
    }
    assert ListBlocks(sessions) == first.list.repr + ListBlocks(rest);
  }

  lemma {:induction false} BufferedSize(sessions: seq<RecEntry>)
    requires Distinct(sessions) && Separate(sessions) && forall s :: s in sessions ==> s.list.Valid()
    ensures |ListBlocks(sessions)| == Buffered(sessions)
  {
    if sessions != [] {
      FirstAndRest(sessions);
      BufferedSize(sessions[1..]);
      BlocksSize(sessions[0].list.spine, sessions[0].list.next);
    }
  }

  lemma StillApart(free: set<Mpdu>, list: set<Mpdu>, lost: set<Mpdu>,
                   free0: set<Mpdu>, list0: set<Mpdu>, lost0: set<Mpdu>, other: set<Mpdu>)
    requires free + list + lost == free0 + list0 + lost0
    requires free0 !! other && list0 !! other && lost0 !! other
    ensures free !! other && list !! other && lost !! other
  {
    assert (free + list + lost) !! other;
  }

  /** The adapter: the block pool and the trace of what happens to frames. */
  class Adapter {
    const freelist: MpduList
    var trace: seq<Outcome>
    ghost var lost: set<Mpdu>

    /** ba_reordering_resource_init: a pool of `num` blocks, all free. */
    constructor (num: nat)
      ensures freelist.Valid() && freelist.qlen == num && trace == [] && lost == {}
      ensures fresh(freelist) && fresh(freelist.repr)
    {
      freelist := new MpduList();
      trace := [];
      lost := {};
      new;
      for i := 0 to num
        invariant freelist.Valid() && freelist.qlen == i && trace == [] && lost == {}
        invariant fresh(freelist.repr)
      {
        var blk := new Mpdu();
        freelist.Enqueue(blk);
      }
    }

    /** Both lists are well formed and no block is in two of them, or lost. */
    ghost predicate Ready(e: RecEntry)
      reads this, freelist, freelist.repr, e.list, e.list.repr
    {
      && freelist != e.list
      && freelist.Valid() && e.list.Valid()
      && freelist.repr !! e.list.repr && freelist.repr !! lost && e.list.repr !! lost
    }

    /** Every block the pool shares with this session, in a list or lost. */
    ghost function Owned(e: RecEntry): set<Mpdu>
      reads this, freelist, e.list
    {
      freelist.repr + e.list.repr + lost
    }

    /** Dequeues the first block of the list, announces it and frees it. */
    method PassUpFirst(e: RecEntry) returns (f: Frame)
      requires Ready(e) && e.list.contents.Cons?
      modifies this`trace, freelist, e.list, Owned(e)`next
      ensures Ready(e) && Owned(e) == old(Owned(e)) && freelist.repr != {}
      ensures old(e.list.contents) == Cons(f, e.list.contents)
      ensures trace == old(trace) + [Announce(f)]
    {
      var blk := e.list.Dequeue();
      f := blk.frame;
      trace := trace + [Announce(f)];
      freelist.Enqueue(blk);
    }

    /** ba_indicate_reordering_mpdus_le_seq */
    method IndicateLeSeq(e: RecEntry, s: int)
      requires Ready(e)
      modifies this`trace, freelist, e.list, Owned(e)`next
      ensures Ready(e) && Owned(e) == old(Owned(e))
      ensures old(freelist.repr) != {} ==> freelist.repr != {}
      ensures e.list.contents == DropLe(old(e.list.contents), s)
      ensures trace == old(trace) + TakeLe(old(e.list.contents), s)
    {
      ghost var all := e.list.contents;
      while e.list.next != null && SeqLe(Seq(e.list.next.frame), s)
        invariant Ready(e) && Owned(e) == old(Owned(e))
        invariant old(freelist.repr) != {} ==> freelist.repr != {}
        invariant DropLe(e.list.contents, s) == DropLe(all, s)
        invariant trace + TakeLe(e.list.contents, s) == old(trace) + TakeLe(all, s)
        decreases e.list.contents
      {
        ghost var was := trace;
        var f := PassUpFirst(e);
        Associate(was, [Announce(f)], TakeLe(e.list.contents, s));
      }
    }
  
    /** ba_indicate_reordering_mpdus_in_order; `last` is RESET_RCV_SEQ if nothing went up. */
    method IndicateInOrderFrom(e: RecEntry, start: int) returns (last: int)
      requires Ready(e)
      modifies this`trace, freelist, e.list, Owned(e)`next
      ensures Ready(e) && Owned(e) == old(Owned(e))
      ensures old(freelist.repr) != {} ==> freelist.repr != {}
      ensures e.list.contents == DropRun(old(e.list.contents), start)
      ensures trace == old(trace) + TakeRun(old(e.list.contents), start)
      ensures RunEnd(old(e.list.contents), start) == if last == RESET_RCV_SEQ then start else last
    {
      ghost var all := e.list.contents;
      var cur := start;
      last := RESET_RCV_SEQ;
      while e.list.next != null && SeqStepOne(Seq(e.list.next.frame), cur)
        invariant Ready(e) && Owned(e) == old(Owned(e))
        invariant old(freelist.repr) != {} ==> freelist.repr != {}
        invariant DropRun(e.list.contents, cur) == DropRun(all, start)
        invariant RunEnd(e.list.contents, cur) == RunEnd(all, start)
        invariant cur == if last == RESET_RCV_SEQ then start else last
        invariant trace + TakeRun(e.list.contents, cur) == old(trace) + TakeRun(all, start)
        decreases e.list.contents
      {
        ghost var was := trace;
        var f := PassUpFirst(e);
        Associate(was, [Announce(f)], TakeRun(e.list.contents, Seq(f)));
        cur := Seq(f);
        last := cur;
      }
    }

    /** Runs the in-order pass from `LastIndSeq` and moves `LastIndSeq` along. */
    method ContinueInOrder(e: RecEntry)
      requires Ready(e)
      modifies this`trace, freelist, e`LastIndSeq, e.list, Owned(e)`next
      ensures Ready(e) && Owned(e) == old(Owned(e))
      ensures old(freelist.repr) != {} ==> freelist.repr != {}
      ensures e.State() == IndicateInOrder(old(e.State())).0
      ensures trace == old(trace) + IndicateInOrder(old(e.State())).1
    {
      var last := IndicateInOrderFrom(e, e.LastIndSeq);
      if last != RESET_RCV_SEQ {
        e.LastIndSeq := last;
      }
    }

    /** The loop of ba_refresh_reordering_mpdus. */
    method PassUpAll(e: RecEntry)
      requires Ready(e)
      modifies this`trace, freelist, e`LastIndSeq, e.list, Owned(e)`next
      ensures Ready(e) && Owned(e) == old(Owned(e))
      ensures old(freelist.repr) != {} ==> freelist.repr != {}
      ensures e.list.contents == Nil && trace == old(trace) + TakeAll(old(e.list.contents))
    {
      ghost var all := e.list.contents;
      while e.list.next != null
        invariant Ready(e) && Owned(e) == old(Owned(e))
        invariant old(freelist.repr) != {} ==> freelist.repr != {}
        invariant trace + TakeAll(e.list.contents) == old(trace) + TakeAll(all)
        decreases e.list.contents
      {
        ghost var was := trace;
        var f := PassUpFirst(e);
        e.LastIndSeq := Seq(f);
        Associate(was, [Announce(f)], TakeAll(e.list.contents));
      }
    }

    /** ba_refresh_reordering_mpdus */
    method RefreshList(e: RecEntry)
      requires Ready(e)
      modifies this`trace, freelist, e`LastIndSeq, e.list, Owned(e)`next
      ensures Ready(e) && Owned(e) == old(Owned(e)) && e.list.qlen == 0
      ensures old(freelist.repr) != {} ==> freelist.repr != {}
      ensures e.State() == Refresh(old(e.State())).0
      ensures trace == old(trace) + Refresh(old(e.State())).1
    {
      ghost var all := e.list.contents;
      PassUpAll(e);
      e.LastIndSeq := RESET_RCV_SEQ;
      trace := trace + [Reset];
      Associate(old(trace), TakeAll(all), [Reset]);
    }

    /** The second branch of ba_flush_reordering_timeout_mpdus. */
    method SkipOneMpdu(e: RecEntry, now: int)
      requires Ready(e)
      modifies this`trace, freelist, e, e.list, Owned(e)`next
      ensures Ready(e) && Owned(e) == old(Owned(e))
      ensures old(freelist.repr) != {} ==> freelist.repr != {}
      ensures e.State() == SkipOne(old(e.State()), now).0
      ensures trace == old(trace) + SkipOne(old(e.State()), now).1
    {
      ghost var c := e.State();
      GiveUpTo(e, (e.LastIndSeq + 1) % 4096, now);
      ghost var d := e.State();
      ContinueInOrder(e);
      Associate(old(trace), IndicateLe(c, d.last).1, IndicateInOrder(d).1);
    }

    method GiveUpTo(e: RecEntry, s: int, now: int)
      requires Ready(e)
      modifies this`trace, freelist, e, e.list, Owned(e)`next
      ensures Ready(e) && Owned(e) == old(Owned(e))
      ensures old(freelist.repr) != {} ==> freelist.repr != {}
      ensures e.State() == IndicateLe(old(e.State()), s).0.(timer := now, last := s)
      ensures trace == old(trace) + IndicateLe(old(e.State()), s).1
    {
      IndicateLeSeq(e, s);
      e.LastIndSeqAtTimer := now;
      e.LastIndSeq := s;
    }

    /** ba_flush_reordering_timeout_mpdus */
    method FlushTimeoutMpdus(e: RecEntry, now: int)
      requires Ready(e)
      modifies this`trace, freelist, e, e.list, Owned(e)`next
      ensures Ready(e) && Owned(e) == old(Owned(e))
      ensures old(freelist.repr) != {} ==> freelist.repr != {}
      ensures e.State() == FlushTimeout(old(e.State()), now).0
      ensures trace == old(trace) + FlushTimeout(old(e.State()), now).1
    {
      if TimeAfter(now, e.LastIndSeqAtTimer + MAX_REORDERING_PACKET_TIMEOUT / 6) && e.list.qlen > 1 {
        RefreshList(e);
        e.LastIndSeqAtTimer := now;
      } else if TimeAfter(now, e.LastIndSeqAtTimer + REORDERING_PACKET_TIMEOUT) && e.list.qlen > 0 {
        SkipOneMpdu(e, now);
      }
    }

    /** The block path of ba_enqueue_reordering_packet. */
    method Store(e: RecEntry, blk: Mpdu, f: Frame)
      requires Ready(e) && blk !in Owned(e) && !f.eapol
      modifies this`trace, freelist, e.list, blk, Owned(e)`next
      ensures Ready(e) && Owned(e) == old(Owned(e)) + {blk}
      ensures e.State() == Enqueue(old(e.State()), f, true).0
      ensures trace == old(trace) + Enqueue(old(e.State()), f, true).1
    {
      blk.frame := f;
      var ok := e.list.InsertSortedBlock(blk);
      if !ok {
        trace := trace + [Release(f)];
        freelist.Enqueue(blk);
      }
    }

    /** The other path: everything up to the frame goes up, then the frame. */
    method PassUpWithoutBlock(e: RecEntry, f: Frame, ghost alloc: bool)
      requires Ready(e) && !(alloc && !f.eapol)
      modifies this`trace, freelist, e`LastIndSeq, e.list, Owned(e)`next
      ensures Ready(e) && Owned(e) == old(Owned(e))
      ensures e.State() == Enqueue(old(e.State()), f, alloc).0
      ensures trace == old(trace) + Enqueue(old(e.State()), f, alloc).1
    {
      ghost var c := e.State();
      IndicateLeSeq(e, Seq(f));
      e.LastIndSeq := Seq(f);
      trace := trace + [Announce(f)];
      Associate(old(trace), IndicateLe(c, Seq(f)).1, [Announce(f)]);
    }

    /**
     * ba_enqueue_reordering_packet.  A block taken for an EAPOL frame is not
     * given back; otherwise every block stays in one of the two lists.
     */
    method EnqueueReorderingPacket(e: RecEntry, f: Frame) returns (ghost alloc: bool)
      requires Ready(e)
      modifies this, freelist, e, e.list, Owned(e)
      ensures Ready(e) && Owned(e) == old(Owned(e))
      ensures alloc <==> old(freelist.repr) != {}
      ensures old(lost) <= lost && (lost == old(lost) <==> !(alloc && f.eapol))
      ensures e.State() == Enqueue(old(e.State()), f, alloc).0
      ensures trace == old(trace) + Enqueue(old(e.State()), f, alloc).1
    {
      var blk := freelist.Dequeue();
      alloc := blk != null;
      if blk != null && !f.eapol {
        Store(e, blk, f);
      } else {
        if blk != null {
          lost := lost + {blk};
        }
        PassUpWithoutBlock(e, f, alloc);
      }
    }

    /** Case V of Indicate_AMPDU_Packet; `alloc` tells whether a block was found. */
    method ReceiveBeyondWindow(e: RecEntry, f: Frame) returns (ghost alloc: bool)
      requires Ready(e)
      modifies this, freelist, e, e.list, Owned(e)
      ensures Ready(e) && Owned(e) == old(Owned(e))
      ensures old(freelist.repr) != {} ==> alloc
      ensures old(lost) <= lost && (lost == old(lost) <==> !(alloc && f.eapol))
      ensures e.State() == ReceiveBeyond(old(e.State()), f, alloc).0
      ensures trace == old(trace) + ReceiveBeyond(old(e.State()), f, alloc).1
    {
      ghost var c := e.State();
      var start := WindowStart(Seq(f), e.BAWinSize);
      IndicateLeSeq(e, start);
      e.LastIndSeq := start;
      ghost var d := e.State();
      assert d == IndicateLe(c, start).0.(last := start);
      alloc := EnqueueReorderingPacket(e, f);
      ghost var g := e.State();
      assert g == Enqueue(d, f, alloc).0;
      ContinueInOrder(e);
      Associate(old(trace), IndicateLe(c, start).1, Enqueue(d, f, alloc).1);
      Associate(old(trace), IndicateLe(c, start).1 + Enqueue(d, f, alloc).1, IndicateInOrder(g).1);
    }

    /** Case I of Indicate_AMPDU_Packet. */
    method ReceiveNext(e: RecEntry, f: Frame)
      requires Ready(e) && e.LastIndSeq != RESET_RCV_SEQ && SeqStepOne(Seq(f), e.LastIndSeq)
      modifies this`trace, freelist, e`LastIndSeq, e.list, Owned(e)`next
      ensures Ready(e) && Owned(e) == old(Owned(e))
      ensures e.State() == Receive(old(e.State()), f, true).0
      ensures trace == old(trace) + Receive(old(e.State()), f, true).1
    {
      e.LastIndSeq := Seq(f);
      trace := trace + [Announce(f)];
      ghost var d := e.State();
      ContinueInOrder(e);
      Associate(old(trace), [Announce(f)], IndicateInOrder(d).1);
    }

    /** Cases IV and V of Indicate_AMPDU_Packet. */
    method ReceiveAhead(e: RecEntry, f: Frame) returns (ghost alloc: bool)
      requires Ready(e) && Enqueues(e.State(), f)
      modifies this, freelist, e, e.list, Owned(e)
      ensures Ready(e) && Owned(e) == old(Owned(e))
      ensures old(freelist.repr) != {} ==> alloc
      ensures old(lost) <= lost && (lost == old(lost) <==> !(alloc && f.eapol))
      ensures e.State() == Receive(old(e.State()), f, alloc).0
      ensures trace == old(trace) + Receive(old(e.State()), f, alloc).1
    {
      if SeqSmaller(Seq(f), (e.LastIndSeq + e.BAWinSize + 1) % 4096) {
        alloc := EnqueueReorderingPacket(e, f);
      } else {
        alloc := ReceiveBeyondWindow(e, f);
      }
    }

    /** The five cases of Indicate_AMPDU_Packet. */
    method ReceivePacket(e: RecEntry, f: Frame) returns (ghost alloc: bool)
      requires Ready(e)
      modifies this, freelist, e, e.list, Owned(e)
      ensures Ready(e) && Owned(e) == old(Owned(e))
      ensures old(freelist.repr) != {} ==> alloc
      ensures old(lost) <= lost && (lost == old(lost) <==> !(Enqueues(old(e.State()), f) && alloc && f.eapol))
      ensures e.State() == Receive(old(e.State()), f, alloc).0
      ensures trace == old(trace) + Receive(old(e.State()), f, alloc).1
    {
      alloc := true;
      if e.LastIndSeq == RESET_RCV_SEQ {
        e.LastIndSeq := Seq(f);
        trace := trace + [Announce(f)];
      } else if SeqStepOne(Seq(f), e.LastIndSeq) {
        ReceiveNext(e, f);
      } else if SeqLe(Seq(f), e.LastIndSeq) {
        trace := trace + [Release(f)];
      } else {
        alloc := ReceiveAhead(e, f);
      }
    }

    /**
     * Indicate_AMPDU_Packet on a session.  A block is lost exactly when an EAPOL frame
     * reaches the enqueue and takes one.
     */
    method IndicateAmpduPacket(e: RecEntry, f: Frame, now: int) returns (ghost alloc: bool)
      requires Ready(e)
      modifies this, freelist, e, e.list, Owned(e)
      ensures Ready(e) && Owned(e) == old(Owned(e))
      ensures old(freelist.repr) != {} ==> alloc
      ensures old(lost) <= lost && (lost == old(lost) <==> !Leaks(old(e.State()), Data(f, now, alloc)))
      ensures e.State() == IndicateAmpdu(old(e.State()), f, now, alloc).0
      ensures trace == old(trace) + IndicateAmpdu(old(e.State()), f, now, alloc).1
    {
      alloc := true;
      if Oversize(f) {
        trace := trace + [Release(f)];
      } else {
        ghost var c := e.State();
        FlushTimeoutMpdus(e, now);
        e.LastIndSeqAtTimer := now;
        ghost var d := e.State();
        assert d == FlushTimeout(c, now).0.(timer := now);
        alloc := ReceivePacket(e, f);
        Associate(old(trace), FlushTimeout(c, now).1, Receive(d, f, alloc).1);
      }
    }

    /** CntlEnqueueForRecv: a Block-Ack request for the session. */
    method BlockAckRequestReceived(e: RecEntry, start: int)
      requires Ready(e) && 0 <= start < 4096
      modifies this`trace, freelist, e, e.list, Owned(e)`next
      ensures Ready(e) && Owned(e) == old(Owned(e))
      ensures e.State() == BlockAckRequest(old(e.State()), start).0
      ensures trace == old(trace) + BlockAckRequest(old(e.State()), start).1
    {
      if SeqSmaller(e.LastIndSeq, start) {
        IndicateLeSeq(e, start);
        e.LastIndSeq := if start == 0 then 4095 else start - 1;
      }
    }

    /** BARecSessionIdleTimeout */
    method IdleTimeoutFired(e: RecEntry, now: int)
      requires Ready(e)
      modifies this`trace, freelist, e, e.list, Owned(e)`next
      ensures Ready(e) && Owned(e) == old(Owned(e))
      ensures e.State() == SessionIdleTimeout(old(e.State()), now).0
      ensures trace == old(trace) + SessionIdleTimeout(old(e.State()), now).1
    {
      if TimeAfter(now, e.LastIndSeqAtTimer + REC_BA_SESSION_IDLE_TIMEOUT) {
        RefreshList(e);
      }
    }
  
    /** One event of a session; the pool decides the `alloc` of a data frame. */
    method Handle(e: RecEntry, input: Event) returns (ghost event: Event)
      requires Ready(e)
      modifies this, freelist, e, e.list, Owned(e)
      ensures Ready(e) && Owned(e) == old(Owned(e))
      ensures SameBut(input, event)
      ensures old(lost) <= lost && (lost == old(lost) <==> !Leaks(old(e.State()), event))
      ensures e.State() == Step(old(e.State()), event).0
      ensures trace == old(trace) + Step(old(e.State()), event).1
    {
      event := input;
      match input
      case Data(f, now, _) =>
        ghost var alloc := IndicateAmpduPacket(e, f, now);
        event := Data(f, now, alloc);
      case Flush(now) => FlushTimeoutMpdus(e, now);
      case Bar(start) => BlockAckRequestReceived(e, start % 4096);
      case IdleTimeout(now) => IdleTimeoutFired(e, now);
    }

    // ---- all sessions of the adapter ----

    /** Every list is well formed, and no block is in two lists, in the pool and a list, or lost. */
    ghost predicate AllReady(sessions: seq<RecEntry>)
      reads this, freelist, freelist.repr
      reads set s | s in sessions :: s.list
      reads ListBlocks(sessions)
    {
      && freelist.Valid() && freelist.repr !! lost
      && Distinct(sessions) && Separate(sessions) && (forall s :: s in sessions ==> Ready(s))
    }

    /** All blocks of the pool: free, in one of the lists, or lost. */
    ghost function Pool(sessions: seq<RecEntry>): set<Mpdu>
      reads this, freelist
      reads set s | s in sessions :: s.list
    {
      freelist.repr + ListBlocks(sessions) + lost
    }

    /** Handling an event of one session does not touch another. */
    method HandleBeside(e: RecEntry, input: Event, ghost others: seq<RecEntry>) returns (ghost event: Event)
      requires Ready(e) && Separate(others) && e !in others && forall s :: s in others ==> Ready(s) && Apart(e, s)
      modifies this, freelist, e, e.list, Owned(e)
      ensures Ready(e) && Owned(e) == old(Owned(e))
      ensures SameBut(input, event)
      ensures old(lost) <= lost && (lost == old(lost) <==> !Leaks(old(e.State()), event))
      ensures e.State() == Step(old(e.State()), event).0
      ensures trace == old(trace) + Step(old(e.State()), event).1
      ensures Separate(others) && forall s :: s in others ==> Ready(s) && Apart(e, s)
      ensures ListBlocks(others) == old(ListBlocks(others)) && forall s :: s in others ==> s.State() == old(s.State())
    {
      event := Handle(e, input);
      forall s | s in others
        ensures Ready(s) && Apart(e, s)
      {
        assert old(Ready(s) && Apart(e, s));
        StillApart(freelist.repr, e.list.repr, lost, old(freelist.repr), old(e.list.repr), old(lost), s.list.repr);
      }
    }

    /** The pool, seen from one session. */
    lemma PoolFrom(sessions: seq<RecEntry>, e: RecEntry)
      requires e in sessions
      ensures Pool(sessions) == Owned(e) + ListBlocks(Beside(sessions, e))
    {
      forall s | s in sessions || s in Beside(sessions, e)
        ensures s in Beside(sessions, e) <==> s in sessions && s != e
      {
        BesideMember(sessions, e, s);
      }
      assert ListBlocks(sessions) == e.list.repr + ListBlocks(Beside(sessions, e));
    }

    lemma BesideReady(sessions: seq<RecEntry>, e: RecEntry)
      requires AllReady(sessions) && e in sessions
      ensures var others := Beside(sessions, e);
              Separate(others) && e !in others && forall s :: s in others ==> Ready(s) && Apart(e, s)
    {
      var others := Beside(sessions, e);
      forall s, t | s in others && t in others && s != t
        ensures Apart(s, t)
      {
        BesideMember(sessions, e, s);
        BesideMember(sessions, e, t);
      }
      forall s | s in others
        ensures Ready(s) && Apart(e, s)
      {
        BesideMember(sessions, e, s);
      }
      BesideMember(sessions, e, e);
    }

    lemma ReadyBeside(sessions: seq<RecEntry>, e: RecEntry)
      requires Ready(e) && e in sessions && Distinct(sessions) && Separate(Beside(sessions, e))
      requires forall s :: s in Beside(sessions, e) ==> Ready(s) && Apart(e, s)
      ensures AllReady(sessions)
    {
      forall s, t | s in sessions && t in sessions && s != t
        ensures Apart(s, t)
      {
        BesideMember(sessions, e, s);
        BesideMember(sessions, e, t);
      }
      forall s | s in sessions
        ensures Ready(s)
      {
        BesideMember(sessions, e, s);
      }
    }

    /** An event of session `j` leaves the other sessions and the pool as a whole alone. */
    method HandleOf(sessions: seq<RecEntry>, e: RecEntry, input: Event) returns (ghost event: Event)
      requires AllReady(sessions) && e in sessions
      modifies this, freelist, e, e.list, Owned(e)
      ensures AllReady(sessions) && Pool(sessions) == old(Pool(sessions))
      ensures SameBut(input, event)
      ensures old(lost) <= lost && (lost == old(lost) <==> !Leaks(old(e.State()), event))
      ensures e.State() == Step(old(e.State()), event).0
      ensures trace == old(trace) + Step(old(e.State()), event).1
      ensures forall s :: s in sessions && s != e ==> s.State() == old(s.State())
    {
      ghost var others := Beside(sessions, e);
      PoolFrom(sessions, e);
      BesideReady(sessions, e);
      event := HandleBeside(e, input, others);
      PoolFrom(sessions, e);
      ReadyBeside(sessions, e);
      forall s | s in sessions && s != e
        ensures s.State() == old(s.State())
      {
        BesideMember(sessions, e, s);
      }
    }

    /** A new session joins the others with an empty list. */
    method Open(sessions: seq<RecEntry>, win: nat) returns (e: RecEntry)
      requires AllReady(sessions)
      ensures fresh(e) && fresh(e.list) && e.State() == Session(RESET_RCV_SEQ, Nil, win, 0)
      ensures AllReady(sessions + [e]) && Pool(sessions + [e]) == old(Pool(sessions))
    {
      e := new RecEntry(win);
      forall s | s in sessions
        ensures Ready(s) && Apart(s, e)
      {
        assert old(Ready(s));
      }
      assert ListBlocks(sessions + [e]) == ListBlocks(sessions);
    }

    /** One event of the adapter, for session `j` or, beyond the sessions, for none. */
    method HandleFor(sessions: seq<RecEntry>, j: nat, input: Event, ghost cs: seq<Session>)
      returns (ghost event: Event)
      requires AllReady(sessions) && InStates(sessions, cs)
      modifies this, freelist, sessions, set s | s in sessions :: s.list, Pool(sessions)
      ensures AllReady(sessions) && Pool(sessions) == old(Pool(sessions))
      ensures SameBut(input, event)
      ensures old(lost) <= lost && (lost == old(lost) <==> !LeaksIn(cs, j, event))
      ensures InStates(sessions, StepOf(cs, j, event).0)
      ensures trace == old(trace) + StepOf(cs, j, event).1
    {
      event := input;
      if j < |sessions| {
        PoolFrom(sessions, sessions[j]);
        event := HandleOf(sessions, sessions[j], input);
      } else if input.Data? {
        trace := trace + [if Oversize(input.frame) then Release(input.frame) else Announce(input.frame)];
      }
    }

    /** A run of events of all sessions, on the linked lists and on the model. */
    method HandleEach(sessions: seq<RecEntry>, inputs: seq<(nat, Event)>, ghost cs: seq<Session>)
      returns (ghost events: seq<(nat, Event)>)
      requires AllReady(sessions) && InStates(sessions, cs)
      modifies this, freelist, sessions, set s | s in sessions :: s.list, Pool(sessions)
      ensures AllReady(sessions) && Pool(sessions) == old(Pool(sessions))
      ensures Answered(inputs, events)
      ensures old(lost) <= lost && (lost == old(lost) <==> LeakCount(cs, events) == 0)
      ensures InStates(sessions, RunAll(cs, events).0)
      ensures trace == old(trace) + Untag(RunAll(cs, events).1)
      decreases |inputs|
    {
      if inputs == [] {
        events := [];
      } else {
        var j := inputs[0].0;
        ghost var first := HandleFor(sessions, j, inputs[0].1, cs);
        ghost var ds := StepOf(cs, j, first).0;
        ghost var rest := HandleEach(sessions, inputs[1..], ds);
        events := [(j, first)] + rest;
        AnsweredCons(inputs, (j, first), rest);
        RunCons(cs, j, first, rest);
        Associate(old(trace), StepOf(cs, j, first).1, Untag(RunAll(ds, rest).1));
      }
    }

    /**
     * A whole run of all sessions that share the pool, for some answers of the pool.  No
     * block is ever in two places; free, buffered and lost blocks together stay the
     * same, and none is lost if and only if no EAPOL frame takes a block.  Every session
     * ends where its own events lead, with their outcomes.
     */
    method HandleAll(sessions: seq<RecEntry>, inputs: seq<(nat, Event)>)
      returns (ghost events: seq<(nat, Event)>)
      requires AllReady(sessions)
      modifies this, freelist, sessions, set s | s in sessions :: s.list, Pool(sessions)
      ensures AllReady(sessions) && Pool(sessions) == old(Pool(sessions))
      ensures Answered(inputs, events)
      ensures old(lost) <= lost && (lost == old(lost) <==> LeakCount(old(StatesOf(sessions)), events) == 0)
      ensures var (_, out) := RunAll(old(StatesOf(sessions)), events);
              && trace == old(trace) + Untag(out)
              && forall i :: 0 <= i < |sessions| ==>
                   Run(old(sessions[i].State()), EventsOf(events, i)) == (sessions[i].State(), OutcomesOf(out, i))
    {
      ghost var cs := StatesOf(sessions);
      events := HandleEach(sessions, inputs, cs);
      forall i | 0 <= i < |sessions|
        ensures Run(cs[i], EventsOf(events, i)) == (sessions[i].State(), OutcomesOf(RunAll(cs, events).1, i))
      {
        SessionsAreIndependent(cs, events, i);
      }
    }

    /** The number of blocks: those in the free list, those in the lists, those lost. */
    lemma PoolSize(sessions: seq<RecEntry>)
      requires AllReady(sessions)
      ensures |Pool(sessions)| == freelist.qlen + Buffered(sessions) + |lost|
    {
      BlocksSize(freelist.spine, freelist.next);
      forall s | s in sessions
        ensures s.list.Valid() && s.list.repr !! freelist.repr && s.list.repr !! lost
      {
        assert Ready(s);
      }
      BufferedSize(sessions);
      assert freelist.repr !! ListBlocks(sessions) && (freelist.repr + ListBlocks(sessions)) !! lost;
    }
  }
}
