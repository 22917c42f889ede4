/**
 * Several Block-Ack sessions of one adapter (rt3070/common/ba_action.c), as
 * functions on values: each event belongs to one session, and only the block
 * pool ties the sessions together.
 */
module BlockAckShared {
  import opened Basics
  import opened BlockAckReordering

  /** A frame with no session goes up at once, unless it is too long. */
  function WithoutSession(e: Event): seq<Outcome> {
    if !e.Data? then [] else if Oversize(e.frame) then [Release(e.frame)] else [Announce(e.frame)]
  }

  /** An event of session `j`; a number beyond the sessions stands for a station without one. */
  function StepOf(cs: seq<Session>, j: nat, e: Event): (r: (seq<Session>, seq<Outcome>))
    ensures |r.0| == |cs|
  {
    if j < |cs| then (cs[j := Step(cs[j], e).0], Step(cs[j], e).1) else (cs, WithoutSession(e))
  }

  function Tag(j: nat, out: seq<Outcome>): seq<(nat, Outcome)> {
    if out == [] then [] else [(j, out[0])] + Tag(j, out[1..])
  }

  /** A run of all sessions; every outcome carries the session it comes from. */
  function RunAll(cs: seq<Session>, es: seq<(nat, Event)>): (r: (seq<Session>, seq<(nat, Outcome)>))
    ensures |r.0| == |cs|
    decreases |es|
  {
    if es == [] then (cs, [])
    else
      var (ds, out) := StepOf(cs, es[0].0, es[0].1);
      var (fs, more) := RunAll(ds, es[1..]);
      (fs, Tag(es[0].0, out) + more)
  }

  function Untag(out: seq<(nat, Outcome)>): seq<Outcome> {
    if out == [] then [] else [out[0].1] + Untag(out[1..])
  }

  function OutcomesOf(out: seq<(nat, Outcome)>, j: nat): seq<Outcome> {
    if out == [] then [] else (if out[0].0 == j then [out[0].1] else []) + OutcomesOf(out[1..], j)
  }

  function EventsOf(es: seq<(nat, Event)>, j: nat): seq<Event> {
    if es == [] then [] else (if es[0].0 == j then [es[0].1] else []) + EventsOf(es[1..], j)
  }

  /** The event is an EAPOL frame that gets as far as taking a block. */
  predicate Leaks(c: Session, e: Event) {
    && e.Data? && e.alloc && e.frame.eapol && !Oversize(e.frame)
    && Enqueues(FlushTimeout(c, e.now).0, e.frame)
  }

  predicate LeaksIn(cs: seq<Session>, j: nat, e: Event) { j < |cs| && Leaks(cs[j], e) }

  function LeakCount(cs: seq<Session>, es: seq<(nat, Event)>): nat
    decreases |es|
  {
    if es == [] then 0
    else (if LeaksIn(cs, es[0].0, es[0].1) then 1 else 0)
         + LeakCount(StepOf(cs, es[0].0, es[0].1).0, es[1..])
  }

  // ---- each session on its own ----

  lemma {:induction false} UntagConcat(a: seq<(nat, Outcome)>, b: seq<(nat, Outcome)>)
    ensures Untag(a + b) == Untag(a) + Untag(b)
  {
    if a == [] {
      assert a + b == b;
    } else {
      assert (a + b)[1..] == a[1..] + b && (a + b)[0] == a[0];
      UntagConcat(a[1..], b);
      Associate([a[0].1], Untag(a[1..]), Untag(b));
    }
  }

  lemma {:induction false} UntagOfTag(j: nat, out: seq<Outcome>)
    ensures Untag(Tag(j, out)) == out
  {
    if out != [] {
      UntagOfTag(j, out[1..]);
      assert Tag(j, out)[1..] == Tag(j, out[1..]);
    }
  }

  /** A run by its first event. */
  lemma RunCons(cs: seq<Session>, j: nat, e: Event, es: seq<(nat, Event)>)
    ensures var (ds, out) := StepOf(cs, j, e);
            var all := [(j, e)] + es;
            && RunAll(cs, all).0 == RunAll(ds, es).0
            && Untag(RunAll(cs, all).1) == out + Untag(RunAll(ds, es).1)
            && (LeakCount(cs, all) == 0 <==> !LeaksIn(cs, j, e) && LeakCount(ds, es) == 0)
  {
    var (ds, out) := StepOf(cs, j, e);
    assert ([(j, e)] + es)[1..] == es;
    UntagConcat(Tag(j, out), RunAll(ds, es).1);
    UntagOfTag(j, out);
  }

  lemma {:induction false} OutcomesConcat(a: seq<(nat, Outcome)>, b: seq<(nat, Outcome)>, j: nat)
    ensures OutcomesOf(a + b, j) == OutcomesOf(a, j) + OutcomesOf(b, j)
  {
    if a == [] {
      assert a + b == b;
    } else {
      assert (a + b)[1..] == a[1..] + b && (a + b)[0] == a[0];
      OutcomesConcat(a[1..], b, j);
      Associate(if a[0].0 == j then [a[0].1] else [], OutcomesOf(a[1..], j), OutcomesOf(b, j));
    }
  }

  lemma {:induction false} OutcomesOfTag(i: nat, out: seq<Outcome>, j: nat)
    ensures OutcomesOf(Tag(i, out), j) == if i == j then out else []
  {
    if out != [] {
      OutcomesOfTag(i, out[1..], j);
      assert Tag(i, out)[1..] == Tag(i, out[1..]);
    }
  }

  lemma FirstEvent(c: Session, es: seq<(nat, Event)>, j: nat)
    requires es != []
    ensures var rest := EventsOf(es[1..], j);
            Run(c, EventsOf(es, j))
            == if es[0].0 != j then Run(c, rest)
               else (Run(Step(c, es[0].1).0, rest).0, Step(c, es[0].1).1 + Run(Step(c, es[0].1).0, rest).1)
  {
    var all := EventsOf(es, j);
    if es[0].0 == j {
      assert all[0] == es[0].1 && all[1..] == EventsOf(es[1..], j);
    } else {
      assert all == EventsOf(es[1..], j);
    }
  }

  lemma FirstOutcomes(i: nat, out: seq<Outcome>, more: seq<(nat, Outcome)>, j: nat)
    ensures OutcomesOf(Tag(i, out) + more, j) == if i == j then out + OutcomesOf(more, j) else OutcomesOf(more, j)
  {
    OutcomesConcat(Tag(i, out), more, j);
    OutcomesOfTag(i, out, j);
    assert [] + OutcomesOf(more, j) == OutcomesOf(more, j);
  }

  /**
   * Whatever happens in between to other sessions, a session ends where a run of its
   * own events leads, with the outcomes of that run.
   */
  lemma {:induction false} SessionsAreIndependent(cs: seq<Session>, es: seq<(nat, Event)>, j: nat)
    requires j < |cs|
    ensures var (ds, out) := RunAll(cs, es);
            Run(cs[j], EventsOf(es, j)) == (ds[j], OutcomesOf(out, j))
    decreases |es|
  {
    if es != [] {
      var i, e := es[0].0, es[0].1;
      var (ds, out) := StepOf(cs, i, e);
      SessionsAreIndependent(ds, es[1..], j);
      FirstOutcomes(i, out, RunAll(ds, es[1..]).1, j);
      FirstEvent(cs[j], es, j);
    }
  }
}
