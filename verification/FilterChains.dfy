/**
 * The filter chains of the interceptor framework (fred_framework/chains.c) and
 * the rules that fill them (fred_framework/rule_manager.c, rule.c).
 */
module FilterChains {
  import opened Basics
  import opened KernelList

  const MAX_FILTERS_PER_CHAIN: nat := 10
  const CHAINS_SIZE: nat := 5

  /** `id` is the identity of the filter object, `chain` its point of filtering. */
  datatype Filter = Filter(id: int, priority: nat, chain: nat)

  // ---- one chain ----

  /** Where a filter goes: before the first one of lower priority. */
  function Place(fs: seq<Filter>, f: Filter): (p: nat)
    ensures p <= |fs|
    ensures forall i :: 0 <= i < p ==> fs[i].priority >= f.priority
    ensures p < |fs| ==> fs[p].priority < f.priority
  {
    if fs == [] || f.priority > fs[0].priority then 0 else 1 + Place(fs[1..], f)
  }

  function Register(fs: seq<Filter>, f: Filter): seq<Filter> {
    if |fs| == MAX_FILTERS_PER_CHAIN then fs
    else fs[..Place(fs, f)] + [f] + fs[Place(fs, f)..]
  }

  function IndexOf(fs: seq<Filter>, f: Filter): (k: nat)
    ensures k <= |fs| && (k < |fs| ==> fs[k] == f)
    ensures forall i :: 0 <= i < k ==> fs[i] != f
  {
    if fs == [] || fs[0] == f then 0 else 1 + IndexOf(fs[1..], f)
  }

  function Unregister(fs: seq<Filter>, f: Filter): seq<Filter> {
    var k := IndexOf(fs, f);
    if k == |fs| then fs else fs[..k] + fs[k + 1..]
  }

  predicate Sorted(fs: seq<Filter>) {
    forall i, j :: 0 <= i < j < |fs| ==> fs[i].priority >= fs[j].priority
  }

  lemma RegisterSorted(fs: seq<Filter>, f: Filter)
    requires Sorted(fs)
    ensures Sorted(Register(fs, f))
  {
    var p := Place(fs, f);
    var r := fs[..p] + [f] + fs[p..];
    assert forall i :: 0 <= i < |r| ==> r[i] == if i < p then fs[i] else if i == p then f else fs[i - 1];
  }

  lemma UnregisterSorted(fs: seq<Filter>, f: Filter)
    requires Sorted(fs)
    ensures Sorted(Unregister(fs, f))
  {
    var k := IndexOf(fs, f);
    if k < |fs| {
      var r := fs[..k] + fs[k + 1..];
      assert forall i :: 0 <= i < |r| ==> r[i] == if i < k then fs[i] else fs[i + 1];
    }
  }

  /** The filters of one priority, in chain order. */
  function OfPriority(fs: seq<Filter>, p: nat): seq<Filter> {
    if fs == [] then [] else (if fs[0].priority == p then [fs[0]] else []) + OfPriority(fs[1..], p)
  }

  lemma {:induction false} OfPriorityConcat(a: seq<Filter>, b: seq<Filter>, p: nat)
    ensures OfPriority(a + b, p) == OfPriority(a, p) + OfPriority(b, p)
  {
    if a == [] {
      assert a + b == b;
    } else {
      assert (a + b)[1..] == a[1..] + b && (a + b)[0] == a[0];
      OfPriorityConcat(a[1..], b, p);
      var head := if a[0].priority == p then [a[0]] else [];
      Associate(head, OfPriority(a[1..], p), OfPriority(b, p));
    }
  }

  lemma {:induction false} OfPriorityNone(fs: seq<Filter>, p: nat)
    requires forall i :: 0 <= i < |fs| ==> fs[i].priority != p
    ensures OfPriority(fs, p) == []
  {
    if fs != [] {
      OfPriorityNone(fs[1..], p);
    }
  }

  lemma BehindIsLower(fs: seq<Filter>, f: Filter)
    requires Sorted(fs)
    ensures forall i :: Place(fs, f) <= i < |fs| ==> fs[i].priority < f.priority
  {
  }

  lemma OfPriorityInsert(front: seq<Filter>, f: Filter, back: seq<Filter>, p: nat)
    ensures OfPriority(front + [f] + back, p)
            == OfPriority(front, p) + (if f.priority == p then [f] else []) + OfPriority(back, p)
    ensures OfPriority(front + back, p) == OfPriority(front, p) + OfPriority(back, p)
  {
    OfPriorityConcat(front + [f], back, p);
    OfPriorityConcat(front, [f], p);
    OfPriorityConcat(front, back, p);
    assert OfPriority([f], p) == if f.priority == p then [f] else [];
  }

  lemma BehindNone(fs: seq<Filter>, f: Filter)
    requires Sorted(fs)
    ensures OfPriority(fs[Place(fs, f)..], f.priority) == []
  {
    BehindIsLower(fs, f);
    OfPriorityNone(fs[Place(fs, f)..], f.priority);
  }

  lemma EitherEmpty(a: seq<Filter>, x: seq<Filter>, b: seq<Filter>)
    requires x == [] || b == []
    ensures a + x + b == (a + b) + x
  {
  }

  /** Registering keeps registration order among filters of equal priority. */
  lemma RegisterStable(fs: seq<Filter>, f: Filter, p: nat)
    requires Sorted(fs) && |fs| < MAX_FILTERS_PER_CHAIN
    ensures OfPriority(Register(fs, f), p) == OfPriority(fs, p) + if f.priority == p then [f] else []
  {
    var k := Place(fs, f);
    var front, back := fs[..k], fs[k..];
    assert fs == front + back;
    OfPriorityInsert(front, f, back, p);
    BehindNone(fs, f);
    EitherEmpty(OfPriority(front, p), if f.priority == p then [f] else [], OfPriority(back, p));
  }

  // ---- taking out what was put in ----

  /** The chain without the given filters. */
  function Drop(fs: seq<Filter>, gone: set<Filter>): seq<Filter> {
    if fs == [] then [] else (if fs[0] in gone then [] else [fs[0]]) + Drop(fs[1..], gone)
  }

  lemma {:induction false} DropConcat(a: seq<Filter>, b: seq<Filter>, gone: set<Filter>)
    ensures Drop(a + b, gone) == Drop(a, gone) + Drop(b, gone)
  {
    if a == [] {
      assert a + b == b;
    } else {
      assert (a + b)[1..] == a[1..] + b;
      DropConcat(a[1..], b, gone);
    }
  }

  lemma {:induction false} DropNothing(fs: seq<Filter>, gone: set<Filter>)
    requires forall i :: 0 <= i < |fs| ==> fs[i] !in gone
    ensures Drop(fs, gone) == fs
  {
    if fs != [] {
      DropNothing(fs[1..], gone);
    }
  }

  lemma DropInserted(front: seq<Filter>, f: Filter, back: seq<Filter>, gone: set<Filter>)
    requires f in gone
    ensures Drop(front + [f] + back, gone) == Drop(front + back, gone)
  {
    DropConcat(front + [f], back, gone);
    DropConcat(front, [f], gone);
    DropConcat(front, back, gone);
    assert Drop([f], gone) == [];
  }

  lemma RegisterDropped(fs: seq<Filter>, f: Filter, gone: set<Filter>)
    requires f in gone
    ensures Drop(Register(fs, f), gone) == Drop(fs, gone)
  {
    var k := Place(fs, f);
    assert fs == fs[..k] + fs[k..];
    DropInserted(fs[..k], f, fs[k..], gone);
  }

  lemma DropFirst(f: Filter, fs: seq<Filter>, gone: set<Filter>)
    requires f in gone
    ensures Drop([f] + fs, gone) == Drop(fs, gone)
  {
    assert ([f] + fs)[1..] == fs;
  }

  lemma UnregisterDropped(fs: seq<Filter>, f: Filter, gone: set<Filter>)
    requires f in gone
    ensures Drop(Unregister(fs, f), gone) == Drop(fs, gone)
  {
    var k := IndexOf(fs, f);
    if k < |fs| {
      var front, back := fs[..k], fs[k + 1..];
      assert fs == front + ([f] + back);
      DropConcat(front, back, gone);
      DropConcat(front, [f] + back, gone);
      DropFirst(f, back, gone);
    }
  }

  /** How often a filter occurs. */
  function Times(fs: seq<Filter>, f: Filter): nat {
    if fs == [] then 0 else (if fs[0] == f then 1 else 0) + Times(fs[1..], f)
  }

  lemma {:induction false} TimesConcat(a: seq<Filter>, b: seq<Filter>, f: Filter)
    ensures Times(a + b, f) == Times(a, f) + Times(b, f)
  {
    if a == [] {
      assert a + b == b;
    } else {
      assert (a + b)[1..] == a[1..] + b;
      TimesConcat(a[1..], b, f);
    }
  }

  lemma RegisterTimes(fs: seq<Filter>, f: Filter, g: Filter)
    ensures Times(Register(fs, f), g) == Times(fs, g) + if |fs| != MAX_FILTERS_PER_CHAIN && f == g then 1 else 0
  {
    var k := Place(fs, f);
    TimesConcat(fs[..k] + [f], fs[k..], g);
    TimesConcat(fs[..k], [f], g);
    assert fs == fs[..k] + fs[k..];
    TimesConcat(fs[..k], fs[k..], g);
  }

  lemma {:induction false} TimesNone(fs: seq<Filter>, f: Filter)
    ensures Times(fs, f) == 0 <==> forall i :: 0 <= i < |fs| ==> fs[i] != f
  {
    if fs != [] {
      TimesNone(fs[1..], f);
      assert (forall i :: 0 <= i < |fs| ==> fs[i] != f) ==> forall i :: 0 <= i < |fs[1..]| ==> fs[1..][i] != f;
    }
  }

  lemma UnregisterTimes(fs: seq<Filter>, f: Filter, g: Filter)
    ensures Times(Unregister(fs, f), g) == if f == g && Times(fs, f) > 0 then Times(fs, g) - 1 else Times(fs, g)
  {
    var k := IndexOf(fs, f);
    if k < |fs| {
      TimesConcat(fs[..k], fs[k + 1..], g);
      TimesConcat(fs[..k], fs[k..], g);
      assert fs == fs[..k] + fs[k..] && fs[k..][1..] == fs[k + 1..];
      TimesConcat(fs[..k], fs[k..], f);
    } else {
      TimesNone(fs, f);
    }
  }

  // ---- all chains ----

  /** register_filter: a filter with an unknown point of filtering is refused. */
  function RegisterIn(chains: seq<seq<Filter>>, f: Filter): seq<seq<Filter>> {
    if f.chain < |chains| then chains[f.chain := Register(chains[f.chain], f)] else chains
  }

  function UnregisterFrom(chains: seq<seq<Filter>>, f: Filter): seq<seq<Filter>> {
    if f.chain < |chains| then chains[f.chain := Unregister(chains[f.chain], f)] else chains
  }

  function RegisterAll(chains: seq<seq<Filter>>, fs: seq<Filter>): (r: seq<seq<Filter>>)
    ensures |r| == |chains|
    decreases |fs|
  {
    if fs == [] then chains else RegisterAll(RegisterIn(chains, fs[0]), fs[1..])
  }

  function UnregisterAll(chains: seq<seq<Filter>>, fs: seq<Filter>): (r: seq<seq<Filter>>)
    ensures |r| == |chains|
    decreases |fs|
  {
    if fs == [] then chains else UnregisterAll(UnregisterFrom(chains, fs[0]), fs[1..])
  }

  function Members(fs: seq<Filter>): set<Filter> { set f | f in fs }

  lemma {:induction false} RegisterAllDropped(chains: seq<seq<Filter>>, fs: seq<Filter>, gone: set<Filter>, c: nat)
    requires c < |chains| && forall f :: f in fs ==> f in gone
    ensures Drop(RegisterAll(chains, fs)[c], gone) == Drop(chains[c], gone)
    decreases |fs|
  {
    if fs != [] {
      RegisterDropped(chains[c], fs[0], gone);
      RegisterAllDropped(RegisterIn(chains, fs[0]), fs[1..], gone, c);
    }
  }

  lemma {:induction false} UnregisterAllDropped(chains: seq<seq<Filter>>, fs: seq<Filter>, gone: set<Filter>, c: nat)
    requires c < |chains| && forall f :: f in fs ==> f in gone
    ensures Drop(UnregisterAll(chains, fs)[c], gone) == Drop(chains[c], gone)
    decreases |fs|
  {
    if fs != [] {
      UnregisterDropped(chains[c], fs[0], gone);
      UnregisterAllDropped(UnregisterFrom(chains, fs[0]), fs[1..], gone, c);
    }
  }

  lemma {:induction false} RegisterAllTimes(chains: seq<seq<Filter>>, fs: seq<Filter>, c: nat, f: Filter)
    requires c < |chains|
    ensures Times(RegisterAll(chains, fs)[c], f) <= Times(chains[c], f) + if f.chain == c then Times(fs, f) else 0
    decreases |fs|
  {
    if fs != [] {
      RegisterTimes(chains[c], fs[0], f);
      RegisterAllTimes(RegisterIn(chains, fs[0]), fs[1..], c, f);
    }
  }

  lemma {:induction false} UnregisterAllTimes(chains: seq<seq<Filter>>, fs: seq<Filter>, c: nat, f: Filter)
    requires c < |chains| && Times(chains[c], f) <= if f.chain == c then Times(fs, f) else 0
    ensures Times(UnregisterAll(chains, fs)[c], f) == 0
    decreases |fs|
  {
    if fs != [] {
      UnregisterTimes(chains[c], fs[0], f);
      UnregisterAllTimes(UnregisterFrom(chains, fs[0]), fs[1..], c, f);
    }
  }

  /** The filters that get into chain `c`: the first `room` of those meant for it. */
  function Fitting(fs: seq<Filter>, c: nat, room: nat): seq<Filter>
    decreases |fs|
  {
    if fs == [] then []
    else if fs[0].chain == c && room > 0 then [fs[0]] + Fitting(fs[1..], c, room - 1)
    else Fitting(fs[1..], c, room)
  }

  lemma TimesCons(f: Filter, fs: seq<Filter>, g: Filter)
    ensures Times([f] + fs, g) == (if f == g then 1 else 0) + Times(fs, g)
  {
    assert ([f] + fs)[1..] == fs;
  }

  function Room(fs: seq<Filter>): nat {
    if |fs| < MAX_FILTERS_PER_CHAIN then MAX_FILTERS_PER_CHAIN - |fs| else 0
  }

  /** A chain takes ten filters. */
  lemma RegisterLength(fs: seq<Filter>, f: Filter)
    requires |fs| <= 10
    ensures Register(fs, f) == fs <==> |fs| == 10
    ensures |fs| < 10 ==> |Register(fs, f)| == |fs| + 1
  {
  }

  lemma FittingFirst(f: Filter, more: seq<Filter>, c: nat, room: nat, g: Filter)
    ensures Times(Fitting([f] + more, c, room), g)
            == if f.chain == c && room > 0 then (if f == g then 1 else 0) + Times(Fitting(more, c, room - 1), g)
               else Times(Fitting(more, c, room), g)
  {
    assert ([f] + more)[1..] == more;
    if f.chain == c && room > 0 {
      TimesCons(f, Fitting(more, c, room - 1), g);
    }
  }

  /** After a rule is registered, a chain holds what it held and what of the rule fits into it. */
  lemma {:induction false} RegisterAllExact(chains: seq<seq<Filter>>, fs: seq<Filter>, c: nat, g: Filter)
    requires c < |chains| && |chains[c]| <= MAX_FILTERS_PER_CHAIN
    ensures Times(RegisterAll(chains, fs)[c], g) == Times(chains[c], g) + Times(Fitting(fs, c, Room(chains[c])), g)
    decreases |fs|
  {
    if fs != [] {
      var f, more := fs[0], fs[1..];
      assert fs == [f] + more;
      RegisterTimes(chains[c], f, g);
      RegisterLength(chains[c], f);
      RegisterAllExact(RegisterIn(chains, f), more, c, g);
      FittingFirst(f, more, c, Room(chains[c]), g);
    }
  }

  /** A rule keeps every chain sorted. */
  lemma {:induction false} RegisterAllSorted(chains: seq<seq<Filter>>, fs: seq<Filter>, c: nat)
    requires c < |chains| && Sorted(chains[c])
    ensures Sorted(RegisterAll(chains, fs)[c])
    decreases |fs|
  {
    if fs != [] {
      RegisterSorted(chains[c], fs[0]);
      RegisterAllSorted(RegisterIn(chains, fs[0]), fs[1..], c);
    }
  }

  /**
   * Registering the filters of a rule, whether they all fit or not, and unregistering
   * them again leaves every chain exactly as it was.
   */
  lemma RuleRoundTrip(chains: seq<seq<Filter>>, fs: seq<Filter>)
    requires forall c, f :: 0 <= c < |chains| && f in fs ==> Times(chains[c], f) == 0
    ensures UnregisterAll(RegisterAll(chains, fs), fs) == chains
  {
    var gone := Members(fs);
    var mid := RegisterAll(chains, fs);
    var end := UnregisterAll(mid, fs);
    forall c | 0 <= c < |chains|
      ensures end[c] == chains[c]
    {
      RegisterAllDropped(chains, fs, gone, c);
      UnregisterAllDropped(mid, fs, gone, c);
      forall f | f in fs
        ensures (forall i :: 0 <= i < |chains[c]| ==> chains[c][i] != f)
             && (forall i :: 0 <= i < |end[c]| ==> end[c][i] != f)
      {
        assert Times(chains[c], f) == 0;
        RegisterAllTimes(chains, fs, c, f);
        UnregisterAllTimes(mid, fs, c, f);
        TimesNone(chains[c], f);
        TimesNone(end[c], f);
      }
      DropNothing(chains[c], gone);
      DropNothing(end[c], gone);
    }
  }

  // ---- the code ----

  class Chain {
    const filters: KList<Filter>
    var len: nat

    /** `len` is the length of the list, never more than the maximum, and priorities descend. */
    ghost predicate Valid()
      reads this, filters, filters.spine
    {
      filters.Valid() && len == |filters.spine| <= MAX_FILTERS_PER_CHAIN && Sorted(filters.Contents())
    }

    constructor ()
      ensures Valid() && filters.Contents() == [] && fresh(filters)
    {
      filters := new KList();
      len := 0;
    }

    /** The iteration of __register_filter: the node to insert before, null for the end. */
    method FindPlace(f: Filter) returns (cur: Node?<Filter>, ghost k: nat)
      requires filters.Valid()
      ensures k == Place(filters.Contents(), f) && cur == At(filters.spine, k)
    {
      cur, k := filters.first, 0;
      ghost var fs := filters.Contents();
      while cur != null && !(f.priority > cur.data.priority)
        invariant 0 <= k <= |fs| && cur == At(filters.spine, k)
        invariant Place(fs, f) == k + Place(fs[k..], f)
        decreases |fs| - k
      {
        assert fs[k..][1..] == fs[k + 1..];
        cur := cur.front;
        k := k + 1;
      }
    }

    /** __register_filter: refused exactly when the chain is full. */
    method RegisterFilter(f: Filter) returns (ok: bool)
      requires Valid()
      modifies this, filters, filters.spine
      ensures Valid() && filters.Contents() == Register(old(filters.Contents()), f)
      ensures ok <==> old(len) < MAX_FILTERS_PER_CHAIN
    {
      if len == MAX_FILTERS_PER_CHAIN {
        return false;
      }
      ghost var fs := filters.Contents();
      var cur, k := FindPlace(f);
      PutAt(f, cur, k);
      assert filters.Contents() == Register(fs, f);
      RegisterSorted(fs, f);
      len := len + 1;
      ok := true;
    }

    /** A new node before `cur`, or at the end. */
    method PutAt(f: Filter, cur: Node?<Filter>, ghost k: nat)
      requires filters.Valid() && k <= |filters.spine| && cur == At(filters.spine, k)
      modifies filters, filters.spine
      ensures filters.Valid() && |filters.spine| == old(|filters.spine|) + 1
      ensures var fs := old(filters.Contents()); filters.Contents() == fs[..k] + [f] + fs[k..]
    {
      var n := new Node(f);
      DataOfInsert(filters.spine, k, n);
      if cur != null {
        filters.InsertBefore(cur, n, k);
      } else {
        filters.Add(n);
      }
    }

    /** The search of __unregister_filter. */
    method FindFilter(f: Filter) returns (cur: Node?<Filter>, ghost k: nat)
      requires filters.Valid()
      ensures k == IndexOf(filters.Contents(), f) && cur == At(filters.spine, k)
    {
      cur, k := filters.first, 0;
      ghost var fs := filters.Contents();
      while cur != null && cur.data != f
        invariant 0 <= k <= |fs| && cur == At(filters.spine, k)
        invariant IndexOf(fs, f) == k + IndexOf(fs[k..], f)
        decreases |fs| - k
      {
        assert fs[k..][1..] == fs[k + 1..];
        cur := cur.front;
        k := k + 1;
      }
    }

    /** Takes out the node at place `k`. */
    method TakeOut(cur: Node<Filter>, ghost k: nat)
      requires filters.Valid() && k < |filters.spine| && cur == filters.spine[k]
      modifies filters, filters.spine
      ensures filters.Valid() && |filters.spine| == old(|filters.spine|) - 1
      ensures var fs := old(filters.Contents()); filters.Contents() == fs[..k] + fs[k + 1..]
    {
      DataOfDelete(filters.spine, k);
      filters.Remove(cur, k);
    }

    method TakeOutFirst(f: Filter) returns (found: bool)
      requires filters.Valid()
      modifies filters, filters.spine
      ensures filters.Valid() && |filters.spine| == old(|filters.spine|) - if found then 1 else 0
      ensures filters.Contents() == Unregister(old(filters.Contents()), f)
    {
      var cur, k := FindFilter(f);
      found := cur != null;
      if cur != null {
        TakeOut(cur, k);
      }
    }

    /** __unregister_filter: takes the filter out if it is there. */
    method UnregisterFilter(f: Filter)
      requires Valid()
      modifies this, filters, filters.spine
      ensures Valid() && filters.Contents() == Unregister(old(filters.Contents()), f)
    {
      UnregisterSorted(filters.Contents(), f);
      var found := TakeOutFirst(f);
      if found {
        len := len - 1;
      }
    }
  }

  datatype Rule = Rule(id: int, filters: seq<Filter>)

  /** The rule manager on the chains as sequences. */
  class RuleManager {
    var rules: seq<Rule>
    var chains: seq<seq<Filter>>

    constructor ()
      ensures rules == [] && chains == seq(CHAINS_SIZE, _ => [])
    {
      rules, chains := [], seq(CHAINS_SIZE, _ => []);
    }

    /** register_rule */
    method RegisterRule(r: Rule)
      modifies this
      ensures rules == old(rules) + [r] && chains == RegisterAll(old(chains), r.filters)
    {
      rules := rules + [r];
      for i := 0 to |r.filters|
        invariant rules == old(rules) + [r]
        invariant RegisterAll(chains, r.filters[i..]) == RegisterAll(old(chains), r.filters)
      {
        assert r.filters[i..][1..] == r.filters[i + 1..];
        chains := RegisterIn(chains, r.filters[i]);
      }
    }

    /** unregister_rule and free_rule_and_unregister_filters, for the first rule with the id. */
    method UnregisterRule(id: int) returns (ghost k: nat)
      modifies this
      ensures k <= |old(rules)| && forall i :: 0 <= i < k ==> old(rules)[i].id != id
      ensures k == |old(rules)| ==> rules == old(rules) && chains == old(chains)
      ensures k < |old(rules)| ==>
                && old(rules)[k].id == id && rules == old(rules)[..k] + old(rules)[k + 1..]
                && chains == UnregisterAll(old(chains), old(rules)[k].filters)
    {
      var i := 0;
      while i < |rules| && rules[i].id != id
        invariant 0 <= i <= |rules| && rules == old(rules) && chains == old(chains)
        invariant forall j :: 0 <= j < i ==> rules[j].id != id
      {
        i := i + 1;
      }
      k := i;
      if i < |rules| {
        var fs := rules[i].filters;
        rules := rules[..i] + rules[i + 1..];
        for j := 0 to |fs|
          invariant rules == old(rules)[..k] + old(rules)[k + 1..]
          invariant UnregisterAll(chains, fs[j..]) == UnregisterAll(old(chains), fs)
        {
          assert fs[j..][1..] == fs[j + 1..];
          chains := UnregisterFrom(chains, fs[j]);
        }
      }
    }
  }
}
