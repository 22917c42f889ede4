/**
 * The station table and its hash chains (rt3070/common/cmm_data.c).  Entries are
 * linked by index; -1 stands for a null pointer.
 */
module MacTable {
  const MAX_LEN_OF_MAC_TABLE: nat := 32
  const HASH_TABLE_SIZE: nat := 256

  datatype Addr = Addr(b0: bv8, b1: bv8, b2: bv8, b3: bv8, b4: bv8, b5: bv8)

  /** MAC_ADDR_HASH_INDEX */
  function HashIndex(a: Addr): (h: nat)
    ensures h < 256
  {
    (a.b0 ^ a.b1 ^ a.b2 ^ a.b3 ^ a.b4 ^ a.b5) as int
  }

  /** An address with one byte set has that byte for its index, wherever it stands. */
  lemma HashOfByte(x: bv8)
    ensures HashIndex(Addr(x, 0, 0, 0, 0, 0)) == x as int && HashIndex(Addr(0, x, 0, 0, 0, 0)) == x as int
    ensures HashIndex(Addr(0, 0, x, 0, 0, 0)) == x as int && HashIndex(Addr(0, 0, 0, x, 0, 0)) == x as int
    ensures HashIndex(Addr(0, 0, 0, 0, x, 0)) == x as int && HashIndex(Addr(0, 0, 0, 0, 0, x)) == x as int
  {
    assert x ^ 0 == x;
  }

  datatype Kind = EntryNone | EntryClient | EntryDls

  datatype Entry = Entry(kind: Kind, addr: Addr, pNext: int)

  const ZERO: Entry := Entry(EntryNone, Addr(0, 0, 0, 0, 0, 0), -1)

  // ---- chains ----

  /** From `first`, the next pointers lead through exactly `chain` to null. */
  predicate Leads(content: seq<Entry>, first: int, chain: seq<nat>)
    decreases |chain|
  {
    if chain == [] then first == -1
    else first == chain[0] < |content| && first !in chain[1..] && Leads(content, content[chain[0]].pNext, chain[1..])
  }

  lemma {:induction false} LeadsFrame(content: seq<Entry>, after: seq<Entry>, first: int, chain: seq<nat>)
    requires Leads(content, first, chain) && |after| == |content|
    requires forall i :: i in chain && i < |content| ==> after[i].pNext == content[i].pNext
    ensures Leads(after, first, chain)
    decreases |chain|
  {
    if chain != [] {
      LeadsFrame(content, after, content[chain[0]].pNext, chain[1..]);
    }
  }

  lemma {:induction false} LeadsBounds(content: seq<Entry>, first: int, chain: seq<nat>)
    requires Leads(content, first, chain)
    ensures forall i :: i in chain ==> i < |content|
    decreases |chain|
  {
    if chain != [] {
      LeadsBounds(content, content[chain[0]].pNext, chain[1..]);
      assert chain == [chain[0]] + chain[1..];
    }
  }

  /** Hanging `i` behind the last entry of a chain. */
  lemma {:induction false} LeadsAppend(content: seq<Entry>, first: int, chain: seq<nat>, i: nat, after: seq<Entry>)
    requires Leads(content, first, chain) && chain != [] && i < |content| && i !in chain
    requires content[i].pNext == -1
    requires chain[|chain| - 1] < |content|
    requires var last := chain[|chain| - 1]; after == content[last := content[last].(pNext := i)]
    ensures Leads(after, first, chain + [i])
    decreases |chain|
  {
    var rest := chain[1..];
    if rest == [] {
      assert (chain + [i])[1..] == [i];
    } else {
      assert rest[|rest| - 1] == chain[|chain| - 1];
      LeadsAppend(content, content[chain[0]].pNext, rest, i, after);
      assert (chain + [i])[1..] == rest + [i];
    }
  }

  function Without(chain: seq<nat>, i: nat): seq<nat> {
    if chain == [] then [] else if chain[0] == i then chain[1..] else [chain[0]] + Without(chain[1..], i)
  }

  lemma {:induction false} WithoutMembers(content: seq<Entry>, first: int, chain: seq<nat>, i: nat)
    requires Leads(content, first, chain)
    ensures forall j :: j in Without(chain, i) <==> j in chain && j != i
    decreases |chain|
  {
    if chain != [] {
      WithoutMembers(content, content[chain[0]].pNext, chain[1..], i);
    }
  }

  /** `i` comes right after `prev`, for the first time. */
  predicate Follows(chain: seq<nat>, prev: nat, i: nat) {
    && |chain| >= 2 && chain[0] != i
    && (if chain[0] == prev then chain[1] == i else Follows(chain[1..], prev, i))
  }

  /** Taking `i` out from behind `prev`. */
  lemma {:induction false} LeadsUnlink(content: seq<Entry>, first: int, chain: seq<nat>, prev: nat, i: nat, after: seq<Entry>)
    requires Leads(content, first, chain) && Follows(chain, prev, i)
    requires prev < |content| && i < |content| && after == content[prev := content[prev].(pNext := content[i].pNext)]
    ensures Leads(after, first, Without(chain, i))
    decreases |chain|
  {
    var rest := chain[1..];
    if chain[0] == prev {
      assert Without(chain, i) == [prev] + rest[1..];
      LeadsFrame(content, after, content[i].pNext, rest[1..]);
      assert (([prev] + rest[1..])[1..]) == rest[1..];
    } else {
      LeadsUnlink(content, content[chain[0]].pNext, rest, prev, i, after);
      WithoutMembers(content, content[chain[0]].pNext, rest, i);
      assert ([chain[0]] + Without(rest, i))[1..] == Without(rest, i);
    }
  }

  // ---- the index ----

  ghost predicate ChainOk(content: seq<Entry>, hash: seq<int>, chains: seq<seq<nat>>, h: nat)
    requires h < |hash| == |chains|
  {
    && Leads(content, hash[h], chains[h])
    && forall i :: i in chains[h] ==> i < |content| && content[i].kind != EntryNone && HashIndex(content[i].addr) == h
  }

  ghost predicate EntryOk(content: seq<Entry>, chains: seq<seq<nat>>, i: nat)
    requires i < |content| && |chains| == HASH_TABLE_SIZE
  {
    if content[i].kind == EntryNone then content[i].pNext == -1
    else i in chains[HashIndex(content[i].addr)]
  }

  /** Every chain is acyclic and holds exactly the used entries with its hash. */
  ghost predicate Indexed(content: seq<Entry>, hash: seq<int>, chains: seq<seq<nat>>) {
    && |content| == MAX_LEN_OF_MAC_TABLE && |hash| == |chains| == HASH_TABLE_SIZE
    && (forall h :: 0 <= h < |hash| ==> ChainOk(content, hash, chains, h))
    && (forall i :: 0 <= i < |content| ==> EntryOk(content, chains, i))
  }

  ghost function Used(content: seq<Entry>): set<nat> {
    set i | 0 <= i < |content| && content[i].kind != EntryNone
  }

  /** The chain of `e`'s hash gets `i` at its end, the others stay. */
  lemma IndexedInsert(content: seq<Entry>, hash: seq<int>, chains: seq<seq<nat>>, i: nat, e: Entry,
                      content1: seq<Entry>, hash1: seq<int>)
    requires Indexed(content, hash, chains)
    requires i < |content| && content[i].kind == EntryNone && e.kind != EntryNone && e.pNext == -1
    requires var h := HashIndex(e.addr);
             var put := content[i := e];
             if chains[h] == [] then content1 == put && hash1 == hash[h := i]
             else
               var last := chains[h][|chains[h]| - 1];
               hash1 == hash && last < |put| && content1 == put[last := put[last].(pNext := i)]
    ensures var h := HashIndex(e.addr);
            Indexed(content1, hash1, chains[h := chains[h] + [i]])
  {
    var h := HashIndex(e.addr);
    var put := content[i := e];
    var chains1 := chains[h := chains[h] + [i]];
    assert ChainOk(content, hash, chains, h);
    LeadsFrame(content, put, hash[h], chains[h]);
    if chains[h] == [] {
      assert Leads(content1, hash1[h], [i]);
    } else {
      LeadsAppend(put, hash[h], chains[h], i, content1);
    }
    forall g | 0 <= g < |hash|
      ensures ChainOk(content1, hash1, chains1, g)
    {
      assert ChainOk(content, hash, chains, g);
      if g != h {
        LeadsFrame(content, content1, hash[g], chains[g]);
      }
    }
    forall j | 0 <= j < |content|
      ensures EntryOk(content1, chains1, j)
    {
      assert EntryOk(content, chains, j);
    }
  }

  lemma {:induction false} FollowsMember(chain: seq<nat>, prev: nat, i: nat)
    requires Follows(chain, prev, i)
    ensures prev in chain && i in chain
  {
    if chain[0] != prev {
      FollowsMember(chain[1..], prev, i);
    }
  }

  lemma IndexedDelete(content: seq<Entry>, hash: seq<int>, chains: seq<seq<nat>>, prev: int, i: nat,
                      content1: seq<Entry>, hash1: seq<int>)
    requires Indexed(content, hash, chains) && i < |content| && content[i].kind != EntryNone
    requires var h := HashIndex(content[i].addr);
             if prev == -1 then
               && chains[h] != [] && chains[h][0] == i
               && hash1 == hash[h := content[i].pNext] && content1 == content[i := ZERO]
             else
               && 0 <= prev < |content| && prev != i && Follows(chains[h], prev, i)
               && hash1 == hash && content1 == content[prev := content[prev].(pNext := content[i].pNext)][i := ZERO]
    ensures var h := HashIndex(content[i].addr);
            Indexed(content1, hash1, chains[h := Without(chains[h], i)])
  {
    var h := HashIndex(content[i].addr);
    var chains1 := chains[h := Without(chains[h], i)];
    assert ChainOk(content, hash, chains, h);
    WithoutMembers(content, hash[h], chains[h], i);
    if prev == -1 {
      LeadsFrame(content, content1, content[i].pNext, chains[h][1..]);
    } else {
      var mid := content[prev := content[prev].(pNext := content[i].pNext)];
      LeadsUnlink(content, hash[h], chains[h], prev, i, mid);
      LeadsFrame(mid, content1, hash[h], Without(chains[h], i));
      FollowsMember(chains[h], prev, i);
    }
    forall g | 0 <= g < |hash|
      ensures ChainOk(content1, hash1, chains1, g)
    {
      assert ChainOk(content, hash, chains, g);
      if g != h {
        assert i !in chains[g] && prev !in chains[g];
        LeadsFrame(content, content1, hash[g], chains[g]);
      }
    }
    forall j | 0 <= j < |content|
      ensures EntryOk(content1, chains1, j)
    {
      assert EntryOk(content, chains, j);
    }
  }

  lemma {:induction false} FollowsAt(done: seq<nat>, rest: seq<nat>, i: nat)
    requires done != [] && rest != [] && rest[0] == i && i !in done
    requires done[|done| - 1] !in done[..|done| - 1]
    ensures Follows(done + rest, done[|done| - 1], i)
  {
    var all := done + rest;
    if |done| > 1 {
      assert all[1..] == done[1..] + rest;
      assert done[1..][|done| - 2] == done[|done| - 1];
      assert done[..|done| - 1][0] == done[0];
      assert done[1..][..|done| - 2] == done[..|done| - 1][1..];
      FollowsAt(done[1..], rest, i);
    }
  }

  /** The first entry of a chain with the address, -1 if there is none. */
  function FirstWith(content: seq<Entry>, chain: seq<nat>, a: Addr): int {
    if chain == [] then -1
    else if chain[0] < |content| && content[chain[0]].addr == a then chain[0]
    else FirstWith(content, chain[1..], a)
  }

  lemma {:induction false} FirstWithMeaning(content: seq<Entry>, chain: seq<nat>, a: Addr)
    ensures var r := FirstWith(content, chain, a);
            if r == -1 then forall i :: i in chain && i < |content| ==> content[i].addr != a
            else r in chain && r < |content| && content[r].addr == a
  {
    if chain != [] && !(chain[0] < |content| && content[chain[0]].addr == a) {
      FirstWithMeaning(content, chain[1..], a);
    }
  }

  class Table {
    var content: seq<Entry>
    var hash: seq<int>
    var size: int
    ghost var chains: seq<seq<nat>>

    ghost predicate Valid()
      reads this
    {
      Indexed(content, hash, chains) && size == |Used(content)|
    }

    constructor ()
      ensures Valid() && size == 0 && |content| == 32 && |hash| == 256
    {
      content := seq(MAX_LEN_OF_MAC_TABLE, _ => ZERO);
      hash := seq(HASH_TABLE_SIZE, _ => -1);
      size := 0;
      chains := seq(HASH_TABLE_SIZE, _ => []);
      new;
      assert Used(content) == {};
    }

    /** MacTableLookup: finds an entry with the address exactly when there is one. */
    method Lookup(a: Addr) returns (r: int)
      requires Valid()
      ensures r == FirstWith(content, chains[HashIndex(a)], a)
      ensures r == -1 <==> forall i :: 0 <= i < |content| && content[i].kind != EntryNone ==> content[i].addr != a
      ensures r != -1 ==> 0 <= r < |content| && content[r].kind != EntryNone && content[r].addr == a
    {
      var h := HashIndex(a);
      assert ChainOk(content, hash, chains, h);
      r := hash[h];
      ghost var rest := chains[h];
      while r != -1 && content[r].kind != EntryNone && content[r].addr != a
        invariant Leads(content, r, rest) && forall i :: i in rest ==> i in chains[h]
        invariant FirstWith(content, rest, a) == FirstWith(content, chains[h], a)
        decreases |rest|
      {
        r := content[r].pNext;
        rest := rest[1..];
      }
      FirstWithMeaning(content, chains[h], a);
      forall i | 0 <= i < |content| && content[i].kind != EntryNone && content[i].addr == a
        ensures i in chains[h]
      {
        assert EntryOk(content, chains, i);
      }
    }

    /** The end of a chain that is not empty. */
    method LastOf(h: nat) returns (last: nat)
      requires Indexed(content, hash, chains) && h < HASH_TABLE_SIZE && chains[h] != []
      ensures last == chains[h][|chains[h]| - 1] < |content|
    {
      assert ChainOk(content, hash, chains, h);
      last := hash[h];
      ghost var rest := chains[h];
      while content[last].pNext != -1
        invariant rest != [] && Leads(content, last, rest) && last < |content|
        invariant rest[|rest| - 1] == chains[h][|chains[h]| - 1]
        decreases |rest|
      {
        last := content[last].pNext;
        rest := rest[1..];
      }
      assert rest[1..] == [];
    }

    /** The first vacancy from `first` on, or the table length. */
    method FindVacancy(first: nat) returns (i: nat)
      requires Valid() && first <= MAX_LEN_OF_MAC_TABLE
      ensures first <= i <= MAX_LEN_OF_MAC_TABLE
      ensures i < MAX_LEN_OF_MAC_TABLE ==> content[i].kind == EntryNone
      ensures forall j :: first <= j < i ==> content[j].kind != EntryNone
    {
      i := first;
      while i < MAX_LEN_OF_MAC_TABLE && content[i].kind != EntryNone
        invariant first <= i <= MAX_LEN_OF_MAC_TABLE
        invariant forall j :: first <= j < i ==> content[j].kind != EntryNone
      {
        i := i + 1;
      }
    }
  
    /**
     * MacTableInsertEntry from slot `first` on; -1 if there is no vacancy.  The entry
     * goes to the end of its chain, so an older entry with the address stays in front.
     */
    method Insert(a: Addr, kind: Kind, first: nat) returns (r: int)
      requires Valid() && kind != EntryNone && 1 <= first <= 2
      modifies this
      ensures Valid()
      ensures r == -1 <==> old(size) >= MAX_LEN_OF_MAC_TABLE
                           || forall i :: first <= i < |old(content)| ==> old(content)[i].kind != EntryNone
      ensures r == -1 ==> content == old(content) && hash == old(hash) && chains == old(chains)
      ensures r != -1 ==>
                && first <= r < |content| && old(content)[r].kind == EntryNone
                && content[r].kind == kind && content[r].addr == a && size == old(size) + 1
                && chains == old(chains)[HashIndex(a) := old(chains)[HashIndex(a)] + [r]]
                && forall j :: 0 <= j < |content| && j != r ==>
                     content[j].kind == old(content)[j].kind && content[j].addr == old(content)[j].addr
    {
      r := -1;
      if size >= MAX_LEN_OF_MAC_TABLE {
        return;
      }
      var i := FindVacancy(first);
      if i == MAX_LEN_OF_MAC_TABLE {
        return;
      }
      ghost var was := content;
      Attach(i, Entry(kind, a, -1));
      assert Used(content) == Used(was) + {i};
      size := size + 1;
      r := i;
    }

    /** Fills vacancy `i` and hangs it behind the last entry of its chain. */
    method Attach(i: nat, e: Entry)
      requires Indexed(content, hash, chains) && i < |content| && content[i].kind == EntryNone
      requires e.kind != EntryNone && e.pNext == -1
      modifies this`content, this`hash, this`chains
      ensures Indexed(content, hash, chains)
      ensures content[i].kind == e.kind && content[i].addr == e.addr
      ensures chains == old(chains)[HashIndex(e.addr) := old(chains)[HashIndex(e.addr)] + [i]]
      ensures forall j :: 0 <= j < |content| && j != i ==>
                content[j].kind == old(content)[j].kind && content[j].addr == old(content)[j].addr
    {
      var h := HashIndex(e.addr);
      assert ChainOk(content, hash, chains, h);
      ghost var was, wasHash := content, hash;
      if hash[h] == -1 {
        content := content[i := e];
        hash := hash[h := i];
      } else {
        var last := LastOf(h);
        assert last in chains[h] && last != i;
        content := content[i := e];
        content := content[last := content[last].(pNext := i)];
      }
      IndexedInsert(was, wasHash, chains, i, e, content, hash);
      chains := chains[h := chains[h] + [i]];
    }

    /** The walk of MacTableDeleteEntry to the entry before `i`, -1 if `i` is first. */
    method FindPrevious(h: nat, i: nat) returns (prev: int)
      requires Valid() && h < HASH_TABLE_SIZE && i in chains[h]
      ensures prev == -1 ==> chains[h] != [] && chains[h][0] == i
      ensures prev != -1 ==> 0 <= prev < |content| && prev != i && Follows(chains[h], prev, i)
    {
      assert ChainOk(content, hash, chains, h);
      prev := -1;
      var probe := hash[h];
      ghost var done: seq<nat>, rest := [], chains[h];
      while probe != i
        invariant chains[h] == done + rest && i in rest && Leads(content, probe, rest)
        invariant forall j :: j in done ==> j !in rest
        invariant prev == if done == [] then -1 else done[|done| - 1]
        invariant done != [] ==> prev < |content| && prev !in done[..|done| - 1]
        decreases |rest|
      {
        prev := probe;
        probe := content[probe].pNext;
        assert (done + [rest[0]])[..|done|] == done;
        done := done + [rest[0]];
        rest := rest[1..];
      }
      if done != [] {
        FollowsAt(done, rest, i);
      }
    }

    /**
     * MacTableDeleteEntry: takes the entry out if slot and address fit together, and
     * changes nothing if they do not.  False only for a slot beyond the table.
     */
    method Delete(wcid: nat, a: Addr) returns (ok: bool)
      requires Valid()
      modifies this
      ensures Valid()
      ensures ok <==> wcid < MAX_LEN_OF_MAC_TABLE
      ensures var hit := ok && old(content)[wcid].kind != EntryNone && old(content)[wcid].addr == a;
              && (!hit ==> content == old(content) && hash == old(hash) && chains == old(chains))
              && (hit ==>
                    && content[wcid] == ZERO && size == old(size) - 1
                    && chains == old(chains)[HashIndex(a) := Without(old(chains)[HashIndex(a)], wcid)]
                    && forall j :: 0 <= j < |content| && j != wcid ==>
                         content[j].kind == old(content)[j].kind && content[j].addr == old(content)[j].addr)
    {
      if wcid >= MAX_LEN_OF_MAC_TABLE {
        return false;
      }
      ok := true;
      if content[wcid].kind == EntryNone || content[wcid].addr != a {
        return;
      }
      var h := HashIndex(a);
      assert EntryOk(content, chains, wcid);
      ghost var was, wasHash := content, hash;
      var prev := FindPrevious(h, wcid);
      if prev == -1 {
        hash := hash[h := content[wcid].pNext];
      } else {
        content := content[prev := content[prev].(pNext := content[wcid].pNext)];
      }
      content := content[wcid := ZERO];
      IndexedDelete(was, wasHash, chains, prev, wcid, content, hash);
      chains := chains[h := Without(chains[h], wcid)];
      assert Used(content) == Used(was) - {wcid};
      size := size - 1;
    }

    /** MacTableReset: no client is left, and what is not a client stays. */
    method Reset()
      requires Valid()
      modifies this
      ensures Valid()
      ensures forall i :: 1 <= i < |content| ==> content[i].kind != EntryClient
      ensures forall i :: 0 <= i < |content| && (i == 0 || old(content)[i].kind != EntryClient) ==>
                content[i].kind == old(content)[i].kind && content[i].addr == old(content)[i].addr
    {
      for i := 1 to MAX_LEN_OF_MAC_TABLE
        invariant Valid()
        invariant forall j :: 1 <= j < i ==> content[j].kind != EntryClient
        invariant forall j :: 0 <= j < |content| && (j == 0 || j >= i || old(content)[j].kind != EntryClient) ==>
                    content[j].kind == old(content)[j].kind && content[j].addr == old(content)[j].addr
      {
        if content[i].kind == EntryClient {
          var _ := Delete(i, content[i].addr);
        }
      }
    }
  }
}
