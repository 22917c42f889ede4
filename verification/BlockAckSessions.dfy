/**
 * The Block-Ack session tables (rt3070/common/ba_action.c): slots, the array
 * that leads from a station and TID to its slot, bitmaps and counters.
 */
module BlockAckSessions {
  import MacTable

  const TABLE_LEN: nat := 128            // NUM_OF_TID * MAX_LEN_OF_MAC_TABLE / 2
  const NUM_OF_TID: nat := 8
  const ORI_SESSION_MAX_RETRY: nat := 8

  /** One entry of BAOriWcidArray or BARecWcidArray: a station and a TID. */
  datatype Key = Key(wcid: nat, tid: nat)

  datatype OriStatus = OriNone | OriUsed | WaitRes | Done

  /** `sends` counts the ADDBA requests sent since the session was set up. */
  datatype OriEntry = OriEntry(status: OriStatus, key: Key, token: nat, win: nat, armed: bool, sends: nat)

  ghost function InUse(slots: seq<OriEntry>): set<nat> {
    set i | 0 <= i < |slots| && slots[i].status != OriNone
  }

  ghost function Completed(slots: seq<OriEntry>): set<nat> {
    set i | 0 <= i < |slots| && slots[i].status == Done
  }

  lemma CompletedUpdate(slots: seq<OriEntry>, i: nat, e: OriEntry)
    requires i < |slots|
    ensures |Completed(slots[i := e])|
            == |Completed(slots)| - (if slots[i].status == Done then 1 else 0) + (if e.status == Done then 1 else 0)
  {
    var done := Completed(slots) - {i};
    assert Completed(slots[i := e]) == if e.status == Done then done + {i} else done;
    assert Completed(slots) == if slots[i].status == Done then done + {i} else done;
  }

  lemma InUseUpdate(slots: seq<OriEntry>, i: nat, e: OriEntry)
    requires i < |slots|
    ensures |InUse(slots[i := e])|
            == |InUse(slots)| - (if slots[i].status != OriNone then 1 else 0) + (if e.status != OriNone then 1 else 0)
    ensures |Completed(slots[i := e])|
            == |Completed(slots)| - (if slots[i].status == Done then 1 else 0) + (if e.status == Done then 1 else 0)
  {
    var used := InUse(slots) - {i};
    assert InUse(slots[i := e]) == if e.status != OriNone then used + {i} else used;
    assert InUse(slots) == if slots[i].status != OriNone then used + {i} else used;
    CompletedUpdate(slots, i, e);
  }

  lemma {:induction false} RangeSize(lo: nat, hi: nat, s: set<nat>)
    requires lo <= hi && forall i :: lo <= i < hi ==> i in s
    ensures |s| >= hi - lo
    decreases hi - lo
  {
    if lo < hi {
      RangeSize(lo + 1, hi, s - {lo});
    }
  }

  /** Slot `i` is free or leads back to itself through the array, as its status says. */
  ghost predicate OriSlotOk(slots: seq<OriEntry>, index: map<Key, nat>, bitmap: set<Key>, i: nat)
    requires i < |slots|
  {
    var e := slots[i];
    && e.status != OriUsed
    && (e.status != OriNone ==> i > 0 && e.key in index && index[e.key] == i)
    && (e.status == Done ==> e.key in bitmap)
    && (e.armed ==> e.status == WaitRes)
    && (e.status == WaitRes ==> 1 <= e.token <= ORI_SESSION_MAX_RETRY && e.sends == e.token - 1)
  }

  ghost predicate OriKeyOk(slots: seq<OriEntry>, index: map<Key, nat>, k: Key)
    requires k in index
  {
    var i := index[k];
    0 < i < |slots| && slots[i].status != OriNone && slots[i].key == k && k.tid < NUM_OF_TID
  }

  /** Array entries and used slots are in bijection; the bitmap marks the completed ones. */
  ghost predicate OriLinked(slots: seq<OriEntry>, index: map<Key, nat>, bitmap: set<Key>) {
    && |slots| == TABLE_LEN
    && (forall i :: 0 <= i < |slots| ==> OriSlotOk(slots, index, bitmap, i))
    && (forall k :: k in index ==> OriKeyOk(slots, index, k))
    && (forall k :: k in bitmap ==> k in index && OriKeyOk(slots, index, k) && slots[index[k]].status == Done)
  }

  lemma LinkedNew(slots: seq<OriEntry>, index: map<Key, nat>, bitmap: set<Key>, i: nat, e: OriEntry)
    requires OriLinked(slots, index, bitmap)
    requires 0 < i < |slots| && slots[i].status == OriNone && e.key !in index && e.key.tid < NUM_OF_TID
    requires e.status == WaitRes && e.token == 1 && e.sends == 0
    ensures OriLinked(slots[i := e], index[e.key := i], bitmap)
  {
    var slots1, index1 := slots[i := e], index[e.key := i];
    forall j | 0 <= j < |slots1|
      ensures OriSlotOk(slots1, index1, bitmap, j)
    {
      assert OriSlotOk(slots, index, bitmap, j);
    }
    forall k | k in index1
      ensures OriKeyOk(slots1, index1, k)
    {
      assert k != e.key ==> OriKeyOk(slots, index, k);
    }
  }

  /** A session changes its status, its token or its timer, or becomes complete. */
  lemma LinkedChange(slots: seq<OriEntry>, index: map<Key, nat>, bitmap: set<Key>, i: nat, e: OriEntry)
    requires OriLinked(slots, index, bitmap)
    requires i < |slots| && slots[i].status == WaitRes && e.key == slots[i].key
    requires e.status == WaitRes || e.status == Done
    requires e.armed ==> e.status == WaitRes
    requires e.status == WaitRes ==> 1 <= e.token <= ORI_SESSION_MAX_RETRY && e.sends == e.token - 1
    ensures OriLinked(slots[i := e], index, bitmap + if e.status == Done then {e.key} else {})
  {
    var slots1 := slots[i := e];
    var bitmap1 := bitmap + if e.status == Done then {e.key} else {};
    assert OriSlotOk(slots, index, bitmap, i);
    forall j | 0 <= j < |slots1|
      ensures OriSlotOk(slots1, index, bitmap1, j)
    {
      assert OriSlotOk(slots, index, bitmap, j);
    }
    forall k | k in index
      ensures OriKeyOk(slots1, index, k)
    {
      assert OriKeyOk(slots, index, k);
    }
  }

  lemma LinkedFree(slots: seq<OriEntry>, index: map<Key, nat>, bitmap: set<Key>, i: nat, e: OriEntry)
    requires OriLinked(slots, index, bitmap)
    requires i < |slots| && slots[i].status != OriNone && e.status == OriNone && !e.armed
    ensures OriLinked(slots[i := e], index - {slots[i].key}, bitmap - {slots[i].key})
    ensures slots[i].status != Done ==> bitmap - {slots[i].key} == bitmap
  {
    var key := slots[i].key;
    var slots1, index1, bitmap1 := slots[i := e], index - {key}, bitmap - {key};
    assert OriSlotOk(slots, index, bitmap, i);
    forall j | 0 <= j < |slots1|
      ensures OriSlotOk(slots1, index1, bitmap1, j)
    {
      assert OriSlotOk(slots, index, bitmap, j);
    }
    forall k | k in index1
      ensures OriKeyOk(slots1, index1, k)
    {
      assert OriKeyOk(slots, index, k);
    }
  }

  /** The smallest of the own window, the peer's, taken as a byte, and what the rates allow. */
  function AgreedWindow(own: nat, bufSize: nat, maxWin: nat): (w: nat)
    ensures w <= own && w <= bufSize % 256 && w <= maxWin && w in {own, bufSize % 256, maxWin}
  {
    var w := if own < bufSize % 256 then own else bufSize % 256;
    if w > maxWin then maxWin else w
  }

  datatype OriEvent =
    | SetUp(key: Key, enabled: bool, win: nat)
    | Response(key: Key, accepted: bool, bufSize: nat, maxWin: nat)
    | TearDown(key: Key, passive: bool, force: bool, send: bool)
    | Timeout(slot: nat, monitor: bool, scanning: bool)

  /** Whether the event is about the session `k` in slot `i`. */
  predicate Concerns(e: OriEvent, i: nat, k: Key) {
    match e
    case SetUp(_, _, _) => false
    case Response(key, _, _, _) => key == k
    case TearDown(key, _, _, _) => key == k
    case Timeout(slot, _, _) => slot == i
  }

  /** A timeout of slot `i` outside monitor mode. */
  predicate TimesOut(e: OriEvent, i: nat) { e.Timeout? && e.slot == i && !e.monitor }

  /** What an event does to a session: nothing unless it is about it. */
  predicate OriSlotAfter(e: OriEvent, i: nat, was: OriEntry, now: OriEntry) {
    && (was.status != OriNone && !Concerns(e, i, was.key) ==> now == was)
    && (was.armed && TimesOut(e, i) ==>
          if was.token == ORI_SESSION_MAX_RETRY then now.status == OriNone
          else now == if e.scanning then was else was.(token := was.token + 1, sends := was.sends + 1))
  }

  /** A timeout of slot `i` that is neither ignored nor put off. */
  predicate Fires(e: OriEvent, i: nat) { e == Timeout(i, false, false) }

  function Fired(es: seq<OriEvent>, i: nat): nat {
    if es == [] then 0 else Fired(es[..|es| - 1], i) + if Fires(es[|es| - 1], i) then 1 else 0
  }

  class OriTable {
    var slots: seq<OriEntry>
    var index: map<Key, nat>        // the nonzero entries of BAOriWcidArray
    var bitmap: set<Key>            // TXBAbitmap
    var numAsOriginator: int
    var numDoneOriginator: int

    /** The table is linked, and the counters count the used and the completed slots. */
    ghost predicate Consistent()
      reads this
    {
      && OriLinked(slots, index, bitmap)
      && numAsOriginator == |InUse(slots)|
      && numDoneOriginator == |Completed(slots)|
    }

    constructor ()
      ensures Consistent() && index == map[] && |slots| == 128
    {
      slots := seq(TABLE_LEN, _ => OriEntry(OriNone, Key(0, 0), 0, 0, false, 0));
      index, bitmap, numAsOriginator, numDoneOriginator := map[], {}, 0, 0;
      new;
      assert InUse(slots) == {} && Completed(slots) == {};
    }

    /** The search of BATableAllocOriEntry; 0 if the table is full. */
    method FindFree() returns (i: nat)
      requires Consistent()
      ensures i < TABLE_LEN
      ensures i == 0 <==> numAsOriginator >= TABLE_LEN - 1
      ensures i > 0 ==> slots[i].status == OriNone
    {
      if numAsOriginator >= TABLE_LEN - 1 {
        return 0;
      }
      i := 1;
      while i < TABLE_LEN && slots[i].status != OriNone
        invariant 1 <= i <= TABLE_LEN
        invariant forall j :: 1 <= j < i ==> slots[j].status != OriNone
      {
        i := i + 1;
      }
      if i == TABLE_LEN {
        RangeSize(1, TABLE_LEN, InUse(slots));
        assert false;
      }
    }

    /**
     * BAOriSessionSetUp; `enabled` stands for the checks on configuration and rate.
     * A new session gets a slot that was free, never slot 0; one that exists, and a
     * full table, leave everything as it was.
     */
    method SetUp(k: Key, enabled: bool, win: nat) returns (i: nat)
      requires Consistent() && k.wcid < MacTable.MAX_LEN_OF_MAC_TABLE && k.tid < NUM_OF_TID
      modifies this
      ensures Consistent()
      ensures i > 0 <==> enabled && k !in old(index) && old(numAsOriginator) < TABLE_LEN - 1
      ensures i == 0 ==> slots == old(slots) && index == old(index) && bitmap == old(bitmap)
      ensures i > 0 ==>
                && i < TABLE_LEN && old(slots)[i].status == OriNone
                && slots == old(slots)[i := OriEntry(WaitRes, k, 1, win, true, 0)]
                && index == old(index)[k := i] && bitmap == old(bitmap)
    {
      i := 0;
      if !enabled || k in index {
        return;
      }
      i := FindFree();
      if i == 0 {
        return;
      }
      var e := OriEntry(WaitRes, k, 1, win, true, 0);
      InUseUpdate(slots, i, e);
      LinkedNew(slots, index, bitmap, i, e);
      slots := slots[i := e];
      index := index[k := i];
      numAsOriginator := numAsOriginator + 1;
    }

    /** BAOriSessionAdd: an accepted response completes a session that waits for it. */
    method Answered(k: Key, bufSize: nat, maxWin: nat) returns (completed: bool)
      requires Consistent() && k.wcid < MacTable.MAX_LEN_OF_MAC_TABLE && k.tid < NUM_OF_TID
      modifies this
      ensures Consistent() && index == old(index)
      ensures completed <==> k in index && old(slots)[index[k]].status == WaitRes
      ensures !completed ==> slots == old(slots) && bitmap == old(bitmap)
      ensures completed ==>
                var e := old(slots)[index[k]];
                && bitmap == old(bitmap) + {k}
                && slots == old(slots)[index[k] := e.(status := Done, armed := false,
                                                      win := AgreedWindow(e.win, bufSize, maxWin))]
    {
      completed := false;
      if k in index {
        assert OriKeyOk(slots, index, k);
        var i := index[k];
        if slots[i].key.tid == k.tid && slots[i].status == WaitRes {
          var e := slots[i].(status := Done, armed := false, win := AgreedWindow(slots[i].win, bufSize, maxWin));
          InUseUpdate(slots, i, e);
          LinkedChange(slots, index, bitmap, i, e);
          slots := slots[i := e];
          bitmap := bitmap + {k};
          numDoneOriginator := numDoneOriginator + 1;
          completed := true;
        }
      }
    }

    /** BATableFreeOriEntry */
    method Free(i: nat)
      requires Consistent()
      modifies this
      ensures Consistent()
      ensures i == 0 || i >= TABLE_LEN || old(slots)[i].status == OriNone ==>
                slots == old(slots) && index == old(index) && bitmap == old(bitmap)
      ensures 0 < i < TABLE_LEN && old(slots)[i].status != OriNone ==>
                var k := old(slots)[i].key;
                && slots == old(slots)[i := slots[i]] && slots[i].status == OriNone
                && index == old(index) - {k} && bitmap == old(bitmap) - {k}
    {
      if i == 0 || i >= TABLE_LEN || slots[i].status == OriNone {
        return;
      }
      assert OriSlotOk(slots, index, bitmap, i);
      var e := slots[i].(status := OriNone, token := 0, armed := false);
      InUseUpdate(slots, i, e);
      LinkedFree(slots, index, bitmap, i, e);
      index := index - {slots[i].key};
      if slots[i].status == Done {
        numDoneOriginator := numDoneOriginator - 1;
        bitmap := bitmap - {slots[i].key};
      }
      numAsOriginator := numAsOriginator - 1;
      slots := slots[i := e];
    }
  
    /**
     * BAOriSessionTearDown; `send` tells whether memory for the DELBA was found.
     * The result is whether a DELBA was sent.
     */
    method TearDown(k: Key, passive: bool, force: bool, send: bool) returns (delba: bool)
      requires Consistent() && k.tid < NUM_OF_TID
      modifies this
      ensures Consistent()
      ensures k !in old(index) || k.wcid >= MacTable.MAX_LEN_OF_MAC_TABLE ==>
                slots == old(slots) && index == old(index) && bitmap == old(bitmap)
      ensures k in old(index) && k.wcid < MacTable.MAX_LEN_OF_MAC_TABLE ==>
                var kept := !passive && !send && k in old(bitmap);
                var i := old(index)[k];
                && (kept ==> slots == old(slots) && index == old(index) && bitmap == old(bitmap))
                && (!kept ==> index == old(index) - {k} && bitmap == old(bitmap) - {k}
                              && i < |slots| && slots == old(slots)[i := slots[i]] && slots[i].status == OriNone)
      ensures delba <==> k.wcid < MacTable.MAX_LEN_OF_MAC_TABLE && send
                         && if k in old(index) then !passive && k in old(bitmap) else force
    {
      delba := false;
      if k.wcid >= MacTable.MAX_LEN_OF_MAC_TABLE {
        return;
      }
      if k !in index {
        delba := force && send;
        return;
      }
      assert OriKeyOk(slots, index, k);
      var i := index[k];
      assert OriSlotOk(slots, index, bitmap, i);
      if !passive && k.tid == slots[i].key.tid && slots[i].status == Done {
        if !send {
          return;
        }
        delba := true;
      }
      Free(i);
    }

    /**
     * BAOriSessionSetupTimeout for the timer of slot `i`.  The seventh request is the
     * last: the next timeout frees the slot.
     */
    method SetupTimeout(i: nat, monitor: bool, scanning: bool) returns (sent: bool)
      requires Consistent() && i < TABLE_LEN && slots[i].armed
      modifies this
      ensures Consistent()
      ensures sent <==> !monitor && old(slots)[i].token < ORI_SESSION_MAX_RETRY && !scanning
      ensures monitor ==> slots == old(slots)[i := old(slots)[i].(armed := false)] && index == old(index)
      ensures sent ==>
                && slots == old(slots)[i := old(slots)[i].(token := old(slots)[i].token + 1,
                                                           sends := old(slots)[i].sends + 1)]
                && slots[i].sends <= ORI_SESSION_MAX_RETRY - 1 && index == old(index)
      ensures !monitor && !sent && scanning && old(slots)[i].token < ORI_SESSION_MAX_RETRY ==>
                slots == old(slots) && index == old(index)
      ensures !monitor && old(slots)[i].token == ORI_SESSION_MAX_RETRY ==>
                && old(slots)[i].sends == ORI_SESSION_MAX_RETRY - 1
                && slots == old(slots)[i := slots[i]] && slots[i].status == OriNone
                && index == old(index) - {old(slots)[i].key}
      ensures bitmap == old(bitmap)
    {
      assert OriSlotOk(slots, index, bitmap, i);
      sent := false;
      if monitor {
        Change(i, slots[i].(armed := false));
        return;
      }
      if slots[i].status == WaitRes && slots[i].token < ORI_SESSION_MAX_RETRY {
        if scanning {
          return;
        }
        sent := true;
        Change(i, slots[i].(token := slots[i].token + 1, sends := slots[i].sends + 1));
      } else {
        Free(index[slots[i].key]);
      }
    }

    /** Rewrites a waiting slot in place. */
    method Change(i: nat, e: OriEntry)
      requires Consistent() && i < TABLE_LEN && slots[i].status == WaitRes == e.status && e.key == slots[i].key
      requires 1 <= e.token <= ORI_SESSION_MAX_RETRY && e.sends == e.token - 1
      modifies this`slots
      ensures Consistent() && slots == old(slots)[i := e]
    {
      InUseUpdate(slots, i, e);
      LinkedChange(slots, index, bitmap, i, e);
      assert bitmap + {} == bitmap;
      slots := slots[i := e];
    }
  
    /** One event; it touches no session it is not about. */
    method Apply(e: OriEvent)
      requires Consistent()
      modifies this
      ensures Consistent()
      ensures forall j :: 0 <= j < TABLE_LEN ==> OriSlotAfter(e, j, old(slots)[j], slots[j])
    {
      assert forall k :: k in index ==> OriKeyOk(slots, index, k);
      match e
      case SetUp(k, enabled, win) =>
        if k.wcid < MacTable.MAX_LEN_OF_MAC_TABLE && k.tid < NUM_OF_TID {
          var _ := SetUp(k, enabled, win);
        }
      case Response(k, accepted, bufSize, maxWin) =>
        if k.wcid < MacTable.MAX_LEN_OF_MAC_TABLE && k.tid < NUM_OF_TID {
          if accepted {
            var _ := Answered(k, bufSize, maxWin);
          } else {
            var _ := TearDown(k, true, false, true);
          }
        }
      case TearDown(k, passive, force, send) =>
        if k.tid < NUM_OF_TID {
          var _ := TearDown(k, passive, force, send);
        }
      case Timeout(i, monitor, scanning) =>
        if i < TABLE_LEN && slots[i].armed {
          assert OriSlotOk(slots, index, bitmap, i);
          var _ := SetupTimeout(i, monitor, scanning);
        }
    }

    /** Any run of set-ups, responses, teardowns and timeouts keeps the table consistent. */
    method Run(es: seq<OriEvent>)
      requires Consistent()
      modifies this
      ensures Consistent()
    {
      for n := 0 to |es|
        invariant Consistent()
      {
        Apply(es[n]);
      }
    }

    /**
     * A request nobody answers, in any run of other sessions' events and of its own
     * timeouts, put off by scans or not: it goes out once for every timeout that fires,
     * and is given up at the next timeout after exactly seven.
     */
    method Unanswered(i: nat, es: seq<OriEvent>) returns (sent: nat, freed: bool)
      requires Consistent() && i < TABLE_LEN && slots[i].armed && slots[i].token == 1
      requires forall e :: e in es && Concerns(e, i, slots[i].key) ==> TimesOut(e, i)
      modifies this
      ensures Consistent()
      ensures freed ==> sent == 7 && slots[i].status == OriNone
      ensures !freed ==> sent == Fired(es, i) <= 7 && slots[i] == old(slots[i]).(token := 1 + sent, sends := sent)
      ensures Fired(es, i) >= 8 ==> freed
    {
      sent, freed := 0, false;
      ghost var key := slots[i].key;
      assert OriSlotOk(slots, index, bitmap, i);
      assert es[..0] == [];
      for n := 0 to |es|
        invariant Consistent() && !freed && sent == Fired(es[..n], i) <= 7
        invariant slots[i] == old(slots[i]).(token := 1 + sent, sends := sent)
      {
        assert es[..n + 1][..n] == es[..n] && es[n] in es;
        var token := slots[i].token;
        Apply(es[n]);
        if TimesOut(es[n], i) {
          if token == ORI_SESSION_MAX_RETRY {
            freed := true;
            return;
          }
          if !es[n].scanning {
            sent := sent + 1;
          }
        }
      }
      assert es[..|es|] == es;
    }
  }

  // ---- recipient sessions ----

  datatype RecStatus = RecNone | RecUsed | HandleRes | Accepted

  datatype RecSlot = RecSlot(status: RecStatus, key: Key, win: nat)

  ghost function Receiving(slots: seq<RecSlot>): set<nat> {
    set i | 0 <= i < |slots| && slots[i].status != RecNone
  }

  lemma ReceivingUpdate(slots: seq<RecSlot>, i: nat, e: RecSlot)
    requires i < |slots|
    ensures Receiving(slots[i := e]) == if e.status == RecNone then Receiving(slots) - {i} else Receiving(slots) + {i}
  {
  }

  ghost predicate RecSlotOk(slots: seq<RecSlot>, index: map<Key, nat>, i: nat)
    requires i < |slots|
  {
    var e := slots[i];
    && (e.status == RecNone || e.status == Accepted)
    && (e.status == Accepted ==> i > 0 && e.key in index && index[e.key] == i && 1 <= e.win <= 255)
  }

  ghost predicate RecKeyOk(slots: seq<RecSlot>, index: map<Key, nat>, k: Key)
    requires k in index
  {
    var i := index[k];
    0 < i < |slots| && slots[i].status == Accepted && slots[i].key == k && k.tid < NUM_OF_TID
  }

  ghost predicate RecLinked(slots: seq<RecSlot>, index: map<Key, nat>, bitmap: set<Key>) {
    && |slots| == TABLE_LEN
    && (forall i :: 0 <= i < |slots| ==> RecSlotOk(slots, index, i))
    && (forall k :: k in index ==> RecKeyOk(slots, index, k))
    && bitmap == index.Keys
  }

  lemma RecLinkedSet(slots: seq<RecSlot>, index: map<Key, nat>, bitmap: set<Key>, i: nat, e: RecSlot)
    requires RecLinked(slots, index, bitmap) && 0 < i < |slots|
    requires if e.key in index then index[e.key] == i else slots[i].status == RecNone
    requires e.status == Accepted && 1 <= e.win <= 255 && e.key.tid < NUM_OF_TID
    ensures RecLinked(slots[i := e], index[e.key := i], bitmap + {e.key})
  {
    var slots1, index1 := slots[i := e], index[e.key := i];
    forall j | 0 <= j < |slots1|
      ensures RecSlotOk(slots1, index1, j)
    {
      assert RecSlotOk(slots, index, j);
    }
    forall k | k in index1
      ensures RecKeyOk(slots1, index1, k)
    {
      assert k != e.key ==> RecKeyOk(slots, index, k);
    }
  }

  lemma RecLinkedFree(slots: seq<RecSlot>, index: map<Key, nat>, bitmap: set<Key>, i: nat, e: RecSlot)
    requires RecLinked(slots, index, bitmap) && i < |slots|
    requires slots[i].status == Accepted && e.status == RecNone
    ensures RecLinked(slots[i := e], index - {slots[i].key}, bitmap - {slots[i].key})
  {
    var key := slots[i].key;
    var slots1, index1 := slots[i := e], index - {key};
    assert RecSlotOk(slots, index, i);
    forall j | 0 <= j < |slots1|
      ensures RecSlotOk(slots1, index1, j)
    {
      assert RecSlotOk(slots, index, j);
    }
    forall k | k in index1
      ensures RecKeyOk(slots1, index1, k)
    {
      assert RecKeyOk(slots, index, k);
    }
  }

  /** The window a request gets: the smaller of the two sizes, 64 for none. */
  function WindowFor(bufSize: nat, limit: nat): (w: nat)
    requires limit < 256
    ensures bufSize % 256 > 0 && limit > 0 ==> w in {bufSize % 256, limit} && w <= bufSize % 256 && w <= limit
    ensures bufSize % 256 == 0 || limit == 0 ==> w == 64
  {
    var w := if bufSize % 256 < limit then bufSize % 256 else limit;
    if w == 0 then 64 else w
  }

  class RecTable {
    var slots: seq<RecSlot>
    var index: map<Key, nat>        // the nonzero entries of BARecWcidArray
    var bitmap: set<Key>            // RXBAbitmap
    var numAsRecipient: int

    ghost predicate Consistent()
      reads this
    {
      RecLinked(slots, index, bitmap) && numAsRecipient == |Receiving(slots)|
    }

    constructor ()
      ensures Consistent() && index == map[] && |slots| == 128
    {
      slots := seq(TABLE_LEN, _ => RecSlot(RecNone, Key(0, 0), 0));
      index, bitmap, numAsRecipient := map[], {}, 0;
      new;
      assert Receiving(slots) == {};
    }

    /** The search of BATableAllocRecEntry; 0 if the table is full. */
    method FindFree() returns (i: nat)
      requires Consistent()
      ensures i < TABLE_LEN
      ensures i == 0 <==> numAsRecipient >= TABLE_LEN - 1
      ensures i > 0 ==> slots[i].status == RecNone
    {
      if numAsRecipient >= TABLE_LEN - 1 {
        return 0;
      }
      i := 1;
      while i < TABLE_LEN && slots[i].status != RecNone
        invariant 1 <= i <= TABLE_LEN
        invariant forall j :: 1 <= j < i ==> slots[j].status != RecNone
      {
        i := i + 1;
      }
      if i == TABLE_LEN {
        RangeSize(1, TABLE_LEN, Receiving(slots));
        assert false;
      }
    }

    /**
     * BARecSessionAdd: a request opens a session or renews the one there is.  It is
     * refused exactly when it is new and the table is full.
     */
    method Add(k: Key, bufSize: nat, limit: nat) returns (ok: bool)
      requires Consistent() && k.wcid < MacTable.MAX_LEN_OF_MAC_TABLE && k.tid < NUM_OF_TID && limit < 256
      modifies this
      ensures Consistent()
      ensures ok <==> k in old(index) || old(numAsRecipient) < TABLE_LEN - 1
      ensures !ok ==> slots == old(slots) && index == old(index)
      ensures ok ==>
                && k in index && index == old(index)[k := index[k]]
                && (k in old(index) ==> index == old(index))
                && (k !in old(index) ==> old(slots)[index[k]].status == RecNone)
                && slots == old(slots)[index[k] := RecSlot(Accepted, k, WindowFor(bufSize, limit))]
    {
      var e := RecSlot(Accepted, k, WindowFor(bufSize, limit));
      var i := 0;
      if k in index {
        i := index[k];
        assert RecKeyOk(slots, index, k);
      } else {
        i := FindFree();
        if i == 0 {
          return false;
        }
        numAsRecipient := numAsRecipient + 1;
      }
      ReceivingUpdate(slots, i, e);
      assert k in index ==> Receiving(slots) + {i} == Receiving(slots);
      RecLinkedSet(slots, index, bitmap, i, e);
      slots := slots[i := e];
      bitmap := bitmap + {k};
      index := index[k := i];
      ok := true;
    }

    /**
     * BARecSessionTearDown and BATableFreeRecEntry; `send` tells whether memory for the
     * DELBA was found.
     */
    method TearDown(k: Key, passive: bool, send: bool)
      requires Consistent() && k.tid < NUM_OF_TID
      modifies this
      ensures Consistent()
      ensures index == if k.wcid < MacTable.MAX_LEN_OF_MAC_TABLE && (passive || send) then old(index) - {k} else old(index)
      ensures forall j :: j in index.Values ==> j < |slots| && slots[j] == old(slots)[j]
    {
      if k.wcid >= MacTable.MAX_LEN_OF_MAC_TABLE || k !in index {
        assert k !in index ==> index - {k} == index;
        return;
      }
      var i := index[k];
      assert RecKeyOk(slots, index, k);
      if !passive && !send {
        return;
      }
      var e := slots[i].(status := RecNone, win := 0);
      ReceivingUpdate(slots, i, e);
      RecLinkedFree(slots, index, bitmap, i, e);
      bitmap := bitmap - {k};
      index := index - {k};
      numAsRecipient := numAsRecipient - 1;
      slots := slots[i := e];
    }
  }

  /**
   * BASessionTearDownALL: with memory for the DELBAs, no session of the station is left;
   * without, those stay for which one is due.
   */
  method TearDownAll(ori: OriTable, rec: RecTable, wcid: nat, send: bool)
    requires ori.Consistent() && rec.Consistent() && wcid < MacTable.MAX_LEN_OF_MAC_TABLE
    modifies ori, rec
    ensures ori.Consistent() && rec.Consistent()
    ensures forall k: Key :: k.wcid != wcid ==>
              (k in ori.index <==> k in old(ori.index)) && (k in rec.index <==> k in old(rec.index))
    ensures forall k: Key :: k.wcid == wcid ==>
              (k in ori.index <==> !send && k in old(ori.bitmap)) && (k in rec.index <==> !send && k in old(rec.index))
  {
    assert forall k :: k in ori.bitmap ==> k in ori.index;
    for tid := 0 to NUM_OF_TID
      invariant ori.Consistent() && rec.Consistent()
      invariant forall k: Key :: k.wcid != wcid || k.tid >= tid ==>
                  && (k in ori.index <==> k in old(ori.index)) && (k in ori.bitmap <==> k in old(ori.bitmap))
                  && (k in rec.index <==> k in old(rec.index))
      invariant forall k: Key :: k.wcid == wcid && k.tid < tid ==>
                  && (k in ori.index <==> !send && k in old(ori.bitmap))
                  && (k in rec.index <==> !send && k in old(rec.index))
    {
      var _ := ori.TearDown(Key(wcid, tid), false, false, send);
      rec.TearDown(Key(wcid, tid), false, send);
    }
    assert forall k :: k in ori.index ==> OriKeyOk(ori.slots, ori.index, k);
    assert forall k :: k in rec.index ==> RecKeyOk(rec.slots, rec.index, k);
    assert forall k :: k in old(ori.index) ==> k.tid < NUM_OF_TID;
  }
}
