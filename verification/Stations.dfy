/**
 * Deleting a station (rt3070/common/cmm_data.c, MacTableDeleteEntry): its Block-Ack
 * sessions are torn down, then its table entry is zeroed, and with it the arrays and
 * bitmaps that lead to the sessions.
 */
module Stations {
  import MacTable
  import opened BlockAckSessions

  /** Slot and address fit together, so that the entry is deleted. */
  predicate Hit(content: seq<MacTable.Entry>, wcid: nat, a: MacTable.Addr) {
    wcid < |content| && content[wcid].kind != MacTable.EntryNone && content[wcid].addr == a
  }

  /** A session of the station needs a DELBA before it can be freed. */
  ghost predicate Owing(bitmap: set<Key>, index: map<Key, nat>, wcid: nat) {
    (exists k :: k in bitmap && k.wcid == wcid) || (exists k :: k in index && k.wcid == wcid)
  }

  ghost predicate NoneOf(index: map<Key, nat>, wcid: nat) {
    forall k :: k in index ==> k.wcid != wcid
  }

  function Others(index: map<Key, nat>, wcid: nat): map<Key, nat> {
    map k | k in index && k.wcid != wcid :: index[k]
  }

  function OtherBits(bitmap: set<Key>, wcid: nat): set<Key> {
    set k | k in bitmap && k.wcid != wcid
  }

  /** Zeroing the entry of a station keeps a table consistent exactly if it has no session there. */
  lemma OriForgets(slots: seq<OriEntry>, index: map<Key, nat>, bitmap: set<Key>, wcid: nat)
    requires OriLinked(slots, index, bitmap)
    ensures OriLinked(slots, Others(index, wcid), OtherBits(bitmap, wcid)) <==> NoneOf(index, wcid)
  {
    if k :| k in index && k.wcid == wcid {
      assert OriKeyOk(slots, index, k);
      assert !OriSlotOk(slots, Others(index, wcid), OtherBits(bitmap, wcid), index[k]);
    } else {
      assert Others(index, wcid) == index && OtherBits(bitmap, wcid) == bitmap;
    }
  }

  lemma RecForgets(slots: seq<RecSlot>, index: map<Key, nat>, bitmap: set<Key>, wcid: nat)
    requires RecLinked(slots, index, bitmap)
    ensures RecLinked(slots, Others(index, wcid), OtherBits(bitmap, wcid)) <==> NoneOf(index, wcid)
  {
    if k :| k in index && k.wcid == wcid {
      assert RecKeyOk(slots, index, k);
      assert !RecSlotOk(slots, Others(index, wcid), index[k]);
    } else {
      assert Others(index, wcid) == index && OtherBits(bitmap, wcid) == bitmap;
    }
  }

  method ForgetOriginators(ori: OriTable, wcid: nat)
    requires ori.Consistent()
    modifies ori
    ensures ori.index == Others(old(ori.index), wcid)
    ensures ori.Consistent() <==> NoneOf(old(ori.index), wcid)
  {
    OriForgets(ori.slots, ori.index, ori.bitmap, wcid);
    ori.index, ori.bitmap := Others(ori.index, wcid), OtherBits(ori.bitmap, wcid);
  }

  method ForgetRecipients(rec: RecTable, wcid: nat)
    requires rec.Consistent()
    modifies rec
    ensures rec.index == Others(old(rec.index), wcid)
    ensures rec.Consistent() <==> NoneOf(old(rec.index), wcid)
  {
    RecForgets(rec.slots, rec.index, rec.bitmap, wcid);
    rec.index, rec.bitmap := Others(rec.index, wcid), OtherBits(rec.bitmap, wcid);
  }

  lemma NoneLeft(ori: map<Key, nat>, rec: map<Key, nat>, bitmap: set<Key>, index: map<Key, nat>, wcid: nat, send: bool)
    requires forall k: Key :: k.wcid == wcid ==>
               (k in ori <==> !send && k in bitmap) && (k in rec <==> !send && k in index)
    ensures NoneOf(ori, wcid) && NoneOf(rec, wcid) <==> send || !Owing(bitmap, index, wcid)
  {
  }

  /**
   * The sessions of a station that is deleted.  The tables stay consistent if and only
   * if there was memory for the DELBAs or none was due.
   */
  method DropSessions(ori: OriTable, rec: RecTable, wcid: nat, send: bool)
    requires ori.Consistent() && rec.Consistent() && wcid < MacTable.MAX_LEN_OF_MAC_TABLE
    modifies ori, rec
    ensures forall k: Key :: k in ori.index <==> k in old(ori.index) && k.wcid != wcid
    ensures forall k: Key :: k in rec.index <==> k in old(rec.index) && k.wcid != wcid
    ensures ori.Consistent() && rec.Consistent() <==> send || !Owing(old(ori.bitmap), old(rec.index), wcid)
  {
    TearDownAll(ori, rec, wcid, send);
    NoneLeft(ori.index, rec.index, old(ori.bitmap), old(rec.index), wcid, send);
    ForgetOriginators(ori, wcid);
    ForgetRecipients(rec, wcid);
  }

  /** MacTableDeleteEntry with the sessions of the station. */
  method DeleteStation(table: MacTable.Table, ori: OriTable, rec: RecTable, wcid: nat, a: MacTable.Addr, send: bool)
    returns (ok: bool)
    requires table.Valid() && ori.Consistent() && rec.Consistent()
    modifies table, ori, rec
    ensures table.Valid() && (ok <==> wcid < MacTable.MAX_LEN_OF_MAC_TABLE)
    ensures !Hit(old(table.content), wcid, a) ==>
              table.content == old(table.content) && ori.Consistent() && rec.Consistent()
              && ori.index == old(ori.index) && rec.index == old(rec.index)
    ensures Hit(old(table.content), wcid, a) ==>
              && table.content[wcid] == MacTable.ZERO
              && (forall k: Key :: k in ori.index <==> k in old(ori.index) && k.wcid != wcid)
              && (forall k: Key :: k in rec.index <==> k in old(rec.index) && k.wcid != wcid)
              && (ori.Consistent() && rec.Consistent() <==> send || !Owing(old(ori.bitmap), old(rec.index), wcid))
  {
    if wcid < MacTable.MAX_LEN_OF_MAC_TABLE && Hit(table.content, wcid, a) {
      DropSessions(ori, rec, wcid, send);
    }
    ok := table.Delete(wcid, a);
  }
}
