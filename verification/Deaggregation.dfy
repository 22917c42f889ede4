/**
 * Taking an A-MSDU apart (rt3070/common/cmm_data.c, deaggregate_AMSDU_announce;
 * format of section 7.2.2.2 of IEEE 802.11n-2009).
 */
module Deaggregation {
  import opened Basics

  const LENGTH_802_3: nat := 14

  /** Destination and source address, and the payload with its LLC header. */
  datatype Subframe = Subframe(addresses: seq<byte>, payload: seq<byte>)

  /** `(n + 3) & ~3` */
  function RoundUp(n: nat): nat { (n + 3) / 4 * 4 }

  function PayloadSize(data: seq<byte>): nat
    requires |data| >= 14
  {
    256 * (data[12] as int) + data[13] as int
  }

  /** The subframe at the front is announced. */
  predicate Announces(data: seq<byte>) {
    |data| > 14 && PayloadSize(data) <= 1518 && 14 + PayloadSize(data) <= |data|
  }

  /** After announcing a subframe, whether there is another one to look at. */
  predicate GoesOn(data: seq<byte>)
    requires Announces(data)
  {
    var size := RoundUp(14 + PayloadSize(data));
    32 <= size <= 1528 && size < |data|
  }

  function Front(data: seq<byte>): Subframe
    requires Announces(data)
  {
    Subframe(data[..12], data[14..14 + PayloadSize(data)])
  }

  /** What is announced for the bytes of an A-MSDU. */
  function Deaggregated(data: seq<byte>): seq<Subframe>
    decreases |data|
  {
    if !Announces(data) then []
    else if !GoesOn(data) then [Front(data)]
    else [Front(data)] + Deaggregated(data[RoundUp(14 + PayloadSize(data))..])
  }

  /** The bytes end in a subframe that is counted but cannot be announced. */
  predicate EndsBadly(data: seq<byte>)
    decreases |data|
  {
    |data| > 14 && (Announces(data) ==> GoesOn(data) && EndsBadly(data[RoundUp(14 + PayloadSize(data))..]))
  }

  /** One turn of the loop: what it announces and what it leaves; `last` if it breaks off. */
  method TakeFront(data: seq<byte>) returns (found: seq<Subframe>, rest: seq<byte>, last: bool)
    requires |data| > 14
    ensures if Announces(data) then found == [Front(data)] else found == [] && last
    ensures Announces(data) && GoesOn(data) ==> !last && rest == data[RoundUp(14 + PayloadSize(data))..]
    ensures Announces(data) && !GoesOn(data) ==> last || rest == []
  {
    found, rest, last := [], [], true;
    var payloadSize := PayloadSize(data);
    var subFrameSize := (payloadSize + LENGTH_802_3) % 0x1_0000;
    if |data| < subFrameSize || payloadSize > 1518 {
      return;
    }
    found := [Front(data)];
    subFrameSize := RoundUp(subFrameSize);
    if subFrameSize > 1528 || subFrameSize < 32 {
      return;
    }
    last := false;
    if |data| > subFrameSize {
      rest := data[subFrameSize..];
    }
  }

  lemma NotAnnounced(data: seq<byte>)
    requires !Announces(data)
    ensures Deaggregated(data) == []
  {
  }

  lemma BreaksOff(data: seq<byte>)
    requires Announces(data) && !GoesOn(data)
    ensures Deaggregated(data) == [Front(data)]
  {
  }

  lemma MovesOn(data: seq<byte>)
    requires Announces(data) && GoesOn(data)
    ensures Deaggregated(data) == [Front(data)] + Deaggregated(data[RoundUp(14 + PayloadSize(data))..])
  {
  }

  /** What is still to be announced. */
  ghost function Left(rest: seq<byte>, last: bool): seq<Subframe> {
    if last then [] else Deaggregated(rest)
  }

  method Turn(announced: seq<Subframe>, data: seq<byte>) returns (more: seq<Subframe>, rest: seq<byte>, last: bool)
    requires |data| > 14
    ensures more + Left(rest, last) == announced + Left(data, false)
    ensures |more| == |announced| + if Announces(data) then 1 else 0
    ensures EndsBadly(data) <==> if last then !Announces(data) else EndsBadly(rest)
    ensures !last ==> Announces(data) && |rest| < |data|
  {
    var found;
    found, rest, last := TakeFront(data);
    more := announced + found;
    if !Announces(data) {
      NotAnnounced(data);
    } else if GoesOn(data) {
      MovesOn(data);
    } else {
      BreaksOff(data);
    }
  }

  /** deaggregate_AMSDU_announce; it ends on every buffer. */
  method Deaggregate(data: seq<byte>) returns (announced: seq<Subframe>, nMSDU: nat)
    ensures announced == Deaggregated(data)
    ensures nMSDU == |announced| + if EndsBadly(data) then 1 else 0
  {
    announced, nMSDU := [], 0;
    var rest, last := data, false;
    while |rest| > LENGTH_802_3 && !last
      invariant announced + Left(rest, last) == Left(data, false)
      invariant !last ==> nMSDU == |announced| && (EndsBadly(rest) <==> EndsBadly(data))
      invariant last ==> nMSDU == |announced| + if EndsBadly(data) then 1 else 0
      decreases !last, |rest|
    {
      nMSDU := nMSDU + 1;
      announced, rest, last := Turn(announced, rest);
    }
    assert Left(rest, last) == [];
  }

  // ---- building an A-MSDU ----

  function Body(f: Subframe): (r: seq<byte>)
    requires |f.addresses| == 12 && |f.payload| < 0x1_0000
    ensures |r| == 14 + |f.payload|
  {
    f.addresses + [|f.payload| / 256, |f.payload| % 256] + f.payload
  }

  predicate Encodable(fs: seq<Subframe>) {
    fs != [] ==> |fs[0].addresses| == 12 && |fs[0].payload| < 0x1_0000 && Encodable(fs[1..])
  }

  /** Every subframe but the last is padded to a multiple of four. */
  function Aggregate(fs: seq<Subframe>): seq<byte>
    requires Encodable(fs)
  {
    if fs == [] then []
    else if |fs| == 1 then Body(fs[0])
    else
      var n := 14 + |fs[0].payload|;
      Body(fs[0]) + seq(RoundUp(n) - n, _ => 0) + Aggregate(fs[1..])
  }

  /** Payloads of 15..1514 bytes, and 1..1518 for the last. */
  predicate Fits(fs: seq<Subframe>) {
    fs != [] ==>
      if |fs| == 1 then 1 <= |fs[0].payload| <= 1518
      else 15 <= |fs[0].payload| <= 1514 && Fits(fs[1..])
  }

  lemma BodyInFront(f: Subframe, tail: seq<byte>)
    requires |f.addresses| == 12 && |f.payload| < 0x1_0000
    ensures var data := Body(f) + tail;
            && PayloadSize(data) == |f.payload|
            && (Announces(data) <==> |data| > 14 && |f.payload| <= 1518)
            && (Announces(data) ==> Front(data) == f)
  {
    var data := Body(f) + tail;
    assert data[12] == |f.payload| / 256 && data[13] == |f.payload| % 256;
    if Announces(data) {
      assert data[..12] == f.addresses;
      assert data[14..14 + |f.payload|] == f.payload;
    }
  }

  lemma {:induction false} AggregateLength(fs: seq<Subframe>)
    requires Encodable(fs) && fs != []
    ensures |Aggregate(fs)| >= 14
  {
  }

  lemma RoundedSizes(p: nat)
    ensures 32 <= RoundUp(14 + p) <= 1528 <==> 15 <= p <= 1514
    ensures 14 + p <= RoundUp(14 + p)
  {
  }

  /** The last subframe. */
  lemma LastExact(f: Subframe)
    requires |f.addresses| == 12 && |f.payload| < 0x1_0000
    ensures Deaggregated(Body(f)) == [f] <==> 1 <= |f.payload| <= 1518
  {
    assert Body(f) == Body(f) + [];
    BodyInFront(f, []);
    RoundedSizes(|f.payload|);
  }

  lemma GoesOnExactly(data: seq<byte>, p: nat)
    requires Announces(data) && PayloadSize(data) == p && RoundUp(14 + p) < |data|
    ensures GoesOn(data) <==> 15 <= p <= 1514
  {
    RoundedSizes(p);
  }

  lemma SameRest(f: Subframe, a: seq<Subframe>, b: seq<Subframe>)
    ensures [f] + a == [f] + b <==> a == b
  {
    assert ([f] + a)[1..] == a && ([f] + b)[1..] == b;
  }

  /** A subframe with more behind it. */
  lemma NextExact(f: Subframe, data: seq<byte>, rest: seq<byte>, more: seq<Subframe>)
    requires more != [] && Announces(data) == (|f.payload| <= 1518) && RoundUp(14 + |f.payload|) < |data|
    requires Announces(data) ==> PayloadSize(data) == |f.payload| && Front(data) == f
    requires data[RoundUp(14 + |f.payload|)..] == rest
    ensures Deaggregated(data) == [f] + more <==> 15 <= |f.payload| <= 1514 && Deaggregated(rest) == more
  {
    if !Announces(data) {
      NotAnnounced(data);
    } else {
      GoesOnExactly(data, |f.payload|);
      if !GoesOn(data) {
        BreaksOff(data);
      } else {
        MovesOn(data);
        SameRest(f, Deaggregated(rest), more);
      }
    }
  }

  lemma FirstAndTail(fs: seq<Subframe>, tail: seq<byte>)
    requires Encodable(fs) && |fs| > 1
    requires var n := 14 + |fs[0].payload|; tail == seq(RoundUp(n) - n, _ => 0) + Aggregate(fs[1..])
    ensures Aggregate(fs) == Body(fs[0]) + tail
    ensures Aggregate(fs)[RoundUp(14 + |fs[0].payload|)..] == Aggregate(fs[1..])
  {
    assert Aggregate(fs) == Body(fs[0]) + tail;
  }

  lemma FirstOfMany(fs: seq<Subframe>)
    requires Encodable(fs) && |fs| > 1
    ensures Deaggregated(Aggregate(fs)) == fs
            <==> 15 <= |fs[0].payload| <= 1514 && Deaggregated(Aggregate(fs[1..])) == fs[1..]
  {
    var n := 14 + |fs[0].payload|;
    var tail := seq(RoundUp(n) - n, _ => 0) + Aggregate(fs[1..]);
    AggregateLength(fs[1..]);
    FirstAndTail(fs, tail);
    BodyInFront(fs[0], tail);
    NextExact(fs[0], Aggregate(fs), Aggregate(fs[1..]), fs[1..]);
    assert fs == [fs[0]] + fs[1..];
  }

  /** Exactly the subframes come out, in order, if and only if their sizes fit. */
  lemma {:induction false} DeaggregationExact(fs: seq<Subframe>)
    requires Encodable(fs)
    ensures Deaggregated(Aggregate(fs)) == fs <==> Fits(fs)
  {
    if |fs| == 1 {
      assert fs == [fs[0]];
      LastExact(fs[0]);
    } else if |fs| > 1 {
      FirstOfMany(fs);
      DeaggregationExact(fs[1..]);
    }
  }
}
