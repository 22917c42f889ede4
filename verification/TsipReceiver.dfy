/**
 * The circular buffer of the GPS receiver: filled by the reading thread,
 * searched and unescaped in place by the processing thread.
 */
module TsipReceiver {
  import opened Basics
  import opened TsipFraming

  /** `n` bytes of the ring from position `start` on. */
  function Linear(ring: seq<byte>, start: nat, n: nat): (r: seq<byte>)
    requires |ring| == 1024
    ensures |r| == n
  {
    seq(n, i requires 0 <= i < n => ring[(start + i) % 1024])
  }

  function Used(start: nat, end: nat): nat
    requires start < 1024 && end < 1024
  {
    if end < start then end + 1024 - start else end - start
  }

  lemma SlotsDiffer(start: nat, i: nat, p: nat)
    requires i < 1024 && p < 1024
    ensures (start + i) % 1024 == (start + p) % 1024 <==> i == p
  {
  }

  /** Writing at offset `p` changes that byte of the linear view and no other. */
  lemma LinearWrite(ring: seq<byte>, start: nat, n: nat, p: nat, v: byte)
    requires |ring| == 1024 && p < n <= 1024
    ensures Linear(ring[(start + p) % 1024 := v], start, n) == Linear(ring, start, n)[p := v]
  {
    var after := Linear(ring[(start + p) % 1024 := v], start, n);
    forall i | 0 <= i < n
      ensures after[i] == Linear(ring, start, n)[p := v][i]
    {
      SlotsDiffer(start, i, p);
    }
  }

  lemma LinearPart(ring: seq<byte>, start: nat, n: nat, lo: nat, hi: nat)
    requires |ring| == 1024 && lo <= hi <= n
    ensures Linear(ring, (start + lo) % 1024, hi - lo) == Linear(ring, start, n)[lo..hi]
  {
  }

  lemma UsedOf(start: nat, lo: nat, hi: nat)
    requires lo <= hi && hi - lo < 1024
    ensures Used((start + lo) % 1024, (start + hi) % 1024) == hi - lo
  {
  }

  lemma SameSlot(start: nat, end: nat, k: nat)
    requires start < 1024 && end < 1024
    ensures (end + k) % 1024 == (start + (Used(start, end) + k)) % 1024
  {
  }

  lemma DropFront(ring: seq<byte>, start: nat, end: nat, e: nat)
    requires |ring| == 1024 && start < 1024 && end < 1024 && e <= Used(start, end)
    ensures var next := (start + e) % 1024;
            && Used(start, next) == e
            && Linear(ring, next, Used(next, end)) == Linear(ring, start, Used(start, end))[e..]
  {
    var n := Used(start, end);
    UsedOf(start, 0, e);
    LinearPart(ring, start, n, e, n);
    SameSlot(start, end, 0);
    UsedOf(start, e, n);
  }

  // ---- unescaping in place ----

  /** The next source offset: one back, or two for an escaped DLE. */
  function StepBack(d: seq<byte>, k: nat): (r: int)
    requires 0 < k < |d|
    ensures k - 2 <= r < k
  {
    if d[k] == DLE && d[k - 1] == DLE then k - 2 else k - 1
  }

  /** The loop on the linear view: source offset `k`, target offset `p`; also where the result starts. */
  function ShiftBack(d: seq<byte>, k: int, p: int): (r: (seq<byte>, int))
    requires -1 <= k <= p - 2 && p < |d|
    ensures |r.0| == |d| && 1 <= r.1 <= p + 1
    decreases p
  {
    if k <= 0 then (d, p + 1)
    else
      var d1 := d[p := d[k]];
      ShiftBack(d1, StepBack(d1, k), p - 1)
  }

  lemma OneMore(r: seq<byte>, d: seq<byte>, first: nat, p: nat)
    requires first <= p < |r| == |d| && r[p..] == d[p..]
    ensures r[first..p + 1] == r[first..p] + [d[p]] && r[p + 1..] == d[p + 1..]
  {
    assert r[p] == r[p..][0] && d[p] == d[p..][0];
    assert r[p + 1..] == r[p..][1..] && d[p + 1..] == d[p..][1..];
  }

  /**
   * The source never catches up with the target, so no byte is overwritten before
   * it is read: the result is the unescaped data as it was, and what follows stays.
   */
  lemma {:induction false} ShiftBackMeaning(c: seq<byte>, d: seq<byte>, k: int, p: int)
    requires -1 <= k <= p - 2 && p < |d| == |c|
    requires forall i :: 0 <= i <= k ==> d[i] == c[i]
    ensures var (r, first) := ShiftBack(d, k, p);
            r[first..p + 1] == Unstuff(c, k + 1) && r[p + 1..] == d[p + 1..]
    decreases p
  {
    if k > 0 {
      var d1 := d[p := d[k]];
      var k1 := StepBack(d1, k);
      assert d1[k] == c[k] && d1[k - 1] == c[k - 1];
      ShiftBackMeaning(c, d1, k1, p - 1);
      var (r, first) := ShiftBack(d1, k1, p - 1);
      OneMore(r, d1, first, p);
      assert d1[p + 1..] == d[p + 1..];
    }
  }

  lemma Unescaped(c: seq<byte>, ring: seq<byte>, start: nat, n: nat, e: nat, k: nat)
    requires |ring| == 1024 && 2 <= e <= n < 1024 && |c| == n && k <= e
    requires (Linear(ring, start, n), k) == ShiftBack(c, e - 3, e - 1)
    ensures var first, end := (start + k) % 1024, (start + e) % 1024;
            && Linear(ring, first, Used(first, end)) == Unstuff(c, e - 2)
            && Linear(ring, start, n)[e..] == c[e..]
  {
    var d := Linear(ring, start, n);
    assert d[k..e] == Unstuff(c, e - 2) && d[e..] == c[e..] by {
      ShiftBackMeaning(c, c, e - 3, e - 1);
    }
    LinearPart(ring, start, n, k, e);
    UsedOf(start, k, e);
  }

  lemma Appended(ring: seq<byte>, after: seq<byte>, start: nat, n: nat, v: byte)
    requires |ring| == 1024 && n < 1024 && after == ring[(start + n) % 1024 := v]
    ensures Linear(after, start, n + 1) == Linear(ring, start, n) + [v]
  {
    LinearWrite(ring, start, n + 1, n, v);
    LinearPart(ring, start, n + 1, 0, n);
    assert Linear(ring, start, n + 1)[..n] == Linear(ring, start, n);
  }

  class GpsReceiver {
    const msg_buf: array<byte>
    var buff_start: nat
    var buff_end: nat

    ghost predicate Valid()
      reads this
    {
      msg_buf.Length == 1024 && buff_start < 1024 && buff_end < 1024
    }

    ghost function Contents(): seq<byte>
      requires Valid()
      reads this, msg_buf
    {
      Linear(msg_buf[..], buff_start, Used(buff_start, buff_end))
    }

    constructor ()
      ensures Valid() && Contents() == []
    {
      msg_buf := new byte[1024](_ => 0);
      buff_start := 0;
      buff_end := 0;
    }

    method Put(pos: nat, v: byte)
      requires Valid()
      modifies msg_buf
      ensures msg_buf[..] == old(msg_buf[..])[pos % 1024 := v]
    {
      msg_buf[pos % 1024] := v;
    }

    method Get(pos: nat, ghost start: nat, ghost n: nat) returns (v: byte)
      requires Valid() && start <= pos < start + n
      ensures v == Linear(msg_buf[..], start, n)[pos - start]
    {
      v := msg_buf[pos % 1024];
    }

    method Set(pos: nat, v: byte, ghost start: nat, ghost n: nat)
      requires Valid() && start <= pos < start + n && n <= 1024
      modifies msg_buf
      ensures Linear(msg_buf[..], start, n) == old(Linear(msg_buf[..], start, n))[pos - start := v]
    {
      LinearWrite(msg_buf[..], start, n, pos - start, v);
      Put(pos, v);
    }

    /** One turn of the copying loop: the byte `k` places behind the end of the data. */
    method CopyByte(v: byte, k: nat)
      requires Valid() && Used(buff_start, buff_end) + k < 1024
      modifies msg_buf
      ensures var n := Used(buff_start, buff_end) + k;
              Linear(msg_buf[..], buff_start, n + 1) == old(Linear(msg_buf[..], buff_start, n)) + [v]
    {
      ghost var ring := msg_buf[..];
      SameSlot(buff_start, buff_end, k);
      Put(buff_end + k, v);
      Appended(ring, msg_buf[..], buff_start, Used(buff_start, buff_end) + k, v);
    }

    /** output_from_gps; false where the program would exit for lack of space. */
    method OutputFromGps(msg: seq<byte>) returns (ok: bool)
      requires Valid()
      modifies this`buff_end, msg_buf
      ensures Valid()
      ensures ok <==> |old(Contents())| + |msg| < 1024
      ensures ok ==> Contents() == old(Contents()) + msg
      ensures !ok ==> Contents() == old(Contents())
    {
      var end := if buff_end < buff_start then buff_end + 1024 else buff_end;
      ok := 1024 - (end - buff_start) > |msg|;
      if ok {
        CopyIn(msg);
        SameSlot(buff_start, buff_end, |msg|);
        UsedOf(buff_start, 0, Used(buff_start, buff_end) + |msg|);
        buff_end := (buff_end + |msg|) % 1024;
      }
    }

    /** The copying loop. */
    method CopyIn(msg: seq<byte>)
      requires Valid() && Used(buff_start, buff_end) + |msg| < 1024
      modifies msg_buf
      ensures Linear(msg_buf[..], buff_start, Used(buff_start, buff_end) + |msg|) == old(Contents()) + msg
    {
      for k := 0 to |msg|
        invariant Linear(msg_buf[..], buff_start, Used(buff_start, buff_end) + k) == old(Contents()) + msg[..k]
      {
        CopyByte(msg[k], k);
        assert old(Contents()) + msg[..k + 1] == (old(Contents()) + msg[..k]) + [msg[k]];
      }
      assert msg[..|msg|] == msg;
    }

    /** The search of lookup_packet for the end of a packet, from offset 0 of the data. */
    method FindEnd(start: nat, end: nat) returns (found: bool, pos: nat)
      requires Valid() && start < 1024 && start <= end < start + 1024
      ensures start <= pos <= end
      ensures var e := PacketEnd(Linear(msg_buf[..], start, end - start), 0, 0);
              e == if found then pos - start else -1
    {
      ghost var c := Linear(msg_buf[..], start, end - start);
      var dle_count := 0;
      found := false;
      pos := start;
      while pos < end && !found
        invariant start <= pos <= end && 0 <= dle_count <= pos - start
        invariant PacketEnd(c, 0, 0) == if found then pos - start else PacketEnd(c, pos - start, dle_count)
      {
        var b := msg_buf[pos % 1024];
        assert b == c[pos - start];
        if b == DLE {
          dle_count := dle_count + 1;
        } else {
          if b == ETX && dle_count % 2 == 1 {
            found := true;
          }
          dle_count := 0;
        }
        pos := pos + 1;
      }
    }

    /** One turn of the unescaping: copies a byte up and steps back over it and its escape. */
    method MoveByte(origin: nat, to: nat, ghost start: nat, ghost n: nat) returns (next: int)
      requires Valid() && start < origin <= to - 2 && to < start + n && n <= 1024
      modifies msg_buf
      ensures var d := old(Linear(msg_buf[..], start, n));
              var k := origin - start;
              && Linear(msg_buf[..], start, n) == d[to - start := d[k]]
              && next - start == StepBack(d[to - start := d[k]], k)
    {
      var b := Get(origin, start, n);
      Set(to, b, start, n);
      var here := Get(origin, start, n);
      var before := Get(origin - 1, start, n);
      next := if here == DLE && before == DLE then origin - 2 else origin - 1;
    }

    /**
     * The unescaping of lookup_packet: shifts the packet that ends at `pos` towards
     * its end, in place and backwards.
     */
    method UnstuffInPlace(start: nat, pos: nat, ghost n: nat) returns (first: nat)
      requires Valid() && start < 1024 && start + 2 <= pos <= start + n && n < 1024
      modifies msg_buf
      ensures var c := old(Linear(msg_buf[..], start, n));
              && start < first <= pos
              && (Linear(msg_buf[..], start, n), first - start) == ShiftBack(c, pos - start - 3, pos - start - 1)
    {
      ghost var c := Linear(msg_buf[..], start, n);
      ghost var d := c;
      var to := pos - 1;
      var origin := to - 2;
      while origin > start
        invariant start - 1 <= origin <= to - 2 < pos - 2
        invariant d == Linear(msg_buf[..], start, n)
        invariant ShiftBack(d, origin - start, to - start) == ShiftBack(c, pos - start - 3, pos - start - 1)
      {
        origin := MoveByte(origin, to, start, n);
        d := Linear(msg_buf[..], start, n);
        to := to - 1;
      }
      first := to + 1;
    }

    /** The second half of lookup_packet: where the unescaped packet ended up. */
    method Unescape(start: nat, pos: nat, ghost n: nat) returns (first: nat, end: nat)
      requires Valid() && start < 1024 && start + 2 <= pos <= start + n && n < 1024
      modifies msg_buf
      ensures first < 1024 && end == pos % 1024
      ensures var c := old(Linear(msg_buf[..], start, n));
              && Linear(msg_buf[..], first, Used(first, end)) == Unstuff(c, pos - start - 2)
              && Linear(msg_buf[..], start, n)[pos - start..] == c[pos - start..]
    {
      ghost var c := Linear(msg_buf[..], start, n);
      end := pos % 1024;
      first := UnstuffInPlace(start, pos, n);
      Unescaped(c, msg_buf[..], start, n, pos - start, first - start);
      first := first % 1024;
    }

    /**
     * lookup_packet on the data of the buffer.  If a packet is found its unescaped
     * bytes lie from `start` to `end`, and the data behind it is untouched.
     */
    method LookupPacket() returns (found: bool, fatal: bool, start: nat, end: nat)
      requires Valid()
      modifies msg_buf
      ensures var was := old(Contents());
              match LookUp(was)
              case Nothing => !found && !fatal && Contents() == was
              case Fatal => !found && fatal && Contents() == was
              case Packet(m, e) =>
                && found && !fatal && start < 1024 && end == (buff_start + e) % 1024
                && Linear(msg_buf[..], start, Used(start, end)) == m
                && Contents()[e..] == was[e..]
    {
      found, fatal, start, end := false, false, buff_start, buff_end;
      if end < start {
        end := end + 1024;
      }
      if end - start < 4 {
        return;
      }
      ghost var was := Contents();
      var head := Get(start, start, end - start);
      if head != DLE {
        fatal := true;
        return;
      }
      var pos;
      found, pos := FindEnd(start, end);
      if !found {
        return;
      }
      start, end := Unescape(start, pos, end - start);
    }

    /**
     * One turn of process_msg as far as the buffer goes: the first message, if
     * there is one, is handed over and its bytes leave the buffer.
     */
    method Poll() returns (r: Lookup)
      requires Valid()
      modifies this`buff_start, msg_buf
      ensures Valid()
      ensures r == LookUp(old(Contents()))
      ensures Contents() == if r.Packet? then old(Contents())[r.end..] else old(Contents())
    {
      var found, fatal, start, end := LookupPacket();
      if fatal {
        r := Fatal;
      } else if !found {
        r := Nothing;
      } else {
        DropFront(msg_buf[..], buff_start, buff_end, LookUp(old(Contents())).end);
        r := Packet(Linear(msg_buf[..], start, Used(start, end)), Used(buff_start, end));
        buff_start := end;
      }
    }

    /** Any interleaving of the two threads on the ring is the run of the framing model. */
    method Serve(es: seq<Event>) returns (handled: seq<Message>, alive: bool)
      requires Valid()
      modifies this`buff_start, this`buff_end, msg_buf
      ensures Valid()
      ensures var r := Run(Receiver(old(Contents()), [], true), es);
              handled == r.handled && alive == r.alive && (alive ==> Contents() == r.buffer)
    {
      handled, alive := [], true;
      ghost var r := Receiver(Contents(), [], true);
      for i := 0 to |es|
        invariant Valid() && handled == r.handled && alive == r.alive && (alive ==> Contents() == r.buffer)
        invariant Run(r, es[i..]) == Run(Receiver(old(Contents()), [], true), es)
      {
        r := Step(r, es[i]);
        assert es[i..][1..] == es[i + 1..];
        if alive {
          match es[i]
          case Feed(chunk) =>
            alive := OutputFromGps(chunk);
          case Poll =>
            var found := Poll();
            if found.Packet? {
              handled := handled + [found.message];
            }
            alive := !found.Fatal?;
        }
      }
    }
  }
}
