/**
 * TSIP framing (gps_time/trimble_lassen_iq/gps_time.c) on byte sequences: what
 * one look at the buffer finds, and what a whole stream of chunks yields.
 */
module TsipFraming {
  import opened Basics

  const DLE: byte := 0x10
  const ETX: byte := 0x03

  /** A message is its id followed by its data, as it is handed to the handlers. */
  type Message = seq<byte>

  // ---- sender ----

  function StuffByte(b: byte): seq<byte> { if b == DLE then [DLE, DLE] else [b] }

  /** The bytes from `k` on, every DLE doubled. */
  function StuffFrom(data: seq<byte>, k: nat): seq<byte>
    requires k <= |data|
    decreases |data| - k
  {
    if k == |data| then [] else StuffByte(data[k]) + StuffFrom(data, k + 1)
  }

  function Stuff(data: seq<byte>): seq<byte> { StuffFrom(data, 0) }

  /** The id may be anything but ETX. */
  predicate Sendable(m: Message) { m != [] && m[0] != ETX }

  function Encode(m: Message): seq<byte>
    requires m != []
  {
    [DLE, m[0]] + Stuff(m[1..]) + [DLE, ETX]
  }

  predicate AllSendable(ms: seq<Message>) {
    ms != [] ==> Sendable(ms[0]) && AllSendable(ms[1..])
  }

  function EncodeAll(ms: seq<Message>): seq<byte>
    requires AllSendable(ms)
  {
    if ms == [] then [] else Encode(ms[0]) + EncodeAll(ms[1..])
  }

  // ---- receiver ----

  datatype Lookup = Nothing | Fatal | Packet(message: Message, end: nat)

  /** Just after the first ETX that follows an odd run of DLEs, or -1. */
  function PacketEnd(c: seq<byte>, i: nat, dles: nat): (e: int)
    requires i <= |c| && dles <= i
    ensures e == -1 || (i < e <= |c| && e >= 2)
    decreases |c| - i
  {
    if i == |c| then -1
    else if c[i] == DLE then PacketEnd(c, i + 1, dles + 1)
    else if c[i] == ETX && dles % 2 == 1 then i + 1
    else PacketEnd(c, i + 1, 0)
  }

  /** One byte back, or two for a doubled DLE. */
  function Before(c: seq<byte>, n: nat): (r: nat)
    requires 2 <= n <= |c|
    ensures r < n
  {
    if c[n - 1] == DLE && c[n - 2] == DLE then n - 2 else n - 1
  }

  /** The bytes 1..n of `c` with doubled DLEs made single, worked out from the back. */
  function Unstuff(c: seq<byte>, n: nat): (r: Message)
    requires n <= |c|
    ensures |r| <= if n == 0 then 0 else n - 1
  {
    if n <= 1 then [] else Unstuff(c, Before(c, n)) + [c[n - 1]]
  }

  function LookUp(c: seq<byte>): (r: Lookup)
    ensures r.Packet? ==> 2 <= r.end <= |c|
  {
    if |c| < 4 then Nothing
    else if c[0] != DLE then Fatal
    else
      var e := PacketEnd(c, 0, 0);
      if e == -1 then Nothing else Packet(Unstuff(c, e - 2), e)
  }

  /** The messages found by looking until nothing is found; `ok` is false if the program quit. */
  datatype Drained = Drained(messages: seq<Message>, rest: seq<byte>, ok: bool)

  function Drain(c: seq<byte>): Drained
    decreases |c|
  {
    match LookUp(c)
    case Nothing => Drained([], c, true)
    case Fatal => Drained([], c, false)
    case Packet(m, e) =>
      var d := Drain(c[e..]);
      d.(messages := [m] + d.messages)
  }

  // ---- one message ----

  /** The first `k` bytes, every DLE doubled. */
  function StuffUpTo(data: seq<byte>, k: nat): seq<byte>
    requires k <= |data|
  {
    if k == 0 then [] else StuffUpTo(data, k - 1) + StuffByte(data[k - 1])
  }

  lemma {:induction false} StuffSplit(data: seq<byte>, k: nat)
    requires k <= |data|
    ensures Stuff(data) == StuffUpTo(data, k) + StuffFrom(data, k)
  {
    if k == 0 {
      assert [] + StuffFrom(data, 0) == StuffFrom(data, 0);
    } else {
      StuffSplit(data, k - 1);
      Associate(StuffUpTo(data, k - 1), StuffByte(data[k - 1]), StuffFrom(data, k));
    }
  }

  lemma AtFront(c: seq<byte>, i: nat, first: seq<byte>, rest: seq<byte>)
    requires i <= |c| && c[i..] == first + rest
    ensures i + |first| <= |c| && c[i..i + |first|] == first && c[i + |first|..] == rest
  {
    var here := c[i..];
    assert c[i..i + |first|] == here[..|first|];
    assert c[i + |first|..] == here[|first|..];
  }

  lemma AtBack(c: seq<byte>, n: nat, front: seq<byte>, last: seq<byte>)
    requires n <= |c| && c[..n] == front + last
    ensures c[..|front|] == front && c[|front|..n] == last
  {
    var body := c[..n];
    assert c[..|front|] == body[..|front|];
    assert c[|front|..n] == body[|front|..];
  }

  /** The search goes over one stuffed byte. */
  lemma EndAfterByte(c: seq<byte>, i: nat, dles: nat, b: byte)
    requires i + |StuffByte(b)| <= |c| && dles <= i && dles % 2 == 0
    requires c[i..i + |StuffByte(b)|] == StuffByte(b)
    ensures PacketEnd(c, i, dles) == PacketEnd(c, i + |StuffByte(b)|, if b == DLE then dles + 2 else 0)
  {
    var here := c[i..i + |StuffByte(b)|];
    assert c[i] == here[0];
    if b == DLE {
      assert c[i + 1] == here[1];
      assert PacketEnd(c, i + 1, dles + 1) == PacketEnd(c, i + 2, dles + 2);
    }
  }

  lemma EndAtTrailer(c: seq<byte>, i: nat, dles: nat, tail: seq<byte>)
    requires i <= |c| && dles <= i && dles % 2 == 0 && c[i..] == [DLE, ETX] + tail
    ensures PacketEnd(c, i, dles) == i + 2
  {
    assert c[i] == c[i..][0] && c[i + 1] == c[i..][1];
    assert PacketEnd(c, i + 1, dles + 1) == i + 2;
  }

  /** After an even run of DLEs the end of stuffed data is the next DLE ETX that is not data. */
  lemma {:induction false} EndOfStuffed(c: seq<byte>, i: nat, dles: nat, data: seq<byte>, k: nat, tail: seq<byte>)
    requires i <= |c| && dles <= i && dles % 2 == 0 && k <= |data|
    requires c[i..] == StuffFrom(data, k) + ([DLE, ETX] + tail)
    ensures PacketEnd(c, i, dles) == i + |StuffFrom(data, k)| + 2
    decreases |data| - k
  {
    if k == |data| {
      assert [] + ([DLE, ETX] + tail) == [DLE, ETX] + tail;
      EndAtTrailer(c, i, dles, tail);
    } else {
      var b, rest := data[k], StuffFrom(data, k + 1) + ([DLE, ETX] + tail);
      Associate(StuffByte(b), StuffFrom(data, k + 1), [DLE, ETX] + tail);
      AtFront(c, i, StuffByte(b), rest);
      EndAfterByte(c, i, dles, b);
      EndOfStuffed(c, i + |StuffByte(b)|, if b == DLE then dles + 2 else 0, data, k + 1, tail);
    }
  }

  lemma UnstuffLast(c: seq<byte>, n: nat, b: byte)
    requires 2 <= n && n + |StuffByte(b)| <= |c| && c[n..n + |StuffByte(b)|] == StuffByte(b)
    ensures Unstuff(c, n + |StuffByte(b)|) == Unstuff(c, n) + [b]
  {
    var tail := c[n..n + |StuffByte(b)|];
    assert tail[0] == c[n];
    if b == DLE {
      assert tail[1] == c[n + 1];
    }
  }

  lemma UnstuffId(c: seq<byte>, id: byte)
    requires |c| >= 2 && c[..2] == [DLE, id]
    ensures Unstuff(c, 2) == [id]
  {
    assert c[0] == c[..2][0] && c[1] == c[..2][1];
  }

  lemma UnstuffNext(c: seq<byte>, front: seq<byte>, b: byte, n: nat)
    requires 2 <= |front| && n == |front| + |StuffByte(b)| <= |c| && c[..n] == front + StuffByte(b)
    ensures c[..|front|] == front && Unstuff(c, n) == Unstuff(c, |front|) + [b]
  {
    AtBack(c, n, front, StuffByte(b));
    UnstuffLast(c, |front|, b);
  }

  lemma OneMoreByte(id: byte, data: seq<byte>, k: nat)
    requires 0 < k <= |data|
    ensures ([id] + data[..k - 1]) + [data[k - 1]] == [id] + data[..k]
  {
  }

  lemma {:induction false} UnstuffStuffed(c: seq<byte>, id: byte, data: seq<byte>, k: nat, n: nat)
    requires k <= |data| && n == 2 + |StuffUpTo(data, k)| <= |c| && c[..n] == [DLE, id] + StuffUpTo(data, k)
    ensures Unstuff(c, n) == [id] + data[..k]
    decreases k
  {
    if k == 0 {
      UnstuffId(c, id);
      assert [id] + data[..0] == [id];
    } else {
      var b, front := data[k - 1], [DLE, id] + StuffUpTo(data, k - 1);
      Associate([DLE, id], StuffUpTo(data, k - 1), StuffByte(b));
      UnstuffNext(c, front, b, n);
      UnstuffStuffed(c, id, data, k - 1, |front|);
      OneMoreByte(id, data, k);
    }
  }

  /** Where the parts of an encoded message lie. */
  lemma EncodedShape(m: Message, tail: seq<byte>)
    requires m != []
    ensures var c, data := Encode(m) + tail, Stuff(m[1..]);
            && |Encode(m)| == |data| + 4 && c[0] == DLE && c[1] == m[0]
            && c[2..] == data + ([DLE, ETX] + tail)
            && c[..2 + |data|] == [DLE, m[0]] + data
            && c[|Encode(m)|..] == tail
  {
  }

  /** An id ETX ends the packet at once. */
  lemma EtxEnds(c: seq<byte>)
    requires |c| >= 4 && c[0] == DLE && c[1] == ETX
    ensures LookUp(c) == Packet([], 2)
  {
    assert PacketEnd(c, 1, 1) == 2 && PacketEnd(c, 0, 0) == 2;
  }

  lemma EncodedEnd(m: Message, tail: seq<byte>)
    requires Sendable(m)
    ensures PacketEnd(Encode(m) + tail, 0, 0) == |Encode(m)|
  {
    var c, data := Encode(m) + tail, m[1..];
    EncodedShape(m, tail);
    var dles := if m[0] == DLE then 2 else 0;
    assert PacketEnd(c, 0, 0) == PacketEnd(c, 2, dles);
    EndOfStuffed(c, 2, dles, data, 0, tail);
  }

  lemma EncodedBytes(m: Message, tail: seq<byte>)
    requires m != []
    ensures Unstuff(Encode(m) + tail, |Encode(m)| - 2) == m
  {
    var c, data := Encode(m) + tail, m[1..];
    EncodedShape(m, tail);
    StuffSplit(data, |data|);
    assert Stuff(data) == StuffUpTo(data, |data|);
    UnstuffStuffed(c, m[0], data, |data|, 2 + |Stuff(data)|);
    assert [m[0]] + data[..|data|] == m;
  }

  /** A message is found as it was sent, whatever follows it, exactly when its id is not ETX. */
  lemma LookUpEncoded(m: Message, tail: seq<byte>)
    requires m != []
    ensures LookUp(Encode(m) + tail) == Packet(m, |Encode(m)|) <==> Sendable(m)
  {
    EncodedShape(m, tail);
    if m[0] == ETX {
      EtxEnds(Encode(m) + tail);
    } else {
      EncodedEnd(m, tail);
      EncodedBytes(m, tail);
    }
  }

  // ---- a whole stream ----

  /** Decoding inverts encoding for every list of messages. */
  lemma {:induction false} RoundTrip(ms: seq<Message>)
    requires AllSendable(ms)
    ensures Drain(EncodeAll(ms)) == Drained(ms, [], true)
  {
    if ms != [] {
      LookUpEncoded(ms[0], EncodeAll(ms[1..]));
      EncodedShape(ms[0], EncodeAll(ms[1..]));
      RoundTrip(ms[1..]);
      assert [ms[0]] + ms[1..] == ms;
    }
  }

  lemma {:induction false} PacketEndExtends(c: seq<byte>, x: seq<byte>, i: nat, dles: nat)
    requires i <= |c| && dles <= i && PacketEnd(c, i, dles) != -1
    ensures PacketEnd(c + x, i, dles) == PacketEnd(c, i, dles)
    decreases |c| - i
  {
    if c[i] == DLE {
      PacketEndExtends(c, x, i + 1, dles + 1);
    } else if !(c[i] == ETX && dles % 2 == 1) {
      PacketEndExtends(c, x, i + 1, 0);
    }
  }

  lemma {:induction false} UnstuffExtends(c: seq<byte>, x: seq<byte>, n: nat)
    requires n <= |c|
    ensures Unstuff(c + x, n) == Unstuff(c, n)
  {
    if n > 1 {
      assert Before(c + x, n) == Before(c, n);
      UnstuffExtends(c, x, Before(c, n));
    }
  }

  /** More bytes never change what has been found. */
  lemma LookUpExtends(c: seq<byte>, x: seq<byte>)
    requires !LookUp(c).Nothing?
    ensures LookUp(c + x) == LookUp(c)
  {
    if c[0] == DLE {
      PacketEndExtends(c, x, 0, 0);
      UnstuffExtends(c, x, PacketEnd(c, 0, 0) - 2);
    }
  }

  /** Draining on after `x` arrived: if the program has not quit, what is left is looked at again. */
  function DrainOn(d: Drained, x: seq<byte>): Drained {
    if d.ok then
      var later := Drain(d.rest + x);
      later.(messages := d.messages + later.messages)
    else d.(rest := d.rest + x)
  }

  lemma DrainOnAfter(m: Message, d: Drained, x: seq<byte>)
    ensures DrainOn(d.(messages := [m] + d.messages), x)
            == DrainOn(d, x).(messages := [m] + DrainOn(d, x).messages)
  {
    var later := Drain(d.rest + x).messages;
    assert ([m] + d.messages) + later == [m] + (d.messages + later);
  }

  /**
   * Draining early and again after more bytes is draining once: the messages do
   * not depend on where the stream is cut, for every byte stream.
   */
  lemma {:induction false} DrainExtends(c: seq<byte>, x: seq<byte>)
    ensures Drain(c + x) == DrainOn(Drain(c), x)
    decreases |c|
  {
    match LookUp(c)
    case Nothing =>
      assert [] + Drain(c + x).messages == Drain(c + x).messages;
    case Fatal =>
      LookUpExtends(c, x);
    case Packet(m, e) =>
      assert LookUp(c + x) == Packet(m, e) by { LookUpExtends(c, x); }
      assert (c + x)[e..] == c[e..] + x;
      DrainExtends(c[e..], x);
      DrainOnAfter(m, Drain(c[e..]), x);
  }

  // ---- every interleaving of the reading and the processing thread ----

  datatype Event = Feed(chunk: seq<byte>) | Poll

  /** The buffer, the messages handled so far, and whether the program still runs. */
  datatype Receiver = Receiver(buffer: seq<byte>, handled: seq<Message>, alive: bool)

  const MSG_BUF_SIZE: int := 1024

  function Step(r: Receiver, e: Event): Receiver {
    if !r.alive then r
    else
      match e
      case Feed(chunk) =>
        if |r.buffer| + |chunk| < MSG_BUF_SIZE then r.(buffer := r.buffer + chunk) else r.(alive := false)
      case Poll =>
        match LookUp(r.buffer)
        case Nothing => r
        case Fatal => r.(alive := false)
        case Packet(m, e) => r.(buffer := r.buffer[e..], handled := r.handled + [m])
  }

  function Run(r: Receiver, es: seq<Event>): Receiver
    decreases |es|
  {
    if es == [] then r else Run(Step(r, es[0]), es[1..])
  }

  function Fed(es: seq<Event>): seq<byte> {
    if es == [] then [] else (if es[0].Feed? then es[0].chunk else []) + Fed(es[1..])
  }

  /** What the receiver will have handled once `more` is fed and everything is looked at. */
  function Outlook(r: Receiver, more: seq<byte>): Drained {
    var d := Drain(r.buffer + more);
    d.(messages := r.handled + d.messages)
  }

  lemma StepKeepsOutlook(r: Receiver, e: Event, more: seq<byte>)
    requires Step(r, e).alive
    ensures Outlook(Step(r, e), more) == Outlook(r, (if e.Feed? then e.chunk else []) + more)
  {
    match e
    case Feed(chunk) =>
      assert (r.buffer + chunk) + more == r.buffer + (chunk + more);
    case Poll =>
      assert [] + more == more;
      var l := LookUp(r.buffer);
      if l.Packet? {
        LookUpExtends(r.buffer, more);
        assert (r.buffer + more)[l.end..] == r.buffer[l.end..] + more;
        var rest := Drain(r.buffer[l.end..] + more).messages;
        assert (r.handled + [l.message]) + rest == r.handled + ([l.message] + rest);
      }
  }

  lemma {:induction false} DeadStaysDead(r: Receiver, es: seq<Event>)
    requires !r.alive
    ensures !Run(r, es).alive
    decreases |es|
  {
    if es != [] {
      DeadStaysDead(Step(r, es[0]), es[1..]);
    }
  }

  lemma {:induction false} RunKeepsOutlook(r: Receiver, es: seq<Event>)
    requires Run(r, es).alive
    ensures Outlook(Run(r, es), []) == Outlook(r, Fed(es))
    decreases |es|
  {
    if es != [] {
      var s := Step(r, es[0]);
      if !s.alive {
        DeadStaysDead(s, es[1..]);
      }
      RunKeepsOutlook(s, es[1..]);
      StepKeepsOutlook(r, es[0], Fed(es[1..]));
    }
  }

  /**
   * However the encoded messages are cut into chunks and whenever the processing
   * thread looks, as long as no chunk overfills the buffer: once everything is fed
   * and a look finds nothing, exactly the messages sent have been handled, in order.
   */
  lemma DeliversExactly(ms: seq<Message>, es: seq<Event>)
    requires AllSendable(ms)
    requires Fed(es) == EncodeAll(ms)
    requires var r := Run(Receiver([], [], true), es); r.alive && LookUp(r.buffer).Nothing?
    ensures var r := Run(Receiver([], [], true), es); r.handled == ms && r.buffer == []
  {
    var r := Run(Receiver([], [], true), es);
    RunKeepsOutlook(Receiver([], [], true), es);
    assert [] + Fed(es) == Fed(es) && r.buffer + [] == r.buffer;
    RoundTrip(ms);
    assert [] + ms == ms && r.handled + [] == r.handled;
  }

  /** At any moment the messages handled are a prefix of those sent, and the program runs on. */
  lemma HandledIsPrefix(ms: seq<Message>, es: seq<Event>, unsent: seq<byte>)
    requires AllSendable(ms)
    requires Fed(es) + unsent == EncodeAll(ms)
    requires Run(Receiver([], [], true), es).alive
    ensures var r := Run(Receiver([], [], true), es);
            r.handled <= ms && !LookUp(r.buffer).Fatal?
  {
    var r := Run(Receiver([], [], true), es);
    RunKeepsOutlook(Receiver([], [], true), es);
    assert [] + Fed(es) == Fed(es) && r.buffer + [] == r.buffer;
    RoundTrip(ms);
    DrainExtends(Fed(es), unsent);
    assert r.handled <= Outlook(r, []).messages == [] + Drain(Fed(es)).messages;
  }

  /** A frame whose data holds both framing bytes, byte by byte. */
  lemma FrameExample(m: Message)
    requires m == [0x8F, 0x10, 0x03, 0xAB]
    ensures Encode(m) == [0x10, 0x8F, 0x10, 0x10, 0x03, 0xAB, 0x10, 0x03]
  {
    var d := m[1..];
    assert StuffFrom(d, 2) == [0xAB] + StuffFrom(d, 3) == [0xAB];
    assert StuffFrom(d, 1) == [0x03] + StuffFrom(d, 2) == [0x03, 0xAB];
    assert Stuff(d) == [0x10, 0x10] + StuffFrom(d, 1) == [0x10, 0x10, 0x03, 0xAB];
  }
}
