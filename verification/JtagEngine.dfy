/**
 * The bit-banged scans of the ispVM engine (ts7500ctl/ispvm.c): the TAP walker,
 * the bypass of other devices, both versions of the send, and the SIR and SDR
 * commands built from them.
 */
module JtagEngine {
  import opened Basics
  import opened JtagPort

  /** The device once the first `n` bits of the data are clocked in, the other pins held. */
  function Sent(d: Device, p: Pins, data: seq<byte>, n: nat): Device
    requires n <= 8 * |data|
  {
    if n == 0 then d
    else Clock(Sent(d, p, data, n - 1), p.(tdi := BitOf(data, n - 1), tck := true))
  }

  /** In a Shift state with TMS low, exactly these bits are shifted in. */
  lemma {:induction false} SentShift(d: Device, p: Pins, data: seq<byte>, n: nat)
    requires n <= 8 * |data| && Shifting(d.tap) && !p.tms
    ensures Sent(d, p, data, n).tap == d.tap
    ensures Sent(d, p, data, n).shifted == d.shifted + Bits(data, n)
  {
    if n > 0 {
      SentShift(d, p, data, n - 1);
      assert Bits(data, n) == Bits(data, n - 1) + [BitOf(data, n - 1)];
    }
  }

  /** Header or trailer bits for the other devices of the chain. */
  type Amble = a: AmbleData | a.n <= 8 * |a.data| witness AmbleData([], 0)
  datatype AmbleData = AmbleData(data: seq<byte>, n: nat)

  function AmbleBits(a: Amble): seq<bool> { Bits(a.data, a.n) }

  lemma CascadeBits(start: seq<bool>, first: seq<bool>, rest: seq<bool>, tail: seq<bool>)
    ensures ((start + (first + [])) + []) + (rest + tail) == start + ((first + rest) + tail)
    ensures start + (first + tail) == start + ((first + []) + tail)
  {
  }

  /** How many of the first `n` bits the device got wrong where the mask is set. */
  function Mismatches(expected: seq<byte>, mask: seq<byte>, tdo: seq<bool>, n: nat): nat
    requires n <= |tdo| && n <= 8 * |expected| && n <= 8 * |mask|
  {
    if n == 0 then 0
    else Mismatches(expected, mask, tdo, n - 1)
         + if BitOf(mask, n - 1) && tdo[n - 1] != BitOf(expected, n - 1) then 1 else 0
  }

  /** A verification passes exactly when every masked bit came out as expected. */
  lemma {:induction false} NoMismatch(expected: seq<byte>, mask: seq<byte>, tdo: seq<bool>, n: nat)
    requires n <= |tdo| && n <= 8 * |expected| && n <= 8 * |mask|
    ensures Mismatches(expected, mask, tdo, n) == 0
            <==> forall i :: 0 <= i < n && BitOf(mask, i) ==> tdo[i] == BitOf(expected, i)
  {
    if n > 0 {
      NoMismatch(expected, mask, tdo, n - 1);
    }
  }

  /** Whether a scan only sends, or also compares what comes out. */
  datatype Check = Unchecked | Against(expected: seq<byte>, mask: seq<byte>, tdo: seq<bool>)

  /** The data of one SIR or SDR. */
  datatype ScanData = ScanData(data: seq<byte>, n: nat, check: Check) {
    predicate Valid() {
      1 <= n <= 8 * |data|
      && (check.Against? ==> |check.tdo| == n && |check.expected| == |check.mask| == |data|)
    }
  }

  type Scan = f: ScanData | f.Valid() witness ScanData([0], 1, Unchecked)

  function ScanBits(f: Scan): seq<bool> { Bits(f.data, f.n) }

  function ScanErrors(f: Scan): nat {
    if f.check.Unchecked? then 0 else Mismatches(f.check.expected, f.check.mask, f.check.tdo, f.n)
  }

  function FrameBits(frames: seq<Scan>): seq<bool> {
    if frames == [] then [] else ScanBits(frames[0]) + FrameBits(frames[1..])
  }

  function FrameErrors(frames: seq<Scan>): nat {
    if frames == [] then 0 else ScanErrors(frames[0]) + FrameErrors(frames[1..])
  }

  predicate Supported(cur: State, next: State) {
    exists i :: 0 <= i < |TABLE| && TABLE[i].cur == cur && TABLE[i].next == next
  }

  lemma FixedRows()
    ensures Supported(IRPAUSE, SHIFTIR) && Supported(DRPAUSE, SHIFTDR)
  {
    assert TABLE[18] == Transition(IRPAUSE, SHIFTIR, 0x80, 2);
    assert TABLE[14] == Transition(DRPAUSE, SHIFTDR, 0x80, 2);
  }

  lemma NoShiftInto(cur: State, next: State)
    requires cur == next || Supported(cur, next)
    requires next == SHIFTIR || next == SHIFTDR
    ensures cur == next || !Shifting(TapOf(cur))
  {
  }

  // ---- the current byte of the two send loops ----

  /** The byte to load next, before bit `i`. */
  function NextByte(i: nat): nat { (i + 7) / 8 }

  /** The byte the slow loops hold before bit `i`: that of the bit before. */
  function Held(data: seq<byte>, i: nat): byte
    requires data != [] && i <= 8 * |data|
  {
    if i == 0 then data[0] else data[(i - 1) / 8]
  }

  method Load(data: seq<byte>, i: nat, cur: byte, index: nat) returns (next: byte, nextIndex: nat)
    requires i < 8 * |data| && cur == Held(data, i) && index == NextByte(i)
    ensures BitAt(next, i % 8) == BitOf(data, i)
    ensures next == Held(data, i + 1) && nextIndex == NextByte(i + 1)
  {
    next, nextIndex := cur, index;
    if i % 8 == 0 {
      next := data[index];
      nextIndex := index + 1;
    }
  }

  /** Counts the level found on TDO before bit `i` if it is wrong. */
  method CompareBit(expected: seq<byte>, mask: seq<byte>, tdo: seq<bool>, i: nat,
                    exp: byte, msk: byte, index: nat, errors: nat)
    returns (nextExp: byte, nextMsk: byte, count: nat)
    requires i < |tdo| && i < 8 * |expected| && i < 8 * |mask|
    requires exp == Held(expected, i) && msk == Held(mask, i) && index == NextByte(i)
    requires errors == Mismatches(expected, mask, tdo, i)
    ensures nextExp == Held(expected, i + 1) && nextMsk == Held(mask, i + 1)
    ensures count == Mismatches(expected, mask, tdo, i + 1)
  {
    var next;
    nextExp, next := Load(expected, i, exp, index);
    nextMsk, next := Load(mask, i, msk, index);
    count := errors;
    if BitAt(nextMsk, i % 8) && tdo[i] != BitAt(nextExp, i % 8) {
      count := count + 1;
    }
  }

  /** `b` shifted left `k` times by one. */
  function ShiftedBy(b: byte, k: nat): byte {
    if k == 0 then b else Doubled(ShiftedBy(b, k - 1))
  }

  lemma {:induction false} ShiftedByBits(b: byte, k: nat, j: nat)
    ensures BitAt(ShiftedBy(b, k), j) == BitAt(b, k + j)
    decreases k
  {
    if k > 0 {
      ShiftedByBits(b, k - 1, j + 1);
    }
  }

  /** The fast loop holds the same byte shifted left by the bits already sent. */
  function HeldShifted(data: seq<byte>, i: nat): byte
    requires data != [] && i <= 8 * |data|
  {
    if i == 0 then data[0] else ShiftedBy(data[(i - 1) / 8], (i - 1) % 8 + 1)
  }

  method LoadShifted(data: seq<byte>, i: nat, cur: byte, ptr: nat) returns (next: byte, nextPtr: nat)
    requires i < 8 * |data| && cur == HeldShifted(data, i) && ptr == NextByte(i)
    ensures BitAt(next, 0) == BitOf(data, i)
    ensures Doubled(next) == HeldShifted(data, i + 1) && nextPtr == NextByte(i + 1)
  {
    next, nextPtr := cur, ptr;
    if i % 8 == 0 {
      next := data[ptr];
      nextPtr := ptr + 1;
    }
    assert next == ShiftedBy(data[i / 8], i % 8);
    ShiftedByBits(data[i / 8], i % 8, 0);
  }

  class Engine {
    var gpiostate: Pins
    var reg: Pins
    var dev: Device
    var state: State
    var cascade: bool

    /** Between operations the register shows the shadow copy and TCK is low. */
    ghost predicate Quiet()
      reads this
    {
      reg == gpiostate && !gpiostate.tck
    }

    /** The tracked state is the state of the TAP, and TMS is low. */
    ghost predicate Synced()
      reads this
    {
      Quiet() && dev.tap == TapOf(state) && !gpiostate.tms
    }

    /** The port as it is found, whatever state the TAP is in. */
    constructor (pins: Pins, device: Device)
      requires !pins.tck
      ensures Quiet() && state == RESET && gpiostate == pins && dev == device && !cascade
    {
      gpiostate, reg, dev, state, cascade := pins, pins, device, RESET, false;
    }

    method WriteRegister(v: Pins)
      modifies this`reg, this`dev
      ensures reg == v && dev == Observe(old(dev), old(reg), v)
    {
      dev := Observe(dev, reg, v);
      reg := v;
    }

    method WriteTdi(bit: bool)
      requires Quiet()
      modifies this`gpiostate, this`reg, this`dev
      ensures Quiet() && gpiostate == old(gpiostate).(tdi := bit) && dev == old(dev)
    {
      gpiostate := gpiostate.(tdi := bit);
      WriteRegister(gpiostate);
    }

    method WriteTms(bit: bool)
      requires Quiet()
      modifies this`gpiostate, this`reg, this`dev
      ensures Quiet() && gpiostate == old(gpiostate).(tms := bit) && dev == old(dev)
    {
      gpiostate := gpiostate.(tms := bit);
      WriteRegister(gpiostate);
    }

    method Sclock()
      requires Quiet()
      modifies this`reg, this`dev
      ensures Quiet() && dev == Clock(old(dev), gpiostate.(tck := true))
    {
      WriteRegister(gpiostate.(tck := true));
      WriteRegister(gpiostate);
    }

    /** One turn of the slow loops: loads the next byte if need be and puts its bit on TDI. */
    method PutBit(data: seq<byte>, i: nat, cur: byte, index: nat, clocked: bool, ghost d: Device, ghost p: Pins)
      returns (next: byte, nextIndex: nat)
      requires Quiet() && i < 8 * |data| && cur == Held(data, i) && index == NextByte(i)
      requires gpiostate == p.(tdi := gpiostate.tdi) && dev == Sent(d, p, data, i)
      modifies this`gpiostate, this`reg, this`dev
      ensures Quiet() && gpiostate == p.(tdi := BitOf(data, i))
      ensures dev == Sent(d, p, data, if clocked then i + 1 else i)
      ensures next == Held(data, i + 1) && nextIndex == NextByte(i + 1)
    {
      next, nextIndex := Load(data, i, cur, index);
      WriteTdi(BitAt(next, i % 8));
      if clocked {
        Sclock();
      }
    }

    /** The loop of ispVMBypass and of the slow ispVMSend: the last bit is left on TDI. */
    method SendAllButLast(data: seq<byte>, n: nat)
      requires Quiet() && 1 <= n <= 8 * |data|
      modifies this`gpiostate, this`reg, this`dev
      ensures Quiet() && gpiostate == old(gpiostate).(tdi := BitOf(data, n - 1))
      ensures dev == Sent(old(dev), old(gpiostate), data, n - 1)
    {
      var cur, index := data[0], 0;
      for i := 0 to n - 1
        invariant Quiet() && gpiostate == old(gpiostate).(tdi := gpiostate.tdi)
        invariant cur == Held(data, i) && index == NextByte(i)
        invariant dev == Sent(old(dev), old(gpiostate), data, i)
      {
        cur, index := PutBit(data, i, cur, index, true, old(dev), old(gpiostate));
      }
      cur, index := PutBit(data, n - 1, cur, index, false, old(dev), old(gpiostate));
    }

    /** The slow ispVMSend. */
    method SendSlow(data: seq<byte>, n: nat)
      requires Quiet() && 1 <= n <= 8 * |data|
      modifies this`gpiostate, this`reg, this`dev
      ensures Quiet() && gpiostate == old(gpiostate).(tdi := BitOf(data, n - 1))
      ensures dev == Sent(old(dev), old(gpiostate), data, if cascade then n else n - 1)
    {
      SendAllButLast(data, n);
      if cascade {
        Sclock();
      }
    }

    /** writePort_fast on a local copy of the pins. */
    method WriteTdiFast(pins: Pins, bit: bool) returns (v: Pins)
      requires reg == pins && !pins.tck
      modifies this`reg, this`dev
      ensures v == pins.(tdi := bit) && reg == v && dev == old(dev)
    {
      v := pins.(tdi := bit);
      if v != pins {
        WriteRegister(v);
      }
    }

    method SclockFast(pins: Pins)
      requires reg == pins && !pins.tck
      modifies this`reg, this`dev
      ensures reg == pins && dev == Clock(old(dev), pins.(tck := true))
    {
      WriteRegister(pins.(tck := true));
      WriteRegister(pins);
    }

    /** One turn of the fast loop. */
    method SendBitFast(data: seq<byte>, i: nat, pins: Pins, cur: byte, ptr: nat, ghost d: Device)
      returns (v: Pins, next: byte, nextPtr: nat)
      requires reg == pins == gpiostate.(tdi := pins.tdi) && !pins.tck
      requires i < 8 * |data| && cur == HeldShifted(data, i) && ptr == NextByte(i)
      requires dev == Sent(d, gpiostate, data, i)
      modifies this`reg, this`dev
      ensures reg == v == pins.(tdi := v.tdi)
      ensures dev == Sent(d, gpiostate, data, i + 1)
      ensures next == HeldShifted(data, i + 1) && nextPtr == NextByte(i + 1)
    {
      next, nextPtr := LoadShifted(data, i, cur, ptr);
      v := WriteTdiFast(pins, BitAt(next, 0));
      next := Doubled(next);
      SclockFast(v);
    }

    /** The loop of the fast ispVMSend. */
    method SendAllButLastFast(data: seq<byte>, n: nat) returns (pins: Pins, cur: byte, ptr: nat)
      requires Quiet() && 1 <= n <= 8 * |data|
      modifies this`reg, this`dev
      ensures reg == pins == gpiostate.(tdi := pins.tdi)
      ensures cur == HeldShifted(data, n - 1) && ptr == NextByte(n - 1)
      ensures dev == Sent(old(dev), gpiostate, data, n - 1)
    {
      pins := gpiostate;
      cur, ptr := data[0], 0;
      for i := 0 to n - 1
        invariant reg == pins == gpiostate.(tdi := pins.tdi)
        invariant cur == HeldShifted(data, i) && ptr == NextByte(i)
        invariant dev == Sent(old(dev), gpiostate, data, i)
      {
        pins, cur, ptr := SendBitFast(data, i, pins, cur, ptr, old(dev));
      }
    }

    /** The fast ispVMSend: skips writes that change nothing and shifts the byte in place. */
    method SendFast(data: seq<byte>, n: nat)
      requires Quiet() && 1 <= n <= 8 * |data|
      modifies this`gpiostate, this`reg, this`dev
      ensures Quiet() && gpiostate == old(gpiostate).(tdi := BitOf(data, n - 1))
      ensures dev == Sent(old(dev), old(gpiostate), data, if cascade then n else n - 1)
    {
      var pins, cur, ptr := SendAllButLastFast(data, n);
      cur, ptr := LoadShifted(data, n - 1, cur, ptr);
      pins := WriteTdiFast(pins, BitAt(cur, 0));
      if cascade {
        SclockFast(pins);
      }
      gpiostate := pins;
    }

    /** ispVMSend in a Shift state: what is shifted, and what is left on TDI. */
    method Send(data: seq<byte>, n: nat)
      requires Synced() && Shifting(dev.tap) && 1 <= n <= 8 * |data|
      modifies this`gpiostate, this`reg, this`dev
      ensures Synced()
      ensures cascade ==> dev.shifted == old(dev.shifted) + Bits(data, n)
      ensures !cascade ==> dev.shifted + [gpiostate.tdi] == old(dev.shifted) + Bits(data, n)
    {
      SentShift(dev, gpiostate, data, if cascade then n else n - 1);
      SendFast(data, n);
      assert Bits(data, n) == Bits(data, n - 1) + [BitOf(data, n - 1)];
    }

    /** One turn of the loop of ispVMRead. */
    method ReadBit(data: seq<byte>, expected: seq<byte>, mask: seq<byte>, tdo: seq<bool>, i: nat,
                   cur: byte, exp: byte, msk: byte, index: nat, errors: nat, clocked: bool,
                   ghost d: Device, ghost p: Pins)
      returns (nextCur: byte, nextExp: byte, nextMsk: byte, nextIndex: nat, count: nat)
      requires Quiet() && i < |tdo| <= 8 * |data| && |expected| == |mask| == |data|
      requires cur == Held(data, i) && exp == Held(expected, i) && msk == Held(mask, i) && index == NextByte(i)
      requires errors == Mismatches(expected, mask, tdo, i)
      requires gpiostate == p.(tdi := gpiostate.tdi) && dev == Sent(d, p, data, i)
      modifies this`gpiostate, this`reg, this`dev
      ensures Quiet() && gpiostate == p.(tdi := BitOf(data, i))
      ensures nextCur == Held(data, i + 1) && nextExp == Held(expected, i + 1) && nextMsk == Held(mask, i + 1)
      ensures nextIndex == NextByte(i + 1) && count == Mismatches(expected, mask, tdo, i + 1)
      ensures dev == Sent(d, p, data, if clocked then i + 1 else i)
    {
      nextExp, nextMsk, count := CompareBit(expected, mask, tdo, i, exp, msk, index, errors);
      nextCur, nextIndex := PutBit(data, i, cur, index, clocked, d, p);
    }

    /** The turns of ispVMRead that always clock. */
    method ReadAllButLast(data: seq<byte>, expected: seq<byte>, mask: seq<byte>, n: nat, tdo: seq<bool>)
      returns (cur: byte, exp: byte, msk: byte, index: nat, errors: nat)
      requires Quiet() && 1 <= n == |tdo| <= 8 * |data| && |expected| == |mask| == |data|
      modifies this`gpiostate, this`reg, this`dev
      ensures Quiet() && gpiostate == old(gpiostate).(tdi := gpiostate.tdi)
      ensures cur == Held(data, n - 1) && exp == Held(expected, n - 1) && msk == Held(mask, n - 1)
      ensures index == NextByte(n - 1) && errors == Mismatches(expected, mask, tdo, n - 1)
      ensures dev == Sent(old(dev), old(gpiostate), data, n - 1)
    {
      cur, exp, msk, index, errors := data[0], expected[0], mask[0], 0, 0;
      for i := 0 to n - 1
        invariant Quiet() && gpiostate == old(gpiostate).(tdi := gpiostate.tdi)
        invariant cur == Held(data, i) && exp == Held(expected, i) && msk == Held(mask, i)
        invariant index == NextByte(i) && errors == Mismatches(expected, mask, tdo, i)
        invariant dev == Sent(old(dev), old(gpiostate), data, i)
      {
        cur, exp, msk, index, errors :=
          ReadBit(data, expected, mask, tdo, i, cur, exp, msk, index, errors, true, old(dev), old(gpiostate));
      }
    }

    /**
     * ispVMRead: shifts the data in like ispVMSend and counts the bits of `tdo`, the
     * level found on TDO before each clock, that differ where the mask is set.
     */
    method Read(data: seq<byte>, expected: seq<byte>, mask: seq<byte>, n: nat, tdo: seq<bool>) returns (errors: nat)
      requires Quiet() && 1 <= n == |tdo| <= 8 * |data| && |expected| == |mask| == |data|
      modifies this`gpiostate, this`reg, this`dev
      ensures Quiet() && gpiostate == old(gpiostate).(tdi := BitOf(data, n - 1))
      ensures dev == Sent(old(dev), old(gpiostate), data, if cascade then n else n - 1)
      ensures errors == Mismatches(expected, mask, tdo, n)
    {
      var cur, exp, msk, index;
      cur, exp, msk, index, errors := ReadAllButLast(data, expected, mask, n, tdo);
      cur, exp, msk, index, errors :=
        ReadBit(data, expected, mask, tdo, n - 1, cur, exp, msk, index, errors, cascade, old(dev), old(gpiostate));
    }

    /** ispVMBypass: header or trailer bits, the last one left on TDI. */
    method Bypass(data: seq<byte>, n: nat)
      requires Synced() && Shifting(dev.tap) && n <= 8 * |data|
      modifies this`gpiostate, this`reg, this`dev
      ensures Synced()
      ensures n == 0 ==> dev == old(dev) && gpiostate == old(gpiostate)
      ensures n > 0 ==> dev.shifted + [gpiostate.tdi] == old(dev.shifted) + Bits(data, n)
    {
      if n > 0 {
        SendAllButLast(data, n);
        SentShift(old(dev), old(gpiostate), data, n - 1);
        assert Bits(data, n) == Bits(data, n - 1) + [BitOf(data, n - 1)];
      }
    }

    /** The search of ispVMStateMachine; the index is past the table if there is no row. */
    method FindRow(next: State) returns (k: nat)
      ensures k <= |TABLE|
      ensures k < |TABLE| ==> TABLE[k].cur == state && TABLE[k].next == next
      ensures forall i :: 0 <= i < k ==> !(TABLE[i].cur == state && TABLE[i].next == next)
    {
      k := 0;
      while k < |TABLE| && !(state == TABLE[k].cur && next == TABLE[k].next)
        invariant k <= |TABLE|
        invariant forall i :: 0 <= i < k ==> !(TABLE[i].cur == state && TABLE[i].next == next)
      {
        k := k + 1;
      }
    }

    /** The pulses of one row of the table. */
    method GivePulses(pattern: nat, pulses: nat, ghost goal: Tap)
      requires Quiet() && 1 <= pulses <= 8 && Leads(dev.tap, pattern, 0, pulses, goal)
      modifies this`gpiostate, this`reg, this`dev
      ensures Quiet() && dev.tap == goal
      ensures dev.shifted == old(dev.shifted) + if Shifting(old(dev.tap)) then [old(gpiostate.tdi)] else []
    {
      for i := 0 to pulses
        invariant Quiet() && gpiostate == old(gpiostate).(tms := gpiostate.tms)
        invariant Leads(dev.tap, pattern, i, pulses, goal)
        invariant i == 0 ==> dev == old(dev)
        invariant i > 0 ==> dev.shifted == old(dev.shifted)
                                          + if Shifting(old(dev.tap)) then [old(gpiostate.tdi)] else []
      {
        WriteTms(TmsAt(pattern, i));
        Sclock();
      }
    }

    /** ispVMStart: the first row resets the TAP from every state, and the engine is in step with it. */
    method Start()
      requires Quiet() && state == RESET
      modifies this`gpiostate, this`reg, this`dev
      ensures Synced() && state == RESET
      ensures dev.shifted == old(dev.shifted) + if Shifting(old(dev.tap)) then [old(gpiostate.tdi)] else []
    {
      var k := FindRow(RESET);
      assert k == 0 by {
        assert TABLE[0] == Transition(RESET, RESET, 0xFC, 6);
      }
      ResetLeads(dev.tap, 0);
      GivePulses(TABLE[k].pattern, TABLE[k].pulses, TestLogicReset);
      WriteTdi(false);
      WriteTms(false);
    }

    /** ispVMStateMachine, for a transition the table has. */
    method GoTo(next: State)
      requires Synced() && (state == next || Supported(state, next))
      modifies this`gpiostate, this`reg, this`dev, this`state
      ensures Synced() && state == next
      ensures old(state) == next != RESET ==> dev == old(dev) && gpiostate == old(gpiostate)
      ensures old(state) != next ==>
                dev.shifted == old(dev.shifted) + if Shifting(old(dev.tap)) then [old(gpiostate.tdi)] else []
    {
      if state == next && next != RESET {
        return;
      }
      var k := FindRow(next);
      assert k < |TABLE| by {
        assert TABLE[0] == Transition(RESET, RESET, 0xFC, 6);
      }
      TableArrives(k);
      state := next;
      GivePulses(TABLE[k].pattern, TABLE[k].pulses, TapOf(next));
      WriteTdi(false);
      WriteTms(false);
    }

    /** To a Shift state by way of a Pause state. */
    method GoByPause(pause: State, shift: State)
      requires Synced() && (state == pause || Supported(state, pause))
      requires pause != RESET && pause != shift && Supported(pause, shift) && !Shifting(TapOf(pause))
      modifies this`gpiostate, this`reg, this`dev, this`state
      ensures Synced() && state == shift
      ensures dev.shifted == old(dev.shifted + if Shifting(dev.tap) then [gpiostate.tdi] else [])
    {
      GoTo(pause);
      GoTo(shift);
    }

    /** Shifts a whole header, its last bit included. */
    method ShiftHeader(a: Amble)
      requires Synced() && Shifting(dev.tap)
      modifies this`gpiostate, this`reg, this`dev
      ensures Synced() && dev.shifted == old(dev.shifted) + AmbleBits(a)
    {
      if a.n > 0 {
        Bypass(a.data, a.n);
        Sclock();
      }
    }

    /** Shifts the bit left on TDI and a trailer, and leaves for the end state. */
    method ShiftTrailer(a: Amble, end: State)
      requires Synced() && Shifting(dev.tap) && state != end && Supported(state, end)
      modifies this`gpiostate, this`reg, this`dev, this`state
      ensures Synced() && state == end
      ensures dev.shifted == old(dev.shifted + [gpiostate.tdi]) + AmbleBits(a)
    {
      if a.n > 0 {
        Sclock();
        Bypass(a.data, a.n);
      }
      GoTo(end);
    }

    /** ispVMRead in a Shift state: what is shifted, and what is left on TDI. */
    method Verify(data: seq<byte>, expected: seq<byte>, mask: seq<byte>, n: nat, tdo: seq<bool>)
      returns (errors: nat)
      requires Synced() && Shifting(dev.tap) && 1 <= n == |tdo| <= 8 * |data| && |expected| == |mask| == |data|
      modifies this`gpiostate, this`reg, this`dev
      ensures Synced() && errors == Mismatches(expected, mask, tdo, n)
      ensures cascade ==> dev.shifted == old(dev.shifted) + Bits(data, n)
      ensures !cascade ==> dev.shifted + [gpiostate.tdi] == old(dev.shifted) + Bits(data, n)
    {
      SentShift(dev, gpiostate, data, if cascade then n else n - 1);
      errors := Read(data, expected, mask, n, tdo);
      assert Bits(data, n) == Bits(data, n - 1) + [BitOf(data, n - 1)];
    }

    /** The data of a scan in a Shift state, sent or also compared: the same bits are shifted. */
    method Transfer(f: Scan) returns (errors: nat)
      requires Synced() && Shifting(dev.tap)
      modifies this`gpiostate, this`reg, this`dev
      ensures Synced() && errors == ScanErrors(f)
      ensures cascade ==> dev.shifted == old(dev.shifted) + ScanBits(f)
      ensures !cascade ==> dev.shifted + [gpiostate.tdi] == old(dev.shifted) + ScanBits(f)
    {
      if f.check.Unchecked? {
        Send(f.data, f.n);
        errors := 0;
      } else {
        errors := Verify(f.data, f.check.expected, f.check.mask, f.n, f.check.tdo);
      }
    }

    /** The data and, unless the frame is cascaded, the trailer. */
    method TransferAndLeave(f: Scan, tail: Amble, end: State) returns (errors: nat)
      requires Synced() && Shifting(dev.tap)
      requires !cascade ==> state != end && Supported(state, end)
      modifies this`gpiostate, this`reg, this`dev, this`state
      ensures Synced() && state == (if cascade then old(state) else end) && errors == ScanErrors(f)
      ensures dev.shifted == old(dev.shifted) + (ScanBits(f) + if cascade then [] else AmbleBits(tail))
    {
      errors := Transfer(f);
      if !cascade {
        ShiftTrailer(tail, end);
        Associate(old(dev.shifted), ScanBits(f), AmbleBits(tail));
      }
    }

    /** The opening of a whole SIR: by way of IRPAUSE, then the header. */
    method EnterIr(hir: Amble)
      requires Synced() && (state == IRPAUSE || Supported(state, IRPAUSE))
      modifies this`gpiostate, this`reg, this`dev, this`state
      ensures Synced() && state == SHIFTIR
      ensures dev.shifted == old(dev.shifted + if Shifting(dev.tap) then [gpiostate.tdi] else []) + AmbleBits(hir)
    {
      FixedRows();
      GoByPause(IRPAUSE, SHIFTIR);
      ShiftHeader(hir);
    }

    /**
     * SIR: the TDI bits clocked while the TAP shifts are header, data and trailer, whether
     * the data is compared or not.  Only a whole scan that starts in SHIFTIR shifts one
     * stray bit before them.
     */
    method Sir(hir: Amble, f: Scan, tir: Amble, endIR: State) returns (errors: nat)
      requires Synced()
      requires cascade ==> state == SHIFTIR || Supported(state, SHIFTIR)
      requires !cascade ==> (state == IRPAUSE || Supported(state, IRPAUSE))
                            && endIR != SHIFTIR && Supported(SHIFTIR, endIR)
      modifies this`gpiostate, this`reg, this`dev, this`state
      ensures Synced() && state == (if cascade then SHIFTIR else endIR) && errors == ScanErrors(f)
      ensures cascade ==> dev.shifted == old(dev.shifted) + ScanBits(f)
      ensures !cascade ==>
                dev.shifted == (old(dev.shifted + if Shifting(dev.tap) then [gpiostate.tdi] else []) + AmbleBits(hir))
                               + (ScanBits(f) + AmbleBits(tir))
    {
      if cascade {
        NoShiftInto(state, SHIFTIR);
        GoTo(SHIFTIR);
        errors := Transfer(f);
      } else {
        EnterIr(hir);
        errors := TransferAndLeave(f, tir, endIR);
      }
    }

    /** The header an SDR shifts: none if it continues a frame or enters a cascade sideways. */
    ghost function SdrHeader(hdr: Amble): seq<bool>
      reads this
    {
      if state == SHIFTDR || (cascade && state != DRPAUSE) then [] else AmbleBits(hdr)
    }

    /** The opening of a whole SDR: by way of DRPAUSE, then the header. */
    method EnterDrWhole(hdr: Amble)
      requires Synced() && !Shifting(dev.tap) && (state == DRPAUSE || Supported(state, DRPAUSE))
      modifies this`gpiostate, this`reg, this`dev, this`state
      ensures Synced() && state == SHIFTDR && dev.shifted == old(dev.shifted) + AmbleBits(hdr)
    {
      FixedRows();
      GoByPause(DRPAUSE, SHIFTDR);
      ShiftHeader(hdr);
    }

    /** The opening of an SDR. */
    method EnterDr(hdr: Amble)
      requires Synced() && state != SHIFTIR
      requires state != SHIFTDR ==>
                 if cascade then Supported(state, SHIFTDR) else state == DRPAUSE || Supported(state, DRPAUSE)
      modifies this`gpiostate, this`reg, this`dev, this`state
      ensures Synced() && state == SHIFTDR
      ensures dev.shifted == old(dev.shifted) + old(SdrHeader(hdr))
    {
      if state != SHIFTDR {
        if cascade {
          if state == DRPAUSE {
            GoTo(SHIFTDR);
            ShiftHeader(hdr);
          } else {
            GoTo(SHIFTDR);
          }
        } else {
          EnterDrWhole(hdr);
        }
      }
    }

    /** SDR, whole or one frame of a cascade. */
    method Sdr(hdr: Amble, f: Scan, tdr: Amble, endDR: State) returns (errors: nat)
      requires Synced() && state != SHIFTIR
      requires state != SHIFTDR ==>
                 if cascade then Supported(state, SHIFTDR) else state == DRPAUSE || Supported(state, DRPAUSE)
      requires !cascade ==> endDR != SHIFTDR && Supported(SHIFTDR, endDR)
      modifies this`gpiostate, this`reg, this`dev, this`state
      ensures Synced() && state == (if cascade then SHIFTDR else endDR) && errors == ScanErrors(f)
      ensures dev.shifted == (old(dev.shifted) + old(SdrHeader(hdr)))
                             + (ScanBits(f) + if cascade then [] else AmbleBits(tdr))
    {
      EnterDr(hdr);
      errors := TransferAndLeave(f, tdr, endDR);
    }

    /**
     * A cascade of SDR frames, CASCADE set for all but the last.  Started from
     * DRPAUSE it shifts one header, the data of all frames and one trailer.
     */
    method SdrCascade(hdr: Amble, frames: seq<Scan>, tdr: Amble, endDR: State) returns (errors: nat)
      requires Synced() && frames != []
      requires state == DRPAUSE || state == SHIFTDR
      requires endDR != SHIFTDR && Supported(SHIFTDR, endDR)
      modifies this
      ensures Synced() && state == endDR && !cascade && errors == FrameErrors(frames)
      ensures dev.shifted == old(dev.shifted) + (if old(state) == DRPAUSE then AmbleBits(hdr) else [])
                             + (FrameBits(frames) + AmbleBits(tdr))
      decreases |frames|
    {
      FixedRows();
      ghost var start := dev.shifted + (if state == DRPAUSE then AmbleBits(hdr) else []);
      cascade := |frames| > 1;
      errors := Sdr(hdr, frames[0], tdr, endDR);
      CascadeBits(start, ScanBits(frames[0]), FrameBits(frames[1..]), AmbleBits(tdr));
      if |frames| > 1 {
        var more := SdrCascade(hdr, frames[1..], tdr, endDR);
        errors := errors + more;
      } else {
        assert frames[1..] == [];
      }
    }
  }
}
