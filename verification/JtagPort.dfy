/**
 * The pins of the JTAG port, the TAP controller behind them, and the table that
 * walks it (ts7500ctl/ispvm.c).
 *
 * The device only sees what is written to the GPIO register: on each rising
 * edge of TCK it samples TMS and TDI.
 */
module JtagPort {
  import opened Basics
  import opened Words
  import opened RowDecoder

  // ---- the TAP controller of IEEE Std 1149.1, section 6.1 ----

  datatype Tap =
    | TestLogicReset | RunTestIdle
    | SelectDR | CaptureDR | ShiftDR | Exit1DR | PauseDR | Exit2DR | UpdateDR
    | SelectIR | CaptureIR | ShiftIR | Exit1IR | PauseIR | Exit2IR | UpdateIR

  function TapNext(t: Tap, tms: bool): Tap {
    match t
    case TestLogicReset => if tms then TestLogicReset else RunTestIdle
    case RunTestIdle => if tms then SelectDR else RunTestIdle
    case SelectDR => if tms then SelectIR else CaptureDR
    case CaptureDR => if tms then Exit1DR else ShiftDR
    case ShiftDR => if tms then Exit1DR else ShiftDR
    case Exit1DR => if tms then UpdateDR else PauseDR
    case PauseDR => if tms then Exit2DR else PauseDR
    case Exit2DR => if tms then UpdateDR else ShiftDR
    case UpdateDR => if tms then SelectDR else RunTestIdle
    case SelectIR => if tms then TestLogicReset else CaptureIR
    case CaptureIR => if tms then Exit1IR else ShiftIR
    case ShiftIR => if tms then Exit1IR else ShiftIR
    case Exit1IR => if tms then UpdateIR else PauseIR
    case PauseIR => if tms then Exit2IR else PauseIR
    case Exit2IR => if tms then UpdateIR else ShiftIR
    case UpdateIR => if tms then SelectDR else RunTestIdle
  }

  predicate Shifting(t: Tap) { t == ShiftDR || t == ShiftIR }

  // ---- pins and device ----

  /** The output register; `rest` stands for the bits the engine does not use. */
  datatype Pins = Pins(tdi: bool, tms: bool, tck: bool, rest: int)

  /** `shifted`: TDI at each clock in a Shift state; `edges`: the pins at every rising edge. */
  datatype Device = Device(tap: Tap, shifted: seq<bool>, edges: seq<Pins>)

  function Clock(d: Device, p: Pins): Device {
    Device(
      TapNext(d.tap, p.tms),
      if Shifting(d.tap) then d.shifted + [p.tdi] else d.shifted,
      d.edges + [p])
  }

  /** What the device does when the register goes from `was` to `now`. */
  function Observe(d: Device, was: Pins, now: Pins): Device {
    if !was.tck && now.tck then Clock(d, now) else d
  }

  // ---- bits of a buffer, most significant first ----

  /** `b << 1` in eight bits. */
  function Doubled(b: byte): byte { 2 * b % 0x100 }

  /** `(b << k) & 0x80`, the byte shifted by one `k` times. */
  predicate BitAt(b: byte, k: nat)
    decreases k
  {
    if k == 0 then b >= 0x80 else BitAt(Doubled(b), k - 1)
  }

  predicate BitOf(data: seq<byte>, i: nat)
    requires i < 8 * |data|
  {
    BitAt(data[i / 8], i % 8)
  }

  function Bits(data: seq<byte>, n: nat): (r: seq<bool>)
    requires n <= 8 * |data|
    ensures |r| == n
  {
    seq(n, i requires 0 <= i < n => BitOf(data, i))
  }

  /** The bits of a byte go out most significant first. */
  lemma {:induction false} BitAtIs(b: byte, k: nat)
    requires k < 8
    ensures BitAt(b, k) <==> Bit(b, 7 - k)
    decreases k
  {
    ByteRange();
    if k == 0 {
      assert Pow2(7) == 0x80;
    } else {
      var j := 8 - k;
      BitAtIs(Doubled(b), k - 1);
      BitOfLow(2 * b, BYTE_BITS, j);
      BitUp(2 * b, j);
    }
  }

  lemma {:induction false} BitsOfAt(x: nat, n: nat, k: nat)
    requires k < n
    ensures BitsOf(x, n)[k] <==> Bit(x, n - 1 - k)
    decreases n
  {
    if k < n - 1 {
      BitsOfAt(x / 2, n - 1, k);
      BitUp(x, n - 1 - k);
    }
  }

  lemma {:induction false} StreamBitAt(data: seq<byte>, i: nat)
    requires i < 8 * |data|
    ensures |StreamBits(data)| == 8 * |data| && (StreamBits(data)[i] <==> BitOf(data, i))
    decreases |data|
  {
    StreamLength(data);
    if i < 8 {
      BitAtIs(data[0], i);
      BitsOfAt(data[0], BYTE_BITS, i);
    } else {
      StreamBitAt(data[1..], i - 8);
    }
  }

  /** A whole buffer goes out as the stream of its bits. */
  lemma BitsAreStream(data: seq<byte>)
    ensures Bits(data, 8 * |data|) == StreamBits(data)
  {
    StreamLength(data);
    forall i | 0 <= i < 8 * |data|
      ensures StreamBits(data)[i] == BitOf(data, i)
    {
      StreamBitAt(data, i);
    }
  }

  /** The eight bits of a byte have its value. */
  lemma ByteValue(b: byte)
    ensures Value(Bits([b], 8)) == b
  {
    ByteRange();
    BitsAreStream([b]);
    assert StreamBits([b]) == BitsOf(b, BYTE_BITS) + StreamBits([b][1..]);
    assert StreamBits([b]) == BitsOf(b, BYTE_BITS);
    ValueOfBits(b, BYTE_BITS);
  }

  lemma ByteSeparates(a: seq<byte>, b: seq<byte>, j: nat)
    requires |a| == |b| && j < |a| && Bits(a, 8 * |a|) == Bits(b, 8 * |b|)
    ensures a[j] == b[j]
  {
    ByteRange();
    var p, q := Bits(a, 8 * |a|), Bits(b, 8 * |b|);
    forall i | 0 <= i < 8
      ensures Bit(a[j], i) <==> Bit(b[j], i)
    {
      var k := 8 * j + (7 - i);
      assert p[k] == q[k] && k / 8 == j && k % 8 == 7 - i;
      BitAtIs(a[j], 7 - i);
      BitAtIs(b[j], 7 - i);
    }
    BitsDetermine(a[j], b[j], BYTE_BITS);
  }

  /** Two buffers of one length go out alike if and only if they are equal. */
  lemma BitsSeparate(a: seq<byte>, b: seq<byte>)
    requires |a| == |b|
    ensures Bits(a, 8 * |a|) == Bits(b, 8 * |b|) <==> a == b
  {
    var p, q := Bits(a, 8 * |a|), Bits(b, 8 * |b|);
    if p == q {
      forall j | 0 <= j < |a|
        ensures a[j] == b[j]
      {
        ByteSeparates(a, b, j);
      }
    }
  }

  // ---- the transition table ----

  datatype State = RESET | IDLE | IRPAUSE | DRPAUSE | SHIFTIR | SHIFTDR | DRCAPTURE

  function TapOf(s: State): Tap {
    match s
    case RESET => TestLogicReset
    case IDLE => RunTestIdle
    case IRPAUSE => PauseIR
    case DRPAUSE => PauseDR
    case SHIFTIR => ShiftIR
    case SHIFTDR => ShiftDR
    case DRCAPTURE => CaptureDR
  }

  datatype Transition = Transition(cur: State, next: State, pattern: nat, pulses: nat)

  const TABLE: seq<Transition> := [
    Transition(RESET, RESET, 0xFC, 6),
    Transition(RESET, IDLE, 0x00, 1),
    Transition(RESET, DRPAUSE, 0x50, 5),
    Transition(RESET, IRPAUSE, 0x68, 6),
    Transition(IDLE, RESET, 0xE0, 3),
    Transition(IDLE, DRPAUSE, 0xA0, 4),
    Transition(IDLE, IRPAUSE, 0xD0, 5),
    Transition(DRPAUSE, RESET, 0xF8, 5),
    Transition(DRPAUSE, IDLE, 0xC0, 3),
    Transition(DRPAUSE, IRPAUSE, 0xF4, 7),
    Transition(DRPAUSE, DRPAUSE, 0xE8, 6),
    Transition(IRPAUSE, RESET, 0xF8, 5),
    Transition(IRPAUSE, IDLE, 0xC0, 3),
    Transition(IRPAUSE, DRPAUSE, 0xE8, 6),
    Transition(DRPAUSE, SHIFTDR, 0x80, 2),
    Transition(IRPAUSE, SHIFTDR, 0xE0, 5),
    Transition(SHIFTDR, DRPAUSE, 0x80, 2),
    Transition(SHIFTDR, IDLE, 0xC0, 3),
    Transition(IRPAUSE, SHIFTIR, 0x80, 2),
    Transition(SHIFTIR, IRPAUSE, 0x80, 2),
    Transition(SHIFTIR, IDLE, 0xC0, 3),
    Transition(DRPAUSE, DRCAPTURE, 0xE0, 4),
    Transition(DRCAPTURE, DRPAUSE, 0x80, 2),
    Transition(IDLE, DRCAPTURE, 0x80, 2),
    Transition(IRPAUSE, DRCAPTURE, 0xE0, 4)]

  /** `(pattern << k) & 0x80` for a pattern of the table. */
  predicate TmsAt(pattern: nat, k: nat)
    requires k < 8
  {
    match k
    case 0 => pattern >= 128
    case 1 => pattern % 128 >= 64
    case 2 => pattern % 64 >= 32
    case 3 => pattern % 32 >= 16
    case 4 => pattern % 16 >= 8
    case 5 => pattern % 8 >= 4
    case 6 => pattern % 4 >= 2
    case 7 => pattern % 2 >= 1
  }

  /**
   * From `t`, the pulses `i` to `n` lead the TAP to `goal`, and none but the very first
   * finds it in a Shift state.
   */
  predicate Leads(t: Tap, pattern: nat, i: nat, n: nat, goal: Tap)
    requires i <= n <= 8
    decreases n - i
  {
    if i == n then t == goal
    else (i > 0 ==> !Shifting(t)) && Leads(TapNext(t, TmsAt(pattern, i)), pattern, i + 1, n, goal)
  }

  /** The row leads the TAP from its first state to its second without shifting on the way. */
  predicate Arrives(r: Transition) {
    1 <= r.pulses <= 7 && Leads(TapOf(r.cur), r.pattern, 0, r.pulses, TapOf(r.next))
  }

  /** How many pulses with TMS high it takes to reset the TAP. */
  function ToReset(t: Tap): (n: nat)
    ensures n <= 5
  {
    match t
    case TestLogicReset => 0
    case SelectIR => 1
    case SelectDR => 2
    case RunTestIdle | UpdateDR | UpdateIR => 3
    case Exit1DR | Exit2DR | Exit1IR | Exit2IR => 4
    case CaptureDR | ShiftDR | PauseDR | CaptureIR | ShiftIR | PauseIR => 5
  }

  lemma CloserToReset(t: Tap)
    ensures var next := TapNext(t, true);
            !Shifting(next) && (ToReset(next) < ToReset(t) || next == t == TestLogicReset)
  {
  }

  lemma HighPulse(i: nat)
    requires i < 6
    ensures TmsAt(0xFC, i)
  {
  }

  /** The first row of the table, six pulses with TMS high, resets the TAP from every state. */
  lemma {:induction false} ResetLeads(t: Tap, i: nat)
    requires i <= 6 && ToReset(t) <= 6 - i && (i > 0 ==> !Shifting(t))
    ensures Leads(t, 0xFC, i, 6, TestLogicReset)
    decreases 6 - i
  {
    if i < 6 {
      HighPulse(i);
      CloserToReset(t);
      ResetLeads(TapNext(t, true), i + 1);
    }
  }

  lemma Rows0()
    ensures Arrives(Transition(RESET, RESET, 0xFC, 6))
    ensures Arrives(Transition(RESET, IDLE, 0x00, 1))
    ensures Arrives(Transition(RESET, DRPAUSE, 0x50, 5))
  {
  }

  lemma Rows3()
    ensures Arrives(Transition(RESET, IRPAUSE, 0x68, 6))
    ensures Arrives(Transition(IDLE, RESET, 0xE0, 3))
    ensures Arrives(Transition(IDLE, DRPAUSE, 0xA0, 4))
  {
  }

  lemma Rows6()
    ensures Arrives(Transition(IDLE, IRPAUSE, 0xD0, 5))
    ensures Arrives(Transition(DRPAUSE, RESET, 0xF8, 5))
    ensures Arrives(Transition(DRPAUSE, IDLE, 0xC0, 3))
  {
  }

  lemma Rows9()
    ensures Arrives(Transition(DRPAUSE, IRPAUSE, 0xF4, 7))
    ensures Arrives(Transition(DRPAUSE, DRPAUSE, 0xE8, 6))
  {
  }

  lemma Rows11()
    ensures Arrives(Transition(IRPAUSE, RESET, 0xF8, 5))
    ensures Arrives(Transition(IRPAUSE, IDLE, 0xC0, 3))
  {
  }

  lemma Rows13()
    ensures Arrives(Transition(IRPAUSE, DRPAUSE, 0xE8, 6))
    ensures Arrives(Transition(DRPAUSE, SHIFTDR, 0x80, 2))
  {
  }

  lemma Rows15()
    ensures Arrives(Transition(IRPAUSE, SHIFTDR, 0xE0, 5))
    ensures Arrives(Transition(SHIFTDR, DRPAUSE, 0x80, 2))
    ensures Arrives(Transition(SHIFTDR, IDLE, 0xC0, 3))
  {
  }

  lemma Rows18()
    ensures Arrives(Transition(IRPAUSE, SHIFTIR, 0x80, 2))
    ensures Arrives(Transition(SHIFTIR, IRPAUSE, 0x80, 2))
    ensures Arrives(Transition(SHIFTIR, IDLE, 0xC0, 3))
  {
  }

  lemma Rows21()
    ensures Arrives(Transition(DRPAUSE, DRCAPTURE, 0xE0, 4))
    ensures Arrives(Transition(DRCAPTURE, DRPAUSE, 0x80, 2))
    ensures Arrives(Transition(IDLE, DRCAPTURE, 0x80, 2))
  {
  }

  lemma Rows24()
    ensures Arrives(Transition(IRPAUSE, DRCAPTURE, 0xE0, 4))
  {
  }

  /** Every row of the table does what it says. */
  lemma TableArrives(i: nat)
    requires i < |TABLE|
    ensures Arrives(TABLE[i])
  {
    if i < 3 {
      Rows0();
    } else if i < 6 {
      Rows3();
    } else if i < 9 {
      Rows6();
    } else if i < 11 {
      Rows9();
    } else if i < 13 {
      Rows11();
    } else if i < 15 {
      Rows13();
    } else if i < 18 {
      Rows15();
    } else if i < 21 {
      Rows18();
    } else if i < 24 {
      Rows21();
    } else {
      Rows24();
    }
  }
}
