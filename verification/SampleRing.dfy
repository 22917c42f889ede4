/**
 * The ring of samples shared by the interrupt writer and the reader
 * (interruption/proc_entry.c).
 *
 * The reader is a program of separate accesses to `last_write`; the writer may
 * interrupt between any two of them.  `Step` is one such access or one
 * interrupt, and the theorems are about every sequence of steps.
 */
module SampleRing {
  datatype Sample = Sample(timestamp: int, seqNumber: int, data: seq<int>)

  const KMALLOC_MAX_SIZE: int := 0x40_0000

  /** Where the reader is in read_nsamples. */
  datatype Pc =
    | Entry
    | TestEmpty
    | TestOrder
    | CountWrapped
    | CountStraight
    | Allocate(n: int)
    | Copy(n: int, out: seq<Sample>)

  /** `written` and `read` are the whole history; the program sees the other fields. */
  datatype Ring = Ring(
    buffer: seq<Sample>, lastRead: int, lastWrite: int, pc: Pc,
    written: seq<Sample>, read: seq<Sample>)

  datatype Action = Interrupt(sample: Sample) | Reader(granted: bool)

  function Write(s: Ring, x: Sample): Ring
    requires |s.buffer| == 1024
  {
    var w := (s.lastWrite + 1) % 1024;
    s.(lastWrite := w, buffer := s.buffer[w := x], written := s.written + [x])
  }

  /** One access of read_nsamples; kmalloc fails when it is not granted or too large. */
  function ReaderStep(s: Ring, granted: bool): Ring
    requires |s.buffer| == 1024
  {
    match s.pc
    case Entry => s.(pc := TestEmpty)
    case TestEmpty => s.(pc := if s.lastRead == s.lastWrite then Entry else TestOrder)
    case TestOrder => s.(pc := if s.lastRead > s.lastWrite then CountWrapped else CountStraight)
    case CountWrapped => s.(pc := Allocate(((1023 - s.lastRead) + s.lastWrite + 1) % 0x1_0000_0000))
    case CountStraight => s.(pc := Allocate((s.lastWrite - s.lastRead) % 0x1_0000_0000))
    case Allocate(n) =>
      var bytes := (n * 24) % 0x1_0000_0000;   // sizeof(sample_t) is 24
      s.(pc := if granted && bytes <= KMALLOC_MAX_SIZE then Copy(n, []) else Entry)
    case Copy(n, out) =>
      if |out| < n then
        s.(pc := Copy(n, out + [s.buffer[(s.lastRead + 1 + |out|) % 1024]]))
      else
        s.(pc := Entry, lastRead := (s.lastRead + n) % 1024, read := s.read + out)
  }

  function Step(s: Ring, a: Action): Ring
    requires |s.buffer| == 1024
  {
    match a
    case Interrupt(x) => Write(s, x)
    case Reader(granted) => ReaderStep(s, granted)
  }

  function Unread(s: Ring): int { |s.written| - |s.read| }

  // ---- the invariant ----

  predicate SlotHolds(buffer: seq<Sample>, written: seq<Sample>, j: nat)
    requires |buffer| == 1024 && j < |written|
  {
    buffer[(j + 1) % 1024] == written[j]
  }

  /** The ring holds the latest samples, and the indices are the history lengths. */
  ghost predicate Tracks(s: Ring) {
    && |s.buffer| == 1024
    && s.lastWrite == |s.written| % 1024
    && s.lastRead == |s.read| % 1024
    && (forall j :: 0 <= j < |s.written| && |s.written| - 1024 <= j ==> SlotHolds(s.buffer, s.written, j))
  }

  /** A count that was right when it was taken, or one that no kmalloc can serve. */
  predicate GoodCount(s: Ring, n: int) {
    1 <= n <= Unread(s) || 0x1_0000_0000 - 1023 <= n < 0x1_0000_0000
  }

  ghost predicate Inv(s: Ring) {
    && Tracks(s)
    && s.read <= s.written
    && match s.pc
       case Entry => true
       case TestEmpty => true
       case TestOrder => Unread(s) >= 1
       case CountWrapped => s.lastRead + Unread(s) >= 1024
       case CountStraight => Unread(s) >= 1
       case Allocate(n) => GoodCount(s, n)
       case Copy(n, out) => 1 <= n <= Unread(s) && |out| <= n && s.read + out <= s.written
  }

  lemma DifferentSlots(a: int, b: int)
    requires a < b < a + 1024
    ensures a % 1024 != b % 1024
  {
  }

  lemma NextSlot(n: nat)
    ensures (n % 1024 + 1) % 1024 == (n + 1) % 1024
  {
  }

  lemma WriteKeepsTracks(s: Ring, x: Sample)
    requires Tracks(s)
    ensures Tracks(Write(s, x))
  {
    var t := Write(s, x);
    NextSlot(|s.written|);
    assert t.lastWrite == (|s.written| + 1) % 1024 && t.written[..|s.written|] == s.written;
    forall j | 0 <= j < |t.written| && |t.written| - 1024 <= j
      ensures SlotHolds(t.buffer, t.written, j)
    {
      if j < |s.written| {
        assert SlotHolds(s.buffer, s.written, j);
        DifferentSlots(j + 1, |s.written| + 1);
      }
    }
  }

  lemma WriteKeepsInv(s: Ring, x: Sample)
    requires Inv(s) && Unread(s) <= 1022
    ensures Inv(Write(s, x))
  {
    WriteKeepsTracks(s, x);
  }

  /** The order test compares the two indices modulo 1024. */
  lemma OrderTest(r: nat, w: nat)
    requires r <= w <= r + 1023
    ensures r % 1024 > w % 1024 <==> r % 1024 + (w - r) >= 1024
    ensures w % 1024 == if r % 1024 + (w - r) >= 1024 then r % 1024 + (w - r) - 1024 else r % 1024 + (w - r)
  {
  }

  lemma CountsKeepInv(s: Ring)
    requires Inv(s) && Unread(s) <= 1023 && (s.pc.CountWrapped? || s.pc.CountStraight?)
    ensures Inv(ReaderStep(s, true))
  {
    OrderTest(|s.read|, |s.written|);
  }

  lemma AllocateKeepsInv(s: Ring, granted: bool)
    requires Inv(s) && s.pc.Allocate?
    ensures Inv(ReaderStep(s, granted))
  {
    var n := s.pc.n;
    if n > Unread(s) {
      assert (n * 24) % 0x1_0000_0000 == n * 24 - 23 * 0x1_0000_0000;
    }
  }

  lemma SameSlot(r: nat, i: nat)
    ensures (r % 1024 + 1 + i) % 1024 == (r + i + 1) % 1024
  {
  }

  /** Slots that wait to be read are not overwritten. */
  lemma WaitingSlot(s: Ring, i: nat)
    requires Tracks(s) && i < Unread(s) <= 1023
    ensures s.buffer[(s.lastRead + 1 + i) % 1024] == s.written[|s.read| + i]
  {
    assert SlotHolds(s.buffer, s.written, |s.read| + i);
    SameSlot(|s.read|, i);
  }

  lemma CopyOneKeepsInv(s: Ring)
    requires Inv(s) && s.pc.Copy? && |s.pc.out| < s.pc.n && Unread(s) <= 1023
    ensures Inv(ReaderStep(s, true))
  {
    var out := s.pc.out;
    var x := s.written[|s.read| + |out|];
    assert ReaderStep(s, true) == s.(pc := Copy(s.pc.n, out + [x])) by { WaitingSlot(s, |out|); }
    assert (s.read + out) + [x] == s.read + (out + [x]);
  }

  lemma CopyDoneKeepsInv(s: Ring)
    requires Inv(s) && s.pc.Copy? && |s.pc.out| == s.pc.n
    ensures Inv(ReaderStep(s, true))
  {
    SameSlot(|s.read|, s.pc.n - 1);
  }

  lemma ReaderKeepsInv(s: Ring, granted: bool)
    requires Inv(s) && Unread(s) <= 1023
    ensures Inv(ReaderStep(s, granted))
  {
    match s.pc
    case Entry =>
    case TestEmpty =>
    case TestOrder =>
      OrderTest(|s.read|, |s.written|);
    case CountWrapped =>
      CountsKeepInv(s);
    case CountStraight =>
      CountsKeepInv(s);
    case Allocate(n) =>
      AllocateKeepsInv(s, granted);
    case Copy(n, out) =>
      if |out| < n {
        CopyOneKeepsInv(s);
      } else {
        CopyDoneKeepsInv(s);
      }
  }

  // ---- every interleaving ----

  /** The steps of a run that never lets more than 1023 samples wait. */
  predicate Bounded(s: Ring, run: seq<Action>)
    requires |s.buffer| == 1024
    decreases |run|
  {
    Unread(s) <= 1023 && (run != [] ==> Bounded(Step(s, run[0]), run[1..]))
  }

  function After(s: Ring, run: seq<Action>): (t: Ring)
    requires |s.buffer| == 1024
    ensures |t.buffer| == 1024
    decreases |run|
  {
    if run == [] then s else After(Step(s, run[0]), run[1..])
  }

  function Initial(buffer: seq<Sample>): Ring {
    Ring(buffer, 0, 0, Entry, [], [])
  }

  lemma BoundedStep(s: Ring, run: seq<Action>)
    requires Inv(s) && Bounded(s, run) && run != []
    ensures Inv(Step(s, run[0])) && Bounded(Step(s, run[0]), run[1..])
  {
    match run[0] {
      case Interrupt(x) => WriteKeepsInv(s, x);
      case Reader(granted) => ReaderKeepsInv(s, granted);
    }
  }

  lemma {:induction false} RunKeepsInv(s: Ring, run: seq<Action>)
    requires Inv(s) && Bounded(s, run)
    ensures Inv(After(s, run))
    decreases |run|
  {
    if run != [] {
      BoundedStep(s, run);
      RunKeepsInv(Step(s, run[0]), run[1..]);
    }
  }

  /**
   * Whatever interrupts whatever, as long as at most 1023 samples ever wait to be
   * read: everything read so far is the beginning of everything written, with no
   * loss, no duplicate and no reordering.
   */
  lemma ReadsArePrefix(buffer: seq<Sample>, run: seq<Action>)
    requires |buffer| == 1024 && Bounded(Initial(buffer), run)
    ensures After(Initial(buffer), run).read <= After(Initial(buffer), run).written
  {
    RunKeepsInv(Initial(buffer), run);
  }

  /**
   * If the writer wraps between the order test and the subtraction, the count is
   * out of range, the allocation fails, and the reader starts again with
   * `last_read` where it was.
   */
  lemma LateWrapIsHarmless(s: Ring, granted: bool)
    requires Inv(s) && s.pc.CountStraight? && Unread(s) <= 1023 && s.lastRead > s.lastWrite
    ensures var t := ReaderStep(ReaderStep(s, granted), granted);
            t == s.(pc := Entry)
  {
    OrderTest(|s.read|, |s.written|);
  }

  // ---- a call of the reader makes progress ----

  /** The number of steps of the reader in a run. */
  function Readers(run: seq<Action>): nat {
    if run == [] then 0 else (if run[0].Reader? then 1 else 0) + Readers(run[1..])
  }

  /** No allocation is refused for lack of memory. */
  predicate Granted(run: seq<Action>) { forall a :: a in run && a.Reader? ==> a.granted }

  predicate Counting(pc: Pc) { pc.CountWrapped? || pc.CountStraight? }

  /** The steps of the reader before it takes the count. */
  function StepsToCount(pc: Pc): nat {
    match pc
    case Entry => 3
    case TestEmpty => 2
    case TestOrder => 1
    case _ => 0
  }

  lemma NotEmpty(s: Ring)
    requires Tracks(s) && 1 <= Unread(s) <= 1023
    ensures s.lastRead != s.lastWrite
  {
    DifferentSlots(|s.read|, |s.written|);
  }

  /** With a sample waiting, the reader gets to the count, whatever interrupts it. */
  lemma {:induction false} ReachesCount(s: Ring, run: seq<Action>)
    requires Inv(s) && Bounded(s, run) && Unread(s) >= 1
    requires !s.pc.Allocate? && !s.pc.Copy? && Readers(run) == StepsToCount(s.pc)
    ensures var t := After(s, run); Counting(t.pc) && t.read == s.read && Inv(t) && 1 <= Unread(t) <= 1023
    decreases |run|
  {
    if run != [] {
      BoundedStep(s, run);
      NotEmpty(s);
      ReachesCount(Step(s, run[0]), run[1..]);
    }
  }

  lemma {:induction false} OnlyInterrupts(s: Ring, run: seq<Action>)
    requires |s.buffer| == 1024 && Readers(run) == 0
    ensures After(s, run).pc == s.pc && After(s, run).read == s.read
    decreases |run|
  {
    if run != [] {
      OnlyInterrupts(Step(s, run[0]), run[1..]);
    }
  }

  /** The copy ends after its last sample with the samples counted, whatever interrupts it. */
  lemma {:induction false} CopyEnds(s: Ring, run: seq<Action>)
    requires Inv(s) && Bounded(s, run) && s.pc.Copy? && Readers(run) == s.pc.n - |s.pc.out| + 1
    ensures After(s, run).pc == Entry && After(s, run).read == s.written[..|s.read| + s.pc.n]
    decreases |run|
  {
    var t := Step(s, run[0]);
    BoundedStep(s, run);
    if run[0].Reader? && |s.pc.out| == s.pc.n {
      assert t.read == s.written[..|s.read| + s.pc.n];
      OnlyInterrupts(t, run[1..]);
    } else {
      CopyEnds(t, run[1..]);
      assert t.written[..|s.read| + s.pc.n] == s.written[..|s.read| + s.pc.n];
    }
  }

  lemma {:induction false} AllocationEnds(s: Ring, run: seq<Action>)
    requires Inv(s) && Bounded(s, run) && Granted(run) && s.pc.Allocate? && s.pc.n <= Unread(s)
    requires Readers(run) == s.pc.n + 2
    ensures After(s, run).pc == Entry && After(s, run).read == s.written[..|s.read| + s.pc.n]
    decreases |run|
  {
    var t := Step(s, run[0]);
    BoundedStep(s, run);
    assert run[0] in run;
    if run[0].Reader? {
      CopyEnds(t, run[1..]);
    } else {
      AllocationEnds(t, run[1..]);
      assert t.written[..|s.read| + s.pc.n] == s.written[..|s.read| + s.pc.n];
    }
  }

  /** The writer wrapped between the order test and the subtraction. */
  predicate LateWrap(s: Ring) { s.pc.CountStraight? && s.lastRead > s.lastWrite }

  lemma CountTaken(s: Ring, granted: bool)
    requires Inv(s) && Counting(s.pc) && 1 <= Unread(s) <= 1023 && !LateWrap(s)
    ensures ReaderStep(s, granted).pc == Allocate(Unread(s))
  {
    OrderTest(|s.read|, |s.written|);
  }

  /**
   * A call that gets its allocation reads exactly the samples unread when it took the
   * count, whatever interrupts it.
   */
  lemma CallReads(s: Ring, run: seq<Action>)
    requires Inv(s) && Bounded(s, run) && Granted(run) && Counting(s.pc) && Unread(s) >= 1 && !LateWrap(s)
    requires run != [] && run[0].Reader? && Readers(run) == Unread(s) + 3
    ensures After(s, run).pc == Entry && After(s, run).read == s.written
  {
    CountTaken(s, run[0].granted);
    BoundedStep(s, run);
    AllocationEnds(Step(s, run[0]), run[1..]);
    assert s.written[..|s.written|] == s.written;
  }

  lemma {:induction false} AllocationFails(s: Ring, run: seq<Action>)
    requires |s.buffer| == 1024 && s.pc.Allocate? && 0x1_0000_0000 - 1023 <= s.pc.n < 0x1_0000_0000
    requires Readers(run) == 1
    ensures After(s, run).pc == Entry && After(s, run).read == s.read
    decreases |run|
  {
    if run[0].Reader? {
      assert (s.pc.n * 24) % 0x1_0000_0000 == s.pc.n * 24 - 23 * 0x1_0000_0000;
      OnlyInterrupts(Step(s, run[0]), run[1..]);
    } else {
      AllocationFails(Step(s, run[0]), run[1..]);
    }
  }

  /** After a late wrap the call reads nothing, whatever interrupts it. */
  lemma LateCall(s: Ring, run: seq<Action>)
    requires Inv(s) && LateWrap(s) && run != [] && run[0].Reader? && Readers(run) == 2
    ensures After(s, run).pc == Entry && After(s, run).read == s.read
  {
    AllocationFails(Step(s, run[0]), run[1..]);
  }

  lemma {:induction false} AfterBoth(s: Ring, a: seq<Action>, b: seq<Action>)
    requires |s.buffer| == 1024
    ensures After(s, a + b) == After(After(s, a), b)
    ensures Bounded(s, a + b) ==> Bounded(s, a) && Bounded(After(s, a), b)
    decreases |a|
  {
    if a == [] {
      assert a + b == b;
    } else {
      assert (a + b)[1..] == a[1..] + b;
      AfterBoth(Step(s, a[0]), a[1..], b);
    }
  }

  /**
   * A whole call with samples waiting, interrupted anywhere: `before` leads to the count,
   * `after` starts with it.  It reads everything written before the count, or nothing
   * after a late wrap.
   */
  lemma WholeCall(s: Ring, before: seq<Action>, after: seq<Action>)
    requires Inv(s) && s.pc == Entry && Unread(s) >= 1 && Bounded(s, before + after) && Granted(after)
    requires Readers(before) == 3 && after != [] && after[0].Reader?
    requires var t := After(s, before); Readers(after) == if LateWrap(t) then 2 else Unread(t) + 3
    ensures var t, u := After(s, before), After(s, before + after);
            u.pc == Entry && u.read == if LateWrap(t) then s.read else t.written
  {
    var t := After(s, before);
    AfterBoth(s, before, after);
    ReachesCount(s, before);
    if LateWrap(t) {
      LateCall(t, after);
    } else {
      CallReads(t, after);
    }
  }

  /** `k` steps of the reader in a row. */
  function Quiet(k: nat): (r: seq<Action>)
    ensures |r| == k
  {
    seq(k, _ => Reader(true))
  }

  lemma {:induction false} QuietReaders(k: nat)
    ensures Readers(Quiet(k)) == k && Granted(Quiet(k))
  {
    if k > 0 {
      QuietReaders(k - 1);
      assert Quiet(k)[1..] == Quiet(k - 1);
    }
  }

  lemma {:induction false} QuietBounded(s: Ring, k: nat)
    requires Inv(s) && Unread(s) <= 1023
    ensures Bounded(s, Quiet(k))
    decreases k
  {
    if k > 0 {
      assert Quiet(k)[1..] == Quiet(k - 1);
      ReaderKeepsInv(s, true);
      QuietBounded(ReaderStep(s, true), k - 1);
    }
  }

  lemma QuietStart(s: Ring)
    requires Inv(s) && s.pc == Entry && 1 <= Unread(s) <= 1023
    ensures var t := After(s, Quiet(3)); t.written == s.written && Unread(t) == Unread(s) && !LateWrap(t)
  {
    NotEmpty(s);
    var s1 := ReaderStep(s, true);
    var s2 := ReaderStep(s1, true);
    assert Quiet(3)[1..] == Quiet(2) && Quiet(2)[1..] == Quiet(1) && Quiet(1)[1..] == [];
    assert After(s, Quiet(3)) == After(s1, Quiet(2)) == After(s2, Quiet(1)) == ReaderStep(s2, true);
  }

  /** An uninterrupted call reads everything and is over after six steps and one for each sample. */
  lemma QuietCall(s: Ring)
    requires Inv(s) && s.pc == Entry && 1 <= Unread(s) <= 1023
    ensures var t := After(s, Quiet(Unread(s) + 6)); t.pc == Entry && t.read == s.written
  {
    var rest := Unread(s) + 3;
    assert Quiet(Unread(s) + 6) == Quiet(3) + Quiet(rest);
    QuietBounded(s, Unread(s) + 6);
    QuietReaders(3);
    QuietReaders(rest);
    QuietStart(s);
    WholeCall(s, Quiet(3), Quiet(rest));
  }

  // ---- a read that is not interrupted ----

  /** The next samples in the ring, from offset `i` of what is unread. */
  function Slots(buffer: seq<Sample>, lastRead: int, i: nat, n: nat): seq<Sample>
    requires |buffer| == 1024 && i <= n
    decreases n - i
  {
    if i == n then [] else [buffer[(lastRead + 1 + i) % 1024]] + Slots(buffer, lastRead, i + 1, n)
  }

  function ReadAtOnce(s: Ring): seq<Sample>
    requires |s.buffer| == 1024
  {
    Slots(s.buffer, s.lastRead, 0, (s.lastWrite - s.lastRead) % 1024)
  }

  lemma CountIs(r: nat, w: nat)
    requires r <= w <= r + 1023
    ensures (w % 1024 - r % 1024) % 1024 == w - r
  {
    OrderTest(r, w);
  }

  lemma {:induction false} SlotsLength(buffer: seq<Sample>, lastRead: int, i: nat, n: nat)
    requires |buffer| == 1024 && i <= n
    ensures |Slots(buffer, lastRead, i, n)| == n - i
    decreases n - i
  {
    if i < n {
      SlotsLength(buffer, lastRead, i + 1, n);
    }
  }

  lemma {:induction false} SlotsUnread(s: Ring, i: nat)
    requires Tracks(s) && s.read <= s.written && i <= Unread(s) <= 1023
    ensures Slots(s.buffer, s.lastRead, i, Unread(s)) == s.written[|s.read| + i..]
    decreases Unread(s) - i
  {
    if i < Unread(s) {
      var j := |s.read| + i;
      WaitingSlot(s, i);
      SlotsUnread(s, i + 1);
      assert s.written[j..] == [s.written[j]] + s.written[j + 1..];
    }
  }

  /**
   * An uninterrupted read hands over exactly the unread samples if and only if at
   * most 1023 are waiting.
   */
  lemma ReadAtOnceExact(s: Ring)
    requires Tracks(s) && s.read <= s.written
    ensures ReadAtOnce(s) == s.written[|s.read|..] <==> Unread(s) <= 1023
  {
    var n := (s.lastWrite - s.lastRead) % 1024;
    SlotsLength(s.buffer, s.lastRead, 0, n);
    if Unread(s) <= 1023 {
      assert n == Unread(s) by { CountIs(|s.read|, |s.written|); }
      SlotsUnread(s, 0);
    }
  }

  // ---- the code on the array ----

  lemma Distance(r: nat, w: nat)
    requires r < 1024 && w < 1024 && r != w
    ensures (w - r) % 1024 == if r > w then (1023 - r) + w + 1 else w - r
    ensures (r + (w - r) % 1024) % 1024 == w
  {
  }

  lemma SameAfter(r: nat, w: nat)
    ensures (r + (w % 1024 - r % 1024) % 1024) % 1024 == w % 1024
  {
  }

  lemma ReadAll(s: Ring, out: seq<Sample>)
    requires Tracks(s) && out == ReadAtOnce(s)
    ensures |out| == (s.lastWrite - s.lastRead) % 1024
    ensures Tracks(s.(lastRead := s.lastWrite, read := s.read + out))
    ensures s.read <= s.written && Unread(s) <= 1023 ==> s.read + out == s.written
  {
    SlotsLength(s.buffer, s.lastRead, 0, (s.lastWrite - s.lastRead) % 1024);
    SameAfter(|s.read|, |s.written|);
    assert |s.read + out| == |s.read| + (s.lastWrite - s.lastRead) % 1024;
    if s.read <= s.written {
      ReadAtOnceExact(s);
    }
  }

  class Device {
    const buffer: array<Sample>
    var lastRead: int
    var lastWrite: int
    ghost var written: seq<Sample>
    ghost var read: seq<Sample>

    ghost function View(): Ring
      reads this, buffer
    {
      Ring(buffer[..], lastRead, lastWrite, Entry, written, read)
    }

    constructor (fill: Sample)
      ensures fresh(buffer) && Inv(View()) && written == [] && read == []
    {
      buffer := new Sample[1024](_ => fill);
      lastRead, lastWrite, written, read := 0, 0, [], [];
    }

    /** write_to_buffer, called by the interrupt. */
    method WriteToBuffer(x: Sample)
      requires Tracks(View())
      modifies this`lastWrite, this`written, buffer
      ensures View() == Write(old(View()), x) && Tracks(View())
    {
      WriteKeepsTracks(View(), x);
      lastWrite := (lastWrite + 1) % 1024;
      buffer[lastWrite] := x;
      written := written + [x];
    }

    /** The copying loop of read_nsamples. */
    method CopySlots(n: nat) returns (out: seq<Sample>)
      requires buffer.Length == 1024
      ensures out == Slots(buffer[..], lastRead, 0, n)
    {
      out := [];
      for i := 0 to n
        invariant out + Slots(buffer[..], lastRead, i, n) == Slots(buffer[..], lastRead, 0, n)
      {
        out := out + [buffer[(lastRead + 1 + i) % 1024]];
      }
    }

    /** read_nsamples without interruption; `granted` tells whether the allocation succeeds. */
    method ReadNSamples(granted: bool) returns (out: seq<Sample>)
      requires Tracks(View())
      modifies this`lastRead, this`read
      ensures Tracks(View()) && read == old(read) + out
      ensures !granted ==> out == [] && lastRead == old(lastRead)
      ensures granted ==> out == ReadAtOnce(old(View())) && lastWrite == lastRead
      ensures granted && old(read <= written && Unread(View()) <= 1023) ==> read == written
    {
      ghost var was := View();
      if lastRead == lastWrite {
        out := [];
        ReadAll(was, out);
        return;
      }
      if !granted {
        return [];
      }
      var n := if lastRead > lastWrite then (1023 - lastRead) + lastWrite + 1 else lastWrite - lastRead;
      Distance(lastRead, lastWrite);
      out := CopySlots(n);
      ReadAll(was, out);
      lastRead := (lastRead + n) % 1024;
      read := read + out;
    }
  }
}
