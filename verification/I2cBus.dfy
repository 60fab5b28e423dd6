/** What a listener on the bus sees from reset on, whatever the tables hold. */
module I2cBus {
  import opened I2cConfig

  /** The sampled clocks lag SCLK by one and two clocks. */
  predicate Sampled(m: Machine) {
    (m.sck0 <==> m.counter == 0 || m.counter > 512) && (m.sck1 <==> m.counter <= 1 || m.counter > 513)
  }

  /** The word being sent: the word counter has already moved on at the end of d_ack. */
  function Word(m: Machine): int {
    if m.phase == Slot(26) && m.counter <= 1 then m.words - 1 else m.words
  }

  /** The SCLK period of the run that the machine is in, from its state. */
  function Period(m: Machine): int {
    match m.phase
    case Initialize | Stop0 | Stop1 => FRAME_SLOTS * m.words
    case Start => FRAME_SLOTS * m.words + if m.counter <= 1 then 1 else 0
    case Slot(j) => FRAME_SLOTS * Word(m) + 1 + j + if m.counter <= 1 then 1 else 0
    case End => 0
  }

  /** Where in its period each state can be. */
  predicate Placed(s: Setup, m: Machine)
    requires s.Ok()
  {
    && m.counter < 1024
    && match m.phase
       case Initialize => m.words < |s.reg| && m.counter <= 512 && (m.words == 0 || m.counter >= 2) && !m.sck0
       case Start => m.words < |s.reg| && (m.counter <= 1 || m.counter >= 513) && Sampled(m)
       case Slot(j) => j < SLOTS && 0 <= Word(m) < |s.reg| && Sampled(m)
       case Stop0 => m.words == |s.reg| && 2 <= m.counter <= 512
       case Stop1 => m.words == |s.reg| && m.counter == 513
       case End => m.words == 0
  }

  /** What has been decoded by then. */
  function Decoded(s: Setup, m: Machine): seq<Event>
    requires s.Ok() && Placed(s, m)
  {
    match m.phase
    case Initialize | Stop0 => Frames(s, m.words)
    case Start => Frames(s, m.words) + [StartCondition]
    case Slot(j) =>
      Frames(s, Word(m)) + [StartCondition] + FrameBits(s, Word(m), if m.counter <= 1 then j + 1 else j)
    case Stop1 | End => Conversation(s)
  }

  function PendingBit(s: Setup, m: Machine): Pending
    requires s.Ok()
  {
    if m.phase == Initialize || m.phase == Stop0 then (if m.counter == 512 then Some(Sdat(s, m)) else None)
    else if m.phase.Slot? && m.counter >= 512 then Some(Sdat(s, m))
    else None
  }

  /** The state of machine and monitor at clock t. */
  ghost predicate OnSchedule(s: Setup, t: nat, m: Machine, b: Monitor)
    requires s.Ok()
  {
    && Placed(s, m)
    && (if m.phase == End then t > Finish(s) else t == SLOT_CLOCKS * Period(m) + m.counter)
    && b == Monitor(Sclk(m), Sdat(s, m), PendingBit(s, m), Decoded(s, m))
  }

  lemma FrameGrows(s: Setup, k: nat, n: nat)
    requires s.Ok() && k < |s.reg| && n < SLOTS
    ensures Frames(s, k) + [StartCondition] + FrameBits(s, k, n + 1)
            == (Frames(s, k) + [StartCondition] + FrameBits(s, k, n)) + [Bit(FrameBit(s, k, n))]
  {
  }

  lemma StepInitialize(s: Setup, t: nat, m: Machine, b: Monitor)
    requires s.Ok() && OnSchedule(s, t, m, b) && (m.phase == Initialize || m.phase == Start)
    ensures var m' := Clock(s, m); OnSchedule(s, t + 1, m', Observe(b, Sclk(m'), Sdat(s, m')))
  {
  }

  lemma StepSlot(s: Setup, t: nat, m: Machine, b: Monitor)
    requires s.Ok() && OnSchedule(s, t, m, b) && m.phase.Slot?
    ensures var m' := Clock(s, m); OnSchedule(s, t + 1, m', Observe(b, Sclk(m'), Sdat(s, m')))
  {
    var m' := Clock(s, m);
    if m.counter == 1023 {
      FrameGrows(s, m.words, m.phase.j);
    }
  }

  lemma StepStop(s: Setup, t: nat, m: Machine, b: Monitor)
    requires s.Ok() && OnSchedule(s, t, m, b) && m.phase in {Stop0, Stop1, End}
    ensures var m' := Clock(s, m); OnSchedule(s, t + 1, m', Observe(b, Sclk(m'), Sdat(s, m')))
  {
  }

  lemma {:induction false} AlwaysOnSchedule(s: Setup, t: nat)
    requires s.Ok()
    ensures OnSchedule(s, t, Run(s, t).0, Run(s, t).1)
  {
    if t > 0 {
      AlwaysOnSchedule(s, t - 1);
      var (m, b) := Run(s, t - 1);
      match m.phase
      case Initialize | Start => StepInitialize(s, t - 1, m, b);
      case Slot(_) => StepSlot(s, t - 1, m, b);
      case Stop0 | Stop1 | End => StepStop(s, t - 1, m, b);
    }
  }

  // ---- Promises ----

  /** From a known instant on the listener has seen every frame, in order, then one stop, and the
      bus stays idle with both lines high for ever. */
  lemma WholeConversation(s: Setup, t: nat)
    requires s.Ok() && t >= Finish(s)
    ensures Run(s, t).1.events == Conversation(s)
    ensures Sclk(Run(s, t).0) && Sdat(s, Run(s, t).0) == High
  {
    AlwaysOnSchedule(s, t);
  }

  lemma {:induction false} FramesExtend(s: Setup, k: nat, n: nat)
    requires s.Ok() && k <= n <= |s.reg|
    ensures Frames(s, k) <= Frames(s, n)
    decreases n - k
  {
    if k < n {
      FramesExtend(s, k, n - 1);
    }
  }

  /** At every instant what has been seen is a beginning of that conversation: nothing else is
      ever on the bus, no glitch, no stray bit, no extra start or stop. */
  lemma OnlyTheConversation(s: Setup, t: nat)
    requires s.Ok()
    ensures Run(s, t).1.events <= Conversation(s)
  {
    AlwaysOnSchedule(s, t);
    var m := Run(s, t).0;
    match m.phase
    case Initialize | Stop0 => FramesExtend(s, m.words, |s.reg|);
    case Start => FrameBegun(s, m.words, 0);
    case Slot(j) => FrameBegun(s, Word(m), if m.counter <= 1 then j + 1 else j);
    case Stop1 | End =>
  }

  lemma FrameBegun(s: Setup, k: nat, n: nat)
    requires s.Ok() && k < |s.reg| && n <= SLOTS
    ensures Frames(s, k) + [StartCondition] + FrameBits(s, k, n) <= Conversation(s)
    ensures Frames(s, k) + [StartCondition] <= Conversation(s)
  {
    assert FrameBits(s, k, n) <= FrameBits(s, k, SLOTS);
    FramesExtend(s, k + 1, |s.reg|);
    assert Frames(s, k) + [StartCondition] + FrameBits(s, k, n) <= Frames(s, k + 1);
    assert Frames(s, k + 1) <= Conversation(s);
  }

  /** The data line changes while the clock is high only for a start, falling, or the stop,
      rising; the tables are only ever indexed within bounds. */
  lemma DataStableWhileClockHigh(s: Setup, t: nat)
    requires s.Ok()
    ensures var m, n := Run(s, t).0, Run(s, t + 1).0;
            Sclk(m) && Sclk(n) && Sdat(s, m) != Sdat(s, n) ==>
              (m.phase == Initialize && n.phase == Start) || (m.phase == Stop0 && n.phase == Stop1)
    ensures var m := Run(s, t).0;
            m.phase.Slot? && m.phase.j < 26 ==> m.words < |s.reg|
  {
    AlwaysOnSchedule(s, t);
    AlwaysOnSchedule(s, t + 1);
  }
}
