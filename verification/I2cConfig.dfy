/** The I2C configurator of the audio interface, clock by clock, for any register table, and a
    bus monitor that decodes what it puts on SCLK and SDAT. */
module I2cConfig {

  /** Eight bits indexed as in the source, 7 being the most significant. */
  type Vector = v: seq<bool> | |v| == 8 witness seq(8, _ => false)

  /** The device address and the register and data tables, one entry per word to send. */
  datatype Setup = Setup(address: Vector, reg: seq<Vector>, dat: seq<Vector>) {
    /** The index of the last word. */
    function WordLimit(): int {
      |reg| - 1
    }

    predicate Ok() {
      |reg| == |dat| && reg != []
    }
  }

  /** What drives the data line: a level, or nothing, which leaves it to the other side. */
  datatype Level = Low | High | Z

  function ToLevel(b: bool): Level { if b then High else Low }

  /** The states in bus order: Slot(0) to Slot(7) are b0 to b7, Slot(8) is b_ack, Slot(9) to
      Slot(17) are a0 to a_ack, Slot(18) to Slot(26) are d0 to d_ack. */
  datatype Phase = Initialize | Start | Slot(j: nat) | Stop0 | Stop1 | End

  const SLOTS := 27

  datatype Machine = Machine(counter: nat, sck0: bool, sck1: bool, phase: Phase, words: nat)

  function Reset(): Machine {
    Machine(0, false, false, Initialize, 0)
  }

  // ---- Outputs ----

  predicate Inhibited(p: Phase) {
    p == Stop1 || p == End
  }

  predicate Sclk(m: Machine) {
    m.counter >= 512 || Inhibited(m.phase)
  }

  /** The bit of the frame for word k that slot j sends; the acknowledge slots let go. */
  function FrameBit(s: Setup, k: nat, j: nat): Level
    requires s.Ok() && k < |s.reg| && j < SLOTS
  {
    if j == 8 || j == 17 || j == 26 then Z
    else if j < 8 then ToLevel(s.address[7 - j])
    else if j < 17 then ToLevel(s.reg[k][16 - j])
    else ToLevel(s.dat[k][25 - j])
  }

  function Sdat(s: Setup, m: Machine): Level
    requires s.Ok()
  {
    match m.phase
    case Initialize | Stop1 | End => High
    case Start | Stop0 => Low
    case Slot(j) => if m.words < |s.reg| && j < SLOTS then FrameBit(s, m.words, j) else Z
  }

  // ---- One clock ----

  function NextPhase(s: Setup, m: Machine): Phase {
    var falling := !m.sck0 && m.sck1;
    match m.phase
    case Initialize => if Sclk(m) then Start else Initialize
    case Start => if falling then Slot(0) else Start
    case Slot(j) =>
      if !falling then m.phase
      else if j < 26 then Slot(j + 1)
      else if m.words == s.WordLimit() + 1 then Stop0 else Initialize
    case Stop0 => if Sclk(m) then Stop1 else Stop0
    case Stop1 | End => End
  }

  function Clock(s: Setup, m: Machine): Machine {
    var n := Machine((m.counter + 1) % 1024, Sclk(m), m.sck0, NextPhase(s, m), m.words);
    // The word counter is clocked by falling edges of SCLK while in d_ack, and held at zero at
    // the end.
    if n.phase == End then n.(words := 0)
    else if Sclk(m) && !Sclk(n) && n.phase == Slot(26) then n.(words := m.words + 1)
    else n
  }

  // ---- The bus monitor ----

  datatype Event = StartCondition | StopCondition | Bit(v: Level) | Glitch

  datatype Pending = None | Some(v: Level)

  /** The last sample, the bit being clocked, and everything decoded so far. */
  datatype Monitor = Monitor(scl: bool, sda: Level, bit: Pending, events: seq<Event>)

  /** A bit is sampled on the rising edge and counts on the falling edge; a change while the clock
      is high is a start or a stop and voids the bit. */
  function Observe(b: Monitor, scl: bool, sda: Level): Monitor {
    if !b.scl && scl then Monitor(scl, sda, Some(sda), b.events)
    else if b.scl && scl && sda != b.sda then
      Monitor(scl, sda, None, b.events + [
        if b.sda == High && sda == Low then StartCondition
        else if b.sda == Low && sda == High then StopCondition else Glitch])
    else if b.scl && !scl then
      Monitor(scl, sda, None, if b.bit.Some? then b.events + [Bit(b.bit.v)] else b.events)
    else Monitor(scl, sda, b.bit, b.events)
  }

  /** The machine t clocks after reset, and the monitor having watched up to that instant. */
  function Run(s: Setup, t: nat): (Machine, Monitor)
    requires s.Ok()
  {
    if t == 0 then (Reset(), Monitor(false, High, None, []))
    else
      var (m, b) := Run(s, t - 1);
      var m' := Clock(s, m);
      (m', Observe(b, Sclk(m'), Sdat(s, m')))
  }

  // ---- What should be seen ----

  /** The first n bits of the frame for word k: address, register, data, each most significant bit
      first and followed by an acknowledge. */
  function FrameBits(s: Setup, k: nat, n: nat): (e: seq<Event>)
    requires s.Ok() && k < |s.reg| && n <= SLOTS
    ensures |e| == n
  {
    seq(n, j requires 0 <= j < n => Bit(FrameBit(s, k, j)))
  }

  function Frames(s: Setup, k: nat): seq<Event>
    requires s.Ok() && k <= |s.reg|
  {
    if k == 0 then [] else Frames(s, k - 1) + [StartCondition] + FrameBits(s, k - 1, SLOTS)
  }

  /** All frames, then a stop. */
  function Conversation(s: Setup): seq<Event>
    requires s.Ok()
  {
    Frames(s, |s.reg|) + [StopCondition]
  }

  const SLOT_CLOCKS := 1024
  const FRAME_SLOTS := 28

  /** When the configurator has finished. */
  function Finish(s: Setup): nat {
    SLOT_CLOCKS * (FRAME_SLOTS * |s.reg|) + 513
  }
}
