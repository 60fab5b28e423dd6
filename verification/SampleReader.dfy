/** The sound sample reader: one step through the sample memory per pulse of the audio clock. */
module SampleReader {
  import opened Arithmetic

  const ADDRESSES := 0x10_0000

  datatype Phase = RL_0 | RR_0 | RL_1 | RR_1 | Idle

  type Memory = m: seq<int> | |m| == ADDRESSES witness seq(ADDRESSES, _ => 0)

  type Address = a: int | 0 <= a < ADDRESSES

  /** `buffer` is the register between the asynchronous memory and the synchronous side. */
  datatype Reader = Reader(addr: Address, current: Phase, occurredOnce: bool, buffer: int, left: int, right: int)

  function Next(s: Reader, audClk: bool): Phase {
    match s.current
    case Idle => if audClk && !s.occurredOnce then RL_0 else Idle
    case RL_0 => RL_1
    case RL_1 => RR_0
    case RR_0 => RR_1
    case RR_1 => Idle
  }

  /** One rising edge of CLK. Of several assignments to a register the last one counts, so RESET
      clears the address and the flag only where nothing later sets them, and never the phase. */
  function Edge(mem: Memory, s: Reader, reset: bool, audClk: bool): Reader {
    Reader(
      if s.current == RL_1 then (s.addr + 1) % ADDRESSES else if reset then 0 else s.addr,
      Next(s, audClk),
      s.current == RL_0 || (!reset && audClk && s.occurredOnce),
      mem[s.addr],
      if s.current == RL_1 then s.buffer else s.left,
      if s.current == RR_1 then s.buffer else s.right)
  }

  function Clock(mem: Memory, s: Reader, audClk: bool): Reader {
    Edge(mem, s, false, audClk)
  }

  /** The reader after a stretch of the audio clock, sampled at each edge of CLK. */
  function Run(mem: Memory, start: Reader, wave: seq<bool>): Reader {
    if wave == [] then start
    else Clock(mem, Run(mem, start, wave[..|wave| - 1]), wave[|wave| - 1])
  }

  /** The same with RESET held. */
  function ResetRun(mem: Memory, start: Reader, wave: seq<bool>): Reader {
    if wave == [] then start
    else Edge(mem, ResetRun(mem, start, wave[..|wave| - 1]), true, wave[|wave| - 1])
  }

  /** How long the audio clock has been high at the end of the stretch. */
  function HighFor(wave: seq<bool>): nat {
    if wave == [] || !wave[|wave| - 1] then 0 else HighFor(wave[..|wave| - 1]) + 1
  }

  /** Pulses begun so far. */
  function Pulses(wave: seq<bool>): nat {
    if wave == [] then 0
    else
      var before := wave[..|wave| - 1];
      Pulses(before) + if wave[|wave| - 1] && HighFor(before) == 0 then 1 else 0
  }

  /** No pulse has ended before its m-th clock. */
  predicate PulsesLast(wave: seq<bool>, m: nat) {
    wave == [] ||
    var before := wave[..|wave| - 1];
    PulsesLast(before, m) && (!wave[|wave| - 1] ==> HighFor(before) == 0 || HighFor(before) >= m)
  }

  lemma Extend(mem: Memory, start: Reader, wave: seq<bool>, audClk: bool)
    ensures Run(mem, start, wave + [audClk]) == Clock(mem, Run(mem, start, wave), audClk)
    ensures ResetRun(mem, start, wave + [audClk]) == Edge(mem, ResetRun(mem, start, wave), true, audClk)
    ensures Pulses(wave + [audClk]) == Pulses(wave) + if audClk && HighFor(wave) == 0 then 1 else 0
    ensures HighFor(wave + [audClk]) == if audClk then HighFor(wave) + 1 else 0
    ensures forall m: nat :: PulsesLast(wave + [audClk], m) <==>
              PulsesLast(wave, m) && (!audClk ==> HighFor(wave) == 0 || HighFor(wave) >= m)
  {
    assert (wave + [audClk])[..|wave|] == wave;
  }

  // ---- Counting pulses ----

  predicate At(s: Reader, addr: int, phase: Phase, occurredOnce: bool) {
    s.addr == addr && s.current == phase && s.occurredOnce == occurredOnce
  }

  /** What RESET is meant to leave. */
  predicate IsReset(s: Reader) {
    At(s, 0, Idle, false)
  }

  /** The states that can begin a count: also those in which the second half of a read is still to
      finish. */
  predicate Ready(s: Reader) {
    s.addr == 0 && !s.occurredOnce && s.current in {RR_0, RR_1, Idle}
  }

  /** The control state when the k-th pulse is in progress and the reader answered it `since` clocks
      ago; at 0 and below it is still finishing the read before. */
  predicate Answering(s: Reader, since: int, k: nat) {
    && k > 0
    && s.addr == (if since <= 2 then k - 1 else k) % ADDRESSES
    && s.current == (if since == -1 then RR_1 else if since == 1 then RL_0 else if since == 2 then RL_1
                     else if since == 3 then RR_0 else if since == 4 then RR_1 else Idle)
    && (s.occurredOnce <==> since >= 2)
  }

  /** The control state at age `age` of the k-th pulse, 0 between pulses: the reader lags behind by at
      most two clocks. */
  predicate OnCount(s: Reader, age: nat, k: nat) {
    if age == 0 then s.addr == k % ADDRESSES && !s.occurredOnce && s.current in {RR_0, RR_1, Idle}
    else Answering(s, age, k) || Answering(s, age - 1, k) || Answering(s, age - 2, k)
  }

  /** For every waveform whose pulses last at least four clocks, and every state that can begin a
      count: the reader steps exactly once a pulse. From the state RESET is meant to leave the whole
      control state follows from the number of pulses and the age of the present one. */
  lemma {:induction false} OneStepPerPulse(mem: Memory, start: Reader, wave: seq<bool>)
    requires Ready(start) && PulsesLast(wave, 4)
    ensures OnCount(Run(mem, start, wave), HighFor(wave), Pulses(wave))
    ensures var s, age, k := Run(mem, start, wave), HighFor(wave), Pulses(wave);
            IsReset(start) ==>
              && (age > 0 ==> k > 0)
              && s.addr == (if age == 1 || age == 2 then k - 1 else k) % ADDRESSES
              && s.current == (if age == 1 then RL_0 else if age == 2 then RL_1
                               else if age == 3 then RR_0 else if age == 4 then RR_1 else Idle)
              && (s.occurredOnce <==> age >= 2)
    decreases |wave|
  {
    if wave != [] {
      OneStepPerPulse(mem, start, wave[..|wave| - 1]);
    }
  }

  /** Steps taken. */
  function Steps(mem: Memory, start: Reader, wave: seq<bool>): nat {
    if wave == [] then 0
    else
      var before := wave[..|wave| - 1];
      Steps(mem, start, before) + if Run(mem, start, before).current == RL_1 then 1 else 0
  }

  /** The number of the last pulse whose right word, or left word, has arrived. */
  function RightFrom(age: nat, k: nat): int {
    if 1 <= age <= 4 then k - 1 else k
  }

  function LeftFrom(age: nat, k: nat): int {
    if 1 <= age <= 2 then k - 1 else k
  }

  /** The left word of the first step: a read in progress at the start has it in the buffer already. */
  function FirstWord(mem: Memory, start: Reader): int {
    if start.current == RL_1 then start.buffer else mem[start.addr]
  }

  /** From any state at all and for any waveform, each step delivers the word at the old address on the
      left and, two clocks later, the word at the new address on the right: each word is heard on the
      right first and a step later on the left. From the state RESET is meant to leave, with pulses of
      at least four clocks, pulse k delivers words k - 1 and k. */
  lemma {:induction false} WordsDelivered(mem: Memory, start: Reader, wave: seq<bool>)
    ensures var s, n := Run(mem, start, wave), Steps(mem, start, wave);
            var r := if s.current == RR_0 || s.current == RR_1 then n - 1 else n;
            && s.addr == (start.addr + n) % ADDRESSES
            && (n > 0 ==> s.left == if n == 1 then FirstWord(mem, start) else mem[(start.addr + n - 1) % ADDRESSES])
            && (r > 0 ==> s.right == mem[(start.addr + r) % ADDRESSES])
    ensures var s, age, k := Run(mem, start, wave), HighFor(wave), Pulses(wave);
            IsReset(start) && PulsesLast(wave, 4) ==>
              && (wave != [] ==> s.buffer == mem[(if 1 <= age <= 3 then k - 1 else k) % ADDRESSES])
              && (LeftFrom(age, k) > 0 ==> s.left == mem[(LeftFrom(age, k) - 1) % ADDRESSES])
              && (RightFrom(age, k) > 0 ==> s.right == mem[RightFrom(age, k) % ADDRESSES])
  {
    AnyWords(mem, start, wave);
    if IsReset(start) && PulsesLast(wave, 4) {
      PulseWords(mem, start, wave);
    }
  }

  /** The data registers after n steps from address `from`; the right word of the last step is on its
      way in RR_0 and RR_1. */
  predicate Words(mem: Memory, from: Address, first: int, s: Reader, n: nat) {
    && s.addr == (from + n) % ADDRESSES
    && (s.current == RL_1 ==> s.buffer == if n == 0 then first else mem[s.addr])
    && (s.current == RL_0 && n == 0 ==> first == mem[from])
    && (s.current == RR_1 && n > 0 ==> s.buffer == mem[s.addr])
    && (n > 0 ==> s.left == if n == 1 then first else mem[(from + n - 1) % ADDRESSES])
    && var r := if s.current == RR_0 || s.current == RR_1 then n - 1 else n;
       r > 0 ==> s.right == mem[(from + r) % ADDRESSES]
  }

  lemma WordsStep(mem: Memory, from: Address, first: int, s: Reader, n: nat, audClk: bool)
    requires Words(mem, from, first, s, n) && (s.current == RL_1 || first == mem[from] || n > 0)
    ensures var t, k := Clock(mem, s, audClk), if s.current == RL_1 then n + 1 else n;
            Words(mem, from, first, t, k) && (t.current == RL_1 || first == mem[from] || k > 0)
  {
  }

  lemma {:induction false} AnyWords(mem: Memory, start: Reader, wave: seq<bool>)
    ensures var s, n := Run(mem, start, wave), Steps(mem, start, wave);
            && Words(mem, start.addr, FirstWord(mem, start), s, n)
            && (s.current == RL_1 || FirstWord(mem, start) == mem[start.addr] || n > 0)
    decreases |wave|
  {
    if wave != [] {
      var before := wave[..|wave| - 1];
      AnyWords(mem, start, before);
      WordsStep(mem, start.addr, FirstWord(mem, start), Run(mem, start, before), Steps(mem, start, before),
                wave[|wave| - 1]);
    }
  }

  lemma {:induction false} PulseWords(mem: Memory, start: Reader, wave: seq<bool>)
    requires IsReset(start) && PulsesLast(wave, 4)
    ensures var s, age, k := Run(mem, start, wave), HighFor(wave), Pulses(wave);
            && (wave != [] ==> s.buffer == mem[(if 1 <= age <= 3 then k - 1 else k) % ADDRESSES])
            && (LeftFrom(age, k) > 0 ==> s.left == mem[(LeftFrom(age, k) - 1) % ADDRESSES])
            && (RightFrom(age, k) > 0 ==> s.right == mem[RightFrom(age, k) % ADDRESSES])
    decreases |wave|
  {
    if wave != [] {
      OneStepPerPulse(mem, start, wave[..|wave| - 1]);
      PulseWords(mem, start, wave[..|wave| - 1]);
    }
  }

  // ---- Exactly when the count is right ----

  /** The audio clock has been low long enough for the reader to be idle again. */
  predicate Settled(wave: seq<bool>) {
    |wave| >= 5 && forall i | |wave| - 5 <= i < |wave| :: !wave[i]
  }

  function Lows(n: nat): seq<bool> {
    seq(n, _ => false)
  }

  /** Low stretches add no pulse and end none early. */
  lemma {:induction false} Quiet(mem: Memory, start: Reader, wave: seq<bool>, m: nat, n: nat)
    requires PulsesLast(wave, m) && (HighFor(wave) == 0 || HighFor(wave) >= m)
    ensures var w := wave + Lows(n);
            PulsesLast(w, m) && Pulses(w) == Pulses(wave) && (n > 0 || HighFor(wave) == 0 ==> HighFor(w) == 0)
    decreases n
  {
    if n == 0 {
      assert wave + Lows(0) == wave;
    } else {
      Extend(mem, start, wave, false);
      Quiet(mem, start, wave + [false], m, n - 1);
      assert wave + Lows(n) == (wave + [false]) + Lows(n - 1);
    }
  }

  /** The address the reader is bound for if no other pulse comes. */
  function Bound(s: Reader): Address {
    (s.addr + if s.current == RL_0 || s.current == RL_1 then 1 else 0) % ADDRESSES
  }

  /** Clocks until the reader is idle, the audio clock being low. */
  function ToIdle(s: Reader): nat {
    match s.current case RL_0 => 4 case RL_1 => 3 case RR_0 => 2 case RR_1 => 1 case Idle => 0
  }

  lemma LowStep(mem: Memory, s: Reader)
    ensures var t := Clock(mem, s, false);
            && Bound(t) == Bound(s) && ToIdle(t) == (if ToIdle(s) > 0 then ToIdle(s) - 1 else 0)
            && (t.occurredOnce <==> s.current == RL_0)
  {
  }

  lemma {:induction false} LeftAlone(mem: Memory, start: Reader, wave: seq<bool>, n: nat)
    ensures var s, t := Run(mem, start, wave), Run(mem, start, wave + Lows(n));
            && Bound(t) == Bound(s)
            && (n >= ToIdle(s) ==> ToIdle(t) == 0 && t.addr == Bound(s))
            && (n > 0 && n >= ToIdle(s) ==> !t.occurredOnce)
    decreases n
  {
    if n == 0 {
      assert wave + Lows(0) == wave;
    } else {
      Extend(mem, start, wave, false);
      LowStep(mem, Run(mem, start, wave));
      LeftAlone(mem, start, wave + [false], n - 1);
      assert wave + Lows(n) == (wave + [false]) + Lows(n - 1);
    }
  }

  /** Three clocks high, one low. */
  const PULSE := [true, true, true, false]

  function Four(mem: Memory, s: Reader): Reader {
    Clock(mem, Clock(mem, Clock(mem, Clock(mem, s, true), true), true), false)
  }

  lemma OnePulse(mem: Memory, start: Reader, wave: seq<bool>)
    requires HighFor(wave) == 0 && PulsesLast(wave, 3)
    ensures HighFor(wave + PULSE) == 0 && PulsesLast(wave + PULSE, 3) && Pulses(wave + PULSE) == Pulses(wave) + 1
    ensures Run(mem, start, wave + PULSE) == Four(mem, Run(mem, start, wave))
  {
    Extend(mem, start, wave, true);
    Extend(mem, start, wave + [true], true);
    Extend(mem, start, wave + [true] + [true], true);
    Extend(mem, start, wave + [true] + [true] + [true], false);
    assert wave + PULSE == wave + [true] + [true] + [true] + [false];
  }

  /** Each such pulse finds the reader one clock further behind, until one goes by unanswered. */
  lemma FallsBehind(mem: Memory, s: Reader)
    ensures At(s, 0, Idle, false) ==> At(Four(mem, s), 1, RR_1, false)
    ensures At(s, 1, RR_1, false) ==> At(Four(mem, s), 2, RR_0, false)
    ensures At(s, 2, RR_0, false) ==> At(Four(mem, s), 2, RL_1, true)
    ensures At(s, 2, RL_1, true) ==> At(Four(mem, s), 3, Idle, false)
  {
  }

  lemma FourPulses(mem: Memory, start: Reader, w: seq<bool>)
    requires HighFor(w) == 0 && PulsesLast(w, 3) && At(Run(mem, start, w), 0, Idle, false)
    ensures var w4 := w + PULSE + PULSE + PULSE + PULSE;
            && HighFor(w4) == 0 && PulsesLast(w4, 3) && Pulses(w4) == Pulses(w) + 4
            && At(Run(mem, start, w4), 3, Idle, false)
  {
    OnePulse(mem, start, w);
    FallsBehind(mem, Run(mem, start, w));
    OnePulse(mem, start, w + PULSE);
    FallsBehind(mem, Run(mem, start, w + PULSE));
    OnePulse(mem, start, w + PULSE + PULSE);
    FallsBehind(mem, Run(mem, start, w + PULSE + PULSE));
    OnePulse(mem, start, w + PULSE + PULSE + PULSE);
    FallsBehind(mem, Run(mem, start, w + PULSE + PULSE + PULSE));
  }

  /** Of four pulses three clocks long, one clock apart, the last begins while the reader is still
      busy with the one before, ends before it looks again, and is never answered. */
  lemma ShortPulseLost(mem: Memory, start: Reader) returns (wave: seq<bool>)
    requires Ready(start)
    ensures wave == Lows(4) + PULSE + PULSE + PULSE + PULSE + Lows(6)
    ensures Settled(wave) && PulsesLast(wave, 3) && Pulses(wave) == 4
    ensures At(Run(mem, start, wave), 3, Idle, false)
  {
    Quiet(mem, start, [], 3, 4);
    LeftAlone(mem, start, [], 4);
    assert [] + Lows(4) == Lows(4);
    FourPulses(mem, start, Lows(4));
    var pulses := Lows(4) + PULSE + PULSE + PULSE + PULSE;
    Quiet(mem, start, pulses, 3, 6);
    LeftAlone(mem, start, pulses, 6);
    wave := pulses + Lows(6);
  }

  lemma {:induction false} Weaker(wave: seq<bool>, m: nat, n: nat)
    requires PulsesLast(wave, n) && m <= n
    ensures PulsesLast(wave, m)
    decreases |wave|
  {
    if wave != [] {
      Weaker(wave[..|wave| - 1], m, n);
    }
  }

  /** The reader kept count on a waveform, if all its pulses last m clocks and it has settled. */
  ghost predicate KeepsCount(mem: Memory, start: Reader, wave: seq<bool>, m: nat) {
    Settled(wave) && PulsesLast(wave, m) ==> Run(mem, start, wave).addr == Pulses(wave) % ADDRESSES
  }

  /** Bound for address 0, but not going to answer a pulse that begins now. */
  predicate Deaf(s: Reader) {
    Bound(s) == 0 && (s.current == RL_0 || s.occurredOnce)
  }

  lemma {:induction false} StaysDeaf(mem: Memory, start: Reader, m: nat, n: nat)
    requires Deaf(start)
    ensures var w := seq(n, _ => true);
            Deaf(Run(mem, start, w)) && HighFor(w) == n && PulsesLast(w, m) && Pulses(w) == if n > 0 then 1 else 0
    decreases n
  {
    if n > 0 {
      StaysDeaf(mem, start, m, n - 1);
      Extend(mem, start, seq(n - 1, _ => true), true);
      assert seq(n, _ => true) == seq(n - 1, _ => true) + [true];
    }
  }

  /** A state that cannot begin a count goes wrong on one pulse or none, however long it lasts. */
  lemma Miscount(mem: Memory, start: Reader, m: nat) returns (wave: seq<bool>)
    requires !Ready(start) && (start.current == RL_1 ==> start.occurredOnce)
    ensures !KeepsCount(mem, start, wave, m) && Pulses(wave) <= 1
  {
    var n := if Bound(start) == 0 then m + 1 else 0;
    var highs := seq(n, _ => true);
    if n > 0 {
      StaysDeaf(mem, start, m, n);
    } else {
      assert highs == [];
    }
    wave := highs + Lows(5);
    Quiet(mem, start, highs, m, 5);
    LeftAlone(mem, start, highs, 5);
  }

  /** Exactly when the reader keeps count: from any state an edge can leave, it steps once per pulse on
      every settled waveform whose pulses last at least m clocks if and only if the state can begin a
      count and m is at least four. */
  lemma FourClocksIff(mem: Memory, start: Reader, m: nat)
    requires start.current == RL_1 ==> start.occurredOnce
    ensures (forall wave :: KeepsCount(mem, start, wave, m)) <==> Ready(start) && m >= 4
  {
    if !Ready(start) {
      var wave := Miscount(mem, start, m);
    } else if m >= 4 {
      forall wave ensures KeepsCount(mem, start, wave, m) {
        if Settled(wave) && PulsesLast(wave, m) {
          Weaker(wave, 4, m);
          OneStepPerPulse(mem, start, wave);
        }
      }
    } else {
      var wave := ShortPulseLost(mem, start);
      Weaker(wave, m, 3);
      assert !KeepsCount(mem, start, wave, m);
    }
  }

  // ---- What RESET leaves ----

  /** An edge with RESET leaves a state that can begin a count exactly if it lands in Idle or RR_1, or
      takes a step from the last address; and every edge leaves one that FourClocksIff speaks of. */
  lemma ReleasedIff(mem: Memory, s: Reader, reset: bool, audClk: bool)
    ensures var t := Edge(mem, s, reset, audClk); t.current == RL_1 ==> t.occurredOnce
    ensures Ready(Edge(mem, s, true, audClk)) <==>
              Next(s, audClk) in {Idle, RR_1} || (s.current == RL_1 && s.addr == ADDRESSES - 1)
    ensures IsReset(Edge(mem, s, true, audClk)) <==> Next(s, audClk) == Idle
  {
  }

  /** RESET held for n clocks with the audio clock low. */
  lemma {:induction false} LowReset(mem: Memory, s: Reader, n: nat)
    ensures var t := ResetRun(mem, s, Lows(n));
            && ToIdle(t) == (if ToIdle(s) > n then ToIdle(s) - n else 0)
            && (n > 0 && ToIdle(t) <= 1 ==> Ready(t))
            && (n > 0 && ToIdle(t) == 0 ==> IsReset(t))
            && (n > 0 && ToIdle(t) == 3 ==> t.current == RL_1)
            && (n > 1 && ToIdle(t) == 2 && ToIdle(s) == 4 ==> t.addr == 1)
  {
    if n > 0 {
      LowReset(mem, s, n - 1);
      Extend(mem, s, Lows(n - 1), false);
      assert Lows(n) == Lows(n - 1) + [false];
      if n == 2 && s.current == RL_0 {
        LowReset(mem, s, 0);
        Extend(mem, s, Lows(0), false);
        assert Lows(1) == Lows(0) + [false];
      }
    }
  }

  /** Exactly how long RESET must be held with the audio clock low: three clocks for a right count from
      whatever state, four for the state it is meant to leave. */
  lemma LowResetIff(mem: Memory, n: nat)
    ensures (forall s :: Ready(ResetRun(mem, s, Lows(n)))) <==> n >= 3
    ensures (forall s :: IsReset(ResetRun(mem, s, Lows(n)))) <==> n >= 4
  {
    forall s ensures n >= 3 ==> Ready(ResetRun(mem, s, Lows(n))) {
      LowReset(mem, s, n);
    }
    forall s ensures n >= 4 ==> IsReset(ResetRun(mem, s, Lows(n))) {
      LowReset(mem, s, n);
    }
    var s := Reader(0, RL_0, false, 0, 0, 0);
    LowReset(mem, s, n);
    if n < 4 {
      assert !IsReset(ResetRun(mem, s, Lows(n)));
    }
    if n < 3 {
      assert !Ready(ResetRun(mem, s, Lows(n)));
    }
  }

  /** The place of a phase in the cycle. */
  function Place(p: Phase): nat {
    match p case RL_0 => 0 case RL_1 => 1 case RR_0 => 2 case RR_1 => 3 case Idle => 4
  }

  lemma HighResetStep(mem: Memory, s: Reader, place: nat, n: nat)
    requires s.current == Idle ==> !s.occurredOnce
    requires Place(s.current) == (place + n) % 5
    ensures var t := Edge(mem, s, true, true);
            Place(t.current) == (place + (n + 1)) % 5 && (t.current == Idle ==> !t.occurredOnce)
  {
  }

  lemma {:induction false} HighReset(mem: Memory, s: Reader, n: nat)
    requires s.current == Idle ==> !s.occurredOnce
    ensures var t := ResetRun(mem, s, seq(n, _ => true));
            Place(t.current) == (Place(s.current) + n) % 5 && (t.current == Idle ==> !t.occurredOnce)
  {
    if n > 0 {
      HighReset(mem, s, n - 1);
      var w := seq(n - 1, _ => true);
      HighResetStep(mem, ResetRun(mem, s, w), Place(s.current), n - 1);
      Extend(mem, s, w, true);
      assert seq(n, _ => true) == w + [true];
    }
  }

  /** With the audio clock high no length of RESET is enough: some state is left in RL_0. */
  lemma HighResetNeverEnough(mem: Memory, n: nat) returns (s: Reader)
    ensures !Ready(ResetRun(mem, s, seq(n, _ => true)))
  {
    var p := (5 - n % 5) % 5;
    s := Reader(0, if p == 0 then RL_0 else if p == 1 then RL_1 else if p == 2 then RR_0
                   else if p == 3 then RR_1 else Idle, false, 0, 0, 0);
    HighReset(mem, s, n);
  }

  lemma ThreeResets(mem: Memory, start: Reader)
    requires IsReset(start)
    ensures At(ResetRun(mem, start, [true, true, true]), 1, RR_0, false)
  {
    Extend(mem, start, [], true);
    Extend(mem, start, [] + [true], true);
    Extend(mem, start, [] + [true] + [true], true);
    assert [] + [true] + [true] + [true] == [true, true, true];
  }

  lemma SevenHighs(mem: Memory, s: Reader) returns (w: seq<bool>)
    requires At(s, 1, RR_0, false)
    ensures w == [true, true, true, true, true, true, true]
    ensures At(Run(mem, s, w), 2, Idle, true) && Pulses(w) == 1 && PulsesLast(w, 0)
  {
    w := [];
    Extend(mem, s, w, true);
    w := w + [true];
    assert At(Run(mem, s, w), 1, RR_1, false);
    Extend(mem, s, w, true);
    w := w + [true];
    assert At(Run(mem, s, w), 1, Idle, false);
    Extend(mem, s, w, true);
    w := w + [true];
    assert At(Run(mem, s, w), 1, RL_0, false);
    Extend(mem, s, w, true);
    w := w + [true];
    assert At(Run(mem, s, w), 1, RL_1, true);
    Extend(mem, s, w, true);
    w := w + [true];
    assert At(Run(mem, s, w), 2, RR_0, true);
    Extend(mem, s, w, true);
    w := w + [true];
    assert At(Run(mem, s, w), 2, RR_1, true);
    Extend(mem, s, w, true);
    w := w + [true];
  }

  /** RESET for three clocks with the audio clock high, even from the state it is meant to leave, and
      then one pulse of seven clocks: the address is 2. */
  lemma MidCycleRelease(mem: Memory, start: Reader) returns (s: Reader, wave: seq<bool>)
    requires IsReset(start)
    ensures s == ResetRun(mem, start, [true, true, true]) && At(s, 1, RR_0, false)
    ensures wave == [true, true, true, true, true, true, true] + Lows(5) && Pulses(wave) == 1
    ensures At(Run(mem, s, wave), 2, Idle, false)
  {
    ThreeResets(mem, start);
    s := ResetRun(mem, start, [true, true, true]);
    var highs := SevenHighs(mem, s);
    Quiet(mem, s, highs, 0, 5);
    LeftAlone(mem, s, highs, 5);
    wave := highs + Lows(5);
  }

  // ---- The pulse divider ----

  datatype Divider = Divider(count: nat, out: bool)

  function Divide(s: Divider, limit: nat): Divider {
    if s.count >= limit then Divider(0, true) else Divider((s.count + 1) % WORD, false)
  }

  function Divided(limit: nat, n: nat): Divider {
    if n == 0 then Divider(0, false) else Divide(Divided(limit, n - 1), limit)
  }

  /** A limit of c gives one pulse, one clock long, every c + 1 clocks. */
  lemma {:induction false} OnePulsePerCycle(limit: nat, n: nat)
    requires limit < WORD
    ensures Divided(limit, n).count == n % (limit + 1)
    ensures n > 0 ==> (Divided(limit, n).out <==> n % (limit + 1) == 0)
  {
    if n > 0 {
      OnePulsePerCycle(limit, n - 1);
      NextResidue(n - 1, limit + 1);
      DivMod(n - 1, limit + 1);
    }
  }

  lemma NextResidue(n: nat, d: nat)
    requires d > 0
    ensures (n + 1) % d == if n % d == d - 1 then 0 else n % d + 1
  {
    var q, r := n / d, n % d;
    assert n == q * d + r;
    if r == d - 1 {
      assert n + 1 == (q + 1) * d;
      UniqueQuotient(n + 1, q + 1, 0, d);
    } else {
      UniqueQuotient(n + 1, q, r + 1, d);
    }
  }
}
