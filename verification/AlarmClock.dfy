/** One alarm against a wrapping 32-bit tick counter. The alarm stores a 32-bit time and a
    one-bit rollover flag; against an unbounded clock it fires exactly when it is due. */
module AlarmClock {
  import opened Arithmetic

  datatype Timer = Timer(time: u32, rollover: bool)

  /** The 32-bit counter at an instant of the unbounded clock. */
  function Counter(clock: nat): u32 {
    clock % WORD
  }

  lemma CounterTicks(clock: nat)
    ensures Counter(clock + 1) == (Counter(clock) + 1) % WORD
  {
  }

  /** alt_alarm_start's fields. */
  function Started(now: u32, nticks: u32): Timer {
    var time := (nticks + now + 1) % WORD;
    Timer(time, time < now)
  }

  /** The rollover flag as alt_tick leaves it when the counter reads `now`. */
  function Unrolled(t: Timer, now: u32): Timer {
    if t.rollover && now == 0 then t.(rollover := false) else t
  }

  predicate Expired(t: Timer, now: u32) {
    t.time <= now && !t.rollover
  }

  /** The fields after the callback asked to be called again in `period` ticks. */
  function Rearmed(t: Timer, now: u32, period: u32): Timer {
    var time := (t.time + period) % WORD;
    Timer(time, if time < now then true else t.rollover)
  }

  /** The timer stands for the instant `due`, in the future of `clock` but less than a full turn
      away; the flag says whether the counter wraps before then. */
  predicate OnTime(t: Timer, clock: nat, due: nat) {
    && clock < due < clock + WORD
    && t.time == due % WORD
    && (t.rollover <==> due / WORD != clock / WORD)
  }

  lemma StartOnTime(clock: nat, nticks: u32)
    requires nticks < WORD - 1
    ensures OnTime(Started(Counter(clock), nticks), clock, clock + nticks + 1)
  {
  }

  /** A tick fires an alarm exactly at its due instant, and otherwise keeps it on time. */
  lemma TickOnTime(t: Timer, clock: nat, due: nat)
    requires OnTime(t, clock, due)
    ensures var now := Counter(clock + 1);
            && (Expired(Unrolled(t, now), now) <==> due == clock + 1)
            && (due != clock + 1 ==> OnTime(Unrolled(t, now), clock + 1, due))
            && (due == clock + 1 ==> Unrolled(t, now) == Timer(now, false))
  {
  }

  lemma RearmOnTime(clock: nat, period: u32)
    requires period != 0
    ensures OnTime(Rearmed(Timer(Counter(clock), false), Counter(clock), period), clock, clock + period)
  {
  }

  // ---- Whole runs ----

  /** The instants within the next `ticks` ticks at which the alarm fires, its callback
      answering with the given periods in turn; zero, or none left, deactivates it. */
  function Firings(t: Timer, clock: nat, ticks: nat, periods: seq<u32>): seq<nat>
    decreases ticks
  {
    if ticks == 0 then []
    else
      var now := Counter(clock + 1);
      var t' := Unrolled(t, now);
      if !Expired(t', now) then Firings(t', clock + 1, ticks - 1, periods)
      else if periods == [] || periods[0] == 0 then [clock + 1]
      else [clock + 1] + Firings(Rearmed(t', now, periods[0]), clock + 1, ticks - 1, periods[1..])
  }

  /** The instants asked for: the first one, then each a period after the one before. */
  function Asked(due: nat, last: nat, periods: seq<u32>): seq<nat>
    decreases |periods|
  {
    if due > last then []
    else if periods == [] || periods[0] == 0 then [due]
    else [due] + Asked(due + periods[0], last, periods[1..])
  }

  /** No drift and no missed or early firing, for any number of rollovers. */
  lemma {:induction false} FiresAsAsked(t: Timer, clock: nat, due: nat, ticks: nat, periods: seq<u32>)
    requires OnTime(t, clock, due)
    ensures Firings(t, clock, ticks, periods) == Asked(due, clock + ticks, periods)
    decreases ticks
  {
    if ticks > 0 {
      var now := Counter(clock + 1);
      TickOnTime(t, clock, due);
      if due != clock + 1 {
        FiresAsAsked(Unrolled(t, now), clock + 1, due, ticks - 1, periods);
      } else if periods != [] && periods[0] != 0 {
        RearmOnTime(clock + 1, periods[0]);
        FiresAsAsked(Rearmed(Timer(now, false), now, periods[0]), clock + 1, due + periods[0], ticks - 1, periods[1..]);
      }
    }
  }

  /** An alarm started at any instant, wrap or no wrap. */
  lemma StartedFiresAsAsked(clock: nat, nticks: u32, ticks: nat, periods: seq<u32>)
    requires nticks < WORD - 1
    ensures Firings(Started(Counter(clock), nticks), clock, ticks, periods)
            == Asked(clock + nticks + 1, clock + ticks, periods)
  {
    StartOnTime(clock, nticks);
    FiresAsAsked(Started(Counter(clock), nticks), clock, clock + nticks + 1, ticks, periods);
  }

  /** With the largest delay the stored time is the present one and the flag stays clear, so the
      alarm fires at the very next tick, unless that tick wraps the counter. Exactly then, or
      with a smaller delay, the first firing is on time. */
  lemma StartExactIff(clock: nat, nticks: u32)
    ensures Firings(Started(Counter(clock), nticks), clock, nticks + 1, []) == [clock + nticks + 1]
            <==> nticks < WORD - 1 || Counter(clock) == WORD - 1
  {
    var t := Started(Counter(clock), nticks);
    if nticks < WORD - 1 {
      StartedFiresAsAsked(clock, nticks, nticks + 1, []);
    } else if Counter(clock) == WORD - 1 {
      assert OnTime(t, clock + 1, clock + nticks + 1);
      FiresAsAsked(t, clock + 1, clock + nticks + 1, nticks, []);
    } else {
      assert Expired(t, Counter(clock + 1));
      assert Firings(t, clock, nticks + 1, []) == [clock + 1];
    }
  }
}
