/** gettimeofday and settimeofday over a 32-bit tick counter. */
module TimeOfDay {
  import opened Arithmetic
  import opened ErrorCodes

  const US := 1_000_000

  /** A 32-bit result stored in a long. */
  function ToLong(x: int): (r: int)
    ensures -0x8000_0000 <= r < 0x8000_0000
    ensures -0x8000_0000 <= x < 0x8000_0000 ==> r == x
  {
    (x + 0x8000_0000) % WORD - 0x8000_0000
  }

  datatype TimeVal = TimeVal(sec: int, usec: int)

  /** Borrowing seconds while the microseconds are negative, clamping at zero. */
  function Borrowed(t: TimeVal): TimeVal
    decreases if t.usec < 0 then -t.usec else 0
  {
    if t.usec >= 0 then t
    else if t.sec <= 0 then TimeVal(0, 0)
    else Borrowed(TimeVal(t.sec - 1, t.usec + US))
  }

  function Carried(t: TimeVal): TimeVal
    decreases if t.usec > 0 then t.usec else 0
  {
    if t.usec < US then t else Carried(TimeVal(t.sec + 1, t.usec - US))
  }

  /** Microseconds per tick, as both calls compute it. */
  function PerTick(rate: u32): nat
    requires rate > 0
  {
    US / rate
  }

  /** settimeofday's offsets; the product is taken in 32 bits. */
  function Offsets(t: TimeVal, n: u32, rate: u32): TimeVal
    requires rate > 0
  {
    TimeVal(ToLong(t.sec - n / rate), ToLong(t.usec - n * PerTick(rate) % WORD % US))
  }

  /** gettimeofday's sum before normalisation; the product is taken in 64 bits. */
  function Raw(reset: TimeVal, n: u32, rate: u32): TimeVal
    requires rate > 0
  {
    TimeVal(ToLong(reset.sec + n / rate), ToLong(reset.usec + n * PerTick(rate) % US))
  }

  class Clock {
    var nticks: u32
    var tickRate: u32
    var reset: TimeVal
    var timezone: (int, int)
    var errno: int

    method SetTimeOfDay(t: TimeVal, tz: (int, int)) returns (rc: int)
      modifies this`reset, this`timezone, this`errno
      ensures if tickRate == 0 then rc == -1 && errno == ENOSYS && reset == old(reset) && timezone == old(timezone)
              else rc == 0 && reset == Offsets(t, nticks, tickRate) && timezone == tz && errno == old(errno)
    {
      if tickRate != 0 {
        var perTick := PerTick(tickRate);
        var product: u32 := nticks * perTick % WORD;
        reset := TimeVal(ToLong(t.sec - nticks / tickRate), ToLong(t.usec - product % US));
        timezone := tz;
        return 0;
      }
      errno := ENOSYS;
      rc := -1;
    }

    method GetTimeOfDay() returns (rc: int, t: TimeVal, tz: (int, int))
      ensures tickRate == 0 ==> rc == -ENOTSUP
      ensures tickRate != 0 ==> rc == 0 && tz == timezone && t == Carried(Borrowed(Raw(reset, nticks, tickRate)))
    {
      t, tz := TimeVal(0, 0), timezone;
      if tickRate == 0 {
        return -ENOTSUP, t, tz;
      }
      ghost var raw := Raw(reset, nticks, tickRate);
      var product: nat := nticks * PerTick(tickRate);
      var sec, usec := ToLong(reset.sec + nticks / tickRate), ToLong(reset.usec + product % US);
      while usec < 0
        invariant Borrowed(TimeVal(sec, usec)) == Borrowed(raw)
        decreases -usec
      {
        if sec <= 0 {
          sec, usec := 0, 0;
          break;
        }
        sec, usec := sec - 1, usec + US;
      }
      assert TimeVal(sec, usec) == Borrowed(raw);
      while usec >= US
        invariant Carried(TimeVal(sec, usec)) == Carried(Borrowed(raw))
        decreases usec
      {
        sec, usec := sec + 1, usec - US;
      }
      rc, t := 0, TimeVal(sec, usec);
    }
  }

  // ---- Calibration ----

  /** Microseconds since the epoch. */
  function Micros(t: TimeVal): int {
    t.sec * US + t.usec
  }

  predicate Normal(t: TimeVal) {
    0 <= t.usec < US
  }

  /** If the rate divides the microseconds in a second, the fraction of a second after n ticks is
      the ticks since the last full second. */
  lemma Fraction(n: nat, rate: nat, q: nat)
    requires rate > 0 && rate * q == US
    ensures n * q % US == n % rate * q && 0 <= n % rate * q < US
  {
    DivMod(n, rate);
    var a, b := n / rate, n % rate;
    Gap(b, rate, q);
    assert q > 0;
    Scale(a, b, rate, q);
    assert n * q == a * US + b * q;
    UniqueQuotient(n * q, a, b * q, US);
  }

  lemma Scale(a: nat, b: nat, rate: nat, q: nat)
    ensures (a * rate + b) * q == a * (rate * q) + b * q
  {
  }

  /** What gettimeofday returns at tick n1 after settimeofday(t) at tick n0. */
  function Reading(t: TimeVal, n0: u32, n1: u32, rate: u32): TimeVal
    requires rate > 0
  {
    Carried(Borrowed(Raw(Offsets(t, n0, rate), n1, rate)))
  }

  /** Normalisation of a value less than a second off keeps its instant, and clamps nothing, as
      long as a second is there to borrow. */
  lemma NormaliseKeeps(t: TimeVal)
    requires -US < t.usec < 2 * US && (t.usec < 0 ==> t.sec > 0)
    ensures Normal(Carried(Borrowed(t))) && Micros(Carried(Borrowed(t))) == Micros(t)
  {
  }

  /** The error the 32-bit product of settimeofday makes in the microseconds. */
  function Slip(n0: u32, q: nat): int {
    n0 * q % US - n0 * q % WORD % US
  }

  /** The sum gettimeofday forms: the right instant, plus the slip of the calibration. */
  lemma RawReading(t: TimeVal, n0: u32, n1: u32, rate: u32)
    requires rate > 0 && US % rate == 0 && n0 <= n1 && Normal(t)
    requires -0x8000_0000 <= t.sec && t.sec + (n1 / rate - n0 / rate) < 0x8000_0000
    ensures var q := PerTick(rate);
            var raw := Raw(Offsets(t, n0, rate), n1, rate);
            && Micros(raw) == Micros(t) + (n1 - n0) * q + Slip(n0, q)
            && -US < raw.usec < 2 * US
            && raw.sec == t.sec + (n1 / rate - n0 / rate) >= t.sec
            && raw.usec == t.usec - n0 % rate * q + Slip(n0, q) + n1 % rate * q
  {
    var q := PerTick(rate);
    DivMod(US, rate);
    Fraction(n0, rate, q);
    Fraction(n1, rate, q);
    DivMod(n0, rate);
    DivMod(n1, rate);
    MoreSeconds(n0, n1, rate);
    SecondsFit(t.sec, n0 / rate, n1 / rate);
    Scale(n0 / rate, n0 % rate, rate, q);
    Scale(n1 / rate, n1 % rate, rate, q);
    assert n0 * q == n0 / rate * US + n0 % rate * q;
    assert n1 * q == n1 / rate * US + n1 % rate * q;
    assert (n1 - n0) * q == n1 * q - n0 * q;
  }

  lemma SecondsFit(sec: int, s0: nat, s1: nat)
    requires -0x8000_0000 <= sec && s0 <= s1 && sec + (s1 - s0) < 0x8000_0000
    ensures ToLong(ToLong(sec - s0) + s1) == sec - s0 + s1
  {
  }

  lemma MoreSeconds(n0: nat, n1: nat, rate: nat)
    requires rate > 0 && n0 <= n1
    ensures n0 / rate <= n1 / rate
  {
    DivMod(n0, rate);
    DivMod(n1, rate);
    Gap(n1 / rate, n0 / rate, rate);
  }

  /** Calibration: if the rate divides a million and the 32-bit product did not overflow, then
      n1 - n0 ticks after settimeofday(t) the clock shows exactly that much later than t. */
  lemma CalibratedExactly(t: TimeVal, n0: u32, n1: u32, rate: u32)
    requires rate > 0 && US % rate == 0 && n0 <= n1 && Normal(t)
    requires 0 <= t.sec && t.sec + (n1 / rate - n0 / rate) < 0x8000_0000
    requires n0 * PerTick(rate) < WORD
    ensures Normal(Reading(t, n0, n1, rate))
    ensures Micros(Reading(t, n0, n1, rate)) == Micros(t) + (n1 - n0) * PerTick(rate)
  {
    var q := PerTick(rate);
    NoSlip(n0, q);
    RawReading(t, n0, n1, rate);
    Borrowable(n0, n1, rate, q, t.usec);
    NormaliseKeeps(Raw(Offsets(t, n0, rate), n1, rate));
  }

  lemma NoSlip(n0: u32, q: nat)
    requires n0 * q < WORD
    ensures Slip(n0, q) == 0
  {
  }

  /** When the fraction of the second goes back, the seconds have gone on. */
  lemma Borrowable(n0: nat, n1: nat, rate: nat, q: nat, usec: nat)
    requires rate > 0 && n0 <= n1
    ensures usec - n0 % rate * q + n1 % rate * q < 0 ==> n1 / rate > n0 / rate
  {
  }

  /** The overflow of the 32-bit product is harmless exactly if it drops a multiple of 15625
      words, the odd part of a million. */
  lemma SlipIff(n0: u32, q: nat)
    ensures Slip(n0, q) == 0 <==> n0 * q / WORD % 15625 == 0
  {
    var p := n0 * q;
    SlipOf(p);
  }

  lemma SlipOf(p: nat)
    ensures p % US == p % WORD % US <==> p / WORD % 15625 == 0
  {
    var w, low := p / WORD, p % WORD;
    assert p == w * WORD + low;
    SameRest(w * WORD, low);
    OddPart(w);
  }

  lemma SameRest(d: nat, low: nat)
    ensures (d + low) % US == low % US <==> d % US == 0
  {
  }

  lemma OddPart(w: nat)
    ensures (w * WORD) % US == 0 <==> w % 15625 == 0
  {
    if w % 15625 == 0 {
      var m := w / 15625;
      assert w * WORD == US * (m * 0x400_0000);
    }
    if (w * WORD) % US == 0 {
      Invert(w, w * WORD / US);
    }
  }

  /** 12659 is the inverse of 2^26 modulo 15625. */
  lemma Invert(w: nat, m: nat)
    requires w * WORD == US * m
    ensures w % 15625 == 0
  {
    assert 0x400_0000 * 12659 == 15625 * 54369991 + 1;
    assert w == 15625 * (m * 12659 - w * 54369991);
  }

  /** gettimeofday finds negative microseconds and no second to borrow, and clamps to the epoch. */
  predicate Clamps(t: TimeVal, n0: u32, n1: u32, rate: u32)
    requires rate > 0
  {
    var q := PerTick(rate);
    && t.sec + (n1 / rate - n0 / rate) <= 0
    && t.usec + Slip(n0, q) + n1 % rate * q < n0 % rate * q
  }

  /** Exactly when the clock is right, for a calibration to any time a long can hold, before the
      epoch too: if nothing is clamped, when the overflow is harmless; otherwise when the epoch is
      the right answer. */
  lemma CalibratedAnyTimeIff(t: TimeVal, n0: u32, n1: u32, rate: u32)
    requires rate > 0 && US % rate == 0 && n0 <= n1 && Normal(t)
    requires -0x8000_0000 <= t.sec && t.sec + (n1 / rate - n0 / rate) < 0x8000_0000
    ensures Normal(Reading(t, n0, n1, rate))
    ensures Micros(Reading(t, n0, n1, rate)) == Micros(t) + (n1 - n0) * PerTick(rate)
            <==> if Clamps(t, n0, n1, rate) then Micros(t) + (n1 - n0) * PerTick(rate) == 0
                 else n0 * PerTick(rate) / WORD % 15625 == 0
  {
    RawReading(t, n0, n1, rate);
    var raw := Raw(Offsets(t, n0, rate), n1, rate);
    if Clamps(t, n0, n1, rate) {
      assert Borrowed(raw) == TimeVal(0, 0);
    } else {
      NormaliseKeeps(raw);
      SlipIff(n0, PerTick(rate));
    }
  }

  /** The same for every calibration from the epoch on: the clock is right exactly if the overflow is
      harmless, or is read at the very tick it was set to the epoch and the clamp hides a negative
      error. */
  lemma CalibratedIff(t: TimeVal, n0: u32, n1: u32, rate: u32)
    requires rate > 0 && US % rate == 0 && n0 <= n1 && Normal(t)
    requires 0 <= t.sec && t.sec + (n1 / rate - n0 / rate) < 0x8000_0000
    ensures Normal(Reading(t, n0, n1, rate))
    ensures Micros(Reading(t, n0, n1, rate)) == Micros(t) + (n1 - n0) * PerTick(rate)
            <==> n0 * PerTick(rate) / WORD % 15625 == 0
                 || (t == TimeVal(0, 0) && n1 == n0 && Slip(n0, PerTick(rate)) < 0)
  {
    var q := PerTick(rate);
    CalibratedAnyTimeIff(t, n0, n1, rate);
    SlipIff(n0, q);
    MoreSeconds(n0, n1, rate);
    if Clamps(t, n0, n1, rate) {
      Borrowable(n0, n1, rate, q, t.usec);
      LaterIsMore(n0, n1, rate, q);
    }
  }

  lemma LaterIsMore(n0: u32, n1: u32, rate: u32, q: nat)
    requires rate > 0 && US % rate == 0 && q == PerTick(rate) && n0 <= n1
    ensures (n1 - n0) * q >= 0 && ((n1 - n0) * q == 0 <==> n1 == n0)
  {
    DivMod(US, rate);
    Gap(n0, n1, q);
  }

  /** The overflow is real: at 1000 ticks a second it starts after 72 minutes, and the clock then
      does not even show the time it has just been set to. */
  lemma OverflowExample()
    ensures Micros(Reading(TimeVal(1, 0), 5_000_000, 5_000_000, 1000)) != Micros(TimeVal(1, 0))
  {
    assert PerTick(1000) == 1000 && 5_000_000 * 1000 / WORD % 15625 == 1;
    CalibratedIff(TimeVal(1, 0), 5_000_000, 5_000_000, 1000);
  }

  /** Set to the epoch at a tick whose overflow goes the other way, it does, by the clamp. */
  lemma ClampExample()
    ensures 8_590_000 * PerTick(1000) / WORD % 15625 != 0
    ensures Micros(Reading(TimeVal(0, 0), 8_590_000, 8_590_000, 1000)) == 0
  {
    assert PerTick(1000) == 1000 && 8_590_000 * 1000 / WORD % 15625 == 2;
    assert Slip(8_590_000, 1000) < 0;
    CalibratedIff(TimeVal(0, 0), 8_590_000, 8_590_000, 1000);
  }
}
