/** The fast driver in the form its source has: a device object updated in place, an interrupt
    routine with nested loops, and blocking read, write and close calls. Every method is proved
    to perform a legal run of the step machine, with other activity possible at every point
    where the source leaves room for it, so the promises about reachable states are about it. */
module JtagUartDriver {
  import opened ErrorCodes
  import opened JtagUartRing
  import opened JtagUartModel
  import opened JtagUartSafety
  import opened JtagUartTheorems
  import Outcomes = JtagUartOutcomes

  class Driver {
    const rxBuf: array<byte>
    const txBuf: array<byte>
    var rxIn: Index
    var rxOut: Index
    var txIn: Index
    var txOut: Index
    var irqEnable: Enables
    var hostInactive: nat
    var timeout: nat

    // The hardware: the enable bits it holds and its two FIFOs.
    var hwEnable: Enables
    var rxFifo: seq<byte>
    var txFifo: seq<byte>
    const depth: nat

    // Where the calls in progress are, and what has happened so far.
    ghost var thread: Thread
    ghost var isr: Isr
    ghost var arrived: seq<byte>
    ghost var taken: seq<byte>
    ghost var calls: seq<Call>
    ghost const start: State
    ghost var trace: seq<Label>

    ghost predicate Shape()
      reads this
    {
      rxBuf.Length == BUF_LEN && txBuf.Length == BUF_LEN && rxBuf != txBuf
    }

    ghost function View(): State
      reads this, rxBuf, txBuf
      requires Shape()
    {
      State(rxBuf[..], rxIn, rxOut, txBuf[..], txIn, txOut, irqEnable, hostInactive, timeout,
            hwEnable, rxFifo, txFifo, depth, thread, isr, arrived, taken, calls)
    }

    /** The device is in a state some legal run from initialisation leads to. */
    ghost predicate Valid()
      reads this, rxBuf, txBuf
    {
      && Shape()
      && (exists rx, tx, limit, size :: start == Init(rx, tx, limit, size))
      && Legal(start, trace) && View() == Exec(start, trace)
    }

    lemma Started()
      requires Valid()
      ensures Reachable(start) && start.thread.Idle?
    {
      assert Legal(start, []) && Exec(start, []) == start;
    }

    lemma ValidReachable()
      requires Valid()
      ensures Reachable(View())
    {
    }

    constructor (limit: nat, fifoDepth: nat)
      ensures Valid() && fresh(rxBuf) && fresh(txBuf)
      ensures thread == Idle && isr == Off && calls == []
    {
      rxBuf := new byte[BUF_LEN](_ => 0);
      txBuf := new byte[BUF_LEN](_ => 0);
      rxIn, rxOut, txIn, txOut := 0, 0, 0, 0;
      irqEnable := Enables(true, false);
      hwEnable := Enables(true, false);
      hostInactive, timeout := 0, limit;
      rxFifo, txFifo, depth := [], [], fifoDepth;
      thread, isr, arrived, taken, calls, trace := Idle, Off, [], [], [], [];
      start := Init(seq(BUF_LEN, _ => 0), seq(BUF_LEN, _ => 0), limit, fifoDepth);
      new;
      assert rxBuf[..] == start.rxBuf && txBuf[..] == start.txBuf;
    }

    /** Records that the statements since `before` made up one step of the machine. */
    ghost method Log(l: Label, before: State)
      requires Shape() && Legal(start, trace) && before == Exec(start, trace)
      requires exists rx, tx, limit, size :: start == Init(rx, tx, limit, size)
      requires Enabled(before, l) && View() == Apply(before, l)
      modifies this`trace
      ensures Valid() && trace == old(trace) + [l]
    {
      ExecSnoc(start, trace, l);
      trace := trace + [l];
    }

    // ---- The hardware and the host ----

    method HostSend(b: byte)
      requires Valid()
      modifies this`rxFifo, this`arrived, this`trace
      ensures Valid() && trace == old(trace) + [HostSends(b)]
    {
      ghost var before := View();
      rxFifo := rxFifo + [b];
      arrived := arrived + [b];
      Log(HostSends(b), before);
    }

    method HostTake()
      requires Valid() && txFifo != []
      modifies this`txFifo, this`taken, this`trace
      ensures Valid() && trace == old(trace) + [HostTakes] && |txFifo| <= old(|txFifo|)
    {
      ghost var before := View();
      taken := taken + [txFifo[0]];
      txFifo := txFifo[1..];
      Log(HostTakes, before);
    }

    /** The far side of the FIFOs may act at any time, even during the interrupt routine. */
    method Hardware()
      requires Valid()
      modifies this`rxFifo, this`arrived, this`txFifo, this`taken, this`trace
      ensures Valid() && old(trace) <= trace && |txFifo| <= old(|txFifo|)
    {
      var events: nat := *;
      while events > 0
        invariant Valid() && old(trace) <= trace && |txFifo| <= old(|txFifo|)
      {
        if * {
          var b: byte := *;
          HostSend(b);
        } else if txFifo != [] {
          HostTake();
        }
        events := events - 1;
      }
    }

    /** The timeout routine, called once a second. */
    method Timeout(ac: bool)
      requires Valid() && isr == Off && !IrqsDisabled(thread)
      modifies this`hwEnable, this`hostInactive, this`trace
      ensures Valid() && trace == old(trace) + [HostAlarm(ac)]
    {
      ghost var before := View();
      if ac {
        hwEnable := irqEnable;
        hostInactive := 0;
      } else if hostInactive < INT_MAX - 2 {
        hostInactive := hostInactive + 1;
      }
      Log(HostAlarm(ac), before);
    }

    // ---- The interrupt routine ----

    /** Reads the control register: RI, WI and a WSPACE the transmit FIFO can honour. */
    method ReadControl(pending: bool) returns (ri: bool, wi: bool, wspace: nat)
      requires Valid() && isr == Top
      modifies this`isr, this`trace
      ensures Valid() && trace == old(trace) + [IsrControl(ri, wi, wspace)] && |txFifo| + wspace <= depth
      ensures isr == if ri then Rx(true, wi, wspace) else if wi then Tx(wspace) else Off
      ensures !pending ==> !ri && !wi
    {
      ri, wi, wspace := *, *, 0;
      FifoFits();
      var claim: nat := *;
      if claim + |txFifo| <= depth { wspace := claim; }
      if !pending { ri, wi := false, false; }
      ghost var before := View();
      isr := if ri then Rx(true, wi, wspace) else if wi then Tx(wspace) else Off;
      Log(IsrControl(ri, wi, wspace), before);
    }

    lemma FifoFits()
      requires Valid()
      ensures |txFifo| <= depth
    {
      ValidReachable();
      TransmitIsFifo(View());
    }

    /** Serves a receive interrupt: moves bytes until the ring is full or the FIFO empty. */
    method Receive(wi: bool, wspace: nat)
      requires Valid() && isr == Rx(true, wi, wspace) && |txFifo| + wspace <= depth
      modifies this, rxBuf
      ensures Valid() && old(trace) <= trace && |txFifo| + wspace <= depth
      ensures isr == if wi then Tx(wspace) else Top
      ensures thread == old(thread) && calls == old(calls)
    {
      var avail := true;
      while Advance(rxIn, 1) != rxOut
        invariant Valid() && old(trace) <= trace && |txFifo| + wspace <= depth
        invariant isr == Rx(avail, wi, wspace)
        invariant thread == old(thread) && calls == old(calls)
        decreases BUF_LEN - Used(rxOut, rxIn)
      {
        Hardware();
        if rxFifo == [] {
          avail := false;
          break;
        }
        avail := StoreByte();
      }
      FinishReceive(avail);
    }

    /** After the receive loop: if bytes remain the ring is full, so receive interrupts go off. */
    method FinishReceive(avail: bool)
      requires Valid() && isr.Rx?
      requires if Advance(rxIn, 1) == rxOut then avail == isr.avail else rxFifo == [] && !avail
      modifies this`irqEnable, this`hwEnable, this`isr, this`trace
      ensures Valid() && trace == old(trace) + [IsrWork]
      ensures isr == if old(isr).wi then Tx(old(isr).space) else Top
    {
      ghost var before := View();
      if avail {
        irqEnable := irqEnable.(re := false);
        hwEnable := irqEnable;
      }
      isr := if isr.wi then Tx(isr.space) else Top;
      Log(IsrWork, before);
    }

    /** Reads the data register with a byte available, which pops it, and queues the byte;
        tells whether RAVAIL says there are more. */
    method StoreByte() returns (avail: bool)
      requires Valid() && isr.Rx? && Advance(rxIn, 1) != rxOut && rxFifo != []
      modifies this`rxIn, this`rxFifo, this`isr, this`trace, rxBuf
      ensures Valid() && trace == old(trace) + [IsrWork]
      ensures isr == old(isr).(avail := avail)
      ensures Used(rxOut, rxIn) == old(Used(rxOut, rxIn)) + 1
    {
      ghost var before := View();
      RingPush(rxBuf[..], rxOut, rxIn, rxFifo[0]);
      rxBuf[rxIn] := rxFifo[0];
      rxIn := Advance(rxIn, 1);
      avail := |rxFifo| > 1;
      rxFifo := rxFifo[1..];
      isr := isr.(avail := avail);
      assert rxBuf[..] == before.rxBuf[before.rxIn := before.rxFifo[0]];
      Log(IsrWork, before);
    }

    /** Serves a transmit interrupt: moves bytes while WSPACE and the ring allow. */
    method Transmit(wspace: nat)
      requires Valid() && isr == Tx(wspace) && |txFifo| + wspace <= depth
      modifies this
      ensures Valid() && old(trace) <= trace && isr == Top
      ensures thread == old(thread) && calls == old(calls)
    {
      var space := wspace;
      while space > 0 && txOut != txIn
        invariant Valid() && old(trace) <= trace
        invariant isr == Tx(space)
        invariant thread == old(thread) && calls == old(calls)
      {
        Hardware();
        SendByte();
        space := space - 1;
      }
      FinishTransmit(space);
    }

    /** After the transmit loop: with room left the ring is empty, so transmit interrupts go off. */
    method FinishTransmit(space: nat)
      requires Valid() && isr == Tx(space) && (space == 0 || txOut == txIn)
      modifies this`irqEnable, this`hwEnable, this`isr, this`trace
      ensures Valid() && trace == old(trace) + [IsrWork] && isr == Top
    {
      ghost var before := View();
      if space > 0 {
        irqEnable := irqEnable.(we := false);
        hwEnable := irqEnable;
      }
      isr := Top;
      Log(IsrWork, before);
    }

    method SendByte()
      requires Valid() && isr.Tx? && isr.space > 0 && txOut != txIn
      modifies this`txFifo, this`txOut, this`isr, this`trace
      ensures Valid() && trace == old(trace) + [IsrWork]
      ensures isr == Tx(old(isr).space - 1)
    {
      ghost var before := View();
      txFifo := txFifo + [txBuf[txOut]];
      txOut := Advance(txOut, 1);
      isr := Tx(isr.space - 1);
      Log(IsrWork, before);
    }

    /** The interrupt routine; the hardware raises RI or WI for finitely many passes. */
    method Irq()
      requires Valid() && isr == Off && !IrqsDisabled(thread)
      modifies this, rxBuf
      ensures Valid() && old(trace) + [IsrEnter] <= trace && isr == Off
      ensures thread == old(thread) && calls == old(calls)
    {
      EnterIrq();
      var passes: nat := *;
      while true
        invariant Valid() && old(trace) + [IsrEnter] <= trace && isr == Top
        invariant thread == old(thread) && calls == old(calls)
        decreases passes
      {
        Hardware();
        var ri, wi, wspace := ReadControl(passes > 0);
        if !ri && !wi {
          break;
        }
        if ri {
          Receive(wi, wspace);
        }
        if wi {
          Transmit(wspace);
        }
        passes := passes - 1;
      }
    }

    ghost method EnterIrq()
      requires Valid() && isr == Off && !IrqsDisabled(thread)
      modifies this`isr, this`trace
      ensures Valid() && trace == old(trace) + [IsrEnter] && isr == Top
    {
      var before := View();
      isr := Top;
      Log(IsrEnter, before);
    }

    /** Anything that may happen between two steps of a thread that has interrupts enabled. */
    method Preempt()
      requires Valid() && isr == Off && !IrqsDisabled(thread)
      modifies this, rxBuf
      ensures Valid() && old(trace) <= trace && isr == Off
      ensures thread == old(thread) && calls == old(calls)
    {
      var events: nat := *;
      while events > 0
        invariant Valid() && old(trace) <= trace && isr == Off
        invariant thread == old(thread) && calls == old(calls)
      {
        if {
          case true => Hardware();
          case true => Irq();
          case true =>
            var ac := *;
            Timeout(ac);
        }
        events := events - 1;
      }
    }

    // ---- The thread: steps shared by read and write ----

    /** A thread step that touches nothing shared. */
    ghost method MoveTo(t: Thread)
      requires Valid() && Enabled(View(), ThreadStep)
      requires Apply(View(), ThreadStep) == View().(thread := t)
      modifies this`thread, this`trace
      ensures Valid() && trace == old(trace) + [ThreadStep] && thread == t
    {
      var before := View();
      thread := t;
      Log(ThreadStep, before);
    }

    lemma NeverStuck()
      requires Valid() && isr == Off && thread != Idle
      ensures Enabled(View(), ThreadStep)
      ensures thread.InRead? && thread.rpc == RCopy && thread.r.k < thread.r.n ==>
                |thread.r.dest| < thread.r.room
    {
      ValidReachable();
      ThreadNeverStuck(View());
    }

    /** Looks, after anything that may have happened, whether the host has been quiet too long. */
    method HostQuiet() returns (quiet: bool)
      requires Valid() && isr == Off && !IrqsDisabled(thread)
      modifies this, rxBuf
      ensures Valid() && old(trace) <= trace && isr == Off
      ensures thread == old(thread) && calls == old(calls)
      ensures quiet <==> hostInactive >= timeout
    {
      Preempt();
      quiet := !(hostInactive < timeout);
    }

    // ---- read() ----

    /** A read is at `pc` with `ptr` bytes in the caller's buffer and `space` still wanted. */
    ghost predicate Reading(pc: ReadPc, buffer: array<byte>, ptr: nat, space: int)
      reads this, buffer
    {
      && isr == Off && thread.InRead? && thread.rpc == pc
      && thread.r.space == space && ptr <= buffer.Length && thread.r.room <= buffer.Length
      && thread.r.dest == buffer[..ptr]
    }

    method SampleRxIn(buffer: array<byte>, ghost ptr: nat, ghost space: int) returns (inn: nat)
      requires Valid() && Reading(RSnapIn, buffer, ptr, space) && buffer != rxBuf && buffer != txBuf
      modifies this, rxBuf
      ensures Valid() && old(trace) <= trace && calls == old(calls)
      ensures Reading(RSnapOut, buffer, ptr, space)
      ensures thread.r == old(thread.r).(inn := inn)
    {
      Preempt();
      inn := rxIn;
      NeverStuck();
      MoveTo(InRead(RSnapOut, thread.r.(inn := inn)));
    }

    method SampleRxOut(buffer: array<byte>, ghost ptr: nat, inn: nat, space: int) returns (out: nat, n: nat)
      requires Valid() && Reading(RSnapOut, buffer, ptr, space) && buffer != rxBuf && buffer != txBuf
      requires thread.r.inn == inn && space > 0
      modifies this, rxBuf
      ensures Valid() && old(trace) <= trace && calls == old(calls)
      ensures n == 0 ==> Reading(RAfter, buffer, ptr, space) && thread.r == old(thread.r)
      ensures n > 0 ==> n <= space && Reading(RCopy, buffer, ptr, space)
                        && thread.r == old(thread.r).(out := out, n := n, k := 0)
    {
      Preempt();
      out := rxOut;
      if inn >= out {
        n := inn - out;
      } else {
        n := BUF_LEN - out;
      }
      assert n == Readable(thread.r.inn, rxOut);
      NeverStuck();
      if n == 0 {
        MoveTo(InRead(RAfter, thread.r));
      } else {
        if n > space {
          n := space;
        }
        MoveTo(InRead(RCopy, thread.r.(out := out, n := n, k := 0)));
      }
    }

    /** memcpy, which the interrupt routine may interleave with byte by byte. */
    method CopyOut(buffer: array<byte>, ptr: nat, out: nat, n: nat, space: int)
      requires Valid() && Reading(RCopy, buffer, ptr, space) && buffer != rxBuf && buffer != txBuf
      requires thread.r.out == out && thread.r.n == n && thread.r.k == 0
      modifies this, rxBuf, buffer
      ensures Valid() && old(trace) <= trace && calls == old(calls)
      ensures ptr + n <= buffer.Length && Reading(RCopy, buffer, ptr + n, space)
      ensures thread.r == old(thread.r).(dest := thread.r.dest, k := n)
      ensures buffer[ptr + n..] == old(buffer[ptr + n..])
    {
      var k := 0;
      while k < n
        invariant Valid() && old(trace) <= trace && calls == old(calls)
        invariant k <= n && ptr + k <= buffer.Length && Reading(RCopy, buffer, ptr + k, space)
        invariant thread.r == old(thread.r).(dest := thread.r.dest, k := k)
        invariant forall i | ptr + k <= i < buffer.Length :: buffer[i] == old(buffer[i])
      {
        CopyByteOut(buffer, ptr + k, out + k, space);
        k := k + 1;
      }
    }

    method CopyByteOut(buffer: array<byte>, ptr: nat, slot: nat, ghost space: int)
      requires Valid() && Reading(RCopy, buffer, ptr, space) && buffer != rxBuf && buffer != txBuf
      requires thread.r.k < thread.r.n && slot == thread.r.out + thread.r.k
      modifies this, rxBuf, buffer
      ensures Valid() && old(trace) <= trace && calls == old(calls)
      ensures ptr < buffer.Length && Reading(RCopy, buffer, ptr + 1, space)
      ensures thread.r == old(thread.r).(dest := thread.r.dest, k := old(thread.r).k + 1)
      ensures forall i | 0 <= i < buffer.Length && i != ptr :: buffer[i] == old(buffer[i])
    {
      Preempt();
      NeverStuck();
      ghost var r := thread.r;
      var b := rxBuf[slot];
      MoveTo(InRead(RCopy, r.(dest := r.dest + [b], k := r.k + 1)));
      buffer[ptr] := b;
      assert buffer[..ptr + 1] == buffer[..ptr] + [b];
    }

    /** Publishes the new `out` index, which hands the copied slots back to the interrupt routine. */
    method ReleaseRx(buffer: array<byte>, ghost ptr: nat, out: nat, n: nat, space: int)
      requires Valid() && Reading(RCopy, buffer, ptr, space) && buffer != rxBuf && buffer != txBuf
      requires thread.r.out == out && thread.r.n == n == thread.r.k
      modifies this, rxBuf
      ensures Valid() && old(trace) <= trace && calls == old(calls)
      ensures Reading(if space - n > 0 then RSnapIn else RAfter, buffer, ptr, space - n)
      ensures thread.r == old(thread.r).(space := space - n, k := 0)
    {
      Preempt();
      NeverStuck();
      StoreRxOut(out, n);
    }

    method StoreRxOut(out: nat, n: nat)
      requires Valid() && isr == Off && thread.InRead? && thread.rpc == RCopy
      requires thread.r.out == out && thread.r.n == n == thread.r.k && Enabled(View(), ThreadStep)
      modifies this`rxOut, this`thread, this`trace
      ensures Valid() && trace == old(trace) + [ThreadStep]
      ensures thread == var r := old(thread.r);
                        InRead(if r.space - n > 0 then RSnapIn else RAfter, r.(space := r.space - n, k := 0))
    {
      ghost var before, r := View(), thread.r;
      rxOut := Advance(out, n);
      thread := InRead(if r.space - n > 0 then RSnapIn else RAfter, r.(space := r.space - n, k := 0));
      PublishRx(before, before.(rxOut := rxOut, thread := thread));
      Log(ThreadStep, before);
    }

    method TakeChunk(buffer: array<byte>, ptr: nat, out: nat, n: nat, space: int)
      requires Valid() && Reading(RCopy, buffer, ptr, space) && buffer != rxBuf && buffer != txBuf
      requires thread.r.out == out && thread.r.n == n && thread.r.k == 0
      modifies this, rxBuf, buffer
      ensures Valid() && old(trace) <= trace && calls == old(calls)
      ensures ptr + n <= buffer.Length
      ensures Reading(if space - n > 0 then RSnapIn else RAfter, buffer, ptr + n, space - n)
      ensures thread.r.nonblock == old(thread.r.nonblock) && thread.r.room == old(thread.r.room)
      ensures buffer[..][ptr + n..] == old(buffer[..])[ptr + n..]
    {
      CopyOut(buffer, ptr, out, n, space);
      ReleaseRx(buffer, ptr + n, out, n, space);
    }

    static lemma TailKept(after: seq<byte>, before: seq<byte>, first: seq<byte>, ptr: nat, n: nat)
      requires |after| == |before| == |first| && ptr + n <= |first|
      requires after[ptr + n..] == before[ptr + n..] && before[ptr..] == first[ptr..]
      ensures after[ptr + n..] == first[ptr + n..]
    {
      assert before[ptr + n..] == before[ptr..][n..];
      assert first[ptr + n..] == first[ptr..][n..];
    }

    /** One pass of the copy loop; `n` is 0 if nothing was there. */
    method TakeOnce(buffer: array<byte>, ptr: nat, space: int) returns (inn: nat, n: nat)
      requires Valid() && Reading(RSnapIn, buffer, ptr, space) && buffer != rxBuf && buffer != txBuf && space > 0
      modifies this, rxBuf, buffer
      ensures Valid() && old(trace) <= trace && calls == old(calls)
      ensures n <= space && ptr + n <= buffer.Length
      ensures Reading(if n > 0 && space - n > 0 then RSnapIn else RAfter, buffer, ptr + n, space - n)
      ensures n == 0 ==> thread.r.inn == inn
      ensures thread.r.nonblock == old(thread.r.nonblock) && thread.r.room == old(thread.r.room)
      ensures buffer[..][ptr + n..] == old(buffer[..])[ptr + n..]
    {
      inn := SampleRxIn(buffer, ptr, space);
      var out;
      out, n := SampleRxOut(buffer, ptr, inn, space);
      if n > 0 {
        TakeChunk(buffer, ptr, out, n, space);
      }
    }

    /** Reads as much as is available, up to the space the caller has left. */
    method CopyAvailable(buffer: array<byte>, room: int) returns (ptr: nat, space: int, inn: nat)
      requires Valid() && Reading(RSnapIn, buffer, 0, room) && buffer != rxBuf && buffer != txBuf
      requires 0 < room <= buffer.Length
      modifies this, rxBuf, buffer
      ensures Valid() && old(trace) <= trace && calls == old(calls)
      ensures Reading(RAfter, buffer, ptr, space)
      ensures thread.r.nonblock == old(thread.r.nonblock) && thread.r.room == old(thread.r.room)
      ensures ptr == 0 ==> thread.r.inn == inn
      ensures ptr + space == room && space >= 0
      ensures buffer[..][ptr..] == old(buffer[..])[ptr..]
    {
      ptr, space := 0, room;
      while true
        invariant Valid() && old(trace) <= trace && calls == old(calls)
        invariant Reading(RSnapIn, buffer, ptr, space) && space > 0 && ptr + space == room
        invariant thread.r.nonblock == old(thread.r.nonblock) && thread.r.room == old(thread.r.room)
        invariant buffer[..][ptr..] == old(buffer[..])[ptr..]
        decreases space
      {
        ghost var before := buffer[..];
        var n: nat;
        inn, n := TakeOnce(buffer, ptr, space);
        TailKept(buffer[..], before, old(buffer[..]), ptr, n);
        if n == 0 {
          break;
        }
        ptr := ptr + n;
        space := space - n;
        if space <= 0 {
          break;
        }
      }
    }

    /** One poll of the spin: the index first, then, if it has not moved, the host. */
    method PollRead(buffer: array<byte>, inn: nat, ghost space: int) returns (over: bool)
      requires Valid() && Reading(RSpin, buffer, 0, space) && buffer != rxBuf && buffer != txBuf
      requires thread.r.inn == inn
      modifies this, rxBuf
      ensures Valid() && old(trace) <= trace && calls == old(calls)
      ensures Reading(if over then RSpinExit else RSpin, buffer, 0, space) && thread.r == old(thread.r)
      ensures if over then inn != rxIn || hostInactive >= timeout else hostInactive < timeout
    {
      Preempt();
      NeverStuck();
      over := inn != rxIn;
      if !over {
        MoveTo(InRead(RSpinHost, thread.r));
        over := HostQuiet();
        NeverStuck();
      }
      MoveTo(InRead(if over then RSpinExit else RSpin, thread.r));
    }

    /** Spins until something arrives or the host goes quiet, for at most `patience` polls. */
    method SpinRead(buffer: array<byte>, inn: nat, space: int, patience: nat)
      returns (waiting: bool, left: nat)
      requires Valid() && Reading(RSpin, buffer, 0, space) && buffer != rxBuf && buffer != txBuf
      requires thread.r.inn == inn && patience > 0
      modifies this, rxBuf
      ensures Valid() && old(trace) <= trace && calls == old(calls) && left < patience
      ensures Reading(if waiting then RSpin else RSpinExit, buffer, 0, space)
      ensures thread.r == old(thread.r)
      ensures if waiting then hostInactive < timeout else inn != rxIn || hostInactive >= timeout
    {
      left := patience;
      while left > 0
        invariant Valid() && old(trace) <= trace && calls == old(calls)
        invariant Reading(RSpin, buffer, 0, space) && thread.r == old(thread.r)
        invariant left <= patience && (left < patience ==> hostInactive < timeout)
      {
        left := left - 1;
        var over := PollRead(buffer, inn, space);
        if over {
          return false, left;
        }
      }
      waiting := true;
    }

    /** Rechecks after the spin whether anything came. */
    method SpunRead(buffer: array<byte>, inn: nat, ghost space: int) returns (quiet: bool)
      requires Valid() && Reading(RSpinExit, buffer, 0, space) && buffer != rxBuf && buffer != txBuf
      requires thread.r.inn == inn
      modifies this, rxBuf
      ensures Valid() && old(trace) <= trace && calls == old(calls)
      ensures Reading(if quiet then RDone else RLoop, buffer, 0, space)
      ensures thread.r == old(thread.r) && (quiet <==> inn == rxIn)
    {
      Preempt();
      NeverStuck();
      quiet := inn == rxIn;
      MoveTo(InRead(if quiet then RDone else RLoop, thread.r));
    }

    /** Turns receive interrupts back on, with interrupts disabled around the update. */
    method KickRx(buffer: array<byte>, ghost ptr: nat, ghost space: int)
      requires Valid() && Reading(RDone, buffer, ptr, space) && buffer != rxBuf && buffer != txBuf
      requires ptr > 0
      modifies this, rxBuf
      ensures Valid() && old(trace) <= trace && calls == old(calls)
      ensures Reading(RReturn, buffer, ptr, space) && thread.r == old(thread.r)
    {
      Preempt();
      MoveTo(InRead(RKickShadow, thread.r));
      EnableRx();
      Hardware();
      WriteControl();
    }

    method EnableRx()
      requires Valid() && isr == Off && thread.InRead? && thread.rpc == RKickShadow
      modifies this`irqEnable, this`thread, this`trace
      ensures Valid() && trace == old(trace) + [ThreadStep]
      ensures thread == InRead(RKickHw, old(thread.r))
    {
      ghost var before := View();
      irqEnable := irqEnable.(re := true);
      thread := InRead(RKickHw, thread.r);
      Log(ThreadStep, before);
    }

    method WriteControl()
      requires Valid() && isr == Off
      requires (thread.InRead? && thread.rpc == RKickHw) || (thread.InWrite? && thread.wpc == WKickHw)
      modifies this`hwEnable, this`thread, this`trace
      ensures Valid() && trace == old(trace) + [ThreadStep]
      ensures thread == if old(thread).InRead? then InRead(RReturn, old(thread.r))
                        else InWrite(WAfterKick, old(thread.w))
    {
      ghost var before := View();
      hwEnable := irqEnable;
      thread := if thread.InRead? then InRead(RReturn, thread.r) else InWrite(WAfterKick, thread.w);
      Log(ThreadStep, before);
    }

    method FinishRead(buffer: array<byte>, ptr: nat, ghost space: int, nonblock: bool) returns (rc: int)
      requires Valid() && Reading(RDone, buffer, ptr, space) && buffer != rxBuf && buffer != txBuf
      requires thread.r.nonblock == nonblock
      modifies this, rxBuf
      ensures Valid() && old(trace) <= trace && isr == Off && thread == Idle
      ensures rc == Code(ptr, nonblock) && calls == old(calls) + [ReadCall(buffer[..ptr], nonblock, rc)]
    {
      if ptr != 0 {
        KickRx(buffer, ptr, space);
      } else {
        MoveTo(InRead(RReturn, thread.r));
      }
      rc := if ptr != 0 then ptr else if nonblock then -EWOULDBLOCK else -EIO;
      ReturnFromRead(rc);
    }

    ghost method ReturnFromRead(rc: int)
      requires Valid() && isr == Off && thread.InRead? && thread.rpc == RReturn
      requires rc == Code(|thread.r.dest|, thread.r.nonblock)
      modifies this`thread, this`calls, this`trace
      ensures Valid() && trace == old(trace) + [ThreadStep] && thread == Idle
      ensures calls == old(calls) + [ReadCall(old(thread.r.dest), old(thread.r.nonblock), rc)]
    {
      var before := View();
      calls := calls + [ReadCall(thread.r.dest, thread.r.nonblock, rc)];
      thread := Idle;
      Log(ThreadStep, before);
    }

    ghost method EnterRead(room: int, nonblock: bool)
      requires Valid() && isr == Off && thread == Idle
      modifies this`thread, this`trace
      ensures Valid() && trace == old(trace) + [CallRead(room, nonblock)]
      ensures thread == InRead(RLoop, Reader(room, room, nonblock, [], 0, 0, 0, 0))
    {
      var before := View();
      thread := InRead(RLoop, Reader(room, room, nonblock, [], 0, 0, 0, 0));
      Log(CallRead(room, nonblock), before);
    }

    /** read()'s outer loop, pass by pass. */
    method ReadLoop(buffer: array<byte>, room: int, nonblock: bool, patience: nat)
      returns (ptr: nat, space: int, waiting: bool)
      requires Valid() && Reading(RLoop, buffer, 0, room) && buffer != rxBuf && buffer != txBuf
      requires thread.r.nonblock == nonblock && thread.r.room == room
      modifies this, rxBuf, buffer
      ensures Valid() && old(trace) <= trace && calls == old(calls)
      ensures Reading(if waiting then RSpin else RDone, buffer, ptr, space) && (waiting ==> ptr == 0)
      ensures thread.r.nonblock == nonblock && (ptr > 0 ==> ptr <= room)
      ensures buffer[ptr..] == old(buffer[..])[ptr..]
    {
      ptr, space, waiting := 0, room, false;
      var left := patience;
      while space > 0
        invariant Valid() && old(trace) <= trace && calls == old(calls)
        invariant ptr == 0 && space == room && Reading(RLoop, buffer, 0, space)
        invariant thread.r.nonblock == nonblock && thread.r.room == room
        invariant buffer[..] == old(buffer[..]) && !waiting
        decreases left
      {
        var done: bool;
        ptr, space, done, waiting, left := ReadPass(buffer, room, nonblock, left);
        if waiting || done {
          return;
        }
      }
      MoveTo(InRead(RDone, thread.r));
    }

    /** read(): blocks until it can return at least one byte, unless asked not to or the host is
        gone: if it returns fewer than asked for, it saw the ring empty meanwhile, and if it fails
        although it may block, it saw the ring empty with the host quiet for the whole timeout.
        It gives up modelling a spin after `patience` polls, still `waiting`. */
    method Read(buffer: array<byte>, room: int, nonblock: bool, patience: nat)
      returns (rc: int, waiting: bool)
      requires Valid() && isr == Off && thread == Idle
      requires room <= buffer.Length && buffer != rxBuf && buffer != txBuf
      modifies this, rxBuf, buffer
      ensures Valid() && old(trace) <= trace && isr == Off
      ensures waiting ==> thread.InRead? && thread.rpc == RSpin && calls == old(calls)
      ensures !waiting ==>
                && thread == Idle && (rc > 0 ==> rc <= room)
                && calls == old(calls) + [ReadCall(buffer[..if rc > 0 then rc else 0], nonblock, rc)]
                && (rc > 0 || rc == if nonblock then -EWOULDBLOCK else -EIO)
      ensures !waiting && room > 0 ==> Outcomes.ReadExplained(start, trace, |old(trace)|, room, rc)
      ensures forall i | rc <= i < buffer.Length && 0 <= i :: buffer[i] == old(buffer[i])
    {
      EnterRead(room, nonblock);
      var ptr: nat, space: int;
      ptr, space, waiting := ReadLoop(buffer, room, nonblock, patience);
      if waiting {
        return 0, true;
      }
      rc := FinishRead(buffer, ptr, space, nonblock);
      if room > 0 {
        Started();
        Outcomes.ReadExplains(start, old(trace), trace, room, nonblock);
      }
    }

    /** One pass of read()'s outer loop: take what is there, or spin until something changes. */
    method ReadPass(buffer: array<byte>, room: int, nonblock: bool, patience: nat)
      returns (ptr: nat, space: int, done: bool, waiting: bool, left: nat)
      requires Valid() && Reading(RLoop, buffer, 0, room) && buffer != rxBuf && buffer != txBuf
      requires thread.r.nonblock == nonblock && thread.r.room == room > 0
      modifies this, rxBuf, buffer
      ensures Valid() && old(trace) <= trace && calls == old(calls)
      ensures waiting ==> ptr == 0 && Reading(RSpin, buffer, 0, space)
      ensures !waiting ==> Reading(if done then RDone else RLoop, buffer, ptr, space)
      ensures !waiting && !done ==> ptr == 0 && space == room && left < patience
      ensures thread.r.nonblock == nonblock && thread.r.room == room && ptr <= room
      ensures buffer[ptr..] == old(buffer[..])[ptr..]
    {
      waiting, left := false, patience;
      NeverStuck();
      MoveTo(InRead(RSnapIn, thread.r));
      var inn: nat;
      ptr, space, inn := CopyAvailable(buffer, room);
      done := ptr != 0 || nonblock;
      if done {
        MoveTo(InRead(RDone, thread.r));
      } else {
        done, waiting, left := AwaitData(buffer, inn, space, patience);
      }
    }

    /** With nothing to return: spin, then say whether to give up. */
    method AwaitData(buffer: array<byte>, inn: nat, space: int, patience: nat)
      returns (done: bool, waiting: bool, left: nat)
      requires Valid() && Reading(RAfter, buffer, 0, space) && buffer != rxBuf && buffer != txBuf
      requires thread.r.inn == inn && !thread.r.nonblock
      modifies this, rxBuf
      ensures Valid() && old(trace) <= trace && calls == old(calls)
      ensures waiting ==> Reading(RSpin, buffer, 0, space)
      ensures !waiting ==> left < patience && Reading(if done then RDone else RLoop, buffer, 0, space)
      ensures thread.r == old(thread.r)
    {
      done, left := false, patience;
      MoveTo(InRead(RSpin, thread.r));
      waiting := left == 0;
      if !waiting {
        waiting, left := SpinRead(buffer, inn, space, left);
      }
      if !waiting {
        done := SpunRead(buffer, inn, space);
      }
    }

    // ---- write() ----

    lemma LastCallReported()
      requires Valid() && calls != [] && calls[|calls| - 1].WriteCall?
      ensures var c := calls[|calls| - 1]; 0 < c.rc <= |c.data| || c.rc == Code(0, c.nonblock)
    {
      ValidReachable();
      ReturnCodes(View(), |calls| - 1);
    }

    /** A write of `data` is at `pc`, having accepted `ptr` bytes with `count` left. */
    ghost predicate Writing(pc: WritePc, data: seq<byte>, ptr: nat, count: int, nonblock: bool)
      reads this
    {
      && isr == Off && thread.InWrite? && thread.wpc == pc
      && thread.w.data == data && thread.w.ptr == ptr && thread.w.count == count
      && thread.w.nonblock == nonblock
    }

    method SampleTxIn(data: seq<byte>, ptr: nat, count: int, nonblock: bool) returns (inn: Index)
      requires Valid() && Writing(WSnapIn, data, ptr, count, nonblock)
      modifies this, rxBuf
      ensures Valid() && old(trace) <= trace && calls == old(calls)
      ensures Writing(WSnapOut, data, ptr, count, nonblock)
      ensures thread.w.inn == inn
    {
      Preempt();
      inn := txIn;
      NeverStuck();
      MoveTo(InWrite(WSnapOut, thread.w.(inn := inn)));
    }

    /** A write with data left over saw the ring full. */
    lemma SawFull()
      requires Valid() && thread.InWrite? && thread.wpc == WKickShadow && thread.w.count > 0
      ensures thread.w.out < BUF_LEN && Used(thread.w.out, txIn) == BUF_LEN - 1
    {
      ValidReachable();
      ReachableInv(View());
    }

    /** Samples `out` and works out how much fits before the end of the buffer or the reader. */
    method SampleTxOut(data: seq<byte>, ptr: nat, inn: Index, count: int, nonblock: bool)
      returns (out: Index, n: nat)
      requires Valid() && Writing(WSnapOut, data, ptr, count, nonblock)
      requires thread.w.inn == inn && count > 0
      modifies this, rxBuf
      ensures Valid() && old(trace) <= trace && calls == old(calls) && n <= count
      ensures Writing(if n == 0 then WKickShadow else WCopy, data, ptr, count, nonblock)
      ensures thread.w.out == out && thread.w.inn == inn
      ensures n > 0 ==> thread.w.n == n && thread.w.k == 0
      ensures n == 0 ==> out == txOut && Used(txOut, txIn) == BUF_LEN - 1
    {
      Preempt();
      out := txOut;
      if inn < out {
        n := out - 1 - inn;
      } else if out > 0 {
        n := BUF_LEN - inn;
      } else {
        n := BUF_LEN - 1 - inn;
      }
      assert n == Writable(thread.w.inn, txOut);
      NeverStuck();
      if n == 0 {
        MoveTo(InWrite(WKickShadow, thread.w.(out := out)));
        SawFull();
      } else {
        if n > count {
          n := count;
        }
        MoveTo(InWrite(WCopy, thread.w.(out := out, n := n, k := 0)));
      }
    }

    /** memcpy into the free part of the ring, interleaved with the interrupt routine. */
    method CopyIn(data: seq<byte>, ptr: nat, inn: Index, n: nat, count: int, nonblock: bool)
      requires Valid() && Writing(WCopy, data, ptr, count, nonblock)
      requires thread.w.inn == inn && thread.w.n == n && thread.w.k == 0
      modifies this, rxBuf, txBuf
      ensures Valid() && old(trace) <= trace && calls == old(calls)
      ensures Writing(WCopy, data, ptr, count, nonblock)
      ensures thread.w == old(thread.w).(k := n)
    {
      var k := 0;
      while k < n
        invariant Valid() && old(trace) <= trace && calls == old(calls) && k <= n
        invariant Writing(WCopy, data, ptr, count, nonblock) && thread.w == old(thread.w).(k := k)
      {
        Preempt();
        NeverStuck();
        CopyByteIn(data[ptr + k], inn + k);
        k := k + 1;
      }
    }

    method CopyByteIn(b: byte, slot: nat)
      requires Valid() && isr == Off && thread.InWrite? && thread.wpc == WCopy
      requires Enabled(View(), ThreadStep) && thread.w.k < thread.w.n
      requires slot == thread.w.inn + thread.w.k && b == thread.w.data[thread.w.ptr + thread.w.k]
      modifies this`thread, this`trace, txBuf
      ensures Valid() && trace == old(trace) + [ThreadStep]
      ensures thread == InWrite(WCopy, old(thread.w).(k := old(thread.w.k) + 1))
    {
      ghost var before := View();
      txBuf[slot] := b;
      thread := InWrite(WCopy, thread.w.(k := thread.w.k + 1));
      assert txBuf[..] == before.txBuf[slot := b];
      assert Apply(before, ThreadStep) == before.(txBuf := txBuf[..], thread := thread);
      Log(ThreadStep, before);
    }

    /** Publishes the new `in` index, which hands the copied bytes to the interrupt routine. */
    method StoreTxIn(inn: Index, n: nat)
      requires Valid() && isr == Off && thread.InWrite? && thread.wpc == WCopy
      requires thread.w.inn == inn && thread.w.n == n == thread.w.k && Enabled(View(), ThreadStep)
      modifies this`txIn, this`thread, this`trace
      ensures Valid() && trace == old(trace) + [ThreadStep]
      ensures thread == var w := old(thread.w);
                        InWrite(WLoop, w.(ptr := w.ptr + n, count := w.count - n, k := 0))
    {
      ghost var before, w := View(), thread.w;
      txIn := Advance(inn, n);
      thread := InWrite(WLoop, w.(ptr := w.ptr + n, count := w.count - n, k := 0));
      PublishTx(before, before.(txIn := txIn, thread := thread));
      Log(ThreadStep, before);
    }

    /** One pass of the copy loop; `n` is 0 if the ring was full. */
    method FillOnce(data: seq<byte>, ptr: nat, count: int, nonblock: bool) returns (out: Index, n: nat)
      requires Valid() && Writing(WSnapIn, data, ptr, count, nonblock) && count > 0
      modifies this, rxBuf, txBuf
      ensures Valid() && old(trace) <= trace && calls == old(calls) && n <= count
      ensures Writing(if n == 0 then WKickShadow else WLoop, data, ptr + n, count - n, nonblock)
      ensures n == 0 ==> thread.w.out == out
    {
      var inn := SampleTxIn(data, ptr, count, nonblock);
      out, n := SampleTxOut(data, ptr, inn, count, nonblock);
      if n > 0 {
        CopyIn(data, ptr, inn, n, count, nonblock);
        Preempt();
        NeverStuck();
        StoreTxIn(inn, n);
      }
    }

    /** Copies as much as fits into the ring. */
    method FillRing(data: seq<byte>, from: nat, wanted: int, nonblock: bool)
      returns (ptr: nat, count: int, out: Index)
      requires Valid() && Writing(WLoop, data, from, wanted, nonblock)
      modifies this, rxBuf, txBuf
      ensures Valid() && old(trace) <= trace && calls == old(calls)
      ensures Writing(WKickShadow, data, ptr, count, nonblock)
      ensures count > 0 ==> thread.w.out == out
      ensures from <= ptr && ptr + count == from + wanted
    {
      ptr, count, out := from, wanted, 0;
      while count > 0
        invariant Valid() && old(trace) <= trace && calls == old(calls)
        invariant Writing(WLoop, data, ptr, count, nonblock)
        invariant from <= ptr && ptr + count == from + wanted
      {
        NeverStuck();
        MoveTo(InWrite(WSnapIn, thread.w));
        var n: nat;
        out, n := FillOnce(data, ptr, count, nonblock);
        if n == 0 {
          return;
        }
        ptr := ptr + n;
        count := count - n;
      }
      Preempt();
      NeverStuck();
      MoveTo(InWrite(WKickShadow, thread.w));
    }

    /** Turns transmit interrupts on, with interrupts disabled around the update. */
    method KickTx()
      requires Valid() && isr == Off && thread.InWrite? && thread.wpc == WKickShadow
      modifies this, rxBuf
      ensures Valid() && old(trace) <= trace && calls == old(calls)
      ensures isr == Off && thread == InWrite(WAfterKick, old(thread.w))
    {
      EnableTx();
      Hardware();
      WriteControl();
      Preempt();
    }

    method EnableTx()
      requires Valid() && isr == Off && thread.InWrite? && thread.wpc == WKickShadow
      modifies this`irqEnable, this`thread, this`trace
      ensures Valid() && trace == old(trace) + [ThreadStep]
      ensures thread == InWrite(WKickHw, old(thread.w))
    {
      ghost var before := View();
      irqEnable := irqEnable.(we := true);
      thread := InWrite(WKickHw, thread.w);
      Log(ThreadStep, before);
    }

    /** One poll of the spin: the index first, then, if it has not moved, the host. */
    method PollWrite(ghost data: seq<byte>, ghost ptr: nat, ghost count: int, ghost nonblock: bool, out: Index)
      returns (over: bool)
      requires Valid() && Writing(WSpin, data, ptr, count, nonblock) && thread.w.out == out
      modifies this, rxBuf
      ensures Valid() && old(trace) <= trace && calls == old(calls)
      ensures Writing(if over then WSpinExit else WSpin, data, ptr, count, nonblock) && thread.w == old(thread.w)
      ensures if over then out != txOut || hostInactive >= timeout else hostInactive < timeout
    {
      Preempt();
      NeverStuck();
      over := out != txOut;
      if !over {
        MoveTo(InWrite(WSpinHost, thread.w));
        over := HostQuiet();
        NeverStuck();
      }
      MoveTo(InWrite(if over then WSpinExit else WSpin, thread.w));
    }

    /** Spins until something leaves or the host goes quiet, for at most `patience` polls. */
    method SpinWrite(data: seq<byte>, ptr: nat, count: int, nonblock: bool, out: Index, patience: nat)
      returns (waiting: bool, left: nat)
      requires Valid() && Writing(WSpin, data, ptr, count, nonblock)
      requires thread.w.out == out && patience > 0
      modifies this, rxBuf
      ensures Valid() && old(trace) <= trace && calls == old(calls) && left < patience
      ensures Writing(if waiting then WSpin else WSpinExit, data, ptr, count, nonblock)
      ensures if waiting then hostInactive < timeout else out != txOut || hostInactive >= timeout
    {
      left := patience;
      while left > 0
        invariant Valid() && old(trace) <= trace && calls == old(calls)
        invariant Writing(WSpin, data, ptr, count, nonblock) && thread.w.out == out
        invariant left <= patience && (left < patience ==> hostInactive < timeout)
      {
        left := left - 1;
        var over := PollWrite(data, ptr, count, nonblock, out);
        if over {
          return false, left;
        }
      }
      waiting := true;
    }

    /** Gives up after the spin if the host has been quiet at all. */
    method SpunWrite(data: seq<byte>, ptr: nat, count: int, nonblock: bool) returns (quiet: bool)
      requires Valid() && Writing(WSpinExit, data, ptr, count, nonblock)
      modifies this, rxBuf
      ensures Valid() && old(trace) <= trace && calls == old(calls)
      ensures Writing(if quiet then WReturn else WLoop, data, ptr, count, nonblock)
      ensures quiet <==> hostInactive != 0
    {
      Preempt();
      NeverStuck();
      quiet := hostInactive != 0;
      MoveTo(InWrite(if quiet then WReturn else WLoop, thread.w));
    }

    /** One pass of write()'s outer loop: fill the ring, kick, and wait if data is left. */
    method WritePass(data: seq<byte>, from: nat, wanted: int, nonblock: bool, patience: nat)
      returns (ptr: nat, count: int, done: bool, waiting: bool, left: nat)
      requires Valid() && Writing(WLoop, data, from, wanted, nonblock)
      modifies this, rxBuf, txBuf
      ensures Valid() && old(trace) <= trace && calls == old(calls)
      ensures waiting ==> Writing(WSpin, data, ptr, count, nonblock)
      ensures !waiting ==> Writing(if done then WReturn else WLoop, data, ptr, count, nonblock)
      ensures !waiting && !done ==> left < patience
    {
      waiting, left := false, patience;
      var out: Index;
      ptr, count, out := FillRing(data, from, wanted, nonblock);
      KickTx();
      done := !(count > 0) || nonblock;
      if done {
        NeverStuck();
        MoveTo(InWrite(WReturn, thread.w));
      } else {
        done, waiting, left := AwaitRoom(data, ptr, count, nonblock, out, patience);
      }
    }

    /** With data left over: spin, then say whether to give up. */
    method AwaitRoom(data: seq<byte>, ptr: nat, count: int, nonblock: bool, out: Index, patience: nat)
      returns (done: bool, waiting: bool, left: nat)
      requires Valid() && Writing(WAfterKick, data, ptr, count, nonblock)
      requires thread.w.out == out && count > 0 && !nonblock
      modifies this, rxBuf
      ensures Valid() && old(trace) <= trace && calls == old(calls)
      ensures waiting ==> Writing(WSpin, data, ptr, count, nonblock)
      ensures !waiting ==> left < patience && Writing(if done then WReturn else WLoop, data, ptr, count, nonblock)
    {
      done, left := false, patience;
      NeverStuck();
      MoveTo(InWrite(WSpin, thread.w));
      waiting := left == 0;
      if !waiting {
        waiting, left := SpinWrite(data, ptr, count, nonblock, out, left);
      }
      if !waiting {
        done := SpunWrite(data, ptr, count, nonblock);
      }
    }

    ghost method EnterWrite(data: seq<byte>, count: int, nonblock: bool)
      requires Valid() && isr == Off && thread == Idle
      requires |data| == if count > 0 then count else 0
      modifies this`thread, this`trace
      ensures Valid() && trace == old(trace) + [CallWrite(data, count, nonblock)]
      ensures thread == InWrite(WLoop, Writer(data, count, nonblock, 0, 0, 0, 0, 0))
    {
      var before := View();
      thread := InWrite(WLoop, Writer(data, count, nonblock, 0, 0, 0, 0, 0));
      Log(CallWrite(data, count, nonblock), before);
    }

    ghost method ReturnFromWrite(rc: int)
      requires Valid() && isr == Off && thread.InWrite? && thread.wpc == WReturn
      requires rc == Code(thread.w.ptr, thread.w.nonblock)
      modifies this`thread, this`calls, this`trace
      ensures Valid() && trace == old(trace) + [ThreadStep] && thread == Idle
      ensures calls == old(calls) + [WriteCall(old(thread.w.data), old(thread.w.nonblock), rc)]
    {
      var before := View();
      calls := calls + [WriteCall(thread.w.data, thread.w.nonblock, rc)];
      thread := Idle;
      Log(ThreadStep, before);
    }

    /** write()'s outer loop, pass by pass. */
    method WriteLoop(data: seq<byte>, count: int, nonblock: bool, patience: nat)
      returns (ptr: nat, waiting: bool)
      requires Valid() && Writing(WLoop, data, 0, count, nonblock)
      modifies this, rxBuf, txBuf
      ensures Valid() && old(trace) <= trace && calls == old(calls)
      ensures isr == Off && thread.InWrite? && thread.wpc == if waiting then WSpin else WReturn
      ensures thread.w.data == data && thread.w.ptr == ptr && thread.w.nonblock == nonblock
    {
      ptr := 0;
      var remaining, left := count, patience;
      while true
        invariant Valid() && old(trace) <= trace && calls == old(calls)
        invariant Writing(WLoop, data, ptr, remaining, nonblock)
        decreases left
      {
        var done: bool;
        ptr, remaining, done, waiting, left := WritePass(data, ptr, remaining, nonblock, left);
        if waiting || done {
          return;
        }
      }
    }

    /** write(): blocks until everything is queued, unless asked not to or the host has been
        quiet: if not all is queued, it saw the ring full meanwhile and, if it may block, after that
        the host quiet. It gives up modelling a spin after `patience` polls, still `waiting`. */
    method Write(data: seq<byte>, count: int, nonblock: bool, patience: nat)
      returns (rc: int, waiting: bool)
      requires Valid() && isr == Off && thread == Idle
      requires |data| == if count > 0 then count else 0
      modifies this, rxBuf, txBuf
      ensures Valid() && old(trace) <= trace && isr == Off
      ensures waiting ==> thread.InWrite? && thread.wpc == WSpin && calls == old(calls)
      ensures !waiting ==> thread == Idle && calls == old(calls) + [WriteCall(data, nonblock, rc)]
      ensures !waiting ==> 0 < rc <= count || rc == if nonblock then -EWOULDBLOCK else -EIO
      ensures !waiting && count > 0 ==> Outcomes.WriteExplained(start, trace, |old(trace)|, count, nonblock, rc)
    {
      EnterWrite(data, count, nonblock);
      var ptr: nat;
      ptr, waiting := WriteLoop(data, count, nonblock, patience);
      if waiting {
        return 0, true;
      }
      rc := if ptr != 0 then ptr else if nonblock then -EWOULDBLOCK else -EIO;
      ReturnFromWrite(rc);
      LastCallReported();
      if count > 0 {
        Started();
        Outcomes.WriteExplains(start, old(trace), trace, data, count, nonblock);
      }
    }

    // ---- close() ----

    /** close(): waits until the transmit ring is empty or the host has been quiet too long. When
        it succeeds with the host there, every byte ever accepted has left for the hardware. `mark`
        is the run up to its last look at the ring. */
    method Close(nonblock: bool, patience: nat) returns (rc: int, waiting: bool, ghost mark: seq<Label>)
      requires Valid() && isr == Off && thread == Idle
      modifies this, rxBuf
      ensures Valid() && old(trace) <= trace && isr == Off && thread == Idle && calls == old(calls)
      ensures !waiting && rc == 0 && hostInactive < timeout ==> taken + txFifo == Accepted(calls)
      ensures old(trace) <= mark <= trace && Legal(start, mark)
      ensures !waiting ==> (rc == 0 <==> TxRing(Exec(start, mark)) == [] || hostInactive >= timeout)
      ensures !waiting && rc != 0 ==> nonblock && rc == -EWOULDBLOCK
      ensures nonblock && patience > 0 ==> !waiting
    {
      var left := patience;
      mark := trace;
      while left > 0
        invariant Valid() && old(trace) <= mark <= trace && Legal(start, mark)
        invariant isr == Off && thread == Idle && calls == old(calls)
        invariant left <= patience && (nonblock ==> left == patience)
      {
        left := left - 1;
        Preempt();
        mark := trace;
        Drained();
        if !(txOut != txIn) {
          return 0, false, mark;
        }
        var quiet := HostQuiet();
        if quiet {
          return 0, false, mark;
        }
        if nonblock {
          return -EWOULDBLOCK, false, mark;
        }
      }
      return 0, true, mark;
    }

    lemma Drained()
      requires Valid() && thread == Idle
      ensures txIn == txOut ==> taken + txFifo == Accepted(calls)
      ensures txIn == txOut <==> TxRing(Exec(start, trace)) == []
    {
      ValidReachable();
      TransmitIsFifo(View());
      if txIn == txOut {
        assert taken + txFifo + TxRing(View()) == taken + txFifo;
        assert Accepted(calls) + Published(thread) == Accepted(calls);
      }
    }
  }
}
