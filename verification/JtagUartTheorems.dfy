/** The promises of the JTAG UART driver, for every legal run from initialisation. */
module JtagUartTheorems {
  import opened ErrorCodes
  import opened JtagUartRing
  import opened JtagUartModel
  import opened JtagUartSafety

  /** States the driver can be in: what some run from initialisation leads to. */
  ghost predicate Reachable(s: State) {
    exists rx, tx, timeout, depth, run ::
      Legal(Init(rx, tx, timeout, depth), run) && s == Exec(Init(rx, tx, timeout, depth), run)
  }

  lemma ReachableInv(s: State)
    requires Reachable(s)
    ensures Inv(s)
  {
    var rx, tx, timeout, depth, run :|
      Legal(Init(rx, tx, timeout, depth), run) && s == Exec(Init(rx, tx, timeout, depth), run);
    RunKeeps(Init(rx, tx, timeout, depth), run);
  }

  /** Receive side: what callers got, then what the read in progress has taken, then the ring,
      then the hardware FIFO, is everything the host ever sent, in order. A chunk being copied
      still counts as in the ring, and its copy agrees with the ring. */
  lemma ReceiveIsFifo(s: State)
    requires Reachable(s)
    ensures s.arrived == Delivered(s.calls) + Released(s.thread) + RxRing(s) + s.rxFifo
    ensures s.thread.InRead? ==>
              var r := s.thread.r;
              r.k <= |r.dest| && r.k <= |RxRing(s)| && r.dest[|r.dest| - r.k..] == RxRing(s)[..r.k]
  {
    ReachableInv(s);
    if s.thread.InRead? && s.thread.rpc != RCopy {
      assert s.thread.r.dest[|s.thread.r.dest|..] == [];
    }
  }

  /** Transmit side: what the host took, then the hardware FIFO, then the ring, is exactly the
      prefixes that returned writes reported, then what the write in progress has published;
      and the transmit FIFO is never overrun. */
  lemma TransmitIsFifo(s: State)
    requires Reachable(s)
    ensures s.taken + s.txFifo + TxRing(s) == Accepted(s.calls) + Published(s.thread)
    ensures |s.txFifo| <= s.depth
  {
    ReachableInv(s);
  }

  /** Every return code is the positive number of bytes moved, or the error of the call's mode. */
  lemma ReturnCodes(s: State, i: nat)
    requires Reachable(s) && i < |s.calls|
    ensures match s.calls[i]
            case ReadCall(bytes, nonblock, rc) =>
              rc == |bytes| > 0 || (bytes == [] && rc == if nonblock then -EWOULDBLOCK else -EIO)
            case WriteCall(data, nonblock, rc) =>
              0 < rc <= |data| || rc == if nonblock then -EWOULDBLOCK else -EIO
  {
    ReachableInv(s);
    assert CallOk(s.calls[i]);
  }

  /** Outside the two sections that run with interrupts disabled, the software copy of the
      interrupt enables is the hardware's; receive interrupts are off only while there is
      something to read or a reader that will turn them on; unsent bytes keep transmit
      interrupts on unless a writer is about to. */
  lemma EnablesTrackRings(s: State)
    requires Reachable(s)
    ensures !IrqsDisabled(s.thread) ==> s.hw == s.shadow
    ensures !s.shadow.re ==> RxRing(s) != [] || OwesRxKick(s.thread)
    ensures TxRing(s) != [] ==> s.shadow.we || OwesTxKick(s.thread)
  {
    ReachableInv(s);
  }

  /** No lost wake-up: a spinning reader that has seen nothing new waits on an empty ring with
      receive interrupts enabled in hardware; a spinning writer that has seen nothing leave
      waits on a full ring with transmit interrupts enabled. What each polls changes as soon
      as the ring does. */
  lemma SpinnersCanBeWoken(s: State)
    requires Reachable(s)
    ensures s.thread.InRead? && s.thread.rpc in {RSpin, RSpinHost} ==>
              && (s.thread.r.inn == s.rxIn <==> RxRing(s) == [])
              && (s.thread.r.inn == s.rxIn ==> s.hw.re)
    ensures s.thread.InWrite? && s.thread.wpc in {WSpin, WSpinHost} ==>
              && (s.thread.w.out == s.txOut <==> |TxRing(s)| == BUF_LEN - 1)
              && (s.thread.w.out == s.txOut ==> s.hw.we)
  {
    ReachableInv(s);
  }

  /** Whenever the interrupt routine moves a byte, the spinning thread sees the change. */
  lemma InterruptWakesSpinner(s: State)
    requires Reachable(s) && Enabled(s, IsrWork)
    ensures s.thread.InRead? && s.thread.rpc in {RSpin, RSpinHost} && s.thread.r.inn == s.rxIn
            && s.isr.Rx? && s.rxFifo != [] ==>
              Apply(s, IsrWork).rxIn != s.thread.r.inn
    ensures s.thread.InWrite? && s.thread.wpc in {WSpin, WSpinHost} && s.thread.w.out == s.txOut
            && s.isr.Tx? && s.isr.space > 0 ==>
              Apply(s, IsrWork).txOut != s.thread.w.out
  {
    ReachableInv(s);
  }

  /** A call in progress is never stuck and never leaves the rings or the caller's buffer. */
  lemma ThreadNeverStuck(s: State)
    requires Reachable(s) && s.isr.Off? && !s.thread.Idle?
    ensures Enabled(s, ThreadStep)
    ensures s.thread.InRead? ==> s.thread.r.dest == [] || |s.thread.r.dest| <= s.thread.r.room
    ensures s.thread.InRead? && s.thread.rpc == RCopy && s.thread.r.k < s.thread.r.n ==>
              |s.thread.r.dest| < s.thread.r.room
  {
    ReachableInv(s);
  }
}
