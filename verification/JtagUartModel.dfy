/** The JTAG UART fast driver as a labelled step machine. A thread step makes at most one access
    to state that changes behind the thread's back, an interrupt step is one pass of a loop, so a
    run is an interleaving of one thread (inside read, write, or neither), the interrupt routine,
    the host timeout alarm and the hardware on the other side of the FIFOs.
    The interrupt routine excludes the thread while it is active, never the hardware. */
module JtagUartModel {
  import opened ErrorCodes
  import opened JtagUartRing

  const INT_MAX := 0x7FFF_FFFF

  /** The RE and WE bits of the control register. */
  datatype Enables = Enables(re: bool, we: bool)

  /** A call that has returned: what was moved, its mode and the code the caller saw. */
  datatype Call =
    | ReadCall(bytes: seq<byte>, nonblock: bool, rc: int)
    | WriteCall(data: seq<byte>, nonblock: bool, rc: int)

  /** Locals of a read in progress; `dest` is what has been copied to the caller's buffer,
      its last `k` bytes belonging to a chunk whose slots are not yet released. */
  datatype Reader = Reader(
    room: int, space: int, nonblock: bool, dest: seq<byte>, inn: nat, out: nat, n: nat, k: nat)

  datatype ReadPc =
    | RLoop | RSnapIn | RSnapOut | RCopy | RAfter | RSpin | RSpinHost | RSpinExit
    | RDone | RKickShadow | RKickHw | RReturn

  /** Locals of a write in progress; `data` is the caller's buffer, `ptr` how far it has got. */
  datatype Writer = Writer(
    data: seq<byte>, count: int, nonblock: bool, ptr: nat, inn: nat, out: nat, n: nat, k: nat)

  datatype WritePc =
    | WLoop | WSnapIn | WSnapOut | WCopy | WKickShadow | WKickHw | WAfterKick
    | WSpin | WSpinHost | WSpinExit | WReturn

  datatype Thread =
    | Idle
    | InRead(rpc: ReadPc, r: Reader)
    | InWrite(wpc: WritePc, w: Writer)

  /** Where the interrupt routine is; `avail` is its view of the RAVAIL field, `wi` and
      `space` come from the control register value of the current iteration. */
  datatype Isr =
    | Off
    | Top
    | Rx(avail: bool, wi: bool, space: nat)
    | Tx(space: nat)

  datatype State = State(
    rxBuf: Buffer, rxIn: Index, rxOut: Index,
    txBuf: Buffer, txIn: Index, txOut: Index,
    shadow: Enables, hostInactive: nat, timeout: nat,
    hw: Enables, rxFifo: seq<byte>, txFifo: seq<byte>, depth: nat,
    thread: Thread, isr: Isr,
    arrived: seq<byte>, taken: seq<byte>, calls: seq<Call>)

  datatype Label =
    | CallRead(space: int, nonblock: bool)
    | CallWrite(data: seq<byte>, count: int, nonblock: bool)
    | ThreadStep
    | IsrEnter
    | IsrControl(ri: bool, wi: bool, wspace: nat)
    | IsrWork
    | HostAlarm(ac: bool)
    | HostSends(b: byte)
    | HostTakes

  function Init(rx: Buffer, tx: Buffer, timeout: nat, depth: nat): State {
    State(rx, 0, 0, tx, 0, 0, Enables(true, false), 0, timeout,
          Enables(true, false), [], [], depth, Idle, Off, [], [], [])
  }

  // ---- The thread ----

  function Code(moved: nat, nonblock: bool): int {
    if moved > 0 then moved else if nonblock then -EWOULDBLOCK else -EIO
  }

  /** Bytes to copy in one go on the read side, given possibly stale snapshots. */
  function Readable(inn: nat, out: Index): nat {
    if inn >= out then inn - out else BUF_LEN - out
  }

  /** Free space to fill in one go on the write side. */
  function Writable(inn: Index, out: Index): int {
    if inn < out then out - 1 - inn
    else if out > 0 then BUF_LEN - inn
    else BUF_LEN - 1 - inn
  }

  function Min(n: int, m: int): int {
    if n > m then m else n
  }

  function ReadStep(s: State): State
    requires s.thread.InRead? && ThreadInBounds(s)
  {
    var r := s.thread.r;
    match s.thread.rpc
    case RLoop => s.(thread := InRead(if r.space > 0 then RSnapIn else RDone, r))
    case RSnapIn => s.(thread := InRead(RSnapOut, r.(inn := s.rxIn)))
    case RSnapOut =>
      var n := Readable(r.inn, s.rxOut);
      var r' := r.(out := s.rxOut, n := Min(n, r.space), k := 0);
      s.(thread := if n == 0 then InRead(RAfter, r) else InRead(RCopy, r'))
    case RCopy =>
      if r.k < r.n then
        s.(thread := InRead(RCopy, r.(dest := r.dest + [s.rxBuf[r.out + r.k]], k := r.k + 1)))
      else
        s.(rxOut := Advance(r.out, r.n),
           thread := InRead(if r.space - r.n > 0 then RSnapIn else RAfter,
                          r.(space := r.space - r.n, k := 0)))
    case RAfter => s.(thread := InRead(if r.dest != [] || r.nonblock then RDone else RSpin, r))
    case RSpin => s.(thread := InRead(if r.inn == s.rxIn then RSpinHost else RSpinExit, r))
    case RSpinHost => s.(thread := InRead(if s.hostInactive < s.timeout then RSpin else RSpinExit, r))
    case RSpinExit => s.(thread := InRead(if r.inn == s.rxIn then RDone else RLoop, r))
    case RDone => s.(thread := InRead(if r.dest != [] then RKickShadow else RReturn, r))
    case RKickShadow => s.(shadow := s.shadow.(re := true), thread := InRead(RKickHw, r))
    case RKickHw => s.(hw := s.shadow, thread := InRead(RReturn, r))
    case RReturn =>
      s.(thread := Idle, calls := s.calls + [ReadCall(r.dest, r.nonblock, Code(|r.dest|, r.nonblock))])
  }

  function WriteStep(s: State): State
    requires s.thread.InWrite? && ThreadInBounds(s)
  {
    var w := s.thread.w;
    match s.thread.wpc
    case WLoop => s.(thread := InWrite(if w.count > 0 then WSnapIn else WKickShadow, w))
    case WSnapIn => s.(thread := InWrite(WSnapOut, w.(inn := s.txIn)))
    case WSnapOut =>
      var n := Writable(w.inn, s.txOut);
      var w' := w.(out := s.txOut);
      s.(thread := if n == 0 then InWrite(WKickShadow, w')
                   else InWrite(WCopy, w'.(n := Min(n, w.count), k := 0)))
    case WCopy =>
      if w.k < w.n then
        s.(txBuf := s.txBuf[w.inn + w.k := w.data[w.ptr + w.k]],
           thread := InWrite(WCopy, w.(k := w.k + 1)))
      else
        s.(txIn := Advance(w.inn, w.n),
           thread := InWrite(WLoop, w.(ptr := w.ptr + w.n, count := w.count - w.n, k := 0)))
    case WKickShadow => s.(shadow := s.shadow.(we := true), thread := InWrite(WKickHw, w))
    case WKickHw => s.(hw := s.shadow, thread := InWrite(WAfterKick, w))
    case WAfterKick =>
      s.(thread := InWrite(if w.count > 0 && !w.nonblock then WSpin else WReturn, w))
    case WSpin => s.(thread := InWrite(if w.out == s.txOut then WSpinHost else WSpinExit, w))
    case WSpinHost => s.(thread := InWrite(if s.hostInactive < s.timeout then WSpin else WSpinExit, w))
    case WSpinExit => s.(thread := InWrite(if s.hostInactive != 0 then WReturn else WLoop, w))
    case WReturn =>
      s.(thread := Idle, calls := s.calls + [WriteCall(w.data, w.nonblock, Code(w.ptr, w.nonblock))])
  }

  /** What a thread step needs of its locals: every memory access it makes is in bounds. */
  predicate ThreadInBounds(s: State) {
    match s.thread
    case Idle => true
    case InRead(RSnapOut, r) => r.space >= 0
    case InRead(RCopy, r) => r.out < BUF_LEN && r.out + r.n <= BUF_LEN
    case InRead(_, _) => true
    case InWrite(WSnapOut, w) => w.inn < BUF_LEN && Writable(w.inn, s.txOut) >= 0 && w.count >= 0
    case InWrite(WCopy, w) => w.inn < BUF_LEN && w.inn + w.n <= BUF_LEN && w.ptr + w.n <= |w.data|
    case InWrite(_, _) => true
  }

  /** Between alt_irq_disable_all and alt_irq_enable_all. */
  predicate IrqsDisabled(t: Thread) {
    (t.InRead? && t.rpc in {RKickShadow, RKickHw}) || (t.InWrite? && t.wpc in {WKickShadow, WKickHw})
  }

  // ---- The interrupt routine ----

  /** One pass of the receive loop, or its exit. A data register read pops a byte and reports
      how many remain; it reports neither validity nor remaining bytes when the FIFO is empty. */
  function IsrRx(s: State): State
    requires s.isr.Rx?
  {
    var after := if s.isr.wi then Tx(s.isr.space) else Top;
    if Advance(s.rxIn, 1) == s.rxOut then
      var e := if s.isr.avail then s.shadow.(re := false) else s.shadow;
      s.(shadow := e, hw := if s.isr.avail then e else s.hw, isr := after)
    else if s.rxFifo == [] then
      s.(isr := after)
    else
      s.(rxBuf := s.rxBuf[s.rxIn := s.rxFifo[0]], rxIn := Advance(s.rxIn, 1),
         rxFifo := s.rxFifo[1..], isr := s.isr.(avail := |s.rxFifo| > 1))
  }

  /** One pass of the transmit loop, or its exit. */
  function IsrTx(s: State): State
    requires s.isr.Tx?
  {
    if s.isr.space > 0 && s.txOut != s.txIn then
      s.(txFifo := s.txFifo + [s.txBuf[s.txOut]], txOut := Advance(s.txOut, 1),
         isr := Tx(s.isr.space - 1))
    else if s.isr.space > 0 then
      var e := s.shadow.(we := false);
      s.(shadow := e, hw := e, isr := Top)
    else
      s.(isr := Top)
  }

  // ---- The machine ----

  predicate Enabled(s: State, l: Label) {
    match l
    case CallRead(_, _) => s.isr.Off? && s.thread.Idle?
    case CallWrite(data, count, _) =>
      s.isr.Off? && s.thread.Idle? && |data| == if count > 0 then count else 0
    case ThreadStep => s.isr.Off? && !s.thread.Idle? && ThreadInBounds(s)
    case IsrEnter => s.isr.Off? && !IrqsDisabled(s.thread)
    // The WSPACE field never promises more room than the transmit FIFO has.
    case IsrControl(_, _, wspace) => s.isr.Top? && wspace + |s.txFifo| <= s.depth
    case IsrWork => s.isr.Rx? || s.isr.Tx?
    case HostAlarm(_) => s.isr.Off? && !IrqsDisabled(s.thread)
    case HostSends(_) => true
    case HostTakes => s.txFifo != []
  }

  function Apply(s: State, l: Label): State
    requires Enabled(s, l)
  {
    match l
    case CallRead(space, nonblock) =>
      s.(thread := InRead(RLoop, Reader(space, space, nonblock, [], 0, 0, 0, 0)))
    case CallWrite(data, count, nonblock) =>
      s.(thread := InWrite(WLoop, Writer(data, count, nonblock, 0, 0, 0, 0, 0)))
    case ThreadStep => if s.thread.InRead? then ReadStep(s) else WriteStep(s)
    case IsrEnter => s.(isr := Top)
    case IsrControl(ri, wi, wspace) =>
      s.(isr := if ri then Rx(true, wi, wspace) else if wi then Tx(wspace) else Off)
    case IsrWork => if s.isr.Rx? then IsrRx(s) else IsrTx(s)
    case HostAlarm(ac) =>
      if ac then s.(hw := s.shadow, hostInactive := 0)
      else if s.hostInactive < INT_MAX - 2 then s.(hostInactive := s.hostInactive + 1)
      else s
    case HostSends(b) => s.(rxFifo := s.rxFifo + [b], arrived := s.arrived + [b])
    case HostTakes => s.(txFifo := s.txFifo[1..], taken := s.taken + [s.txFifo[0]])
  }

  /** Publishing a copied chunk is a step that moves the index and the thread, nothing else. */
  lemma PublishTx(s: State, out: State)
    requires s.isr.Off? && s.thread.InWrite? && s.thread.wpc == WCopy && ThreadInBounds(s)
    requires s.thread.w.k >= s.thread.w.n
    requires var w := s.thread.w;
             out == s.(txIn := Advance(w.inn, w.n),
                       thread := InWrite(WLoop, w.(ptr := w.ptr + w.n, count := w.count - w.n, k := 0)))
    ensures Enabled(s, ThreadStep) && Apply(s, ThreadStep) == out
  {
  }

  /** So is releasing a copied chunk. */
  lemma PublishRx(s: State, out: State)
    requires s.isr.Off? && s.thread.InRead? && s.thread.rpc == RCopy && ThreadInBounds(s)
    requires s.thread.r.k >= s.thread.r.n
    requires var r := s.thread.r;
             out == s.(rxOut := Advance(r.out, r.n),
                       thread := InRead(if r.space - r.n > 0 then RSnapIn else RAfter,
                                        r.(space := r.space - r.n, k := 0)))
    ensures Enabled(s, ThreadStep) && Apply(s, ThreadStep) == out
  {
  }

  /** Labels that can be taken one after the other from `s`. */
  predicate Legal(s: State, run: seq<Label>)
    decreases |run|, 0
  {
    run == [] ||
    (Legal(s, run[..|run| - 1]) && Enabled(Exec(s, run[..|run| - 1]), run[|run| - 1]))
  }

  /** The state a run leads to. */
  function Exec(s: State, run: seq<Label>): State
    requires Legal(s, run)
    decreases |run|, 1
  {
    if run == [] then s else Apply(Exec(s, run[..|run| - 1]), run[|run| - 1])
  }

  /** A legal run extended by an enabled label. */
  lemma ExecSnoc(s: State, run: seq<Label>, l: Label)
    requires Legal(s, run) && Enabled(Exec(s, run), l)
    ensures Legal(s, run + [l]) && Exec(s, run + [l]) == Apply(Exec(s, run), l)
  {
  }

  // ---- What callers have seen ----

  /** All bytes handed out by reads that have returned. */
  function Delivered(calls: seq<Call>): seq<byte> {
    if calls == [] then [] else
      var c := calls[|calls| - 1];
      Delivered(calls[..|calls| - 1]) + (if c.ReadCall? && 0 < c.rc <= |c.bytes| then c.bytes[..c.rc] else [])
  }

  /** All bytes accepted by writes that have returned: those their return codes own up to. */
  function Accepted(calls: seq<Call>): seq<byte> {
    if calls == [] then [] else
      var c := calls[|calls| - 1];
      Accepted(calls[..|calls| - 1]) + (if c.WriteCall? && 0 < c.rc <= |c.data| then c.data[..c.rc] else [])
  }
}
