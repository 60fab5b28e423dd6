/** What every step of the JTAG UART driver keeps, and what follows for every run. */
module JtagUartSafety {
  import opened JtagUartRing
  import opened JtagUartModel

  // ---- The invariant ----

  /** Bytes a read in progress has copied out and whose slots it has released. */
  function Released(t: Thread): seq<byte> {
    if t.InRead? && t.r.k <= |t.r.dest| then t.r.dest[..|t.r.dest| - t.r.k] else []
  }

  /** Bytes a write in progress has published. */
  function Published(t: Thread): seq<byte> {
    if t.InWrite? && t.w.ptr <= |t.w.data| then t.w.data[..t.w.ptr] else []
  }

  function RxRing(s: State): seq<byte> { Ring(s.rxBuf, s.rxOut, s.rxIn) }

  function TxRing(s: State): seq<byte> { Ring(s.txBuf, s.txOut, s.txIn) }

  /** Receive path: every byte the host sent is in exactly one place, in order. */
  ghost predicate RxFlow(s: State) {
    s.arrived == Delivered(s.calls) + Released(s.thread) + RxRing(s) + s.rxFifo
  }

  /** Transmit path: every byte accepted is in exactly one place, in order. */
  ghost predicate TxFlow(s: State) {
    s.taken + s.txFifo + TxRing(s) == Accepted(s.calls) + Published(s.thread)
  }

  ghost predicate ReaderOk(s: State, pc: ReadPc, r: Reader) {
    && |r.dest| - r.k + r.space == r.room
    && r.k <= |r.dest|
    && (r.dest == [] || r.space >= 0)
    && (pc != RCopy ==> r.k == 0)
    && match pc
       case RLoop => r.dest == []
       case RSnapIn => r.space > 0
       case RSnapOut =>
         r.space > 0 && r.inn < BUF_LEN && Used(s.rxOut, r.inn) <= Used(s.rxOut, s.rxIn)
       case RCopy =>
         && r.out == s.rxOut && 0 < r.n <= r.space && r.out + r.n <= BUF_LEN
         && r.k <= r.n <= Used(s.rxOut, s.rxIn)
         && r.dest[|r.dest| - r.k..] == RxRing(s)[..r.k]
       case RAfter => r.dest == [] ==> r.inn == s.rxOut && r.space > 0
       case RSpin | RSpinHost | RSpinExit => r.dest == [] && !r.nonblock && r.inn == s.rxOut && r.space > 0
       case RKickShadow | RKickHw => r.dest != []
       case RDone | RReturn => true
  }

  /** Locals of a write; with data left over, the ring was full when `out` was sampled. */
  ghost predicate WriterOk(s: State, pc: WritePc, w: Writer) {
    && (if w.count > 0 then w.ptr + w.count == |w.data| else w.ptr == |w.data|)
    && match pc
       case WLoop => true
       case WSnapIn => w.count > 0
       case WSnapOut => w.count > 0 && w.inn == s.txIn
       case WCopy =>
         && w.inn == s.txIn && 0 < w.n <= w.count && w.inn + w.n <= BUF_LEN
         && Used(s.txOut, s.txIn) + w.n < BUF_LEN
         && w.k <= w.n
         && s.txBuf[w.inn..w.inn + w.k] == w.data[w.ptr..w.ptr + w.k]
       case WKickShadow | WKickHw | WAfterKick => w.count > 0 ==> WasFull(s, w)
       case WSpin | WSpinHost | WSpinExit => w.count > 0 && !w.nonblock && WasFull(s, w)
       case WReturn => true
  }

  ghost predicate WasFull(s: State, w: Writer) {
    w.out < BUF_LEN && Used(w.out, s.txIn) == BUF_LEN - 1
  }

  ghost predicate ThreadOk(s: State) {
    match s.thread
    case Idle => true
    case InRead(pc, r) => ReaderOk(s, pc, r)
    case InWrite(pc, w) => WriterOk(s, pc, w)
  }

  ghost predicate IsrOk(s: State) {
    && (s.isr != Off ==> !IrqsDisabled(s.thread))
    && |s.txFifo| + (if s.isr.Rx? || s.isr.Tx? then s.isr.space else 0) <= s.depth
  }

  /** A read that has released slots and has yet to turn receive interrupts back on. */
  predicate OwesRxKick(t: Thread) {
    t.InRead? && |t.r.dest| > t.r.k && t.rpc !in {RKickHw, RReturn}
  }

  /** A write that has yet to turn transmit interrupts on. */
  predicate OwesTxKick(t: Thread) {
    t.InWrite? && t.wpc in {WLoop, WSnapIn, WSnapOut, WCopy, WKickShadow}
  }

  ghost predicate EnablesOk(s: State) {
    && (!IrqsDisabled(s.thread) ==> s.hw == s.shadow)
    && (!s.shadow.re ==> s.rxIn != s.rxOut || OwesRxKick(s.thread))
    && (s.txIn != s.txOut ==> s.shadow.we || OwesTxKick(s.thread))
  }

  /** Return codes: the number of bytes moved if positive, otherwise the error of the call's mode. */
  ghost predicate CallOk(c: Call) {
    match c
    case ReadCall(bytes, nonblock, rc) => rc == Code(|bytes|, nonblock)
    case WriteCall(data, nonblock, rc) => 0 < rc <= |data| || rc == Code(0, nonblock)
  }

  ghost predicate Inv(s: State) {
    && RxFlow(s) && TxFlow(s) && ThreadOk(s) && IsrOk(s) && EnablesOk(s)
    && forall i | 0 <= i < |s.calls| :: CallOk(s.calls[i])
  }

  // ---- Preservation, step by step ----

  lemma Regroup<T>(a: seq<T>, b: seq<T>, c: seq<T>, d: seq<T>)
    ensures a + b + (c + d) == a + (b + c) + d
  {
  }

  lemma AppendBoth<T>(a: seq<T>, b: seq<T>, c: seq<T>, d: seq<T>, e: seq<T>)
    requires a + b == c + d
    ensures a + (b + e) == c + (d + e)
  {
    assert a + (b + e) == (a + b) + e;
    assert c + (d + e) == (c + d) + e;
  }

  lemma SplitPrefix<T>(a: seq<T>, i: nat, n: nat)
    requires i + n <= |a|
    ensures a[..i + n] == a[..i] + a[i..i + n]
  {
  }

  /** A step that only moves control or the interrupt enables leaves the data alone. */
  lemma MoveKeeps(s: State, t: Thread, e: Enables, h: Enables)
    requires Inv(s)
    requires Released(t) == Released(s.thread) && Published(t) == Published(s.thread)
    requires var s' := s.(thread := t, shadow := e, hw := h); ThreadOk(s') && IsrOk(s') && EnablesOk(s')
    ensures Inv(s.(thread := t, shadow := e, hw := h))
  {
  }

  /** Copying one byte of a chunk. */
  lemma ReadByteKeeps(s: State)
    requires Inv(s) && s.isr.Off? && s.thread.InRead? && s.thread.rpc == RCopy && ThreadInBounds(s)
    requires s.thread.r.k < s.thread.r.n
    ensures Inv(ReadStep(s))
  {
    var r := s.thread.r;
    var s' := ReadStep(s);
    var r' := s'.thread.r;
    RingAt(s.rxBuf, s.rxOut, s.rxIn, r.k);
    var q := RxRing(s);
    assert q[..r.k + 1] == q[..r.k] + [q[r.k]];
    assert r'.dest[|r'.dest| - r'.k..] == r.dest[|r.dest| - r.k..] + [q[r.k]];
    assert Released(s'.thread) == Released(s.thread);
  }

  /** Releasing the slots of a copied chunk. */
  lemma ReadReleaseKeeps(s: State)
    requires Inv(s) && s.isr.Off? && s.thread.InRead? && s.thread.rpc == RCopy && ThreadInBounds(s)
    requires s.thread.r.k >= s.thread.r.n
    ensures Inv(ReadStep(s))
  {
    var r := s.thread.r;
    var s' := ReadStep(s);
    var q := RxRing(s);
    RingDrop(s.rxBuf, s.rxOut, s.rxIn, r.n);
    assert Released(s'.thread) == Released(s.thread) + q[..r.n] by {
      assert r.dest == r.dest[..|r.dest| - r.k] + r.dest[|r.dest| - r.k..];
    }
    Regroup(Delivered(s.calls), Released(s.thread), q[..r.n], q[r.n..]);
    assert q == q[..r.n] + q[r.n..];
  }

  /** Sampling `out` and sizing the next chunk. */
  lemma ReadSampleKeeps(s: State)
    requires Inv(s) && s.isr.Off? && s.thread.InRead? && s.thread.rpc == RSnapOut && ThreadInBounds(s)
    ensures Inv(ReadStep(s))
  {
  }

  lemma DeliveredSnoc(calls: seq<Call>, c: Call)
    ensures Delivered(calls + [c]) == Delivered(calls)
              + (if c.ReadCall? && 0 < c.rc <= |c.bytes| then c.bytes[..c.rc] else [])
  {
    assert (calls + [c])[..|calls|] == calls;
  }

  lemma AcceptedSnoc(calls: seq<Call>, c: Call)
    ensures Accepted(calls + [c]) == Accepted(calls)
              + (if c.WriteCall? && 0 < c.rc <= |c.data| then c.data[..c.rc] else [])
  {
    assert (calls + [c])[..|calls|] == calls;
  }

  /** A call that returns leaves the flows as they were, if it reports exactly what it holds. */
  lemma ReturnKeeps(s: State, c: Call)
    requires Inv(s) && !IrqsDisabled(s.thread) && CallOk(c)
    requires !OwesRxKick(s.thread) && !OwesTxKick(s.thread)
    requires Delivered(s.calls + [c]) == Delivered(s.calls) + Released(s.thread)
    requires Accepted(s.calls + [c]) == Accepted(s.calls) + Published(s.thread)
    ensures Inv(s.(thread := Idle, calls := s.calls + [c]))
  {
    ReturnFlows(s, c);
    CallsOkSnoc(s.calls, c);
  }

  lemma ReturnFlows(s: State, c: Call)
    requires RxFlow(s) && TxFlow(s)
    requires Delivered(s.calls + [c]) == Delivered(s.calls) + Released(s.thread)
    requires Accepted(s.calls + [c]) == Accepted(s.calls) + Published(s.thread)
    ensures RxFlow(s.(thread := Idle, calls := s.calls + [c])) && TxFlow(s.(thread := Idle, calls := s.calls + [c]))
  {
    var d, a := Delivered(s.calls + [c]), Accepted(s.calls + [c]);
    assert d + Released(Idle) == d && a + Published(Idle) == a;
  }

  lemma CallsOkSnoc(calls: seq<Call>, c: Call)
    requires CallOk(c) && forall i | 0 <= i < |calls| :: CallOk(calls[i])
    ensures forall i | 0 <= i < |calls + [c]| :: CallOk((calls + [c])[i])
  {
  }

  lemma ReadReturnKeeps(s: State)
    requires Inv(s) && s.isr.Off? && s.thread.InRead? && s.thread.rpc == RReturn && ThreadInBounds(s)
    ensures Inv(ReadStep(s))
  {
    var r := s.thread.r;
    var c := ReadCall(r.dest, r.nonblock, Code(|r.dest|, r.nonblock));
    DeliveredSnoc(s.calls, c);
    AcceptedSnoc(s.calls, c);
    assert r.dest[..|r.dest|] == r.dest;
    ReturnKeeps(s, c);
  }

  lemma ReadMoveKeeps(s: State)
    requires Inv(s) && s.isr.Off? && s.thread.InRead? && ThreadInBounds(s)
    requires s.thread.rpc in {RLoop, RSnapIn, RAfter, RSpin, RSpinHost, RSpinExit, RDone}
    ensures Inv(ReadStep(s))
  {
    MoveKeeps(s, ReadStep(s).thread, s.shadow, s.hw);
  }

  lemma ReadKickKeeps(s: State)
    requires Inv(s) && s.isr.Off? && s.thread.InRead? && s.thread.rpc in {RKickShadow, RKickHw} && ThreadInBounds(s)
    ensures Inv(ReadStep(s))
  {
    var s' := ReadStep(s);
    MoveKeeps(s, s'.thread, s'.shadow, s'.hw);
  }

  lemma ReadStepKeeps(s: State)
    requires Inv(s) && s.isr.Off? && s.thread.InRead? && ThreadInBounds(s)
    ensures Inv(ReadStep(s))
  {
    match s.thread.rpc
    case RCopy => if s.thread.r.k < s.thread.r.n { ReadByteKeeps(s); } else { ReadReleaseKeeps(s); }
    case RSnapOut => ReadSampleKeeps(s);
    case RReturn => ReadReturnKeeps(s);
    case RKickShadow | RKickHw => ReadKickKeeps(s);
    case _ => ReadMoveKeeps(s);
  }

  /** Copying one byte into the free part of the ring. */
  lemma WriteByteKeeps(s: State)
    requires Inv(s) && s.isr.Off? && s.thread.InWrite? && s.thread.wpc == WCopy && ThreadInBounds(s)
    requires s.thread.w.k < s.thread.w.n
    ensures Inv(WriteStep(s))
  {
    var w := s.thread.w;
    var s' := WriteStep(s);
    var b := w.data[w.ptr + w.k];
    RingUntouched(s.txBuf, s.txOut, s.txIn, w.inn + w.k, b);
    assert s'.txBuf[w.inn..w.inn + w.k + 1] == s.txBuf[w.inn..w.inn + w.k] + [b];
    assert w.data[w.ptr..w.ptr + w.k + 1] == w.data[w.ptr..w.ptr + w.k] + [b];
  }

  /** Publishing a copied chunk. */
  lemma WritePublishKeeps(s: State)
    requires Inv(s) && s.isr.Off? && s.thread.InWrite? && s.thread.wpc == WCopy && ThreadInBounds(s)
    requires s.thread.w.k >= s.thread.w.n
    ensures Inv(WriteStep(s))
  {
    PublishFlow(s);
    RingAppend(s.txBuf, s.txOut, s.txIn, s.thread.w.n);
  }

  lemma PublishFlow(s: State)
    requires TxFlow(s) && ThreadOk(s) && s.thread.InWrite? && s.thread.wpc == WCopy && ThreadInBounds(s)
    requires s.thread.w.k >= s.thread.w.n
    ensures TxFlow(WriteStep(s))
  {
    var w := s.thread.w;
    PublishedRing(s);
    SplitPrefix(w.data, w.ptr, w.n);
    AppendBoth(s.taken + s.txFifo, TxRing(s), Accepted(s.calls), Published(s.thread), w.data[w.ptr..w.ptr + w.n]);
  }

  lemma PublishedRing(s: State)
    requires ThreadOk(s) && s.thread.InWrite? && s.thread.wpc == WCopy && ThreadInBounds(s)
    requires s.thread.w.k >= s.thread.w.n
    ensures var w := s.thread.w; TxRing(WriteStep(s)) == TxRing(s) + w.data[w.ptr..w.ptr + w.n]
  {
    RingAppend(s.txBuf, s.txOut, s.txIn, s.thread.w.n);
  }

  /** Sampling `out` and sizing the next chunk; no free slot means a full ring. */
  lemma WriteSampleKeeps(s: State)
    requires Inv(s) && s.isr.Off? && s.thread.InWrite? && s.thread.wpc == WSnapOut && ThreadInBounds(s)
    ensures Inv(WriteStep(s))
  {
  }

  lemma WriteReturnKeeps(s: State)
    requires Inv(s) && s.isr.Off? && s.thread.InWrite? && s.thread.wpc == WReturn && ThreadInBounds(s)
    ensures Inv(WriteStep(s))
  {
    var w := s.thread.w;
    var c := WriteCall(w.data, w.nonblock, Code(w.ptr, w.nonblock));
    DeliveredSnoc(s.calls, c);
    AcceptedSnoc(s.calls, c);
    ReturnKeeps(s, c);
  }

  lemma WriteMoveKeeps(s: State)
    requires Inv(s) && s.isr.Off? && s.thread.InWrite? && ThreadInBounds(s)
    requires s.thread.wpc in {WLoop, WSnapIn, WAfterKick, WSpin, WSpinHost, WSpinExit}
    ensures Inv(WriteStep(s))
  {
  }

  lemma WriteKickKeeps(s: State)
    requires Inv(s) && s.isr.Off? && s.thread.InWrite? && s.thread.wpc in {WKickShadow, WKickHw} && ThreadInBounds(s)
    ensures Inv(WriteStep(s))
  {
    var s' := WriteStep(s);
    MoveKeeps(s, s'.thread, s'.shadow, s'.hw);
  }

  lemma WriteStepKeeps(s: State)
    requires Inv(s) && s.isr.Off? && s.thread.InWrite? && ThreadInBounds(s)
    ensures Inv(WriteStep(s))
  {
    match s.thread.wpc
    case WCopy => if s.thread.w.k < s.thread.w.n { WriteByteKeeps(s); } else { WritePublishKeeps(s); }
    case WSnapOut => WriteSampleKeeps(s);
    case WReturn => WriteReturnKeeps(s);
    case WKickShadow | WKickHw => WriteKickKeeps(s);
    case _ => WriteMoveKeeps(s);
  }

  /** The interrupt routine moves one byte from the hardware FIFO into a ring with room. */
  lemma IsrReceiveKeeps(s: State)
    requires Inv(s) && s.isr.Rx? && Advance(s.rxIn, 1) != s.rxOut && s.rxFifo != []
    ensures Inv(IsrRx(s))
  {
    var s' := IsrRx(s);
    var b := s.rxFifo[0];
    RingPush(s.rxBuf, s.rxOut, s.rxIn, b);
    assert s.rxFifo == [b] + s'.rxFifo;
    Regroup(Delivered(s.calls) + Released(s.thread), RxRing(s), [b], s'.rxFifo);
    assert forall k :: 0 <= k <= |RxRing(s)| ==> RxRing(s')[..k] == RxRing(s)[..k];
  }

  lemma IsrRxKeeps(s: State)
    requires Inv(s) && s.isr.Rx?
    ensures Inv(IsrRx(s))
  {
    if Advance(s.rxIn, 1) != s.rxOut && s.rxFifo != [] {
      IsrReceiveKeeps(s);
    } else {
      FullWhen(s.rxOut, s.rxIn);
    }
  }

  /** The interrupt routine moves one byte from the ring into the hardware FIFO. */
  lemma IsrTransmitKeeps(s: State)
    requires Inv(s) && s.isr.Tx? && s.isr.space > 0 && s.txOut != s.txIn
    ensures Inv(IsrTx(s))
  {
    RingDrop(s.txBuf, s.txOut, s.txIn, 1);
    RingAt(s.txBuf, s.txOut, s.txIn, 0);
    var q := TxRing(s);
    assert q == [q[0]] + q[1..];
    Regroup(s.taken, s.txFifo, [q[0]], q[1..]);
  }

  lemma IsrTxKeeps(s: State)
    requires Inv(s) && s.isr.Tx?
    ensures Inv(IsrTx(s))
  {
    if s.isr.space > 0 && s.txOut != s.txIn {
      IsrTransmitKeeps(s);
    }
  }

  lemma IsrMoveKeeps(s: State, l: Label)
    requires Inv(s) && Enabled(s, l) && (l.IsrEnter? || l.IsrControl?)
    ensures Inv(Apply(s, l))
  {
  }

  lemma HostAlarmKeeps(s: State, ac: bool)
    requires Inv(s) && Enabled(s, HostAlarm(ac))
    ensures Inv(Apply(s, HostAlarm(ac)))
  {
    var s' := Apply(s, HostAlarm(ac));
    assert s' == s.(hw := s'.hw, hostInactive := s'.hostInactive) && s'.hw == s.hw;
    assert RxRing(s') == RxRing(s) && TxRing(s') == TxRing(s);
    assert ThreadOk(s') && EnablesOk(s');
  }

  lemma HostSendsKeeps(s: State, b: byte)
    requires Inv(s)
    ensures Inv(Apply(s, HostSends(b)))
  {
  }

  lemma HostTakesKeeps(s: State)
    requires Inv(s) && s.txFifo != []
    ensures Inv(Apply(s, HostTakes))
  {
    assert s.taken + s.txFifo == (s.taken + [s.txFifo[0]]) + s.txFifo[1..];
  }

  lemma CallKeeps(s: State, l: Label)
    requires Inv(s) && Enabled(s, l) && (l.CallRead? || l.CallWrite?)
    ensures Inv(Apply(s, l))
  {
  }

  lemma StepKeeps(s: State, l: Label)
    requires Inv(s) && Enabled(s, l)
    ensures Inv(Apply(s, l))
  {
    match l
    case CallRead(_, _) => CallKeeps(s, l);
    case CallWrite(_, _, _) => CallKeeps(s, l);
    case ThreadStep => if s.thread.InRead? { ReadStepKeeps(s); } else { WriteStepKeeps(s); }
    case IsrEnter => IsrMoveKeeps(s, l);
    case IsrControl(_, _, _) => IsrMoveKeeps(s, l);
    case IsrWork => if s.isr.Rx? { IsrRxKeeps(s); } else { IsrTxKeeps(s); }
    case HostSends(b) => HostSendsKeeps(s, b);
    case HostTakes => HostTakesKeeps(s);
    case HostAlarm(ac) => HostAlarmKeeps(s, ac);
  }

  lemma {:induction false} RunKeeps(s: State, run: seq<Label>)
    requires Inv(s) && Legal(s, run)
    ensures Inv(Exec(s, run))
    decreases |run|
  {
    if run != [] {
      RunKeeps(s, run[..|run| - 1]);
      StepKeeps(Exec(s, run[..|run| - 1]), run[|run| - 1]);
    }
  }
}
