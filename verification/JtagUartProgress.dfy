/** Blocked calls can always be completed: from every reachable state with a spinning reader and a byte
    in the hardware FIFO, or a spinning writer, a bounded legal run ends with the call returned. */
module JtagUartProgress {
  import opened JtagUartRing
  import opened JtagUartModel
  import opened JtagUartSafety
  import opened JtagUartTheorems

  // ---- Runs end to end ----

  lemma {:induction false} Join(s: State, a: seq<Label>, b: seq<Label>)
    requires Legal(s, a) && Legal(Exec(s, a), b)
    ensures Legal(s, a + b) && Exec(s, a + b) == Exec(Exec(s, a), b)
    decreases |b|, 0
  {
    if b == [] {
      assert a + b == a;
    } else {
      JoinLast(s, a, b[..|b| - 1], b[|b| - 1]);
      assert b == b[..|b| - 1] + [b[|b| - 1]];
    }
  }

  lemma {:induction false} JoinLast(s: State, a: seq<Label>, b: seq<Label>, l: Label)
    requires Legal(s, a) && Legal(Exec(s, a), b) && Enabled(Exec(Exec(s, a), b), l)
    ensures Legal(s, a + (b + [l])) && Exec(s, a + (b + [l])) == Exec(Exec(s, a), b + [l])
    decreases |b|, 1
  {
    Join(s, a, b);
    ExecSnoc(s, a + b, l);
    ExecSnoc(Exec(s, a), b, l);
    assert a + (b + [l]) == (a + b) + [l];
  }

  lemma One(s: State, l: Label)
    requires Enabled(s, l)
    ensures Legal(s, [l]) && Exec(s, [l]) == Apply(s, l)
  {
    assert [] + [l] == [l];
    ExecSnoc(s, [], l);
  }

  /** A run from `s` of at most `bound` steps that ends in `t`, with the invariant kept. */
  ghost predicate Leads(s: State, run: seq<Label>, t: State, bound: int) {
    Legal(s, run) && Exec(s, run) == t && |run| <= bound && Inv(t)
  }

  lemma LeadsNowhere(s: State)
    requires Inv(s)
    ensures Leads(s, [], s, 0)
  {
  }

  lemma LeadsOne(s: State, l: Label)
    requires Inv(s) && Enabled(s, l)
    ensures Leads(s, [l], Apply(s, l), 1)
  {
    One(s, l);
    StepKeeps(s, l);
  }

  lemma LeadsOn(s: State, a: seq<Label>, t: State, n: int, b: seq<Label>, u: State, m: int)
    requires Leads(s, a, t, n) && Leads(t, b, u, m)
    ensures Leads(s, a + b, u, n + m)
  {
    Join(s, a, b);
  }

  /** Steps of the thread and the interrupt routine only. */
  predicate Own(run: seq<Label>) {
    forall l | l in run :: l.ThreadStep? || l.IsrEnter? || l.IsrControl? || l.IsrWork?
  }

  /** Besides these, only the host taking bytes or showing itself. */
  predicate Helped(run: seq<Label>) {
    forall l | l in run ::
      l.ThreadStep? || l.IsrEnter? || l.IsrControl? || l.IsrWork? || l.HostTakes? || l == HostAlarm(true)
  }

  // ---- The interrupt routine comes to an end ----

  /** What the interrupt routine and the hardware leave alone. */
  predicate SameCall(s: State, t: State) {
    t.thread == s.thread && t.calls == s.calls && t.depth == s.depth && t.timeout == s.timeout
    && t.hostInactive == s.hostInactive
  }

  /** Bytes to read, in the ring or in the hardware FIFO. */
  predicate HasInput(s: State) {
    RxRing(s) != [] || s.rxFifo != []
  }

  lemma {:induction false} ReceiveEnds(s: State) returns (run: seq<Label>, t: State)
    requires Inv(s) && s.isr.Rx?
    ensures Own(run)
    ensures Leads(s, run, t, |s.rxFifo| + 1) && SameCall(s, t)
    ensures t.isr == if s.isr.wi then Tx(s.isr.space) else Top
    ensures HasInput(s) ==> RxRing(t) != []
    ensures t.txIn == s.txIn && t.txOut == s.txOut && t.txFifo == s.txFifo && |t.rxFifo| <= |s.rxFifo|
    decreases |s.rxFifo|
  {
    t := Apply(s, IsrWork);
    run := [IsrWork];
    LeadsOne(s, IsrWork);
    FullWhen(s.rxOut, s.rxIn);
    if Advance(s.rxIn, 1) != s.rxOut && s.rxFifo != [] {
      RingPush(s.rxBuf, s.rxOut, s.rxIn, s.rxFifo[0]);
      var more, u := ReceiveEnds(t);
      LeadsOn(s, run, t, 1, more, u, |t.rxFifo| + 1);
      run, t := run + more, u;
    }
  }

  lemma {:induction false} TransmitEnds(s: State) returns (run: seq<Label>, t: State)
    requires Inv(s) && s.isr.Tx?
    ensures Own(run)
    ensures Leads(s, run, t, s.isr.space + 1) && SameCall(s, t) && t.isr == Top
    ensures RxRing(t) == RxRing(s) && t.rxFifo == s.rxFifo && t.txIn == s.txIn
    ensures Used(t.txOut, t.txIn) <= Used(s.txOut, s.txIn)
    ensures s.isr.space > 0 && s.txIn != s.txOut ==> Used(t.txOut, t.txIn) < Used(s.txOut, s.txIn)
    decreases s.isr.space
  {
    t := Apply(s, IsrWork);
    run := [IsrWork];
    LeadsOne(s, IsrWork);
    if s.isr.space > 0 && s.txOut != s.txIn {
      RingDrop(s.txBuf, s.txOut, s.txIn, 1);
      var more, u := TransmitEnds(t);
      LeadsOn(s, run, t, 1, more, u, t.isr.space + 1);
      run, t := run + more, u;
    }
  }

  /** From wherever it is, or not active, the interrupt routine gets to its next look at the control
      register. */
  lemma ToTop(s: State) returns (run: seq<Label>, t: State)
    requires Inv(s) && (s.isr.Off? ==> !IrqsDisabled(s.thread))
    ensures Own(run)
    ensures Leads(s, run, t, |s.rxFifo| + s.depth + 2) && SameCall(s, t) && t.isr == Top
    ensures (HasInput(s) ==> HasInput(t)) && |t.rxFifo| <= |s.rxFifo|
    ensures t.txIn == s.txIn && Used(t.txOut, t.txIn) <= Used(s.txOut, s.txIn)
  {
    if s.isr.Off? {
      run, t := [IsrEnter], Apply(s, IsrEnter);
      LeadsOne(s, IsrEnter);
    } else if s.isr.Top? {
      run, t := [], s;
      LeadsNowhere(s);
    } else if s.isr.Tx? {
      run, t := TransmitEnds(s);
    } else {
      run, t := ReceiveEnds(s);
      if t.isr.Tx? {
        var more, u := TransmitEnds(t);
        LeadsOn(s, run, t, |s.rxFifo| + 1, more, u, t.isr.space + 1);
        run, t := run + more, u;
      }
    }
  }

  lemma Leave(s: State) returns (t: State)
    requires Inv(s) && s.isr == Top
    ensures t == s.(isr := Off) && Leads(s, [IsrControl(false, false, 0)], t, 1)
  {
    t := Apply(s, IsrControl(false, false, 0));
    LeadsOne(s, IsrControl(false, false, 0));
  }

  /** The interrupt routine runs once more, if need be, and what there is to read is in the ring. */
  lemma Deliver(s: State) returns (run: seq<Label>, t: State)
    requires Inv(s) && HasInput(s) && !IrqsDisabled(s.thread)
    ensures Own(run)
    ensures Leads(s, run, t, 2 * |s.rxFifo| + s.depth + 5) && SameCall(s, t) && t.isr == Off && RxRing(t) != []
  {
    run, t := ToTop(s);
    var n := |s.rxFifo| + s.depth + 2;
    var l := IsrControl(true, false, 0);
    var u := Apply(t, l);
    LeadsOne(t, l);
    LeadsOn(s, run, t, n, [l], u, 1);
    var more, v := ReceiveEnds(u);
    LeadsOn(s, run + [l], u, n + 1, more, v, |u.rxFifo| + 1);
    t := Leave(v);
    LeadsOn(s, run + [l] + more, v, n + 2 + |u.rxFifo|, [IsrControl(false, false, 0)], t, 1);
    run := run + [l] + more + [IsrControl(false, false, 0)];
  }

  /** Room in the hardware FIFO: the host takes a byte if there is one. */
  lemma HostMakesRoom(s: State) returns (run: seq<Label>, t: State)
    requires Inv(s) && s.isr == Top && s.depth > 0
    ensures Helped(run)
    ensures Leads(s, run, t, 1) && SameCall(s, t) && t.isr == Top && |t.txFifo| < t.depth
    ensures t.txIn == s.txIn && t.txOut == s.txOut && t.rxFifo == s.rxFifo
  {
    if s.txFifo != [] {
      run, t := [HostTakes], Apply(s, HostTakes);
      LeadsOne(s, HostTakes);
    } else {
      run, t := [], s;
      LeadsNowhere(s);
    }
  }

  /** One pass of the interrupt routine that sends a byte, and its end. */
  lemma SendOne(s: State) returns (run: seq<Label>, t: State)
    requires Inv(s) && s.isr == Top && |s.txFifo| < s.depth && s.txIn != s.txOut
    ensures Helped(run)
    ensures Leads(s, run, t, 4) && SameCall(s, t) && t.isr == Off
    ensures t.txIn == s.txIn && Used(t.txOut, t.txIn) < Used(s.txOut, s.txIn) && t.rxFifo == s.rxFifo
  {
    var l := IsrControl(false, true, 1);
    var u := Apply(s, l);
    LeadsOne(s, l);
    var more, v := TransmitEnds(u);
    LeadsOn(s, [l], u, 1, more, v, 2);
    t := Leave(v);
    LeadsOn(s, [l] + more, v, 3, [IsrControl(false, false, 0)], t, 1);
    run := [l] + more + [IsrControl(false, false, 0)];
  }

  /** The interrupt routine sends at least one byte of a ring that has any, the host making room. */
  lemma Drain(s: State) returns (run: seq<Label>, t: State)
    requires Inv(s) && !IrqsDisabled(s.thread) && s.depth > 0 && s.txIn != s.txOut
    ensures Helped(run)
    ensures Leads(s, run, t, |s.rxFifo| + s.depth + 7) && SameCall(s, t) && t.isr == Off
    ensures |t.rxFifo| <= |s.rxFifo|
    ensures t.txIn == s.txIn && Used(t.txOut, t.txIn) < BUF_LEN - 1
  {
    var a, u := ToTop(s);
    var n := |s.rxFifo| + s.depth + 2;
    var b, v := HostMakesRoom(u);
    LeadsOn(s, a, u, n, b, v, 1);
    run, t := a + b, v;
    if v.txIn != v.txOut {
      var c;
      c, t := SendOne(v);
      LeadsOn(s, run, v, n + 1, c, t, 4);
      run := run + c;
    } else {
      t := Leave(v);
      LeadsOn(s, run, v, n + 1, [IsrControl(false, false, 0)], t, 1);
      run := run + [IsrControl(false, false, 0)];
    }
  }

  // ---- A reader with something to read ----

  function ReadRank(pc: ReadPc): nat {
    match pc
    case RReturn => 1 case RKickHw => 2 case RKickShadow => 3 case RDone => 4 case RAfter => 5 case RCopy => 6
    case RSnapOut => 7 case RSnapIn => 8 case RLoop => 9 case RSpinExit => 10 case RSpin => 11 case RSpinHost => 12
  }

  /** A reader on its way out of a spin, undisturbed, that has or will find something. */
  ghost predicate WillRead(s: State) {
    && Inv(s) && s.isr.Off? && s.thread.InRead?
    && var pc, r := s.thread.rpc, s.thread.r;
       && (r.dest == [] ==> RxRing(s) != [] && (pc in {RLoop, RSnapIn, RSnapOut, RCopy} ==> r.space > 0))
       && (r.dest == [] && pc in {RSpin, RSpinHost, RSpinExit, RLoop} ==> r.space > 0)
       && (pc == RSnapOut ==> r.inn == s.rxIn)
       && (pc in {RAfter, RDone, RKickShadow, RKickHw, RReturn} ==> r.dest != [])
  }

  function ReadLeft(s: State): int
    requires s.thread.InRead?
  {
    8 * Used(s.rxOut, s.rxIn) - s.thread.r.k + ReadRank(s.thread.rpc)
  }

  /** One step closer to the end of the read. */
  ghost predicate ReadsOn(s: State, t: State)
    requires s.thread.InRead?
  {
    && WillRead(t) && 0 <= ReadLeft(t) < ReadLeft(s)
    && t.calls == s.calls && t.thread.r.nonblock == s.thread.r.nonblock
  }

  lemma ReadCopyOn(s: State)
    requires WillRead(s) && s.thread.rpc == RCopy
    ensures ThreadInBounds(s) && ReadsOn(s, ReadStep(s))
  {
    assert ThreadInBounds(s);
    ReadStepKeeps(s);
    if s.thread.r.k >= s.thread.r.n {
      RingDrop(s.rxBuf, s.rxOut, s.rxIn, s.thread.r.n);
    }
  }

  lemma ReadSampleOn(s: State)
    requires WillRead(s) && s.thread.rpc == RSnapOut
    ensures ThreadInBounds(s) && ReadsOn(s, ReadStep(s))
  {
    ReadStepKeeps(s);
  }

  lemma ReadMoveOn(s: State)
    requires WillRead(s) && s.thread.rpc !in {RCopy, RSnapOut, RReturn}
    ensures ThreadInBounds(s) && ReadsOn(s, ReadStep(s))
  {
    ReadStepKeeps(s);
    assert RxRing(ReadStep(s)) == RxRing(s);
  }

  lemma ReadStepOn(s: State)
    requires WillRead(s) && s.thread.rpc != RReturn
    ensures ThreadInBounds(s) && ReadsOn(s, ReadStep(s))
  {
    match s.thread.rpc
    case RCopy => ReadCopyOn(s);
    case RSnapOut => ReadSampleOn(s);
    case _ => ReadMoveOn(s);
  }

  lemma {:induction false} ReaderFinishes(s: State) returns (run: seq<Label>, t: State, bytes: seq<byte>)
    requires WillRead(s)
    ensures forall l | l in run :: l == ThreadStep
    ensures Leads(s, run, t, ReadLeft(s)) && t.thread == Idle && t.isr == Off
    ensures bytes != [] && t.calls == s.calls + [ReadCall(bytes, s.thread.r.nonblock, |bytes|)]
    decreases ReadLeft(s)
  {
    if s.thread.rpc == RReturn {
      run, t, bytes := [ThreadStep], Apply(s, ThreadStep), s.thread.r.dest;
      LeadsOne(s, ThreadStep);
    } else {
      ReadStepOn(s);
      var u := ReadStep(s);
      LeadsOne(s, ThreadStep);
      run, t, bytes := ReaderFinishes(u);
      LeadsOn(s, [ThreadStep], u, 1, run, t, ReadLeft(u));
      run := [ThreadStep] + run;
    }
  }

  /** From every reachable state in which a read spins and there is a byte for it, in the hardware FIFO
      or already in the ring, wherever the interrupt routine is: a bounded legal run of the thread and
      the interrupt routine alone ends with the read returning at least one byte. */
  lemma SpinningReaderCanFinish(s: State) returns (run: seq<Label>, bytes: seq<byte>)
    requires Reachable(s) && s.thread.InRead? && s.thread.rpc in {RSpin, RSpinHost} && HasInput(s)
    ensures Own(run)
    ensures Legal(s, run) && |run| <= 2 * |s.rxFifo| + s.depth + 8 * BUF_LEN + 17
    ensures bytes != []
    ensures Exec(s, run).calls == s.calls + [ReadCall(bytes, s.thread.r.nonblock, |bytes|)]
  {
    ReachableInv(s);
    var t, u;
    run, t := Deliver(s);
    var more;
    more, u, bytes := ReaderFinishes(t);
    LeadsOn(s, run, t, 2 * |s.rxFifo| + s.depth + 5, more, u, ReadLeft(t));
    run := run + more;
  }

  // ---- A writer with data left ----

  function WriteRank(pc: WritePc): nat {
    match pc
    case WReturn => 1 case WAfterKick => 2 case WKickHw => 3 case WKickShadow => 4 case WCopy => 5
    case WSnapOut => 6 case WSnapIn => 7 case WLoop => 8 case WSpinExit => 9 case WSpin => 10 case WSpinHost => 11
  }

  /** A blocking writer of `data` that the host has not let down, undisturbed, which has got below
      `goal` bytes left or has room to. */
  ghost predicate WillWrite(s: State, data: seq<byte>, goal: int) {
    && Inv(s) && s.isr.Off? && s.thread.InWrite? && s.hostInactive == 0
    && var pc, w := s.thread.wpc, s.thread.w;
       && w.data == data && !w.nonblock && data != [] && 0 <= w.count <= goal
       && pc !in {WSpin, WSpinHost} && (pc == WReturn ==> w.count == 0)
       && (w.count == goal ==> Used(s.txOut, s.txIn) < BUF_LEN - 1
                               && pc in {WSpinExit, WLoop, WSnapIn, WSnapOut, WCopy} && goal > 0)
  }

  function WriteLeft(s: State): int
    requires s.thread.InWrite?
  {
    8 * s.thread.w.count - (if s.thread.wpc == WCopy then s.thread.w.k else 0) + WriteRank(s.thread.wpc)
  }

  /** A writer that has come to wait again, with less left than `goal`. */
  predicate WaitsWithLess(s: State, data: seq<byte>, goal: int) {
    && s.isr.Off? && s.thread.InWrite? && s.thread.wpc == WSpin && s.hostInactive == 0
    && s.thread.w.data == data && !s.thread.w.nonblock && 0 < s.thread.w.count < goal
  }

  lemma WriteCopyOn(s: State, data: seq<byte>, goal: int)
    requires WillWrite(s, data, goal) && s.thread.wpc == WCopy
    ensures WillWrite(WriteStep(s), data, goal) && 0 <= WriteLeft(WriteStep(s)) < WriteLeft(s)
  {
    assert ThreadInBounds(s);
    WriteStepKeeps(s);
  }

  lemma WriteSampleOn(s: State, data: seq<byte>, goal: int)
    requires WillWrite(s, data, goal) && s.thread.wpc == WSnapOut
    ensures WillWrite(WriteStep(s), data, goal) && 0 <= WriteLeft(WriteStep(s)) < WriteLeft(s)
  {
    WriteStepKeeps(s);
  }

  lemma WriteMoveOn(s: State, data: seq<byte>, goal: int)
    requires WillWrite(s, data, goal) && s.thread.wpc !in {WCopy, WSnapOut, WReturn}
    ensures Inv(WriteStep(s)) && WriteStep(s).calls == s.calls
    ensures || WaitsWithLess(WriteStep(s), data, goal)
            || (WillWrite(WriteStep(s), data, goal) && 0 <= WriteLeft(WriteStep(s)) < WriteLeft(s))
  {
    WriteStepKeeps(s);
  }

  lemma WriteStepOn(s: State, data: seq<byte>, goal: int)
    requires WillWrite(s, data, goal) && s.thread.wpc != WReturn
    ensures Enabled(s, ThreadStep)
    ensures var t := Apply(s, ThreadStep);
            && Inv(t) && t.calls == s.calls && t.rxFifo == s.rxFifo && t.depth == s.depth
            && (WaitsWithLess(t, data, goal)
                || (WillWrite(t, data, goal) && 0 <= WriteLeft(t) < WriteLeft(s)))
  {
    match s.thread.wpc
    case WCopy => WriteCopyOn(s, data, goal);
    case WSnapOut => WriteSampleOn(s, data, goal);
    case _ => WriteMoveOn(s, data, goal);
  }

  /** The last of the calls that have returned wrote all of `data`. */
  predicate Wrote(s: State, t: State, data: seq<byte>) {
    t.thread == Idle && t.calls == s.calls + [WriteCall(data, false, |data|)]
  }

  lemma {:induction false} WriterRuns(s: State, data: seq<byte>, goal: int) returns (run: seq<Label>, t: State)
    requires WillWrite(s, data, goal)
    ensures forall l | l in run :: l == ThreadStep
    ensures Leads(s, run, t, WriteLeft(s))
    ensures || Wrote(s, t, data)
            || (WaitsWithLess(t, data, goal) && t.calls == s.calls && t.rxFifo == s.rxFifo && t.depth == s.depth)
    decreases WriteLeft(s)
  {
    var u := Apply(s, ThreadStep);
    LeadsOne(s, ThreadStep);
    run, t := [ThreadStep], u;
    if s.thread.wpc != WReturn {
      WriteStepOn(s, data, goal);
      if !WaitsWithLess(u, data, goal) {
        run, t := WriterRuns(u, data, goal);
        LeadsOn(s, [ThreadStep], u, 1, run, t, WriteLeft(u));
        run := [ThreadStep] + run;
      }
    }
  }

  /** A blocked writer, the host being there. */
  ghost predicate Blocked(s: State) {
    && Inv(s) && s.thread.InWrite? && s.thread.wpc in {WSpin, WSpinHost} && s.hostInactive == 0 && s.depth > 0
  }

  /** The interrupt routine makes room. */
  lemma MakeRoom(s: State) returns (run: seq<Label>, t: State)
    requires Blocked(s)
    ensures Helped(run)
    ensures Leads(s, run, t, |s.rxFifo| + s.depth + 7) && SameCall(s, t) && t.isr == Off && |t.rxFifo| <= |s.rxFifo|
    ensures Used(t.txOut, t.txIn) < BUF_LEN - 1 && t.thread.w.out != t.txOut
  {
    if s.txIn != s.txOut {
      run, t := Drain(s);
    } else {
      var u;
      run, u := ToTop(s);
      t := Leave(u);
      LeadsOn(s, run, u, |s.rxFifo| + s.depth + 2, [IsrControl(false, false, 0)], t, 1);
      run := run + [IsrControl(false, false, 0)];
    }
  }

  /** The writer sees it and leaves the spin. */
  lemma LeaveSpin(s: State) returns (run: seq<Label>, t: State)
    requires Blocked(s) && s.isr.Off? && Used(s.txOut, s.txIn) < BUF_LEN - 1 && s.thread.w.out != s.txOut
    ensures Helped(run)
    ensures Leads(s, run, t, 2) && WillWrite(t, s.thread.w.data, s.thread.w.count)
    ensures t == s.(thread := InWrite(WSpinExit, s.thread.w))
  {
    run, t := [ThreadStep], Apply(s, ThreadStep);
    LeadsOne(s, ThreadStep);
    if t.thread.wpc == WSpin {
      var u := Apply(t, ThreadStep);
      LeadsOne(t, ThreadStep);
      LeadsOn(s, run, t, 1, [ThreadStep], u, 1);
      run, t := run + [ThreadStep], u;
    }
  }

  /** What one round may cost, and what all rounds for a number of bytes may. */
  function Round(per: nat, count: int): int {
    per + 8 * count
  }

  function Rounds(per: nat, count: int): (n: int)
    ensures n >= 0
  {
    if count <= 0 then 0 else Round(per, count) + Rounds(per, count - 1)
  }

  lemma {:induction false} RoundsGrow(per: nat, less: int, count: int)
    requires less < count && count > 0
    ensures Round(per, count) + Rounds(per, less) <= Rounds(per, count)
    decreases count
  {
    if less < count - 1 && count > 1 {
      RoundsGrow(per, less, count - 1);
    }
  }

  lemma {:induction false} RoundsSum(per: nat, count: nat)
    ensures Rounds(per, count) <= count * Round(per, count)
  {
    if count > 0 {
      RoundsSum(per, count - 1);
      assert (count - 1) * Round(per, count - 1) <= (count - 1) * Round(per, count);
    }
  }

  /** Room, and a way out of the spin. */
  lemma GetGoing(s: State) returns (run: seq<Label>, t: State)
    requires Blocked(s)
    ensures Helped(run)
    ensures Leads(s, run, t, |s.rxFifo| + s.depth + 9) && WillWrite(t, s.thread.w.data, s.thread.w.count)
    ensures t.thread == InWrite(WSpinExit, s.thread.w)
    ensures t.calls == s.calls && |t.rxFifo| <= |s.rxFifo| && t.depth == s.depth
  {
    var a, u := MakeRoom(s);
    var b;
    b, t := LeaveSpin(u);
    LeadsOn(s, a, u, |s.rxFifo| + s.depth + 7, b, t, 2);
    run := a + b;
  }

  /** One round: room, a way out of the spin, and as much as fits. */
  lemma OneRound(s: State, per: nat) returns (run: seq<Label>, t: State)
    requires Blocked(s) && |s.rxFifo| + s.depth + 18 <= per
    ensures Helped(run)
    ensures Leads(s, run, t, Round(per, s.thread.w.count)) && s.thread.w.count > 0
    ensures || Wrote(s, t, s.thread.w.data)
            || (Blocked(t) && t.calls == s.calls && t.thread.w.data == s.thread.w.data
                && t.thread.w.count < s.thread.w.count && |t.rxFifo| <= |s.rxFifo| && t.depth == s.depth)
  {
    var a, u := GetGoing(s);
    var b;
    b, t := WriterRuns(u, s.thread.w.data, s.thread.w.count);
    LeadsOn(s, a, u, |s.rxFifo| + s.depth + 9, b, t, WriteLeft(u));
    run := a + b;
  }

  lemma {:induction false} WriterFinishes(s: State, per: nat) returns (run: seq<Label>, t: State)
    requires Blocked(s) && |s.rxFifo| + s.depth + 18 <= per
    ensures Helped(run)
    ensures Leads(s, run, t, Rounds(per, s.thread.w.count)) && Wrote(s, t, s.thread.w.data)
    ensures s.thread.w.count > 0
    decreases s.thread.w.count
  {
    var count := s.thread.w.count;
    var u;
    run, u := OneRound(s, per);
    RoundsGrow(per, 0, count);
    t := u;
    if !Wrote(s, u, s.thread.w.data) {
      var b;
      b, t := WriterFinishes(u, per);
      LeadsOn(s, run, u, Round(per, count), b, t, Rounds(per, u.thread.w.count));
      RoundsGrow(per, u.thread.w.count, count);
      run := run + b;
    }
  }

  /** The host shows itself to a thread whose interrupt routine is not active. */
  lemma HostAppears(s: State) returns (run: seq<Label>, t: State)
    requires Inv(s) && !IrqsDisabled(s.thread)
    ensures Helped(run)
    ensures Leads(s, run, t, |s.rxFifo| + s.depth + 4)
    ensures t.thread == s.thread && t.calls == s.calls && t.depth == s.depth && t.hostInactive == 0
    ensures |t.rxFifo| <= |s.rxFifo|
  {
    var a, u := ToTop(s);
    var n := |s.rxFifo| + s.depth + 2;
    var v := Leave(u);
    LeadsOn(s, a, u, n, [IsrControl(false, false, 0)], v, 1);
    t := Apply(v, HostAlarm(true));
    LeadsOne(v, HostAlarm(true));
    run := a + [IsrControl(false, false, 0)];
    LeadsOn(s, run, v, n + 1, [HostAlarm(true)], t, 1);
    run := run + [HostAlarm(true)];
  }

  /** From every reachable state in which a write spins, wherever the interrupt routine is: a bounded
      legal run, in which the host shows itself and takes bytes, ends with the write returning all it
      was asked to write. */
  lemma SpinningWriterCanFinish(s: State) returns (run: seq<Label>)
    requires Reachable(s) && s.thread.InWrite? && s.thread.wpc in {WSpin, WSpinHost} && s.depth > 0
    ensures Helped(run)
    ensures Legal(s, run)
    ensures var w, per := s.thread.w, |s.rxFifo| + s.depth + 18;
            && |run| <= per + w.count * (per + 8 * w.count)
            && Exec(s, run).calls == s.calls + [WriteCall(w.data, false, |w.data|)]
  {
    ReachableInv(s);
    var per := |s.rxFifo| + s.depth + 18;
    var a, u := HostAppears(s);
    var b, t := WriterFinishes(u, per);
    RoundsSum(per, s.thread.w.count);
    LeadsOn(s, a, u, per, b, t, Rounds(per, s.thread.w.count));
    run := a + b;
  }
}
