/** Why calls return what they return: over every run, a short or failed read has seen the ring empty
    and, if it blocks, the host gone; a short or failed write has seen it full and, if it blocks, the
    host quiet. And a call whose host is gone does return, by its own steps. */
module JtagUartOutcomes {
  import opened ErrorCodes
  import opened JtagUartRing
  import opened JtagUartModel
  import opened JtagUartSafety
  import opened JtagUartProgress
  import opened JtagUartTheorems

  // ---- What a run has passed through ----

  /** Where in a run the last call began; -1 if none has. */
  function LastCall(run: seq<Label>): (c: int)
    ensures -1 <= c < |run|
    ensures c >= 0 ==> run[c].CallRead? || run[c].CallWrite?
    ensures forall i | c < i < |run| :: !run[i].CallRead? && !run[i].CallWrite?
  {
    if run == [] then -1
    else
      var n := |run| - 1;
      if run[n].CallRead? || run[n].CallWrite? then n else LastCall(run[..n])
  }

  /** At the end of this run there was nothing to read. */
  ghost predicate EmptyAt(s: State, run: seq<Label>) {
    Legal(s, run) && RxRing(Exec(s, run)) == []
  }

  /** At the end of this run there was nothing to read and the host had been quiet too long. */
  ghost predicate GoneAt(s: State, run: seq<Label>) {
    EmptyAt(s, run) && Exec(s, run).hostInactive >= Exec(s, run).timeout
  }

  /** At the end of this run there was no room to write. */
  ghost predicate FullAt(s: State, run: seq<Label>) {
    Legal(s, run) && |TxRing(Exec(s, run))| == BUF_LEN - 1
  }

  /** At the end of this run there was room again, or the host had been quiet too long. */
  ghost predicate OverAt(s: State, run: seq<Label>) {
    Legal(s, run) &&
    var t := Exec(s, run);
    |TxRing(t)| < BUF_LEN - 1 || t.hostInactive >= t.timeout
  }

  /** At the end of this run the host had been quiet for a while. */
  ghost predicate QuietAt(s: State, run: seq<Label>) {
    Legal(s, run) && Exec(s, run).hostInactive != 0
  }

  ghost predicate SawEmpty(s: State, run: seq<Label>, from: int) {
    exists i: nat :: from < i <= |run| && EmptyAt(s, run[..i])
  }

  ghost predicate SawGone(s: State, run: seq<Label>, from: int) {
    exists i: nat :: from < i <= |run| && GoneAt(s, run[..i])
  }

  ghost predicate SawFull(s: State, run: seq<Label>, from: int) {
    exists i: nat :: from < i <= |run| && FullAt(s, run[..i])
  }

  /** First full, then room or nobody there. */
  ghost predicate SawOver(s: State, run: seq<Label>, from: int) {
    exists i: nat, j: nat :: from < i <= j <= |run| && FullAt(s, run[..i]) && OverAt(s, run[..j])
  }

  /** And then a host that has been quiet. */
  ghost predicate SawQuiet(s: State, run: seq<Label>, from: int) {
    exists i: nat, j: nat, k: nat ::
      from < i <= j <= k <= |run| && FullAt(s, run[..i]) && OverAt(s, run[..j]) && QuietAt(s, run[..k])
  }

  // ---- Gathering it along the way ----

  /** What has been passed through since the last call began. */
  datatype Seen = Seen(empty: bool, gone: bool, full: bool, over: bool, quiet: bool)

  const NOTHING := Seen(false, false, false, false, false)

  /** One more state looked at. */
  function Look(seen: Seen, t: State): Seen {
    var empty := RxRing(t) == [];
    var full := seen.full || |TxRing(t)| == BUF_LEN - 1;
    var over := seen.over || (full && (|TxRing(t)| < BUF_LEN - 1 || t.hostInactive >= t.timeout));
    Seen(seen.empty || empty, seen.gone || (empty && t.hostInactive >= t.timeout), full, over,
         seen.quiet || (over && t.hostInactive != 0))
  }

  ghost function SeenSince(s: State, run: seq<Label>): Seen
    requires Legal(s, run)
    decreases |run|
  {
    if run == [] then NOTHING
    else
      var n := |run| - 1;
      Look(if run[n].CallRead? || run[n].CallWrite? then NOTHING else SeenSince(s, run[..n]), Exec(s, run))
  }

  lemma ReadSeenSnoc(s: State, run: seq<Label>, l: Label, from: int)
    ensures SawEmpty(s, run, from) ==> SawEmpty(s, run + [l], from)
    ensures SawGone(s, run, from) ==> SawGone(s, run + [l], from)
  {
    if SawEmpty(s, run, from) {
      var i: nat :| from < i <= |run| && EmptyAt(s, run[..i]);
      assert (run + [l])[..i] == run[..i];
    }
    if SawGone(s, run, from) {
      var i: nat :| from < i <= |run| && GoneAt(s, run[..i]);
      assert (run + [l])[..i] == run[..i];
    }
  }

  lemma FullSeenSnoc(s: State, run: seq<Label>, l: Label, from: int)
    ensures SawFull(s, run, from) ==> SawFull(s, run + [l], from)
  {
    if SawFull(s, run, from) {
      var i: nat :| from < i <= |run| && FullAt(s, run[..i]);
      assert (run + [l])[..i] == run[..i];
    }
  }

  lemma OverSeenSnoc(s: State, run: seq<Label>, l: Label, from: int)
    ensures SawOver(s, run, from) ==> SawOver(s, run + [l], from)
  {
    if SawOver(s, run, from) {
      var i: nat, j: nat :| from < i <= j <= |run| && FullAt(s, run[..i]) && OverAt(s, run[..j]);
      assert (run + [l])[..i] == run[..i] && (run + [l])[..j] == run[..j];
    }
  }

  lemma QuietSeenSnoc(s: State, run: seq<Label>, l: Label, from: int)
    ensures SawQuiet(s, run, from) ==> SawQuiet(s, run + [l], from)
  {
    if SawQuiet(s, run, from) {
      var i: nat, j: nat, k: nat :|
        from < i <= j <= k <= |run| && FullAt(s, run[..i]) && OverAt(s, run[..j]) && QuietAt(s, run[..k]);
      assert (run + [l])[..i] == run[..i] && (run + [l])[..j] == run[..j] && (run + [l])[..k] == run[..k];
    }
  }

  /** Seen is what the run has passed through. */
  ghost predicate Vouched(s: State, run: seq<Label>, seen: Seen, from: int) {
    && (seen.empty ==> SawEmpty(s, run, from)) && (seen.gone ==> SawGone(s, run, from))
    && (seen.full ==> SawFull(s, run, from)) && (seen.over ==> SawOver(s, run, from))
    && (seen.quiet ==> SawQuiet(s, run, from))
  }

  lemma VouchedOn(s: State, run: seq<Label>, l: Label, seen: Seen, from: int)
    requires Vouched(s, run, seen, from)
    ensures Vouched(s, run + [l], seen, from)
  {
    ReadSeenSnoc(s, run, l, from);
    FullSeenSnoc(s, run, l, from);
    OverSeenSnoc(s, run, l, from);
    QuietSeenSnoc(s, run, l, from);
  }

  /** A look at the end of the run. */
  lemma VouchedLook(s: State, run: seq<Label>, seen: Seen, from: int)
    requires Legal(s, run) && Vouched(s, run, seen, from) && from < |run|
    ensures Vouched(s, run, Look(seen, Exec(s, run)), from)
  {
    var t, later := Exec(s, run), Look(seen, Exec(s, run));
    assert run[..|run|] == run;
    assert later.full ==> SawFull(s, run, from) by {
      assert |TxRing(t)| == BUF_LEN - 1 ==> FullAt(s, run[..|run|]);
    }
    OverNow(s, run, from);
    QuietNow(s, run, from);
    assert RxRing(t) == [] ==> EmptyAt(s, run[..|run|]);
    assert RxRing(t) == [] && t.hostInactive >= t.timeout ==> GoneAt(s, run[..|run|]);
  }

  lemma OverNow(s: State, run: seq<Label>, from: int)
    ensures SawFull(s, run, from) && OverAt(s, run) ==> SawOver(s, run, from)
  {
    assert run[..|run|] == run;
  }

  lemma QuietNow(s: State, run: seq<Label>, from: int)
    ensures SawOver(s, run, from) && QuietAt(s, run) ==> SawQuiet(s, run, from)
  {
    assert run[..|run|] == run;
  }

  lemma LastCallSnoc(run: seq<Label>, l: Label)
    ensures LastCall(run + [l]) == if l.CallRead? || l.CallWrite? then |run| else LastCall(run)
  {
    assert (run + [l])[..|run|] == run;
  }

  lemma {:induction false} SeenIsVouched(s: State, run: seq<Label>)
    requires Legal(s, run)
    ensures Vouched(s, run, SeenSince(s, run), LastCall(run))
    decreases |run|
  {
    if run != [] {
      var before, l := run[..|run| - 1], run[|run| - 1];
      assert run == before + [l];
      LastCallSnoc(before, l);
      if l.CallRead? || l.CallWrite? {
        VouchedLook(s, run, NOTHING, LastCall(run));
      } else {
        SeenIsVouched(s, before);
        VouchedOn(s, before, l, SeenSince(s, before), LastCall(before));
        VouchedLook(s, run, SeenSince(s, before), LastCall(run));
      }
    }
  }

  // ---- What a call in progress has seen ----

  ghost predicate ReaderTold(began: Label, seen: Seen, t: State, pc: ReadPc, r: Reader) {
    && began == CallRead(r.room, r.nonblock)
    && match pc
       case RLoop | RSnapIn | RCopy => true
       case RSnapOut => r.inn == t.rxOut ==> seen.empty
       case RAfter => r.space > 0 ==> seen.empty
       case RSpin | RSpinHost => seen.empty
       case RSpinExit => seen.empty && (RxRing(t) == [] ==> seen.gone)
       case RDone | RKickShadow | RKickHw | RReturn =>
         && (r.room > 0 && r.space > 0 ==> seen.empty)
         && (r.room > 0 && r.dest == [] && !r.nonblock ==> seen.gone)
  }

  ghost predicate WriterTold(began: Label, seen: Seen, pc: WritePc, w: Writer) {
    && began == CallWrite(w.data, w.ptr + w.count, w.nonblock) && (w.count < 0 ==> w.ptr == 0)
    && match pc
       case WLoop | WSnapIn | WSnapOut | WCopy => true
       case WKickShadow | WKickHw | WAfterKick => w.count > 0 ==> seen.full
       case WSpin | WSpinHost => seen.full
       case WSpinExit => seen.full && seen.over
       case WReturn => w.count > 0 ==> seen.full && (!w.nonblock ==> seen.quiet)
  }

  /** What a call that has returned can answer for. */
  predicate Answers(began: Label, seen: Seen, c: Call) {
    match began
    case CallRead(space, nonblock) =>
      && c.ReadCall? && c.nonblock == nonblock
      && (space > 0 && |c.bytes| < space ==> seen.empty)
      && (space > 0 && c.rc == -EIO ==> seen.gone)
    case CallWrite(data, count, nonblock) =>
      && c.WriteCall? && c.nonblock == nonblock && c.data == data
      && (count > 0 && c.rc != count ==> seen.full && (!nonblock ==> seen.quiet))
    case _ => true
  }

  ghost predicate Told(began: Label, seen: Seen, t: State) {
    match t.thread
    case Idle => t.calls != [] && Answers(began, seen, t.calls[|t.calls| - 1])
    case InRead(pc, r) => ReaderTold(began, seen, t, pc, r)
    case InWrite(pc, w) => WriterTold(began, seen, pc, w)
  }

  lemma ReadSampleTold(began: Label, seen: Seen, t: State)
    requires Inv(t) && Told(began, seen, t) && t.isr.Off? && t.thread.InRead? && ThreadInBounds(t)
    requires t.thread.rpc in {RSnapIn, RSnapOut} && Inv(ReadStep(t))
    ensures Told(began, Look(seen, ReadStep(t)), ReadStep(t))
  {
  }

  lemma ReadCopyTold(began: Label, seen: Seen, t: State)
    requires Inv(t) && Told(began, seen, t) && t.isr.Off? && t.thread.InRead? && ThreadInBounds(t)
    requires t.thread.rpc == RCopy
    ensures Told(began, Look(seen, ReadStep(t)), ReadStep(t))
  {
  }

  lemma ReadSpinTold(began: Label, seen: Seen, t: State)
    requires Inv(t) && Told(began, seen, t) && t.isr.Off? && t.thread.InRead? && ThreadInBounds(t)
    requires t.thread.rpc in {RSpin, RSpinHost, RSpinExit} && Inv(ReadStep(t))
    ensures Told(began, Look(seen, ReadStep(t)), ReadStep(t))
  {
  }

  lemma ReadReturnTold(began: Label, seen: Seen, t: State)
    requires Inv(t) && Told(began, seen, t) && t.isr.Off? && t.thread.InRead? && ThreadInBounds(t)
    requires t.thread.rpc == RReturn
    ensures Told(began, Look(seen, ReadStep(t)), ReadStep(t))
  {
  }

  lemma ReadMoveTold(began: Label, seen: Seen, t: State)
    requires Inv(t) && Told(began, seen, t) && t.isr.Off? && t.thread.InRead? && ThreadInBounds(t)
    requires t.thread.rpc in {RLoop, RAfter, RDone, RKickShadow, RKickHw} && Inv(ReadStep(t))
    ensures Told(began, Look(seen, ReadStep(t)), ReadStep(t))
  {
  }

  lemma ReadTold(began: Label, seen: Seen, t: State)
    requires Inv(t) && Told(began, seen, t) && t.isr.Off? && t.thread.InRead? && ThreadInBounds(t)
    ensures Told(began, Look(seen, ReadStep(t)), ReadStep(t))
  {
    ReadStepKeeps(t);
    match t.thread.rpc
    case RSnapIn | RSnapOut => ReadSampleTold(began, seen, t);
    case RCopy => ReadCopyTold(began, seen, t);
    case RSpin | RSpinHost | RSpinExit => ReadSpinTold(began, seen, t);
    case RReturn => ReadReturnTold(began, seen, t);
    case _ => ReadMoveTold(began, seen, t);
  }

  lemma WriteSampleTold(began: Label, seen: Seen, t: State)
    requires Inv(t) && Told(began, seen, t) && t.isr.Off? && t.thread.InWrite? && ThreadInBounds(t)
    requires t.thread.wpc in {WSnapIn, WSnapOut} && Inv(WriteStep(t))
    ensures Told(began, Look(seen, WriteStep(t)), WriteStep(t))
  {
  }

  lemma WriteCopyTold(began: Label, seen: Seen, t: State)
    requires Inv(t) && Told(began, seen, t) && t.isr.Off? && t.thread.InWrite? && ThreadInBounds(t)
    requires t.thread.wpc == WCopy
    ensures Told(began, Look(seen, WriteStep(t)), WriteStep(t))
  {
    if t.thread.w.k >= t.thread.w.n {
      PublishTx(t, WriteStep(t));
    }
  }

  lemma WriteSpinTold(began: Label, seen: Seen, t: State)
    requires Inv(t) && Told(began, seen, t) && t.isr.Off? && t.thread.InWrite? && ThreadInBounds(t)
    requires t.thread.wpc in {WSpin, WSpinHost, WSpinExit} && Inv(WriteStep(t))
    ensures Told(began, Look(seen, WriteStep(t)), WriteStep(t))
  {
  }

  lemma WriteReturnTold(began: Label, seen: Seen, t: State)
    requires Inv(t) && Told(began, seen, t) && t.isr.Off? && t.thread.InWrite? && ThreadInBounds(t)
    requires t.thread.wpc == WReturn
    ensures Told(began, Look(seen, WriteStep(t)), WriteStep(t))
  {
  }

  lemma WriteMoveTold(began: Label, seen: Seen, t: State)
    requires Inv(t) && Told(began, seen, t) && t.isr.Off? && t.thread.InWrite? && ThreadInBounds(t)
    requires t.thread.wpc in {WLoop, WKickShadow, WKickHw, WAfterKick} && Inv(WriteStep(t))
    ensures Told(began, Look(seen, WriteStep(t)), WriteStep(t))
  {
  }

  lemma WriteTold(began: Label, seen: Seen, t: State)
    requires Inv(t) && Told(began, seen, t) && t.isr.Off? && t.thread.InWrite? && ThreadInBounds(t)
    ensures Told(began, Look(seen, WriteStep(t)), WriteStep(t))
  {
    WriteStepKeeps(t);
    match t.thread.wpc
    case WSnapIn | WSnapOut => WriteSampleTold(began, seen, t);
    case WCopy => WriteCopyTold(began, seen, t);
    case WSpin | WSpinHost | WSpinExit => WriteSpinTold(began, seen, t);
    case WReturn => WriteReturnTold(began, seen, t);
    case _ => WriteMoveTold(began, seen, t);
  }

  /** Nobody else changes what a call in progress has seen, or empties the ring behind a reader. */
  lemma OthersTold(began: Label, seen: Seen, t: State, l: Label)
    requires Inv(t) && Told(began, seen, t) && Enabled(t, l)
    requires !l.ThreadStep? && !l.CallRead? && !l.CallWrite?
    ensures Told(began, Look(seen, Apply(t, l)), Apply(t, l))
  {
    RingOnlyGrows(t, l);
  }

  lemma RingOnlyGrows(t: State, l: Label)
    requires Inv(t) && Enabled(t, l) && !l.ThreadStep? && !l.CallRead? && !l.CallWrite?
    ensures var u := Apply(t, l); u.rxOut == t.rxOut && u.thread == t.thread && u.calls == t.calls
    ensures RxRing(Apply(t, l)) == [] ==> RxRing(t) == []
  {
    if l.IsrWork? && t.isr.Rx? && t.rxFifo != [] && Advance(t.rxIn, 1) != t.rxOut {
      RingPush(t.rxBuf, t.rxOut, t.rxIn, t.rxFifo[0]);
    }
  }

  lemma CallsTold(t: State, l: Label)
    requires Inv(t) && Enabled(t, l) && (l.CallRead? || l.CallWrite?)
    ensures Told(l, Look(NOTHING, Apply(t, l)), Apply(t, l))
  {
  }

  lemma StepTold(began: Label, seen: Seen, t: State, l: Label)
    requires Inv(t) && Told(began, seen, t) && Enabled(t, l) && !l.CallRead? && !l.CallWrite?
    ensures Told(began, Look(seen, Apply(t, l)), Apply(t, l))
  {
    if !l.ThreadStep? {
      OthersTold(began, seen, t, l);
    } else if t.thread.InRead? {
      ReadTold(began, seen, t);
    } else {
      WriteTold(began, seen, t);
    }
  }

  ghost predicate RunTold(s: State, run: seq<Label>)
    requires Legal(s, run)
  {
    if LastCall(run) >= 0 then Told(run[LastCall(run)], SeenSince(s, run), Exec(s, run))
    else Exec(s, run).thread.Idle?
  }

  lemma RunStepTold(s: State, before: seq<Label>, l: Label)
    requires Legal(s, before) && Inv(Exec(s, before)) && RunTold(s, before) && Enabled(Exec(s, before), l)
    ensures Legal(s, before + [l]) && RunTold(s, before + [l])
  {
    var run := before + [l];
    assert run[..|run| - 1] == before;
    ExecSnoc(s, before, l);
    LastCallSnoc(before, l);
    if l.CallRead? || l.CallWrite? {
      CallsTold(Exec(s, before), l);
    } else if LastCall(before) >= 0 {
      assert run[LastCall(run)] == before[LastCall(before)];
      StepTold(run[LastCall(run)], SeenSince(s, before), Exec(s, before), l);
    }
  }

  lemma {:induction false} AlwaysTold(s: State, run: seq<Label>)
    requires Inv(s) && s.thread.Idle? && Legal(s, run)
    ensures RunTold(s, run)
    decreases |run|
  {
    if run != [] {
      var before, l := run[..|run| - 1], run[|run| - 1];
      assert run == before + [l];
      AlwaysTold(s, before);
      RunKeeps(s, before);
      RunStepTold(s, before, l);
    }
  }

  /** Calls that have begun. */
  function Begun(t: State): nat {
    |t.calls| + if t.thread.Idle? then 0 else 1
  }

  lemma OneMoreBegun(t: State, l: Label)
    requires Enabled(t, l)
    ensures Begun(Apply(t, l)) == Begun(t) + if l.CallRead? || l.CallWrite? then 1 else 0
  {
  }

  lemma {:induction false} LaterCallsCount(s: State, run: seq<Label>, n: nat)
    requires Legal(s, run) && n < |run| && (run[n].CallRead? || run[n].CallWrite?)
    ensures Legal(s, run[..n]) && Exec(s, run[..n]).thread.Idle?
    ensures Begun(Exec(s, run)) > Begun(Exec(s, run[..n])) + (if LastCall(run) == n then 0 else 1)
    decreases |run|
  {
    var before, l := run[..|run| - 1], run[|run| - 1];
    assert run == before + [l];
    OneMoreBegun(Exec(s, before), l);
    LastCallSnoc(before, l);
    if n < |before| {
      assert before[..n] == run[..n];
      LaterCallsCount(s, before, n);
    } else {
      assert before == run[..n];
    }
  }

  /** If one call has returned since, and none is in progress, then no other has begun. */
  lemma OnlyCall(s: State, run: seq<Label>, n: nat)
    requires Legal(s, run) && n < |run| && (run[n].CallRead? || run[n].CallWrite?)
    requires Exec(s, run).thread.Idle?
    requires Legal(s, run[..n]) && |Exec(s, run).calls| == |Exec(s, run[..n]).calls| + 1
    ensures LastCall(run) == n
  {
    LaterCallsCount(s, run, n);
  }

  // ---- Promises ----

  /** A read that returns fewer bytes than it was asked for saw the ring empty after it began; a blocking
      one that returns -EIO saw it empty with the host quiet for the whole timeout. */
  lemma ReadReturnsShortOnlyIf(s: State, run: seq<Label>, space: int, nonblock: bool)
    requires Reachable(s) && s.thread.Idle? && Legal(s, run) && Exec(s, run).thread.Idle?
    requires LastCall(run) >= 0 && run[LastCall(run)] == CallRead(space, nonblock) && space > 0
    ensures var calls := Exec(s, run).calls;
            calls != [] &&
            var c := calls[|calls| - 1];
            && c.ReadCall? && c.nonblock == nonblock
            && (|c.bytes| < space ==> SawEmpty(s, run, LastCall(run)))
            && (c.rc == -EIO ==> SawGone(s, run, LastCall(run)))
  {
    ReachableInv(s);
    AlwaysTold(s, run);
    SeenIsVouched(s, run);
  }

  /** A write that returns less than it was asked to write saw the ring full after it began; a blocking
      one saw, after that, room again or the host quiet for the whole timeout, and then the host quiet
      for a while at least. */
  lemma WriteReturnsShortOnlyIf(s: State, run: seq<Label>, data: seq<byte>, count: int, nonblock: bool)
    requires Reachable(s) && s.thread.Idle? && Legal(s, run) && Exec(s, run).thread.Idle?
    requires LastCall(run) >= 0 && run[LastCall(run)] == CallWrite(data, count, nonblock) && count > 0
    ensures var calls := Exec(s, run).calls;
            calls != [] &&
            var c := calls[|calls| - 1];
            && c.WriteCall? && c.nonblock == nonblock && c.data == data
            && (c.rc != count ==> SawFull(s, run, LastCall(run)))
            && (c.rc != count && !nonblock ==> SawQuiet(s, run, LastCall(run)))
  {
    ReachableInv(s);
    AlwaysTold(s, run);
    SeenIsVouched(s, run);
  }

  /** A return code `rc` of a read begun after the first `from` labels, and what it says has happened. */
  ghost predicate ReadExplained(s: State, run: seq<Label>, from: nat, space: int, rc: int) {
    && (rc < space ==> SawEmpty(s, run, from))
    && (rc == -EIO ==> SawGone(s, run, from))
  }

  lemma {:induction false} ReadExplains(s: State, before: seq<Label>, run: seq<Label>, space: int, nonblock: bool)
    requires Reachable(s) && s.thread.Idle? && Legal(s, run) && Exec(s, run).thread.Idle?
    requires before + [CallRead(space, nonblock)] <= run && space > 0
    requires Legal(s, before) && |Exec(s, run).calls| == |Exec(s, before).calls| + 1
    ensures var calls := Exec(s, run).calls;
            ReadExplained(s, run, |before|, space, calls[|calls| - 1].rc)
  {
    assert run[..|before|] == before;
    OnlyCall(s, run, |before|);
    ReadReturnsShortOnlyIf(s, run, space, nonblock);
    CodesInv(s, run);
  }

  lemma CodesInv(s: State, run: seq<Label>)
    requires Reachable(s) && Legal(s, run)
    ensures forall i | 0 <= i < |Exec(s, run).calls| :: CallOk(Exec(s, run).calls[i])
  {
    ReachableInv(s);
    RunKeeps(s, run);
  }

  ghost predicate WriteExplained(s: State, run: seq<Label>, from: nat, count: int, nonblock: bool, rc: int) {
    rc != count ==> SawFull(s, run, from) && (!nonblock ==> SawQuiet(s, run, from))
  }

  lemma {:induction false} WriteExplains(
      s: State, before: seq<Label>, run: seq<Label>, data: seq<byte>, count: int, nonblock: bool)
    requires Reachable(s) && s.thread.Idle? && Legal(s, run) && Exec(s, run).thread.Idle?
    requires before + [CallWrite(data, count, nonblock)] <= run && count > 0
    requires Legal(s, before) && |Exec(s, run).calls| == |Exec(s, before).calls| + 1
    ensures var calls := Exec(s, run).calls;
            WriteExplained(s, run, |before|, count, nonblock, calls[|calls| - 1].rc)
  {
    assert run[..|before|] == before;
    OnlyCall(s, run, |before|);
    WriteReturnsShortOnlyIf(s, run, data, count, nonblock);
  }

  /** A spinning reader with nothing to read and no host gives up, by at most five steps of its own. */
  lemma QuietReaderGivesUp(s: State) returns (run: seq<Label>)
    requires Reachable(s) && s.isr.Off? && s.thread.InRead? && s.thread.rpc in {RSpin, RSpinHost}
    requires RxRing(s) == [] && s.hostInactive >= s.timeout
    ensures Legal(s, run) && |run| <= 5 && forall l | l in run :: l == ThreadStep
    ensures Exec(s, run).calls == s.calls + [ReadCall([], false, -EIO)]
  {
    ReachableInv(s);
    run := QuietReadEnds(s);
  }

  /** Steps a reader that gives up has left. */
  function ReadStepsLeft(pc: ReadPc): nat {
    match pc case RSpin => 5 case RSpinHost => 4 case RSpinExit => 3 case RDone => 2 case _ => 1
  }

  ghost predicate GivingUpRead(s: State) {
    && Inv(s) && s.isr.Off? && s.thread.InRead?
    && s.thread.rpc in {RSpin, RSpinHost, RSpinExit, RDone, RReturn}
    && s.thread.r.dest == [] && !s.thread.r.nonblock
    && (s.thread.rpc in {RSpin, RSpinHost, RSpinExit} ==> s.thread.r.inn == s.rxIn)
    && s.hostInactive >= s.timeout
  }

  lemma QuietReadStep(s: State)
    requires GivingUpRead(s)
    ensures Leads(s, [ThreadStep], ReadStep(s), 1)
    ensures s.thread.rpc == RReturn ==> ReadStep(s).calls == s.calls + [ReadCall([], false, -EIO)]
    ensures s.thread.rpc != RReturn ==>
              && ReadStep(s).calls == s.calls && GivingUpRead(ReadStep(s))
              && ReadStepsLeft(ReadStep(s).thread.rpc) == ReadStepsLeft(s.thread.rpc) - 1
  {
    LeadsOne(s, ThreadStep);
  }

  lemma {:induction false} QuietReadEnds(s: State) returns (run: seq<Label>)
    requires GivingUpRead(s)
    ensures Legal(s, run) && |run| <= ReadStepsLeft(s.thread.rpc) && forall l | l in run :: l == ThreadStep
    ensures Exec(s, run).calls == s.calls + [ReadCall([], false, -EIO)]
    decreases ReadStepsLeft(s.thread.rpc)
  {
    QuietReadStep(s);
    run := [ThreadStep];
    if s.thread.rpc != RReturn {
      var more := QuietReadEnds(ReadStep(s));
      Join(s, run, more);
      run := run + more;
    }
  }

  /** A spinning writer with a full ring and no host gives up, by at most four steps of its own, and
      reports what it had got into the ring. */
  lemma QuietWriterGivesUp(s: State) returns (run: seq<Label>)
    requires Reachable(s) && s.isr.Off? && s.thread.InWrite? && s.thread.wpc in {WSpin, WSpinHost}
    requires |TxRing(s)| == BUF_LEN - 1 && s.hostInactive >= s.timeout && s.hostInactive > 0
    ensures Legal(s, run) && |run| <= 4 && forall l | l in run :: l == ThreadStep
    ensures var w := s.thread.w;
            Exec(s, run).calls == s.calls + [WriteCall(w.data, false, if w.ptr > 0 then w.ptr else -EIO)]
  {
    ReachableInv(s);
    run := QuietWriteEnds(s);
  }

  /** Steps a writer that gives up has left. */
  function WriteStepsLeft(pc: WritePc): nat {
    match pc case WSpin => 4 case WSpinHost => 3 case WSpinExit => 2 case _ => 1
  }

  ghost predicate GivingUpWrite(s: State) {
    && Inv(s) && s.isr.Off? && s.thread.InWrite?
    && s.thread.wpc in {WSpin, WSpinHost, WSpinExit, WReturn} && !s.thread.w.nonblock
    && (s.thread.wpc != WReturn ==> s.thread.w.out == s.txOut)
    && s.hostInactive >= s.timeout && s.hostInactive > 0
  }

  function GaveUp(w: Writer): Call {
    WriteCall(w.data, false, if w.ptr > 0 then w.ptr else -EIO)
  }

  lemma QuietWriteStep(s: State)
    requires GivingUpWrite(s)
    ensures Leads(s, [ThreadStep], WriteStep(s), 1)
    ensures s.thread.wpc == WReturn ==> WriteStep(s).calls == s.calls + [GaveUp(s.thread.w)]
    ensures s.thread.wpc != WReturn ==>
              && WriteStep(s).calls == s.calls && GivingUpWrite(WriteStep(s))
              && WriteStep(s).thread.w == s.thread.w
              && WriteStepsLeft(WriteStep(s).thread.wpc) < WriteStepsLeft(s.thread.wpc)
  {
    LeadsOne(s, ThreadStep);
  }

  lemma {:induction false} QuietWriteEnds(s: State) returns (run: seq<Label>)
    requires GivingUpWrite(s)
    ensures Legal(s, run) && |run| <= WriteStepsLeft(s.thread.wpc) && forall l | l in run :: l == ThreadStep
    ensures Exec(s, run).calls == s.calls + [GaveUp(s.thread.w)]
    decreases WriteStepsLeft(s.thread.wpc)
  {
    QuietWriteStep(s);
    run := [ThreadStep];
    if s.thread.wpc != WReturn {
      var more := QuietWriteEnds(WriteStep(s));
      Join(s, run, more);
      run := run + more;
    }
  }

  // ---- The host ----

  /** Seconds without a sign of the host, as the alarms of a run tell. */
  function Unheard(run: seq<Label>): nat {
    if run == [] then 0
    else
      var n := |run| - 1;
      match run[n] case HostAlarm(ac) => (if ac then 0 else Unheard(run[..n]) + 1) case _ => Unheard(run[..n])
  }

  lemma AlarmCounts(s: State, l: Label)
    requires Enabled(s, l)
    ensures Apply(s, l).timeout == s.timeout
    ensures Apply(s, l).hostInactive ==
              if !l.HostAlarm? then s.hostInactive
              else if l.ac then 0
              else if s.hostInactive < INT_MAX - 2 then s.hostInactive + 1 else s.hostInactive
  {
  }

  /** The inactivity count is the number of alarms since the last sign of the host, up to its limit. */
  lemma {:induction false} InactivityCounts(rx: Buffer, tx: Buffer, timeout: nat, depth: nat, run: seq<Label>)
    requires Legal(Init(rx, tx, timeout, depth), run)
    ensures var t := Exec(Init(rx, tx, timeout, depth), run);
            && t.timeout == timeout
            && t.hostInactive == if Unheard(run) < INT_MAX - 2 then Unheard(run) else INT_MAX - 2
    decreases |run|
  {
    if run != [] {
      InactivityCounts(rx, tx, timeout, depth, run[..|run| - 1]);
      AlarmCounts(Exec(Init(rx, tx, timeout, depth), run[..|run| - 1]), run[|run| - 1]);
    }
  }

  // ---- The interrupt routine ----

  /** One pass of the interrupt routine, for whatever the control register says: a receive interrupt is
      served until the FIFO is empty, or the ring full and further ones turned off, which they are for no
      other reason; a transmit interrupt sends what the FIFO was said to take and the ring holds, and is
      turned off exactly if the ring ran empty first. */
  lemma PassServes(s: State, ri: bool, wi: bool, wspace: nat) returns (run: seq<Label>, t: State)
    requires Reachable(s) && s.isr == Top && Enabled(s, IsrControl(ri, wi, wspace)) && (ri ==> s.rxFifo != [])
    ensures Legal(s, [IsrControl(ri, wi, wspace)] + run) && t == Exec(s, [IsrControl(ri, wi, wspace)] + run)
    ensures (forall l | l in run :: l == IsrWork) && t.isr == if ri || wi then Top else Off
    ensures ri ==> t.rxFifo == [] || |RxRing(t)| == BUF_LEN - 1
    ensures t.hw.re <==> s.hw.re && (ri ==> t.rxFifo == [])
    ensures RxRing(t) + t.rxFifo == RxRing(s) + s.rxFifo && (!ri ==> t.rxFifo == s.rxFifo)
    ensures t.txFifo + TxRing(t) == s.txFifo + TxRing(s)
    ensures |t.txFifo| - |s.txFifo| == if !wi then 0 else if wspace < |TxRing(s)| then wspace else |TxRing(s)|
    ensures t.hw.we <==> s.hw.we && !(wi && wspace > |TxRing(s)|)
  {
    ReachableInv(s);
    var l := IsrControl(ri, wi, wspace);
    var u := Apply(s, l);
    LeadsOne(s, l);
    run, t := [], u;
    if ri {
      run, t := ReceiveServes(u);
    }
    if wi {
      var more, v := TransmitServes(t);
      LeadsOn(u, run, t, |run|, more, v, |more|);
      run, t := run + more, v;
    }
    LeadsOn(s, [l], u, 1, run, t, |run|);
  }

  lemma {:induction false} ReceiveServes(s: State) returns (run: seq<Label>, t: State)
    requires Inv(s) && s.isr.Rx? && (s.isr.avail <==> s.rxFifo != [])
    ensures Leads(s, run, t, |run|) && (forall l | l in run :: l == IsrWork)
    ensures t.isr == if s.isr.wi then Tx(s.isr.space) else Top
    ensures t.rxFifo == [] || |RxRing(t)| == BUF_LEN - 1
    ensures (t.hw.re <==> s.hw.re && t.rxFifo == []) && t.hw.we == s.hw.we && t.shadow == t.hw
    ensures RxRing(t) + t.rxFifo == RxRing(s) + s.rxFifo
    ensures t.txFifo == s.txFifo && TxRing(t) == TxRing(s)
    decreases |s.rxFifo|
  {
    t := Apply(s, IsrWork);
    run := [IsrWork];
    LeadsOne(s, IsrWork);
    FullWhen(s.rxOut, s.rxIn);
    if Advance(s.rxIn, 1) != s.rxOut && s.rxFifo != [] {
      RingPush(s.rxBuf, s.rxOut, s.rxIn, s.rxFifo[0]);
      assert RxRing(t) + t.rxFifo == RxRing(s) + s.rxFifo;
      var more, u := ReceiveServes(t);
      LeadsOn(s, run, t, 1, more, u, |more|);
      run, t := run + more, u;
    }
  }

  lemma {:induction false} TransmitServes(s: State) returns (run: seq<Label>, t: State)
    requires Inv(s) && s.isr.Tx?
    ensures Leads(s, run, t, |run|) && (forall l | l in run :: l == IsrWork) && t.isr == Top
    ensures t.txFifo + TxRing(t) == s.txFifo + TxRing(s)
    ensures |t.txFifo| - |s.txFifo| == if s.isr.space < |TxRing(s)| then s.isr.space else |TxRing(s)|
    ensures (t.hw.we <==> s.hw.we && s.isr.space <= |TxRing(s)|) && t.hw.re == s.hw.re && t.shadow == t.hw
    ensures t.rxFifo == s.rxFifo && RxRing(t) == RxRing(s)
    decreases s.isr.space
  {
    t := Apply(s, IsrWork);
    run := [IsrWork];
    LeadsOne(s, IsrWork);
    if s.isr.space > 0 && s.txOut != s.txIn {
      SendMoves(s);
      var more, u := TransmitServes(t);
      LeadsOn(s, run, t, 1, more, u, |more|);
      run, t := run + more, u;
    }
  }

  /** Sending one byte moves it from the front of the ring to the end of the FIFO. */
  lemma SendMoves(s: State)
    requires s.isr.Tx? && s.isr.space > 0 && s.txOut != s.txIn
    ensures var t := IsrTx(s);
            && t.txFifo + TxRing(t) == s.txFifo + TxRing(s)
            && |t.txFifo| == |s.txFifo| + 1 && |TxRing(t)| == |TxRing(s)| - 1
            && t == s.(txFifo := t.txFifo, txOut := t.txOut, isr := Tx(s.isr.space - 1))
  {
    var t := IsrTx(s);
    FrontOff(s.txBuf, s.txOut, s.txIn);
    assert TxRing(t) == Ring(s.txBuf, Advance(s.txOut, 1), s.txIn);
    Regroup3(s.txFifo, s.txBuf[s.txOut], TxRing(t));
  }

  lemma FrontOff(buf: Buffer, out: Index, inn: Index)
    requires out != inn
    ensures Ring(buf, out, inn) == [buf[out]] + Ring(buf, Advance(out, 1), inn)
  {
    RingDrop(buf, out, inn, 1);
    RingAt(buf, out, inn, 0);
    var q := Ring(buf, out, inn);
    assert q == [q[0]] + q[1..];
  }

  lemma Regroup3(a: seq<byte>, b: byte, c: seq<byte>)
    ensures a + [b] + c == a + ([b] + c)
  {
  }
}
