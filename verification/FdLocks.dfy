/** Exclusive locks over every history of open, close, ioctl, fcntl and redirection. */
module FdLocks {
  import opened FdTable

  // ---- The invariant ----

  /** Slots 0 to 2 are never free, slots in use lie below the mark, only devices carry the device
      and lock bits, and device descriptors exist only once the mark has been raised. */
  ghost predicate Tidy(t: Table) {
    && (t.maxFd == -1 || 3 <= t.maxFd < MAX_FD)
    && (forall i | 0 <= i <= 2 :: t.fds[i].dev != Null)
    && (forall i | 2 < i < MAX_FD && t.maxFd < i :: t.fds[i].dev == Null)
    && (forall i | 0 <= i < MAX_FD && IsDev(t.fds[i]) :: t.fds[i].dev.Device? && t.maxFd >= 3)
    && (forall i | 0 <= i < MAX_FD && Excl(t.fds[i]) :: IsDev(t.fds[i]))
  }

  /** Any other descriptor on a locked device has a larger index than the holder; with the
      inclusive scan there is none. */
  ghost predicate HolderFirst(t: Table, inclusive: bool)
  {
    forall i, j | 0 <= i < MAX_FD && 0 <= j < MAX_FD && i != j && Excl(t.fds[i]) ::
      t.fds[j].dev == t.fds[i].dev ==> i < j && !inclusive
  }

  /** A locked device has at most one descriptor besides the holder: the one the scan can miss. */
  ghost predicate OneSharer(t: Table)
  {
    forall i, j, k | 0 <= i < MAX_FD && 0 <= j < MAX_FD && 0 <= k < MAX_FD && i != j && i != k && Excl(t.fds[i]) ::
      t.fds[j].dev == t.fds[i].dev && t.fds[k].dev == t.fds[i].dev ==> j == k
  }

  ghost predicate Inv(t: Table, inclusive: bool) {
    Tidy(t) && HolderFirst(t, inclusive) && OneSharer(t)
  }

  // ---- Every call keeps it ----

  lemma InitInv(inclusive: bool)
    ensures Inv(Init(), inclusive)
  {
  }

  lemma ReleaseKeeps(t: Table, fd: int, inclusive: bool)
    requires Inv(t, inclusive) && fd < MAX_FD
    ensures Inv(Release(t, fd), inclusive)
  {
  }

  lemma LockKeeps(t: Table, fd: Index, inclusive: bool)
    requires Inv(t, inclusive) && IsDev(t.fds[fd])
    ensures Inv(Lock(t, fd, inclusive).0, inclusive)
  {
  }

  lemma UnlockKeeps(t: Table, fd: Index, inclusive: bool)
    requires Inv(t, inclusive)
    ensures Inv(Unlock(t, fd), inclusive)
  {
  }

  lemma FcntlKeeps(t: Table, file: int, cmd: Command, inclusive: bool)
    requires Inv(t, inclusive) && file < MAX_FD
    ensures Inv(Fcntl(t, file, cmd).0, inclusive)
  {
  }

  /** A slot taken for a file system, or for a device nobody has locked. */
  lemma ClaimKeeps(t: Table, i: Index, fd: Fd, mark: int, inclusive: bool)
    requires Inv(t, inclusive) && i > 2 && t.fds[i].dev == Null
    requires mark == if i > t.maxFd then i else t.maxFd
    requires !Excl(fd) && fd.dev != Null && (IsDev(fd) ==> fd.dev.Device?)
    requires forall h | 0 <= h < MAX_FD && Excl(t.fds[h]) :: t.fds[h].dev != fd.dev
    ensures Inv(Pool(t.fds[i := fd], mark), inclusive)
  {
  }

  /** Opening: on success a fresh unlocked descriptor, of a device nobody has locked or of a file
      system; on failure no descriptor changes hands. */
  lemma OpenOutcome(t: Table, found: Dev, flags: Flags, answer: int, inclusive: bool)
    requires Inv(t, inclusive)
    ensures var (t', reply) := Open(t, found, flags, answer);
            && Inv(t', inclusive)
            && (reply.rc >= 0 ==>
                  && 2 < reply.rc < MAX_FD && t.fds[reply.rc].dev == Null
                  && t'.fds == t.fds[reply.rc := t'.fds[reply.rc]]
                  && t'.fds[reply.rc].dev == found && !Excl(t'.fds[reply.rc])
                  && (IsDev(t'.fds[reply.rc]) <==> found.Device?) && t'.maxFd >= 3
                  && !Locked(t, found))
            && (reply.rc < 0 ==> forall j | 0 <= j < MAX_FD :: t'.fds[j].dev == t.fds[j].dev)
  {
    var i := FirstFree(t.fds, 0);
    if found != Null && i < MAX_FD {
      var fd := t.fds[i].(dev := found, flags := Masked(flags).(dev := found.Device?));
      var mark := if i > t.maxFd then i else t.maxFd;
      var t2 := Pool(t.fds[i := fd], mark);
      assert GetFd(t, found).0.fds[i := fd] == t.fds[i := fd];
      HolderIsSeen(t, i, fd, mark);
      if found.FileSystem? || !HeldByOther(t2, i) {
        ClaimKeeps(t, i, fd, mark, inclusive);
      }
      UnclaimKeeps(t, i, fd, mark, inclusive);
    }
  }

  /** Somebody has locked the device or file system. */
  ghost predicate Locked(t: Table, dev: Dev)
  {
    exists h | 0 <= h < MAX_FD :: Excl(t.fds[h]) && t.fds[h].dev == dev
  }

  /** The scan of open() sees every holder; file systems have none. */
  lemma HolderIsSeen(t: Table, i: Index, fd: Fd, mark: int)
    requires Tidy(t) && t.fds[i].dev == Null && !Excl(fd) && mark == if i > t.maxFd then i else t.maxFd
    ensures HeldByOther(Pool(t.fds[i := fd], mark), i) <==> Locked(t, fd.dev)
    ensures fd.dev.FileSystem? ==> !Locked(t, fd.dev)
  {
    var t2 := Pool(t.fds[i := fd], mark);
    if Locked(t, fd.dev) {
      var h :| 0 <= h < MAX_FD && Excl(t.fds[h]) && t.fds[h].dev == fd.dev;
      assert IsDev(t.fds[h]);
      assert t2.fds[h] == t.fds[h];
    }
    if HeldByOther(t2, i) {
      var h :| 0 <= h <= mark && t2.fds[h].dev == t2.fds[i].dev && Excl(t2.fds[h]) && h != i;
      assert t2.fds[h] == t.fds[h];
    }
  }

  lemma UnclaimKeeps(t: Table, i: Index, fd: Fd, mark: int, inclusive: bool)
    requires Inv(t, inclusive) && i > 2 && t.fds[i].dev == Null
    requires mark == if i > t.maxFd then i else t.maxFd
    ensures Inv(Release(Pool(t.fds[i := fd], mark), i), inclusive)
  {
  }

  /** Moving a fresh unlocked descriptor into a standard slot. */
  lemma RedirectKeeps(t: Table, slot: Index, found: Dev, flags: Flags, answer: int, inclusive: bool)
    requires Inv(t, inclusive) && slot <= 2
    ensures Inv(Redirect(t, slot, found, flags, answer), inclusive)
  {
    OpenOutcome(t, found, flags, answer, inclusive);
    var (t1, reply) := Open(t, found, flags, answer);
    if reply.rc >= 0 {
      var temp := reply.rc;
      var s := t1.fds[slot := t1.fds[temp]];
      assert forall j | 0 <= j < MAX_FD && j != slot && j != temp :: s[j] == t.fds[j];
      MovedKeeps(t, t1, slot, temp, inclusive);
    }
  }

  lemma MovedKeeps(t: Table, t1: Table, slot: Index, temp: Index, inclusive: bool)
    requires Inv(t, inclusive) && Inv(t1, inclusive) && slot <= 2 < temp
    requires t1.fds == t.fds[temp := t1.fds[temp]] && t1.fds[temp].dev != Null && !Excl(t1.fds[temp])
    requires !Locked(t, t1.fds[temp].dev) && t1.maxFd >= 3
    ensures Inv(Release(t1.(fds := t1.fds[slot := t1.fds[temp]]), temp), inclusive)
  {
  }

  lemma StepKeeps(t: Table, op: Op, inclusive: bool)
    requires Inv(t, inclusive) && Callable(t, op)
    ensures Inv(Step(t, op, inclusive), inclusive)
  {
    match op
    case DoOpen(found, flags, answer) => OpenOutcome(t, found, flags, answer, inclusive);
    case DoClose(file, _) => if file >= 0 { ReleaseKeeps(t, file, inclusive); }
    case DoIoctl(file, req, _) =>
      if file >= 0 && IsDev(t.fds[file]) {
        LockKeeps(t, file, inclusive);
        UnlockKeeps(t, file, inclusive);
      }
    case DoFcntl(file, cmd) => FcntlKeeps(t, file, cmd, inclusive);
    case DoRedirect(slot, found, flags, answer) => RedirectKeeps(t, slot, found, flags, answer, inclusive);
  }

  // ---- Histories ----

  /** `t` is what some history of calls, each allowed by its contract, makes of the pool. */
  ghost predicate Reached(t: Table, inclusive: bool, history: seq<Op>)
    decreases |history|
  {
    if history == [] then t == Init()
    else
      var n := |history| - 1;
      exists before: Table ::
        && Reached(before, inclusive, history[..n])
        && Callable(before, history[n]) && t == Step(before, history[n], inclusive)
  }

  lemma {:induction false} HistoryKeeps(t: Table, inclusive: bool, history: seq<Op>)
    requires Reached(t, inclusive, history)
    ensures Inv(t, inclusive)
    decreases |history|
  {
    if history == [] {
      InitInv(inclusive);
    } else {
      var n := |history| - 1;
      var before: Table :|
        && Reached(before, inclusive, history[..n])
        && Callable(before, history[n]) && t == Step(before, history[n], inclusive);
      HistoryKeeps(before, inclusive, history[..n]);
      StepKeeps(before, history[n], inclusive);
    }
  }

  /** After any history no device has two holders; a held one has at most one other descriptor,
      and cannot be opened. */
  lemma AtMostOneHolder(t: Table, history: seq<Op>, i: Index, j: Index, k: Index, flags: Flags, answer: int)
    requires Reached(t, false, history) && Excl(t.fds[i])
    ensures Excl(t.fds[j]) && t.fds[i].dev == t.fds[j].dev ==> i == j
    ensures i != j && i != k && t.fds[j].dev == t.fds[i].dev == t.fds[k].dev ==> j == k
    ensures Open(t, t.fds[i].dev, flags, answer).1.rc == -1
    ensures forall l | 0 <= l < MAX_FD :: Open(t, t.fds[i].dev, flags, answer).0.fds[l].dev == t.fds[l].dev
  {
    HistoryKeeps(t, false, history);
    assert Locked(t, t.fds[i].dev);
    OpenOutcome(t, t.fds[i].dev, flags, answer, false);
  }

  /** No other descriptor refers to the same device. */
  predicate Alone(t: Table, fd: Index)
  {
    forall j | 0 <= j < MAX_FD && j != fd :: t.fds[j].dev != t.fds[fd].dev
  }

  /** The documentation grants the lock exactly to a sole descriptor. The code as written agrees
      with it exactly if the slot at the mark is not another descriptor on the device that is the
      only one; with an inclusive bound it always agrees. */
  lemma LockGrantsAsDocumentedIff(t: Table, history: seq<Op>, fd: Index)
    requires Reached(t, false, history) && IsDev(t.fds[fd])
    ensures (Lock(t, fd, false).1 == 0 <==> Alone(t, fd))
            <==> !(t.maxFd >= 0 && t.maxFd != fd && t.fds[t.maxFd].dev == t.fds[fd].dev && !Shared(t, fd, t.maxFd))
    ensures Lock(t, fd, true).1 == 0 <==> Alone(t, fd)
  {
    HistoryKeeps(t, false, history);
    InUseBelowMark(t, fd);
  }

  lemma InUseBelowMark(t: Table, fd: Index)
    requires Tidy(t) && t.fds[fd].dev != Null && t.maxFd >= 3
    ensures Alone(t, fd) <==> !Shared(t, fd, t.maxFd + 1)
    ensures Shared(t, fd, t.maxFd + 1) <==>
              Shared(t, fd, t.maxFd) || (t.maxFd != fd && t.fds[t.maxFd].dev == t.fds[fd].dev)
  {
  }

  /** With the inclusive bound a holder is the only descriptor on its device after any history. */
  lemma InclusiveHolderIsAlone(t: Table, history: seq<Op>, i: Index)
    requires Reached(t, true, history) && Excl(t.fds[i])
    ensures Alone(t, i)
  {
    HistoryKeeps(t, true, history);
  }

  /** Locking and unlocking undo each other for a descriptor that was not locked, and closing
      frees the lock exactly for the slots that can be freed. */
  lemma LockRoundTrip(t: Table, history: seq<Op>, fd: Index, answer: int)
    requires Reached(t, false, history) && IsDev(t.fds[fd]) && !Excl(t.fds[fd])
    requires Lock(t, fd, false).1 == 0
    ensures Unlock(Lock(t, fd, false).0, fd) == t
    ensures !Locked(Close(Lock(t, fd, false).0, fd, answer).0, t.fds[fd].dev) <==> fd > 2
  {
    HistoryKeeps(t, false, history);
    var locked := Lock(t, fd, false).0;
    LockKeeps(t, fd, false);
    assert Unlock(locked, fd).fds == t.fds;
    var closed := Close(locked, fd, answer).0;
    assert forall j | 0 <= j < MAX_FD && j != fd :: closed.fds[j] == locked.fds[j];
    if fd <= 2 {
      assert Excl(closed.fds[fd]);
    }
  }

  const EXAMPLE: seq<Op> := [
    DoOpen(Device(7), NO_FLAGS, 0), DoOpen(Device(7), NO_FLAGS, 0), DoIoctl(3, TIOCEXCL, 0)]

  /** Two descriptors on one device, and the lower one is granted exclusive access. */
  lemma ExclusiveButShared() returns (t: Table)
    ensures Reached(t, false, EXAMPLE) && Excl(t.fds[3]) && t.fds[4].dev == t.fds[3].dev
  {
    var t1 := Step(Init(), EXAMPLE[0], false);
    var fd := Fd(Device(7), 0, NO_FLAGS.(dev := true));
    assert t1 == Pool(Init().fds[3 := fd], 3);
    var t2 := Step(t1, EXAMPLE[1], false);
    assert t2 == Pool(t1.fds[4 := fd], 4);
    t := Step(t2, EXAMPLE[2], false);
    assert Reached(Init(), false, EXAMPLE[..0]);
    assert EXAMPLE[..1][..0] == EXAMPLE[..0] && EXAMPLE[..2][..1] == EXAMPLE[..1];
    assert Reached(t1, false, EXAMPLE[..1]);
    assert Reached(t2, false, EXAMPLE[..2]);
  }
}
