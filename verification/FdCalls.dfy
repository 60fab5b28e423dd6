/** What callers of the descriptor table get back and what becomes of the table, call by call, after any
    history: stated of descriptors, return values and errno only. */
module FdCalls {
  import opened Arithmetic
  import opened ErrorCodes
  import opened FdTable
  import opened FdLocks

  /** Every descriptor but this one is as before, and so is the mark. */
  ghost predicate OnlyAt(t: Table, t': Table, file: Index) {
    t'.maxFd == t.maxFd && forall j | 0 <= j < MAX_FD && j != file :: t'.fds[j] == t.fds[j]
  }

  // ---- ioctl ----

  /** TIOCEXCL on a device: refused with EACCES exactly if a descriptor below the mark shares the device;
      otherwise that descriptor holds it, and nothing else changes. */
  lemma ExclusiveRequested(t: Table, file: Index, answer: int)
    requires IsDev(t.fds[file])
    ensures var (t', reply) := Ioctl(t, file, TIOCEXCL, answer, false);
            if exists j :: 0 <= j < t.maxFd && j != file && t.fds[j].dev == t.fds[file].dev
            then reply == Reply(-EACCES, EACCES) && t' == t
            else
              && reply == Reply(0, 0) && OnlyAt(t, t', file)
              && Excl(t'.fds[file]) && Unheld(t'.fds[file]) == Unheld(t.fds[file])
  {
  }

  /** A descriptor but for the lock. */
  function Unheld(fd: Fd): Fd {
    fd.(flags := fd.flags.(excl := false))
  }

  /** TIOCNXCL on a device always succeeds: that descriptor does not hold it any more, and nothing else
      changes. If it was the holder, nobody holds the device now. */
  lemma ExclusiveReleased(t: Table, history: seq<Op>, file: Index, answer: int)
    requires Reached(t, false, history) && IsDev(t.fds[file])
    ensures var (t', reply) := Ioctl(t, file, TIOCNXCL, answer, false);
            && reply == Reply(0, 0) && OnlyAt(t, t', file)
            && !Excl(t'.fds[file]) && Unheld(t'.fds[file]) == Unheld(t.fds[file])
            && (Excl(t.fds[file]) ==> !Locked(t', t.fds[file].dev))
  {
    HistoryKeeps(t, false, history);
  }

  /** The two requests undo each other: the table is the one before, and the device can be opened again
      if a slot is free and the driver agrees. */
  lemma ExclusiveThenReleased(
      t: Table, history: seq<Op>, file: Index, answer: int, flags: Flags, verdict: int)
    requires Reached(t, false, history) && IsDev(t.fds[file]) && !Excl(t.fds[file])
    requires Ioctl(t, file, TIOCEXCL, answer, false).1.rc == 0
    ensures var held := Ioctl(t, file, TIOCEXCL, answer, false).0;
            var t' := Ioctl(held, file, TIOCNXCL, answer, false).0;
            && Locked(held, t.fds[file].dev) && Open(held, t.fds[file].dev, flags, verdict).1.rc == -1
            && t' == t
            && (Open(t', t.fds[file].dev, flags, verdict).1.rc >= 0 <==> FreeSlot(t) && verdict >= 0)
  {
    HistoryKeeps(t, false, history);
    var held := Ioctl(t, file, TIOCEXCL, answer, false).0;
    LockKeeps(t, file, false);
    assert Excl(held.fds[file]);
    OpenRefused(held, t.fds[file].dev, flags, verdict);
    assert Ioctl(held, file, TIOCNXCL, answer, false).0.fds == t.fds;
    assert forall h | 0 <= h < MAX_FD && h != file :: held.fds[h] == t.fds[h];
    assert !Locked(t, t.fds[file].dev);
    OpenReplies(t, t.fds[file].dev, flags, verdict);
  }

  lemma OpenRefused(t: Table, dev: Dev, flags: Flags, verdict: int)
    requires Inv(t, false) && Locked(t, dev)
    ensures Open(t, dev, flags, verdict).1.rc == -1
  {
    OpenReplies(t, dev, flags, verdict);
  }

  /** Anything else is up to the driver and changes nothing; a negative descriptor is refused. */
  lemma OtherRequests(t: Table, file: int, req: Request, answer: int)
    requires file < MAX_FD
    requires file < 0 || req == Other || !IsDev(t.fds[file])
    ensures var (t', reply) := Ioctl(t, file, req, answer, false);
            && t' == t && reply.rc == (if file < 0 then -EBADFD else answer)
            && (reply.rc < 0 ==> reply.errno == -reply.rc)
  {
  }

  // ---- open ----

  ghost predicate FreeSlot(t: Table) {
    exists i :: 0 <= i < MAX_FD && t.fds[i].dev == Null
  }

  /** A descriptor as open() makes it, whatever lock and device bits the caller's flags have. */
  function Opened(fd: Fd, found: Dev, flags: Flags): Fd {
    Fd(found, fd.priv, Flags(false, found.Device?, flags.nonblock, flags.append, flags.rest))
  }

  /** All replies of open(), in the order of its checks; on success the lowest free slot has become a
      descriptor, and nothing else has changed; on failure no slot in use has changed and no free slot
      is taken. */
  lemma OpenReplies(t: Table, found: Dev, flags: Flags, answer: int)
    requires Inv(t, false)
    ensures var (t', reply) := Open(t, found, flags, answer);
            && (found == Null ==> reply == Reply(-1, ENODEV))
            && (found != Null && !FreeSlot(t) ==> reply == Reply(-1, EMFILE))
            && (found != Null && FreeSlot(t) && Locked(t, found) ==> reply == Reply(-1, EACCES))
            && (found != Null && FreeSlot(t) && !Locked(t, found) && answer < 0 ==> reply == Reply(-1, -answer))
            && (found != Null && FreeSlot(t) && !Locked(t, found) && answer >= 0 ==>
                  && 0 <= reply.rc < MAX_FD && t.fds[reply.rc].dev == Null
                  && (forall j | 0 <= j < reply.rc :: t.fds[j].dev != Null)
                  && t'.fds == t.fds[reply.rc := Opened(t.fds[reply.rc], found, flags)]
                  && t'.maxFd == if reply.rc > t.maxFd then reply.rc else t.maxFd)
            && (reply.rc < 0 ==> Unopened(t, t'))
  {
    var i := FirstFree(t.fds, 0);
    assert FreeSlot(t) <==> i < MAX_FD;
    if found != Null && i < MAX_FD {
      SlotFound(t, i, found, flags, answer);
    }
  }

  lemma SlotFound(t: Table, i: Index, found: Dev, flags: Flags, answer: int)
    requires Inv(t, false) && found != Null && i == FirstFree(t.fds, 0)
    ensures var claimed := Pool(t.fds[i := Opened(t.fds[i], found, flags)], if i > t.maxFd then i else t.maxFd);
            Open(t, found, flags, answer)
            == if Locked(t, found) then (Release(claimed, i), Reply(-1, EACCES))
               else if answer < 0 then (Release(claimed, i), Reply(-1, -answer))
               else (claimed, Reply(i, 0))
  {
    var fd := Opened(t.fds[i], found, flags);
    HolderIsSeen(t, i, fd, if i > t.maxFd then i else t.maxFd);
    assert GetFd(t, found).0.fds[i := fd] == t.fds[i := fd];
  }

  ghost predicate Unopened(t: Table, t': Table) {
    forall j | 0 <= j < MAX_FD ::
      if t.fds[j].dev != Null then t'.fds[j] == t.fds[j] else t'.fds[j].dev == Null
  }

  /** The same after any history. */
  lemma OpenAfterHistory(t: Table, history: seq<Op>, found: Dev, flags: Flags, answer: int)
    requires Reached(t, false, history)
    ensures Open(t, found, flags, answer).1.rc >= 0
            <==> found != Null && FreeSlot(t) && !Locked(t, found) && answer >= 0
  {
    HistoryKeeps(t, false, history);
    OpenReplies(t, found, flags, answer);
  }

  // ---- close ----

  /** close() frees every slot but the standard three, whatever the driver answers, and reports its error. */
  lemma CloseReplies(t: Table, file: int, answer: int)
    requires file < MAX_FD
    ensures var (t', reply) := Close(t, file, answer);
            if file < 0 then t' == t && reply == Reply(-1, EBADFD)
            else
              && (if answer < 0 then reply == Reply(-1, -answer) else reply == Reply(0, 0))
              && OnlyAt(t, t', file)
              && if file <= 2 then t'.fds[file] == t.fds[file]
                 else t'.fds[file] == Fd(Null, t.fds[file].priv, Flags(false, false, false, false, 0))
  {
  }

  // ---- fcntl ----

  /** The bit of weight w of a flag word. */
  predicate Set(word: int, w: int)
    requires w > 0
  {
    word / w % 2 == 1
  }

  /** The bits that have fields of their own, O_APPEND, O_NONBLOCK and the table's two, are not in `rest`. */
  predicate RestOk(f: Flags) {
    f.rest < 0x4000_0000 && !Set(f.rest, 0x8) && !Set(f.rest, 0x4000)
  }

  /** Adding an even multiple of a bit's weight leaves the bit alone. */
  lemma Unmoved(x: nat, w: nat, m: nat)
    requires w > 0
    ensures (x + 2 * m * w) / w == x / w + 2 * m
    ensures Set(x + 2 * m * w, w) <==> Set(x, w)
  {
    DivMod(x, w);
    assert x + 2 * m * w == (x / w + 2 * m) * w + x % w;
    UniqueQuotient(x + 2 * m * w, x / w + 2 * m, x % w, w);
  }

  /** Adding the weight of a clear bit sets it and carries nothing on. */
  lemma BitSet(x: nat, w: nat)
    requires w > 0 && !Set(x, w)
    ensures Set(x + w, w) && (x + w) / w == x / w + 1
  {
    DivMod(x, w);
    assert x + w == (x / w + 1) * w + x % w;
    UniqueQuotient(x + w, x / w + 1, x % w, w);
  }

  lemma NoCarry(x: nat, w: nat, n: nat)
    requires w > 0 && n > 0 && !Set(x, w)
    ensures w * 2 * n > 0 && (x + w) / (w * 2 * n) == x / (w * 2 * n)
  {
    DivMod(x, w);
    DivDiv(x, w, 2);
    var q, r := x / (w * 2), x % w;
    assert x / w == 2 * q;
    assert x + w == q * (w * 2) + (r + w);
    UniqueQuotient(x + w, q, r + w, w * 2);
    DivDiv(x, w * 2, n);
    DivDiv(x + w, w * 2, n);
  }

  lemma AppendBit(x: nat)
    requires !Set(x, 0x8)
    ensures Set(x + 0x8, 0x8) && (Set(x + 0x8, 0x4000) <==> Set(x, 0x4000))
    ensures (x + 0x8) / 0x4000_0000 == x / 0x4000_0000
  {
    BitSet(x, 0x8);
    NoCarry(x, 0x8, 0x400);
    NoCarry(x, 0x8, 0x400_0000);
  }

  lemma NonblockBit(x: nat)
    requires !Set(x, 0x4000)
    ensures Set(x + 0x4000, 0x4000) && (Set(x + 0x4000, 0x8) <==> Set(x, 0x8))
    ensures (x + 0x4000) / 0x4000_0000 == x / 0x4000_0000
  {
    BitSet(x, 0x4000);
    Unmoved(x, 0x8, 0x400);
    NoCarry(x, 0x4000, 0x8000);
  }

  lemma TopBits(x: nat, dev: bool, excl: bool)
    requires x < 0x4000_0000
    ensures var w := x + (if dev then 0x4000_0000 else 0) + if excl then 0x8000_0000 else 0;
            && (Set(w, 0x8) <==> Set(x, 0x8)) && (Set(w, 0x4000) <==> Set(x, 0x4000))
            && (Set(w, 0x4000_0000) <==> dev) && (Set(w, 0x8000_0000) <==> excl)
  {
    var k := (if dev then 1 else 0) + if excl then 2 else 0;
    Unmoved(x, 0x8, 0x400_0000 * k);
    Unmoved(x, 0x4000, 0x8000 * k);
    UniqueQuotient(x + 0x4000_0000 * k, k, x, 0x4000_0000);
    DivDiv(x + 0x4000_0000 * k, 0x4000_0000, 2);
  }

  lemma WordBits(f: Flags)
    requires RestOk(f)
    ensures var w := Word(f);
            && (Set(w, 0x8) <==> f.append) && (Set(w, 0x4000) <==> f.nonblock)
            && (Set(w, 0x4000_0000) <==> f.dev) && (Set(w, 0x8000_0000) <==> f.excl)
  {
    var x := f.rest + if f.append then 0x8 else 0;
    AppendBit(f.rest);
    NonblockBit(x);
    TopBits(x + if f.nonblock then 0x4000 else 0, f.dev, f.excl);
  }

  /** What F_GETFL shows after F_SETFL: O_APPEND and O_NONBLOCK as asked for, every other bit as it was
      shown before, and never the table's own two bits. The lock and the kind of descriptor, and every
      other descriptor, are as before. */
  lemma SetThenGet(t: Table, file: Index, arg: Flags)
    requires RestOk(t.fds[file].flags)
    ensures var before := Fcntl(t, file, GetFl).1.rc;
            var (t', reply) := Fcntl(t, file, SetFl(arg));
            var shown := Fcntl(t', file, GetFl).1.rc;
            && reply == Reply(0, 0) && Fcntl(t', file, GetFl).0 == t'
            && 0 <= shown < 0x4000_0000
            && (Set(shown, 0x8) <==> arg.append) && (Set(shown, 0x4000) <==> arg.nonblock)
            && Rest(shown) == Rest(before) == t.fds[file].flags.rest
            && OnlyAt(t, t', file) && t'.fds[file].dev == t.fds[file].dev
            && Excl(t'.fds[file]) == Excl(t.fds[file]) && IsDev(t'.fds[file]) == IsDev(t.fds[file])
  {
    WordBits(Masked(t.fds[file].flags));
    WordBits(Masked(Fcntl(t, file, SetFl(arg)).0.fds[file].flags));
  }

  /** A flag word without O_APPEND and O_NONBLOCK. */
  function Rest(word: int): int {
    word - (if Set(word, 0x8) then 0x8 else 0) - (if Set(word, 0x4000) then 0x4000 else 0)
  }

  /** Nothing else is understood, and a negative descriptor is refused. */
  lemma FcntlRefuses(t: Table, file: int, cmd: Command)
    requires file < MAX_FD && (file < 0 || cmd == Unknown)
    ensures Fcntl(t, file, cmd) == (t, Reply(-1, if file < 0 then EBADFD else EINVAL))
  {
  }

  // ---- redirection ----

  /** alt_open_fd: if the name can be opened, the standard slot becomes the new descriptor and its
      temporary slot is free again; otherwise no slot in use has changed. */
  lemma Redirected(t: Table, history: seq<Op>, slot: Index, found: Dev, flags: Flags, answer: int)
    requires Reached(t, false, history) && slot <= 2
    ensures var t' := Redirect(t, slot, found, flags, answer);
            if found != Null && FreeSlot(t) && !Locked(t, found) && answer >= 0 then
              && (exists fd :: 0 <= fd < MAX_FD && t.fds[fd].dev == Null
                               && t'.fds[slot] == Opened(t.fds[fd], found, flags))
              && forall j | 0 <= j < MAX_FD && j != slot ::
                   if t.fds[j].dev != Null then t'.fds[j] == t.fds[j] else t'.fds[j].dev == Null
            else Unopened(t, t')
  {
    HistoryKeeps(t, false, history);
    OpenReplies(t, found, flags, answer);
    var (t1, reply) := Open(t, found, flags, answer);
    if reply.rc >= 0 {
      assert t1.fds[slot] == t.fds[slot];
    }
  }
}
