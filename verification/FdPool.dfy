/** The descriptor pool as the calls update it in place, each proved to do what its table
    function says. */
module FdPool {
  import opened ErrorCodes
  import opened FdTable
  import opened FdLocks

  class Files {
    const fds: array<Fd>
    var maxFd: int
    var errno: int

    ghost predicate Valid()
      reads this, fds
    {
      fds.Length == MAX_FD && -1 <= maxFd < MAX_FD && Inv(View(), false)
    }

    ghost function View(): Table
      reads this, fds
      requires fds.Length == MAX_FD && -1 <= maxFd < MAX_FD
    {
      Pool(fds[..], maxFd)
    }

    constructor ()
      ensures Valid() && View() == Init() && fresh(fds)
    {
      fds := new Fd[MAX_FD](i => if i < 3 then Fd(DEV_NULL, 0, NO_FLAGS) else FREE);
      maxFd, errno := -1, 0;
      new;
      assert fds[..] == Init().fds;
      InitInv(false);
    }

    /** alt_get_fd: claims the first free slot and raises the mark. */
    method GetFd(dev: Dev) returns (rc: int)
      requires fds.Length == MAX_FD && -1 <= maxFd < MAX_FD
      modifies this`maxFd, fds
      ensures -1 <= maxFd < MAX_FD
      ensures (View(), rc) == FdTable.GetFd(old(View()), dev)
    {
      ghost var t := View();
      for i := 0 to MAX_FD
        invariant maxFd == t.maxFd && fds[..] == t.fds
        invariant FirstFree(t.fds, 0) == FirstFree(t.fds, i)
      {
        if fds[i].dev == Null {
          fds[i] := fds[i].(dev := dev);
          if i > maxFd {
            maxFd := i;
          }
          assert fds[..] == t.fds[i := t.fds[i].(dev := dev)];
          return i;
        }
      }
      return -EMFILE;
    }

    /** alt_release_fd: standard slots are never given back. */
    method ReleaseFd(fd: int)
      requires fds.Length == MAX_FD && -1 <= maxFd < MAX_FD && fd < MAX_FD
      modifies fds
      ensures View() == Release(old(View()), fd)
    {
      ghost var t := View();
      if fd > 2 {
        fds[fd] := fds[fd].(flags := NO_FLAGS);
        fds[fd] := fds[fd].(dev := Null);
      }
      assert fds[..] == Release(t, fd).fds;
    }

    /** alt_file_locked: marks the slot as a device's and looks for a holder of that device. */
    method FileLocked(fd: Index) returns (status: int)
      requires fds.Length == MAX_FD && -1 <= maxFd < MAX_FD
      modifies fds
      ensures fds[..] == old(fds[..])[fd := old(fds[fd]).(flags := old(fds[fd]).flags.(dev := true))]
      ensures status == if HeldByOther(View(), fd) then -EACCES else 0
    {
      fds[fd] := fds[fd].(flags := fds[fd].flags.(dev := true));
      for i := 0 to maxFd + 1
        invariant forall j | 0 <= j < i :: !(fds[j].dev == fds[fd].dev && Excl(fds[j]) && j != fd)
      {
        if fds[i].dev == fds[fd].dev && fds[i].flags.excl && i != fd {
          assert View().fds[i] == fds[i];
          return -EACCES;
        }
      }
      return 0;
    }

    /** open(): `found` is what the name lookup yields, `answer` the driver's own verdict. */
    method Open(found: Dev, flags: Flags, answer: int) returns (rc: int)
      requires Valid()
      modifies this`maxFd, this`errno, fds
      ensures Valid() && View() == FdTable.Open(old(View()), found, flags, answer).0
      ensures rc == FdTable.Open(old(View()), found, flags, answer).1.rc
      ensures errno == if rc < 0 then FdTable.Open(old(View()), found, flags, answer).1.errno else old(errno)
    {
      OpenOutcome(View(), found, flags, answer, false);
      var index, status := -1, -ENODEV;
      if found != Null {
        index := GetFd(found);
        if index < 0 {
          status := index;
        } else {
          status := Admit(index, found, flags, answer);
        }
      }
      if status < 0 {
        ReleaseFd(index);
        errno := -status;
        return -1;
      }
      rc := index;
    }

    /** The checks of open() on a freshly claimed slot. */
    method Admit(index: Index, found: Dev, flags: Flags, answer: int) returns (status: int)
      requires fds.Length == MAX_FD && -1 <= maxFd < MAX_FD && found != Null && fds[index].dev == found
      modifies fds
      ensures View() == old(View()).(fds := old(View()).fds[index :=
                old(fds[index]).(flags := Masked(flags).(dev := found.Device?))])
      ensures status == if found.Device? && HeldByOther(View(), index) then -EACCES else answer
    {
      ghost var t := View();
      fds[index] := fds[index].(flags := Masked(flags));
      assert fds[..] == t.fds[index := t.fds[index].(flags := Masked(flags))];
      status := 0;
      if found.Device? {
        status := FileLocked(index);
      }
      if found.FileSystem? || status >= 0 {
        status := answer;
      }
    }

    /** alt_fd_lock: grants the lock unless a descriptor below the mark shares the device. */
    method Lock(fd: Index) returns (rc: int)
      requires fds.Length == MAX_FD && -1 <= maxFd < MAX_FD
      modifies fds
      ensures (View(), rc) == FdTable.Lock(old(View()), fd, false)
    {
      ghost var t := View();
      for i := 0 to if maxFd < 0 then 0 else maxFd
        invariant forall j | 0 <= j < i :: !(j != fd && fds[j].dev == fds[fd].dev)
      {
        if i != fd && fds[i].dev == fds[fd].dev {
          assert t.fds[i] == fds[i];
          return -EACCES;
        }
      }
      fds[fd] := fds[fd].(flags := fds[fd].flags.(excl := true));
      assert fds[..] == t.fds[fd := t.fds[fd].(flags := t.fds[fd].flags.(excl := true))];
      rc := 0;
    }

    method Unlock(fd: Index) returns (rc: int)
      requires fds.Length == MAX_FD && -1 <= maxFd < MAX_FD
      modifies fds
      ensures rc == 0 && View() == FdTable.Unlock(old(View()), fd)
    {
      ghost var t := View();
      fds[fd] := fds[fd].(flags := fds[fd].flags.(excl := false));
      assert fds[..] == FdTable.Unlock(t, fd).fds;
      rc := 0;
    }

    method Ioctl(file: int, req: Request, answer: int) returns (rc: int)
      requires Valid() && Callable(View(), DoIoctl(file, req, answer))
      modifies this`errno, fds
      ensures Valid() && View() == FdTable.Ioctl(old(View()), file, req, answer, false).0
      ensures rc == FdTable.Ioctl(old(View()), file, req, answer, false).1.rc
      ensures errno == if rc < 0 then -rc else old(errno)
    {
      StepKeeps(View(), DoIoctl(file, req, answer), false);
      if file < 0 {
        rc := -EBADFD;
      } else if fds[file].flags.dev && req == TIOCEXCL {
        rc := Lock(file);
      } else if fds[file].flags.dev && req == TIOCNXCL {
        rc := Unlock(file);
      } else {
        rc := answer;
      }
      if rc < 0 {
        errno := -rc;
      }
    }

    method Close(file: int, answer: int) returns (rc: int)
      requires Valid() && Callable(View(), DoClose(file, answer))
      modifies this`errno, fds
      ensures Valid() && View() == FdTable.Close(old(View()), file, answer).0
      ensures rc == FdTable.Close(old(View()), file, answer).1.rc
      ensures errno == if rc < 0 then FdTable.Close(old(View()), file, answer).1.errno else old(errno)
    {
      StepKeeps(View(), DoClose(file, answer), false);
      if file < 0 {
        errno := EBADFD;
        return -1;
      }
      ReleaseFd(file);
      if answer < 0 {
        errno := -answer;
        return -1;
      }
      rc := 0;
    }

    method Fcntl(file: int, cmd: Command) returns (rc: int)
      requires Valid() && Callable(View(), DoFcntl(file, cmd))
      modifies this`errno, fds
      ensures Valid() && View() == FdTable.Fcntl(old(View()), file, cmd).0
      ensures rc == FdTable.Fcntl(old(View()), file, cmd).1.rc
      ensures errno == if rc < 0 then FdTable.Fcntl(old(View()), file, cmd).1.errno else old(errno)
    {
      StepKeeps(View(), DoFcntl(file, cmd), false);
      ghost var t := View();
      if file < 0 {
        errno := EBADFD;
        return -1;
      }
      match cmd
      case GetFl => rc := Word(Masked(fds[file].flags));
      case SetFl(arg) =>
        var f := fds[file].flags.(nonblock := false, append := false);
        fds[file] := fds[file].(flags := f.(nonblock := arg.nonblock, append := arg.append));
        assert fds[..] == FdTable.Fcntl(t, file, cmd).0.fds;
        rc := 0;
      case Unknown =>
        errno := EINVAL;
        rc := -1;
    }

    /** alt_open_fd: points a standard slot at a newly opened name, if it can be opened. */
    method OpenFd(slot: Index, found: Dev, flags: Flags, answer: int)
      requires Valid() && slot <= 2
      modifies this`maxFd, this`errno, fds
      ensures Valid() && View() == Redirect(old(View()), slot, found, flags, answer)
    {
      RedirectKeeps(View(), slot, found, flags, answer, false);
      OpenOutcome(View(), found, flags, answer, false);
      var temp := Open(found, flags, answer);
      if temp >= 0 {
        ghost var t := View();
        fds[slot] := fds[temp];
        assert fds[..] == t.fds[slot := t.fds[temp]];
        ReleaseFd(temp);
      }
    }

    /** alt_io_redirect: standard output, input and error, in that order. */
    method IoRedirect(stdout: Dev, stdin: Dev, stderr: Dev, readOnly: Flags, writeOnly: Flags, answers: seq<int>)
      requires Valid() && |answers| == 3
      modifies this`maxFd, this`errno, fds
      ensures Valid()
      ensures View() == Redirect(Redirect(Redirect(old(View()), 1, stdout, writeOnly, answers[0]),
                                          0, stdin, readOnly, answers[1]), 2, stderr, writeOnly, answers[2])
    {
      OpenFd(1, stdout, writeOnly, answers[0]);
      OpenFd(0, stdin, readOnly, answers[1]);
      OpenFd(2, stderr, writeOnly, answers[2]);
    }
  }
}
