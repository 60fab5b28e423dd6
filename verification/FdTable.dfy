/** The file descriptor table and exclusive device locks, as functions from table to table.
    What device drivers answer (their open, close and ioctl callbacks) is a parameter. */
module FdTable {
  import opened ErrorCodes

  const MAX_FD := 32

  /** A descriptor's flag word, bit by bit; `rest` is the value of all other bits. */
  datatype Flags = Flags(excl: bool, dev: bool, nonblock: bool, append: bool, rest: nat)

  const NO_FLAGS := Flags(false, false, false, false, 0)

  function Word(f: Flags): nat {
    (if f.excl then 0x8000_0000 else 0) + (if f.dev then 0x4000_0000 else 0)
    + (if f.nonblock then 0x4000 else 0) + (if f.append then 0x8 else 0) + f.rest
  }

  /** Without the two bits that are internal to the table. */
  function Masked(f: Flags): Flags {
    f.(excl := false, dev := false)
  }

  /** What a descriptor refers to; a null device pointer marks a free slot. */
  datatype Dev = Null | Device(id: nat) | FileSystem(id: nat)

  const DEV_NULL := Device(0)

  datatype Fd = Fd(dev: Dev, priv: int, flags: Flags)

  /** The pool of descriptors and the high-water mark. */
  datatype Pool = Pool(fds: seq<Fd>, maxFd: int)

  type Index = i: int | 0 <= i < MAX_FD

  type Table = p: Pool | |p.fds| == MAX_FD && -1 <= p.maxFd < MAX_FD witness Pool(seq(MAX_FD, _ => FREE), -1)

  /** A call's return value and the errno it sets, if any. */
  datatype Reply = Reply(rc: int, errno: int)

  const OK := Reply(0, 0)

  function Failed(status: int): Reply { Reply(-1, -status) }

  predicate Excl(fd: Fd) { fd.flags.excl }

  predicate IsDev(fd: Fd) { fd.flags.dev }

  const FREE := Fd(Null, 0, NO_FLAGS)

  function Init(): Table {
    Pool(seq(MAX_FD, i => if i < 3 then Fd(DEV_NULL, 0, NO_FLAGS) else FREE), -1)
  }

  // ---- Allocation and release ----

  /** Lowest free slot from `from` on, or MAX_FD. */
  function FirstFree(fds: seq<Fd>, from: nat): (i: nat)
    requires from <= |fds|
    ensures from <= i <= |fds|
    ensures i < |fds| ==> fds[i].dev == Null
    ensures forall j | from <= j < i :: fds[j].dev != Null
    decreases |fds| - from
  {
    if from == |fds| || fds[from].dev == Null then from else FirstFree(fds, from + 1)
  }

  function GetFd(t: Table, dev: Dev): (Table, int)
  {
    var i := FirstFree(t.fds, 0);
    if i == MAX_FD then (t, -EMFILE)
    else (Pool(t.fds[i := t.fds[i].(dev := dev)], if i > t.maxFd then i else t.maxFd), i)
  }

  function Release(t: Table, fd: int): Table
    requires fd < MAX_FD
  {
    if fd > 2 then t.(fds := t.fds[fd := t.fds[fd].(flags := NO_FLAGS, dev := Null)]) else t
  }

  // ---- The calls ----

  /** Another descriptor up to the mark holds the device of `fd`. */
  predicate HeldByOther(t: Table, fd: Index)
  {
    exists i | 0 <= i <= t.maxFd :: t.fds[i].dev == t.fds[fd].dev && Excl(t.fds[i]) && i != fd
  }

  /** open(): `found` is what the name lookup yields, `answer` what the driver's open returns. */
  function Open(t: Table, found: Dev, flags: Flags, answer: int): (Table, Reply)
  {
    if found == Null then (t, Failed(-ENODEV))
    else
      var (t1, index) := GetFd(t, found);
      if index < 0 then (t1, Failed(index))
      else
        var t2 := t1.(fds := t1.fds[index := t1.fds[index].(
          flags := Masked(flags).(dev := found.Device?))]);
        var status := if found.Device? && HeldByOther(t2, index) then -EACCES else answer;
        if status < 0 then (Release(t2, index), Failed(status)) else (t2, Reply(index, 0))
  }

  /** Some other descriptor below `bound` refers to the device of `fd`. */
  predicate Shared(t: Table, fd: Index, bound: int)
    requires bound <= MAX_FD
  {
    exists i | 0 <= i < bound :: i != fd && t.fds[i].dev == t.fds[fd].dev
  }

  /** alt_fd_lock(), whose scan stops short of the mark; with `inclusive` it would not. */
  function Lock(t: Table, fd: Index, inclusive: bool): (Table, int)
  {
    if Shared(t, fd, if inclusive then t.maxFd + 1 else t.maxFd) then (t, -EACCES)
    else (t.(fds := t.fds[fd := t.fds[fd].(flags := t.fds[fd].flags.(excl := true))]), 0)
  }

  function Unlock(t: Table, fd: Index): Table
  {
    t.(fds := t.fds[fd := t.fds[fd].(flags := t.fds[fd].flags.(excl := false))])
  }

  datatype Request = TIOCEXCL | TIOCNXCL | Other

  /** ioctl(): devices have the two lock requests handled here; `answer` is the driver's, or
      ENOTTY where it has no ioctl function. */
  function Ioctl(t: Table, file: int, req: Request, answer: int, inclusive: bool): (Table, Reply)
    requires file < MAX_FD
  {
    if file < 0 then (t, Reply(-EBADFD, EBADFD))
    else
      var (t', rc) :=
        if IsDev(t.fds[file]) && req == TIOCEXCL then Lock(t, file, inclusive)
        else if IsDev(t.fds[file]) && req == TIOCNXCL then (Unlock(t, file), 0)
        else (t, answer);
      (t', Reply(rc, if rc < 0 then -rc else 0))
  }

  function Close(t: Table, file: int, answer: int): (Table, Reply)
    requires file < MAX_FD
  {
    if file < 0 then (t, Failed(-EBADFD))
    else (Release(t, file), if answer < 0 then Failed(answer) else OK)
  }

  datatype Command = GetFl | SetFl(arg: Flags) | Unknown

  function Fcntl(t: Table, file: int, cmd: Command): (Table, Reply)
    requires file < MAX_FD
  {
    if file < 0 then (t, Failed(-EBADFD))
    else
      var fd := t.fds[file];
      match cmd
      case GetFl => (t, Reply(Word(Masked(fd.flags)), 0))
      case SetFl(arg) =>
        (t.(fds := t.fds[file := fd.(flags := fd.flags.(nonblock := arg.nonblock, append := arg.append))]), OK)
      case Unknown => (t, Failed(-EINVAL))
  }

  /** alt_open_fd(): opens a name and moves the new descriptor into a standard slot. */
  function Redirect(t: Table, slot: Index, found: Dev, flags: Flags, answer: int): Table
  {
    var (t1, reply) := Open(t, found, flags, answer);
    if reply.rc >= 0 then Release(t1.(fds := t1.fds[slot := t1.fds[reply.rc]]), reply.rc) else t1
  }

  // ---- Histories ----

  datatype Op =
    | DoOpen(found: Dev, flags: Flags, answer: int)
    | DoClose(file: int, answer: int)
    | DoIoctl(file: int, req: Request, answer: int)
    | DoFcntl(file: int, cmd: Command)
    | DoRedirect(slot: int, found: Dev, flags: Flags, answer: int)

  /** What the calls ask of their callers: a negative file, or an open one of the pool. */
  predicate Callable(t: Table, op: Op)
  {
    match op
    case DoOpen(_, _, _) => true
    case DoRedirect(slot, _, _, _) => 0 <= slot <= 2
    case DoClose(file, _) => file < 0 || (file < MAX_FD && t.fds[file].dev != Null)
    case DoIoctl(file, _, _) => file < 0 || (file < MAX_FD && t.fds[file].dev != Null)
    case DoFcntl(file, _) => file < 0 || (file < MAX_FD && t.fds[file].dev != Null)
  }

  function Step(t: Table, op: Op, inclusive: bool): Table
    requires Callable(t, op)
  {
    match op
    case DoOpen(found, flags, answer) => Open(t, found, flags, answer).0
    case DoClose(file, answer) => Close(t, file, answer).0
    case DoIoctl(file, req, answer) => Ioctl(t, file, req, answer, inclusive).0
    case DoFcntl(file, cmd) => Fcntl(t, file, cmd).0
    case DoRedirect(slot, found, flags, answer) => Redirect(t, slot, found, flags, answer)
  }
}
