/**
 Per-process file descriptor tables: open, read and close over the file system image, and what
 every interleaving of them across descriptors and processes keeps.  A slot is free when its
 flag is FD_OCCUP, which is 0, and in use when it is FD_AVAIL, which is 1.
 */
module Descriptors {
  import opened Bytes
  import opened Limits
  import opened FileSystem
  import opened Directory

  const MAX_FILES := 8

  /** Which function table a descriptor holds. */
  datatype Fops = Stdin | Stdout | Rtc | Dir | File | Error

  datatype Fd = Fd(fops: Fops, inode: int, pos: int, used: bool)

  type Table = t: seq<Fd> | |t| == MAX_FILES witness seq(MAX_FILES, _ => Fd(Error, -1, 0, false))

  /** Every file of the image is readable and every file entry names an existing inode. */
  ghost predicate VolumeOk(img: seq<byte>) {
    && ImageOk(img)
    && (forall i :: 0 <= i < NumInodes(img) ==> FileOk(img, i))
    && (forall i :: 0 <= i < NumEntries(img) && Entry(img, i).kind == 2 ==> Entry(img, i).inode < NumInodes(img))
  }

  /** A file descriptor names a file and stands inside it, used or not. */
  ghost predicate FdOk(img: seq<byte>, fd: Fd)
    requires ImageOk(img)
  {
    fd.fops.File? ==> 0 <= fd.inode < NumInodes(img) && 0 <= fd.pos <= FileSize(img, fd.inode)
  }

  // ---------------------------------------------------------------- operations on a table

  function FreeSlotFrom(t: Table, i: int): (r: int)
    requires 2 <= i <= MAX_FILES
    ensures r == -1 <==> forall k :: i <= k < MAX_FILES ==> t[k].used
    ensures r != -1 ==> i <= r < MAX_FILES && !t[r].used && forall k :: i <= k < r ==> t[k].used
    decreases MAX_FILES - i
  {
    if i == MAX_FILES then -1 else if !t[i].used then i else FreeSlotFrom(t, i + 1)
  }

  /** The descriptor sys_open fills in; an unknown file type leaves the old table and inode. */
  function OpenedFd(old': Fd, dentry: Dentry): Fd {
    if dentry.kind == 0 then Fd(Rtc, 0, 0, true)
    else if dentry.kind == 1 then Fd(Dir, 0, 0, true)
    else if dentry.kind == 2 then Fd(File, dentry.inode, 0, true)
    else Fd(old'.fops, old'.inode, 0, true)
  }

  function Opened(img: seq<byte>, t: Table, name: seq<byte>): (r: (Table, int))
    requires DirectoryOk(img)
  {
    var found := LookupFrom(img, name, 0);
    var slot := FreeSlotFrom(t, 2);
    if found.NoEntry? || slot == -1 then (t, -1) else (t[slot := OpenedFd(t[slot], found.dentry)], slot)
  }

  /** What a file read of nbytes, as an unsigned number, should return. */
  ghost function ReadBytes(img: seq<byte>, fd: Fd, nbytes: int): (d: seq<byte>)
    requires VolumeOk(img)
    ensures fd.fops.File? && FdOk(img, fd) ==> |d| == Min(U32(nbytes), FileSize(img, fd.inode) - fd.pos)
  {
    if fd.fops.File? && FdOk(img, fd)
    then Contents(img, fd.inode)[fd.pos..fd.pos + Min(U32(nbytes), FileSize(img, fd.inode) - fd.pos)] else []
  }

  /** Inode and position of a file descriptor are 32-bit numbers. */
  ghost predicate FdWords(fd: Fd) {
    fd.fops.File? ==> 0 <= fd.inode < TWO32 && 0 <= fd.pos < TWO32
  }

  predicate IsInt32(n: int) {
    -0x8000_0000 <= n < 0x8000_0000
  }

  /** The result of a file read: that of read_data, with the count taken as unsigned. */
  ghost function FileResult(img: seq<byte>, fd: Fd, nbytes: int): int
    requires ImageOk(img) && fd.fops.File? && FdWords(fd)
  {
    ReadResult(img, fd.inode, fd.pos, U32(nbytes))
  }

  /** A negative count does not reach back to inside the file. */
  predicate CountOk(fd: Fd, nbytes: int) {
    IsInt32(nbytes) && (fd.fops.File? ==> nbytes >= 0 || fd.pos + nbytes < 0)
  }

  lemma ReadFits(img: seq<byte>, fd: Fd, nbytes: int, cap: int)
    requires VolumeOk(img) && FdOk(img, fd) && fd.fops.File? && CountOk(fd, nbytes)
    requires |ReadBytes(img, fd, nbytes)| <= cap
    ensures FileOk(img, fd.inode) && Room(img, fd.inode, fd.pos, U32(nbytes), cap)
  {
    assert FileOk(img, fd.inode);
    assert FileSize(img, fd.inode) <= MAX_FILE;
    hide VolumeOk, ReadBytes, FileOk, Room;
    if fd.pos < FileSize(img, fd.inode) {
      RoomEnough(img, fd.inode, fd.pos, U32(nbytes), cap);
    } else {
      NoRoomNeeded(img, fd.inode, fd.pos, U32(nbytes), cap);
    }
  }

  /** On a well-formed volume a file read returns the number of bytes it should. */
  lemma ReadOfVolume(img: seq<byte>, fd: Fd, nbytes: int)
    requires VolumeOk(img) && FdOk(img, fd) && fd.fops.File? && CountOk(fd, nbytes)
    ensures FileResult(img, fd, nbytes) == |ReadBytes(img, fd, nbytes)|
  {
    NegativeCountExact(img, fd, nbytes);
  }

  /** And it leaves just those bytes at the start of the buffer. */
  lemma DeliveredBytes(img: seq<byte>, fd: Fd, nbytes: int, buf: seq<byte>, was: seq<byte>)
    requires VolumeOk(img) && FdOk(img, fd) && fd.fops.File? && CountOk(fd, nbytes)
    requires Delivered(img, fd.inode, fd.pos, U32(nbytes), buf, was)
    ensures var d := ReadBytes(img, fd, nbytes); |d| <= |buf| == |was| && buf == d + was[|d|..]
  {
    assert FileOk(img, fd.inode);
    var size := FileSize(img, fd.inode);
    if fd.pos < size {
      ClampExact(fd.pos, U32(nbytes), size);
      CopiedIsSlice(img, fd.inode, fd.pos, |ReadBytes(img, fd, nbytes)|, buf, was);
      hide BlocksOk, Copied, StoppedAt, VolumeOk;
    }
  }

  /** A file read of a negative count is right exactly when the count reaches back beyond the file's start. */
  lemma NegativeCountExact(img: seq<byte>, fd: Fd, nbytes: int)
    requires VolumeOk(img) && FdOk(img, fd) && fd.fops.File? && IsInt32(nbytes)
    ensures FileResult(img, fd, nbytes) == |ReadBytes(img, fd, nbytes)|
            <==> (CountOk(fd, nbytes) || fd.pos == FileSize(img, fd.inode))
  {
    assert FileOk(img, fd.inode);
    if fd.pos < FileSize(img, fd.inode) {
      ReadResultExact(img, fd.inode, fd.pos, U32(nbytes));
    }
  }

  predicate Usable(t: Table, fd: int) {
    0 <= fd < MAX_FILES && t[fd].used
  }

  /** A read moves the position by what it returns, even when that is -1. */
  ghost function AfterRead(img: seq<byte>, t: Table, fd: int, nbytes: int): (r: Table)
    requires ImageOk(img)
  {
    if Usable(t, fd) && t[fd].fops.File? && FdWords(t[fd])
    then t[fd := t[fd].(pos := U32(t[fd].pos + FileResult(img, t[fd], nbytes)))] else t
  }

  function AfterClose(t: Table, fd: int): (r: (Table, int)) {
    if fd < 2 || !Usable(t, fd) then (t, -1)
    else (t[fd := t[fd].(used := false)], if t[fd].fops.Error? then -1 else 0)
  }

  /** The table execute gives a new process. */
  function InitialTable(): Table {
    [Fd(Stdin, -1, 0, true), Fd(Stdout, -1, 0, true)] + seq(MAX_FILES - 2, _ => Fd(Error, -1, 0, false))
  }

  // ---------------------------------------------------------------- syscalls.c, filesys.c

  class FileTable {
    const fds: array<Fd>

    ghost predicate Sized()
    {
      fds.Length == MAX_FILES
    }

    constructor ()
      ensures Sized() && fresh(fds)
    {
      fds := new Fd[MAX_FILES](_ => Fd(Error, -1, 0, false));
    }

    /** The descriptor loop of execute. */
    method InitFds()
      requires Sized()
      modifies fds
      ensures fds[..] == InitialTable()
    {
      var i := 0;
      while i < MAX_FILES
        invariant 0 <= i <= MAX_FILES
        invariant forall k :: 0 <= k < i ==> fds[k] == Fd(Error, -1, 0, false)
      {
        fds[i] := Fd(Error, -1, 0, false);
        i := i + 1;
      }
      fds[0] := fds[0].(fops := Stdin);
      fds[1] := fds[1].(fops := Stdout);
      fds[0] := fds[0].(used := true);
      fds[1] := fds[1].(used := true);
    }

    method SysOpen(img: seq<byte>, fname: seq<byte>) returns (r: int)
      requires Sized() && DirectoryOk(img) && 0 in fname
      modifies fds
      ensures (fds[..], r) == Opened(img, old(fds[..]), CStr(fname))
    {
      var found := ReadDentryByName(img, fname);
      if found.NoEntry? {
        return -1;
      }
      var index := 2;
      while index < MAX_FILES
        invariant 2 <= index < MAX_FILES && fds[..] == old(fds[..])
        invariant FreeSlotFrom(fds[..], 2) == FreeSlotFrom(fds[..], index)
      {
        if !fds[index].used {
          break;
        } else if index == MAX_FILES - 1 {
          return -1;
        }
        index := index + 1;
      }
      ghost var was := fds[..];
      assert FreeSlotFrom(was, 2) == index;
      fds[index] := fds[index].(used := true, pos := 0);
      match found.dentry.kind {
        case 0 => fds[index] := fds[index].(inode := 0, fops := Rtc);
        case 1 => fds[index] := fds[index].(inode := 0, fops := Dir);
        case 2 => fds[index] := fds[index].(inode := found.dentry.inode, fops := File);
        case _ =>
      }
      assert fds[..] == was[index := OpenedFd(was[index], found.dentry)];
      return index;
    }

    method FileRead(img: seq<byte>, fd: int, buf: array<byte>, nbytes: int) returns (r: int)
      requires Sized() && ImageOk(img) && IsInt32(nbytes)
      requires 0 <= fd < MAX_FILES && fds[fd].fops.File? && FdWords(fds[fd])
      requires Room(img, fds[fd].inode, fds[fd].pos, U32(nbytes), buf.Length)
      modifies fds, buf
      ensures r == FileResult(img, old(fds[fd]), nbytes)
      ensures Delivered(img, old(fds[fd].inode), old(fds[fd].pos), U32(nbytes), buf[..], old(buf[..]))
      ensures fds[..] == old(fds[..])[fd := old(fds[fd]).(pos := U32(old(fds[fd].pos) + r))]
    {
      var temp := ReadData(img, fds[fd].inode, fds[fd].pos, buf, U32(nbytes));
      fds[fd] := fds[fd].(pos := U32(fds[fd].pos + temp));
      return temp;
    }

    /** Reads of the terminal, the RTC and directories return whatever other says. */
    method SysRead(img: seq<byte>, fd: int, buf: array?<byte>, nbytes: int, other: int) returns (r: int)
      requires Sized() && ImageOk(img) && IsInt32(nbytes)
      requires buf != null && Usable(fds[..], fd) && fds[fd].fops.File? ==>
                 FdWords(fds[fd]) && Room(img, fds[fd].inode, fds[fd].pos, U32(nbytes), buf.Length)
      modifies fds, if buf == null then {} else {buf}
      ensures fds[..] == if buf == null then old(fds[..]) else AfterRead(img, old(fds[..]), fd, nbytes)
      ensures !Usable(old(fds[..]), fd) || buf == null || old(fds[fd]).fops in {Stdout, Error} ==> r == -1
      ensures Usable(old(fds[..]), fd) && buf != null && old(fds[fd]).fops.File? ==>
                && r == FileResult(img, old(fds[fd]), nbytes)
                && Delivered(img, old(fds[fd].inode), old(fds[fd].pos), U32(nbytes), buf[..], old(buf[..]))
    {
      if fd < 0 || fd > MAX_FILES - 1 || buf == null {
        return -1;
      }
      if !fds[fd].used {
        return -1;
      }
      match fds[fd].fops {
        case File => r := FileRead(img, fd, buf, nbytes);
        case Stdout => r := -1;
        case Error => r := -1;
        case _ => r := other;
      }
    }

    method SysClose(fd: int) returns (r: int)
      requires Sized()
      modifies fds
      ensures (fds[..], r) == AfterClose(old(fds[..]), fd)
    {
      if fd < 2 || fd > MAX_FILES - 1 {
        return -1;
      }
      if !fds[fd].used {
        return -1;
      }
      fds[fd] := fds[fd].(used := false);
      return if fds[fd].fops.Error? then -1 else 0;
    }

    /** The descriptor loop of halt. */
    method CloseAll()
      requires Sized()
      modifies fds
      ensures forall i :: 0 <= i < MAX_FILES ==> fds[i] == old(fds[i]).(fops := Error, used := false)
    {
      var i := 0;
      while i < MAX_FILES
        invariant 0 <= i <= MAX_FILES
        invariant forall k :: 0 <= k < MAX_FILES ==>
                    fds[k] == if k < i then old(fds[k]).(fops := Error, used := false) else old(fds[k])
      {
        if fds[i].used {
          var _ := SysClose(i);
        }
        fds[i] := fds[i].(fops := Error);
        fds[i] := fds[i].(used := false);
        i := i + 1;
      }
    }
  }

  // ---------------------------------------------------------------- runs

  /** The tables of all processes, with everything read through each descriptor since its open. */
  datatype State = State(tables: seq<Table>, logs: seq<seq<seq<byte>>>, running: seq<bool>)

  datatype Event =
    | Start(p: int)
    | Stop(p: int)
    | Open(p: int, name: seq<byte>)
    | Read(p: int, fd: int, nbytes: int)
    | Close(p: int, fd: int)

  ghost predicate Shape(s: State) {
    && |s.tables| == NUM_PROCS && |s.logs| == NUM_PROCS && |s.running| == NUM_PROCS
    && forall p :: 0 <= p < NUM_PROCS ==> |s.logs[p]| == MAX_FILES
  }

  /** Only running processes make calls, and no negative count reaches back to inside its file. */
  ghost predicate Allowed(s: State, e: Event)
    requires Shape(s)
  {
    && 0 <= e.p < NUM_PROCS && (!e.Start? ==> s.running[e.p])
    && (e.Read? ==> IsInt32(e.nbytes) && (Usable(s.tables[e.p], e.fd) ==> CountOk(s.tables[e.p][e.fd], e.nbytes)))
  }

  /** What one descriptor has delivered is the prefix of its file up to its position. */
  ghost predicate LogOk(img: seq<byte>, fd: Fd, log: seq<byte>)
    requires VolumeOk(img)
  {
    FdOk(img, fd) && (fd.used && fd.fops.File? ==> log == Contents(img, fd.inode)[..fd.pos])
  }

  /** Of a process that is not running nothing is known: its table may never have been set up. */
  ghost predicate ProcessOk(img: seq<byte>, t: Table, logs: seq<seq<byte>>)
    requires VolumeOk(img)
  {
    && |logs| == MAX_FILES && (forall i :: 0 <= i < MAX_FILES ==> LogOk(img, t[i], logs[i]))
    && t[0] == InitialTable()[0] && t[1] == InitialTable()[1]
  }

  ghost predicate Inv(img: seq<byte>, s: State)
    requires VolumeOk(img)
  {
    Shape(s) && forall p :: 0 <= p < NUM_PROCS && s.running[p] ==> ProcessOk(img, s.tables[p], s.logs[p])
  }

  /** Before the first process, whatever the memory of the tables holds. */
  function Booted(tables: seq<Table>): (s: State)
    requires |tables| == NUM_PROCS
    ensures Shape(s)
  {
    State(tables, seq(NUM_PROCS, _ => seq(MAX_FILES, _ => [])), seq(NUM_PROCS, _ => false))
  }

  function Stopped(t: Table): Table {
    seq(MAX_FILES, i requires 0 <= i < MAX_FILES => t[i].(fops := Error, used := false))
  }

  ghost function Step(img: seq<byte>, s: State, e: Event): (r: State)
    requires VolumeOk(img) && Shape(s) && Allowed(s, e)
    ensures Shape(r)
  {
    var t := s.tables[e.p];
    match e
    case Start(p) => State(s.tables[p := InitialTable()], s.logs, s.running[p := true])
    case Stop(p) => State(s.tables[p := Stopped(t)], s.logs, s.running[p := false])
    case Open(p, name) =>
      var (t', slot) := Opened(img, t, name);
      State(s.tables[p := t'], if slot == -1 then s.logs else s.logs[p := s.logs[p][slot := []]], s.running)
    case Read(p, fd, nbytes) =>
      if Usable(t, fd) && t[fd].fops.File? then
        State(s.tables[p := AfterRead(img, t, fd, nbytes)],
              s.logs[p := s.logs[p][fd := s.logs[p][fd] + ReadBytes(img, t[fd], nbytes)]], s.running)
      else s
    case Close(p, fd) => s.(tables := s.tables[p := AfterClose(t, fd).0])
  }

  lemma ReadKeepsProcess(img: seq<byte>, t: Table, logs: seq<seq<byte>>, fd: int, nbytes: int)
    requires VolumeOk(img) && ProcessOk(img, t, logs) && Usable(t, fd) && t[fd].fops.File? && CountOk(t[fd], nbytes)
    ensures ProcessOk(img, AfterRead(img, t, fd, nbytes), logs[fd := logs[fd] + ReadBytes(img, t[fd], nbytes)])
  {
    assert LogOk(img, t[fd], logs[fd]) && FileOk(img, t[fd].inode);
    var d := ReadBytes(img, t[fd], nbytes);
    ReadOfVolume(img, t[fd], nbytes);
    ReadExtends(img, t[fd], logs[fd], nbytes);
    assert AfterRead(img, t, fd, nbytes)[fd] == t[fd].(pos := t[fd].pos + |d|);
    hide LogOk, VolumeOk, ReadBytes;
  }

  lemma OpenKeepsProcess(img: seq<byte>, t: Table, logs: seq<seq<byte>>, name: seq<byte>)
    requires VolumeOk(img) && ProcessOk(img, t, logs)
    ensures var (t', slot) := Opened(img, t, name); ProcessOk(img, t', if slot == -1 then logs else logs[slot := []])
  {
    LookupIsExact(img, name);
  }

  lemma StepKeepsInv(img: seq<byte>, s: State, e: Event)
    requires VolumeOk(img) && Inv(img, s) && Allowed(s, e)
    ensures Inv(img, Step(img, s, e))
  {
    var t, logs := s.tables[e.p], s.logs[e.p];
    match e {
      case Start(p) => assert ProcessOk(img, InitialTable(), logs);
      case Stop(p) =>
      case Open(p, name) => OpenKeepsProcess(img, t, logs, name);
      case Read(p, fd, nbytes) =>
        if Usable(t, fd) && t[fd].fops.File? {
          ReadKeepsProcess(img, t, logs, fd, nbytes);
        }
      case Close(p, fd) => assert ProcessOk(img, AfterClose(t, fd).0, logs);
    }
    hide ProcessOk, VolumeOk, AfterRead, AfterClose, ReadBytes, Opened, Stopped, InitialTable;
  }

  /** Appending what a read returns keeps the log a prefix of the file. */
  lemma ReadExtends(img: seq<byte>, fd: Fd, log: seq<byte>, nbytes: int)
    requires VolumeOk(img) && LogOk(img, fd, log) && fd.used && fd.fops.File?
    ensures var d := ReadBytes(img, fd, nbytes); LogOk(img, fd.(pos := fd.pos + |d|), log + d)
  {
    assert FileOk(img, fd.inode);
  }

  ghost predicate LegalRun(img: seq<byte>, s: State, es: seq<Event>)
    requires VolumeOk(img) && Shape(s)
    decreases |es|
  {
    es == [] || (Allowed(s, es[0]) && LegalRun(img, Step(img, s, es[0]), es[1..]))
  }

  ghost function Run(img: seq<byte>, s: State, es: seq<Event>): (r: State)
    requires VolumeOk(img) && Shape(s) && LegalRun(img, s, es)
    ensures Shape(r)
    decreases |es|
  {
    if es == [] then s else Run(img, Step(img, s, es[0]), es[1..])
  }

  /**
   Over every interleaving of opens, reads and closes, in all processes: what was read through an
   open file descriptor since it was opened is the file up to its position, which is inside the
   file; and descriptors 0 and 1 stay as execute set them until the process stops.
   */
  lemma {:induction false} ReadsDoNotInterfere(img: seq<byte>, s: State, es: seq<Event>)
    requires VolumeOk(img) && Inv(img, s) && LegalRun(img, s, es)
    ensures Inv(img, Run(img, s, es))
    decreases |es|
  {
    if es != [] {
      StepKeepsInv(img, s, es[0]);
      ReadsDoNotInterfere(img, Step(img, s, es[0]), es[1..]);
    }
  }

  /** The descriptor tables of the PCBs. */
  ghost predicate Separate(ts: seq<FileTable>) {
    && |ts| == NUM_PROCS && (forall p :: 0 <= p < NUM_PROCS ==> ts[p].Sized())
    && forall p, q :: 0 <= p < q < NUM_PROCS ==> ts[p].fds != ts[q].fds
  }

  ghost function TablesOf(ts: seq<FileTable>): (r: seq<Table>)
    requires Separate(ts)
    reads set p | 0 <= p < |ts| :: ts[p].fds
    ensures |r| == NUM_PROCS
  {
    seq(NUM_PROCS, p requires 0 <= p < |ts| && ts[p].Sized() reads if 0 <= p < |ts| then {ts[p].fds} else {} =>
      ts[p].fds[..])
  }

  /** The program's string and buffer for a call: C conventions, and no file is bigger than MAX_FILE. */
  ghost predicate Supplied(e: Event, cname: seq<byte>, buf: array<byte>) {
    && (e.Open? ==> 0 in cname && e.name == CStr(cname))
    && (e.Read? ==> Min(U32(e.nbytes), MAX_FILE) <= buf.Length)
  }

  /** The stop of a process sets every slot as CloseAll does. */
  lemma StoppedIs(t: Table, t': Table)
    requires forall i :: 0 <= i < MAX_FILES ==> t'[i] == t[i].(fops := Error, used := false)
    ensures t' == Stopped(t)
  {
  }

  /** The read of an event, for the table of its process; what it delivers is added to its log. */
  method PerformRead(img: seq<byte>, table: FileTable, fd: int, nbytes: int, buf: array<byte>, logs: seq<seq<byte>>,
                     other: int)
    returns (logs': seq<seq<byte>>)
    requires VolumeOk(img) && table.Sized() && IsInt32(nbytes) && ProcessOk(img, table.fds[..], logs)
    requires Usable(table.fds[..], fd) ==> CountOk(table.fds[fd], nbytes)
    requires Min(U32(nbytes), MAX_FILE) <= buf.Length
    modifies table.fds, buf
    ensures table.fds[..] == AfterRead(img, old(table.fds[..]), fd, nbytes)
    ensures logs' == if Usable(old(table.fds[..]), fd) && old(table.fds[fd]).fops.File?
                     then logs[fd := logs[fd] + ReadBytes(img, old(table.fds[fd]), nbytes)] else logs
  {
    var isFile := 0 <= fd < MAX_FILES && table.fds[fd].used && table.fds[fd].fops.File?;
    ghost var was, was' := if isFile then table.fds[fd] else Fd(Error, -1, 0, false), buf[..];
    if isFile {
      assert LogOk(img, was, logs[fd]) && FileOk(img, was.inode);
      ReadFits(img, was, nbytes, buf.Length);
    }
    hide ProcessOk, VolumeOk, LogOk, Delivered, Room, ReadBytes, FileResult;
    var r := table.SysRead(img, fd, buf, nbytes, other);
    logs' := logs;
    if isFile {
      ReadOfVolume(img, was, nbytes);
      DeliveredBytes(img, was, nbytes, buf[..], was');
      logs' := logs[fd := logs[fd] + buf[..r]];
    }
  }

  /** One call of a process on the real tables. */
  method Perform(img: seq<byte>, ts: seq<FileTable>, logs: seq<seq<seq<byte>>>, e: Event, cname: seq<byte>,
                 buf: array<byte>, other: int, ghost running: seq<bool>)
    returns (logs': seq<seq<seq<byte>>>)
    requires VolumeOk(img) && Separate(ts) && |running| == |logs| == NUM_PROCS
    requires Inv(img, State(TablesOf(ts), logs, running)) && Allowed(State(TablesOf(ts), logs, running), e)
    requires Supplied(e, cname, buf)
    modifies set p | 0 <= p < |ts| :: ts[p].fds
    modifies buf
    ensures var was := State(old(TablesOf(ts)), logs, running);
            State(TablesOf(ts), logs', Step(img, was, e).running) == Step(img, was, e)
  {
    var table := ts[e.p];
    ghost var was := TablesOf(ts);
    assert was[e.p] == table.fds[..];
    logs' := logs;
    match e {
      case Start(p) => table.InitFds();
      case Stop(p) =>
        table.CloseAll();
        StoppedIs(was[p], table.fds[..]);
      case Open(p, name) =>
        var slot := table.SysOpen(img, cname);
        if slot != -1 {
          logs' := logs[p := logs[p][slot := []]];
        }
      case Read(p, fd, nbytes) =>
        var log := PerformRead(img, table, fd, nbytes, buf, logs[p], other);
        logs' := logs[p := log];
      case Close(p, fd) => var _ := table.SysClose(fd);
    }
    assert TablesOf(ts) == was[e.p := table.fds[..]];
  }

  /**
   From boot on, every allowed run of descriptor calls on the six real tables is the run on values:
   what it delivered through each open file descriptor is the file up to the descriptor's position.
   */
  method PerformAll(img: seq<byte>, ts: seq<FileTable>, es: seq<Event>, cnames: seq<seq<byte>>,
                    bufs: seq<array<byte>>, others: seq<int>)
    returns (logs: seq<seq<seq<byte>>>)
    requires VolumeOk(img) && Separate(ts) && |es| == |cnames| == |bufs| == |others|
    requires LegalRun(img, Booted(TablesOf(ts)), es)
    requires forall i :: 0 <= i < |es| ==> Supplied(es[i], cnames[i], bufs[i])
    modifies set p | 0 <= p < |ts| :: ts[p].fds
    modifies set i | 0 <= i < |bufs| :: bufs[i]
    ensures var r := Run(img, Booted(old(TablesOf(ts))), es); TablesOf(ts) == r.tables && logs == r.logs && Inv(img, r)
  {
    ghost var first := Booted(TablesOf(ts));
    ghost var s := first;
    logs := seq(NUM_PROCS, _ => seq(MAX_FILES, _ => []));
    var i := 0;
    while i < |es|
      invariant 0 <= i <= |es| && Inv(img, s) && s.tables == TablesOf(ts) && s.logs == logs
      invariant LegalRun(img, s, es[i..]) && Run(img, s, es[i..]) == Run(img, first, es)
    {
      assert es[i..][0] == es[i] && es[i..][1..] == es[i + 1..];
      ghost var s' := Step(img, s, es[i]);
      StepKeepsInv(img, s, es[i]);
      logs := Perform(img, ts, logs, es[i], cnames[i], bufs[i], others[i], s.running);
      s := s';
      i := i + 1;
    }
  }

  /** open fails exactly when the name is missing or slots 2 to 7 are all taken. */
  lemma OpenFailsExactly(img: seq<byte>, t: Table, name: seq<byte>)
    requires DirectoryOk(img)
    ensures Opened(img, t, name).1 == -1 <==>
            || (forall i :: 0 <= i < NumEntries(img) ==> Entry(img, i).name != name)
            || (forall k :: 2 <= k < MAX_FILES ==> t[k].used)
    ensures var (t', slot) := Opened(img, t, name);
            slot != -1 ==> 2 <= slot < MAX_FILES && !t[slot].used && t'[slot].used && t'[slot].pos == 0
                           && (forall k :: 2 <= k < slot ==> t[k].used)
                           && (forall k :: 0 <= k < MAX_FILES && k != slot ==> t'[k] == t[k])
  {
    LookupIsExact(img, name);
  }
}
