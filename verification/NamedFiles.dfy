/**
 From a name to the bytes read: what open puts into a descriptor, which file every descriptor of a
 run delivers, and what that means for an image built from given files.
 */
module NamedFiles {
  import opened Bytes
  import opened Limits
  import opened FileSystem
  import opened Directory
  import opened Descriptors
  import Images

  // ---------------------------------------------------------------- one call

  /** Entry i is the one that a name denotes. */
  ghost predicate Denotes(img: seq<byte>, name: seq<byte>, i: int)
    requires DirectoryOk(img)
  {
    0 <= i < NumEntries(img) && Entry(img, i).name == name && forall k :: 0 <= k < i ==> Entry(img, k).name != name
  }

  /** An opened descriptor is of its entry's type, a file's with the entry's inode; an unknown type keeps the old. */
  lemma OpenedByKind(img: seq<byte>, t: Table, name: seq<byte>, i: int)
    requires DirectoryOk(img) && Denotes(img, name, i) && exists k :: 2 <= k < MAX_FILES && !t[k].used
    ensures var (t', slot) := Opened(img, t, name); var d := Entry(img, i);
            && 2 <= slot < MAX_FILES && t'[slot].used && t'[slot].pos == 0
            && (d.kind == 0 ==> t'[slot].fops == Rtc)
            && (d.kind == 1 ==> t'[slot].fops == Dir)
            && (d.kind == 2 ==> t'[slot].fops == File && t'[slot].inode == d.inode)
            && (d.kind > 2 ==> t'[slot].fops == t[slot].fops && t'[slot].inode == t[slot].inode)
  {
    hide Entry;
    LookupIsExact(img, name);
    var r := LookupFrom(img, name, 0);
    assert r.At? && r.index == i;
    OpenFailsExactly(img, t, name);
    assert Entry(img, i).kind >= 0 by { KindIsWord(img, i); }
  }

  lemma KindIsWord(img: seq<byte>, i: int)
    requires DirectoryOk(img) && 0 <= i < NumEntries(img)
    ensures Entry(img, i).kind >= 0
  {
  }

  /**
   close succeeds exactly on a used descriptor from 2 to 7 that has operations; it then only frees
   that one, which can no longer be read and is free for the next open.
   */
  lemma CloseFrees(t: Table, fd: int)
    ensures var (t', r) := AfterClose(t, fd);
            && (r == 0 <==> 2 <= fd < MAX_FILES && t[fd].used && !t[fd].fops.Error?)
            && !(2 <= fd && Usable(t', fd)) && (r == -1 || r == 0)
            && (2 <= fd < MAX_FILES ==> FreeSlotFrom(t', 2) != -1 && FreeSlotFrom(t', 2) <= fd)
            && forall k :: 0 <= k < MAX_FILES && k != fd ==> t'[k] == t[k]
  {
  }

  /** Closing what was just opened makes exactly the same descriptors usable as before. */
  lemma CloseUndoesOpen(img: seq<byte>, t: Table, name: seq<byte>)
    requires DirectoryOk(img) && Opened(img, t, name).1 != -1
    ensures var (t', slot) := Opened(img, t, name);
            forall k :: Usable(AfterClose(t', slot).0, k) <==> Usable(t, k)
  {
    OpenFailsExactly(img, t, name);
  }

  /** A new process reads from descriptor 0, cannot read 1, and its first open gets 2. */
  lemma NewProcess(img: seq<byte>, name: seq<byte>, i: int)
    requires DirectoryOk(img) && Denotes(img, name, i)
    ensures var t := InitialTable();
            && (forall k :: Usable(t, k) <==> k == 0 || k == 1) && t[0].fops == Stdin && t[1].fops == Stdout
            && Opened(img, t, name).1 == 2
  {
    var t := InitialTable();
    assert !t[2].used;
    OpenedByKind(img, t, name, i);
  }

  /** A stopped process has no usable descriptor and no operations. */
  lemma StoppedHasNone(t: Table)
    ensures forall k :: 0 <= k < MAX_FILES ==> !Usable(Stopped(t), k) && Stopped(t)[k].fops == Error
  {
  }

  // ---------------------------------------------------------------- names over runs

  /** The name each descriptor was last opened with. */
  type Names = seq<seq<seq<byte>>>

  ghost predicate NamesShape(names: Names) {
    |names| == NUM_PROCS && forall p :: 0 <= p < NUM_PROCS ==> |names[p]| == MAX_FILES
  }

  ghost function StepNames(img: seq<byte>, s: State, names: Names, e: Event): (r: Names)
    requires VolumeOk(img) && Shape(s) && Allowed(s, e) && NamesShape(names)
    ensures NamesShape(r)
  {
    if e.Open? && Opened(img, s.tables[e.p], e.name).1 != -1
    then names[e.p := names[e.p][Opened(img, s.tables[e.p], e.name).1 := e.name]] else names
  }

  ghost function RunNames(img: seq<byte>, s: State, names: Names, es: seq<Event>): (r: Names)
    requires VolumeOk(img) && Shape(s) && LegalRun(img, s, es) && NamesShape(names)
    ensures NamesShape(r)
    decreases |es|
  {
    if es == [] then names else RunNames(img, Step(img, s, es[0]), StepNames(img, s, names, es[0]), es[1..])
  }

  /** The name denotes a file entry with this inode. */
  ghost predicate FileNamed(img: seq<byte>, name: seq<byte>, inode: int)
    requires DirectoryOk(img)
  {
    var r := LookupFrom(img, name, 0);
    r.At? && r.dentry.kind == 2 && r.dentry.inode == inode
  }

  ghost predicate FindsFile(img: seq<byte>)
    requires DirectoryOk(img)
  {
    exists name :: IsFileName(img, name)
  }

  /** Some name denotes an entry whose type is none of the three. */
  ghost predicate FindsUnknown(img: seq<byte>)
    requires DirectoryOk(img)
  {
    exists name :: IsUnknownName(img, name)
  }

  ghost predicate IsFileName(img: seq<byte>, name: seq<byte>)
    requires DirectoryOk(img)
  {
    LookupFrom(img, name, 0).At? && LookupFrom(img, name, 0).dentry.kind == 2
  }

  ghost predicate IsUnknownName(img: seq<byte>, name: seq<byte>)
    requires DirectoryOk(img)
  {
    LookupFrom(img, name, 0).At? && LookupFrom(img, name, 0).dentry.kind > 2
  }

  /** A file descriptor has the inode its name denotes; with unknown types about there is no file descriptor. */
  ghost predicate FdNamed(img: seq<byte>, fd: Fd, name: seq<byte>)
    requires DirectoryOk(img)
  {
    && (fd.used && fd.fops.File? ==> FileNamed(img, name, fd.inode))
    && (FindsUnknown(img) ==> !fd.fops.File?)
  }

  ghost predicate TableNamed(img: seq<byte>, t: Table, names: seq<seq<byte>>)
    requires DirectoryOk(img)
  {
    |names| == MAX_FILES && forall k :: 0 <= k < MAX_FILES ==> FdNamed(img, t[k], names[k])
  }

  ghost predicate AllNamed(img: seq<byte>, s: State, names: Names)
    requires DirectoryOk(img)
  {
    Shape(s) && NamesShape(names)
    && forall p :: 0 <= p < NUM_PROCS && s.running[p] ==> TableNamed(img, s.tables[p], names[p])
  }

  lemma OpenIsNamed(img: seq<byte>, t: Table, names: seq<seq<byte>>, name: seq<byte>)
    requires DirectoryOk(img) && TableNamed(img, t, names) && !(FindsFile(img) && FindsUnknown(img))
    requires Opened(img, t, name).1 != -1
    ensures var (t', slot) := Opened(img, t, name); 0 <= slot < MAX_FILES && TableNamed(img, t', names[slot := name])
  {
    LookupIsExact(img, name);
    var r := LookupFrom(img, name, 0);
    KindFits(img, r.index);
    var slot := FreeSlotFrom(t, 2);
    assert FdNamed(img, t[slot], names[slot]);
    assert IsFileName(img, name) || IsUnknownName(img, name) || r.dentry.kind < 2;
    hide LookupFrom, Entry;
  }

  lemma KindFits(img: seq<byte>, i: int)
    requires DirectoryOk(img) && 0 <= i < NumEntries(img)
    ensures 0 <= Entry(img, i).kind < TWO32
  {
  }

  lemma StepKeepsNamed(img: seq<byte>, s: State, names: Names, e: Event)
    requires VolumeOk(img) && AllNamed(img, s, names) && Allowed(s, e) && !(FindsFile(img) && FindsUnknown(img))
    ensures AllNamed(img, Step(img, s, e), StepNames(img, s, names, e))
  {
    var t := s.tables[e.p];
    hide VolumeOk, FindsFile, FindsUnknown, FileNamed, FileResult, ReadBytes;
    match e {
      case Start(p) => assert TableNamed(img, InitialTable(), names[p]);
      case Stop(p) =>
      case Open(p, name) =>
        if Opened(img, t, name).1 != -1 {
          OpenIsNamed(img, t, names[p], name);
        }
      case Read(p, fd, nbytes) => assert TableNamed(img, AfterRead(img, t, fd, nbytes), names[p]);
      case Close(p, fd) => assert TableNamed(img, AfterClose(t, fd).0, names[p]);
    }
    hide TableNamed, Opened, AfterRead, AfterClose, Stopped, InitialTable;
  }

  lemma {:induction false} RunKeepsNamed(img: seq<byte>, s: State, names: Names, es: seq<Event>)
    requires VolumeOk(img) && AllNamed(img, s, names) && LegalRun(img, s, es)
    requires !(FindsFile(img) && FindsUnknown(img))
    ensures AllNamed(img, Run(img, s, es), RunNames(img, s, names, es))
    decreases |es|
  {
    if es != [] {
      StepKeepsNamed(img, s, names, es[0]);
      hide VolumeOk, AllNamed, Step, Allowed, FindsFile, FindsUnknown;
      RunKeepsNamed(img, Step(img, s, es[0]), StepNames(img, s, names, es[0]), es[1..]);
    }
  }

  function NoNames(): (names: Names)
    ensures NamesShape(names)
  {
    seq(NUM_PROCS, _ => seq(MAX_FILES, _ => []))
  }

  /** Every open file descriptor has delivered the start of the file that the name it was opened with denotes. */
  ghost predicate DeliversNamed(img: seq<byte>, s: State, names: Names)
    requires VolumeOk(img) && Shape(s) && NamesShape(names)
  {
    forall p, k :: 0 <= p < NUM_PROCS && 0 <= k < MAX_FILES && s.running[p] && s.tables[p][k].used
                   && s.tables[p][k].fops.File? ==>
      Delivers(img, names[p][k], s.tables[p][k].pos, s.logs[p][k])
  }

  /** log is the first pos bytes of the file the name denotes. */
  ghost predicate Delivers(img: seq<byte>, name: seq<byte>, pos: int, log: seq<byte>)
    requires VolumeOk(img)
  {
    var r := LookupFrom(img, name, 0);
    && r.At? && r.dentry.kind == 2 && 0 <= r.dentry.inode < NumInodes(img)
    && FileOk(img, r.dentry.inode) && 0 <= pos <= FileSize(img, r.dentry.inode)
    && log == Contents(img, r.dentry.inode)[..pos]
  }

  lemma NamedDelivers(img: seq<byte>, s: State, names: Names)
    requires VolumeOk(img) && Inv(img, s) && AllNamed(img, s, names)
    ensures DeliversNamed(img, s, names)
  {
    forall p, k | 0 <= p < NUM_PROCS && 0 <= k < MAX_FILES && s.running[p] && s.tables[p][k].used
                  && s.tables[p][k].fops.File?
      ensures Delivers(img, names[p][k], s.tables[p][k].pos, s.logs[p][k])
    {
      assert LogOk(img, s.tables[p][k], s.logs[p][k]) && FdNamed(img, s.tables[p][k], names[p][k]);
    }
  }

  /**
   Over every run from boot, each open file descriptor delivers the file its name denotes, unless
   the image has entries both of a file and of an unknown type.
   */
  lemma RunDeliversNamed(img: seq<byte>, tables: seq<Table>, es: seq<Event>)
    requires VolumeOk(img) && |tables| == NUM_PROCS && LegalRun(img, Booted(tables), es)
    requires !(FindsFile(img) && FindsUnknown(img))
    ensures DeliversNamed(img, Run(img, Booted(tables), es), RunNames(img, Booted(tables), NoNames(), es))
  {
    var s := Booted(tables);
    ReadsDoNotInterfere(img, s, es);
    RunKeepsNamed(img, s, NoNames(), es);
    hide VolumeOk, Inv, AllNamed, DeliversNamed, FindsFile, FindsUnknown;
    NamedDelivers(img, Run(img, s, es), RunNames(img, s, NoNames(), es));
  }

  lemma FileThenUnknown(img: seq<byte>, file: seq<byte>, other: seq<byte>)
    requires DirectoryOk(img) && IsFileName(img, file) && IsUnknownName(img, other)
    ensures var (t, slot) := Opened(img, InitialTable(), file);
            slot == 2 && var (u, again) := Opened(img, AfterClose(t, 2).0, other);
                         again == 2 && u[2].used && u[2].fops.File?
  {
    var t := Opened(img, InitialTable(), file).0;
    assert FreeSlotFrom(InitialTable(), 2) == 2;
    assert FreeSlotFrom(AfterClose(t, 2).0, 2) == 2;
  }

  /** A run of four events, one at a time. */
  lemma FourSteps(img: seq<byte>, s: State, names: Names, a: Event, b: Event, c: Event, d: Event)
    requires VolumeOk(img) && Shape(s) && NamesShape(names) && Allowed(s, a)
    requires Allowed(Step(img, s, a), b) && Allowed(Step(img, Step(img, s, a), b), c)
    requires Allowed(Step(img, Step(img, Step(img, s, a), b), c), d)
    ensures var s1 := Step(img, s, a); var s2 := Step(img, s1, b); var s3 := Step(img, s2, c);
            && LegalRun(img, s, [a, b, c, d]) && Run(img, s, [a, b, c, d]) == Step(img, s3, d)
            && RunNames(img, s, names, [a, b, c, d]) ==
               StepNames(img, s3, StepNames(img, s2, StepNames(img, s1, StepNames(img, s, names, a), b), c), d)
  {
    hide VolumeOk, Step, StepNames, Allowed;
    assert [a, b, c, d][1..] == [b, c, d] && [b, c, d][1..] == [c, d] && [c, d][1..] == [d] && [d][1..] == [];
    var s1 := Step(img, s, a);
    var s2 := Step(img, s1, b);
    var s3 := Step(img, s2, c);
    var n3 := StepNames(img, s2, StepNames(img, s1, StepNames(img, s, names, a), b), c);
    assert LegalRun(img, s3, [d]) && Run(img, s3, [d]) == Step(img, s3, d);
    assert RunNames(img, s3, n3, [d]) == StepNames(img, s3, n3, d);
    assert LegalRun(img, s2, [c, d]) && Run(img, s2, [c, d]) == Step(img, s3, d);
    var n2 := StepNames(img, s1, StepNames(img, s, names, a), b);
    assert RunNames(img, s2, n2, [c, d]) == StepNames(img, s3, n3, d);
    assert RunNames(img, s1, StepNames(img, s, names, a), [b, c, d]) == StepNames(img, s3, n3, d);
  }

  /** Start a process, open and close the file, open the other: the descriptor still reads the file. */
  lemma UnknownReadsFile(img: seq<byte>, tables: seq<Table>, file: seq<byte>, other: seq<byte>)
    returns (es: seq<Event>)
    requires VolumeOk(img) && |tables| == NUM_PROCS && IsFileName(img, file) && IsUnknownName(img, other)
    ensures es == [Start(0), Open(0, file), Close(0, 2), Open(0, other)] && LegalRun(img, Booted(tables), es)
    ensures !DeliversNamed(img, Run(img, Booted(tables), es), RunNames(img, Booted(tables), NoNames(), es))
  {
    es := [Start(0), Open(0, file), Close(0, 2), Open(0, other)];
    FileThenUnknown(img, file, other);
    var s0 := Booted(tables);
    hide VolumeOk, LookupFrom, Delivers, Opened, AfterClose, InitialTable;
    FourSteps(img, s0, NoNames(), es[0], es[1], es[2], es[3]);
    var r, names := Run(img, s0, es), RunNames(img, s0, NoNames(), es);
    assert r.running[0] && r.tables[0][2].used && r.tables[0][2].fops.File? && names[0][2] == other;
    UnknownDeliversNothing(img, other, r.tables[0][2].pos, r.logs[0][2]);
  }

  lemma UnknownDeliversNothing(img: seq<byte>, name: seq<byte>, pos: int, log: seq<byte>)
    requires VolumeOk(img) && IsUnknownName(img, name)
    ensures !Delivers(img, name, pos, log)
  {
  }

  /** Every run delivers what is named if and only if the image has no entries both of a file and of an unknown type. */
  lemma NamedReadsExact(img: seq<byte>, tables: seq<Table>)
    requires VolumeOk(img) && |tables| == NUM_PROCS
    ensures (forall es | LegalRun(img, Booted(tables), es) ::
               DeliversNamed(img, Run(img, Booted(tables), es), RunNames(img, Booted(tables), NoNames(), es)))
            <==> !(FindsFile(img) && FindsUnknown(img))
  {
    if FindsFile(img) && FindsUnknown(img) {
      var file :| IsFileName(img, file);
      var other :| IsUnknownName(img, other);
      var es := UnknownReadsFile(img, tables, file, other);
    } else {
      forall es | LegalRun(img, Booted(tables), es)
        ensures DeliversNamed(img, Run(img, Booted(tables), es), RunNames(img, Booted(tables), NoNames(), es))
      {
        RunDeliversNamed(img, tables, es);
      }
    }
  }

  // ---------------------------------------------------------------- on a built image

  /** The entries' file numbers exist. */
  predicate FilesExist(files: seq<seq<byte>>, ds: seq<Dentry>) {
    forall i :: 0 <= i < |ds| && ds[i].kind == 2 ==> 0 <= ds[i].inode < |files|
  }

  lemma ImageIsVolume(files: seq<seq<byte>>, ds: seq<Dentry>)
    requires Images.Fit(files, ds) && FilesExist(files, ds)
    ensures VolumeOk(Images.Image(files, ds))
  {
    var img := Images.Image(files, ds);
    Images.CountsAre(files, ds);
    hide Images.Image, ImageOk, FileOk;
    forall i | 0 <= i < NumInodes(img) ensures FileOk(img, i) {
      Images.ImageHoldsFiles(files, ds, i);
    }
    forall i | 0 <= i < NumEntries(img) ensures Entry(img, i) == ds[i] {
      Images.ImageHoldsEntries(files, ds, i);
    }
  }

  /** A free descriptor opened with this name reads nbytes of file. */
  ghost predicate ReadsAs(img: seq<byte>, t: Table, name: seq<byte>, nbytes: nat, file: seq<byte>)
    requires VolumeOk(img)
  {
    var (t', slot) := Opened(img, t, name);
    && 2 <= slot < MAX_FILES && t'[slot].fops.File? && FdWords(t'[slot])
    && ReadBytes(img, t'[slot], nbytes) == file[..Min(nbytes, |file|)]
    && FileResult(img, t'[slot], nbytes) == Min(nbytes, |file|)
  }

  lemma OpenedReads(img: seq<byte>, t: Table, name: seq<byte>, k: nat, nbytes: nat)
    requires VolumeOk(img) && Denotes(img, name, k) && Entry(img, k).kind == 2 && 0 <= Entry(img, k).inode
    requires nbytes < 0x8000_0000 && exists i :: 2 <= i < MAX_FILES && !t[i].used
    ensures Entry(img, k).inode < NumInodes(img) && FileOk(img, Entry(img, k).inode)
    ensures ReadsAs(img, t, name, nbytes, Contents(img, Entry(img, k).inode))
  {
    OpenedByKind(img, t, name, k);
    var (t', slot) := Opened(img, t, name);
    assert FileOk(img, Entry(img, k).inode);
    hide Entry, Opened, FileOk;
    ReadOfVolume(img, t'[slot], nbytes);
  }

  /**
   From name to bytes: on an image built from files, opening the name of its k-th entry, a file,
   and reading gives the first bytes of that file.
   */
  lemma NamedFileIsRead(files: seq<seq<byte>>, ds: seq<Dentry>, k: nat, t: Table, nbytes: nat)
    requires Images.Fit(files, ds) && FilesExist(files, ds) && k < |ds| && ds[k].kind == 2
    requires (forall i :: 0 <= i < k ==> ds[i].name != ds[k].name) && nbytes < 0x8000_0000
    requires exists i :: 2 <= i < MAX_FILES && !t[i].used
    ensures VolumeOk(Images.Image(files, ds))
    ensures ReadsAs(Images.Image(files, ds), t, ds[k].name, nbytes, files[ds[k].inode])
  {
    var img := Images.Image(files, ds);
    ImageIsVolume(files, ds);
    Images.CountsAre(files, ds);
    Images.ImageHoldsFiles(files, ds, ds[k].inode);
    hide Images.Image, Images.Fit, VolumeOk, ImageOk, FileOk, Entry, ReadsAs;
    forall i | 0 <= i <= k ensures Entry(img, i) == ds[i] {
      Images.ImageHoldsEntries(files, ds, i);
    }
    OpenedReads(img, t, ds[k].name, k, nbytes);
  }
}
