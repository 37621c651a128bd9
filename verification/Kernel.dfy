/**
 The kernel's process code with its state updated in place: pid_array, the PCBs, the terminals,
 the TSS stack pointer and the page tables.  Each method is proved to compute the operation of
 the same name in module Processes.
 */
module Kernel {
  import opened Limits
  import opened Paging
  import opened Processes
  import opened ProcessRuns

  class Kernel {
    const pidArray: array<bool>
    const pcbs: array<Pcb>
    const terminals: array<Term>
    const paging: PageTables
    var curTerm: int
    var curActive: int
    var nextSched: int
    var esp: int
    var esp0: int

    ghost predicate Valid()
      reads this, pidArray, pcbs, terminals, paging, paging.directory, paging.table, paging.userTable, paging.videoTable
    {
      && paging.Valid() && pidArray.Length == NUM_PROCS && pcbs.Length == NUM_PROCS && terminals.Length == MAX_TERM
      && Sized(State())
    }

    ghost function State(): Machine
      reads this, pidArray, pcbs, terminals, paging, paging.directory, paging.table, paging.userTable, paging.videoTable
    {
      Machine(pidArray[..], pcbs[..], terminals[..], curTerm, curActive, esp, esp0, paging.State())
    }

    /** Global data as it is when the kernel starts; the boot stack begins at 8MB. */
    constructor (lowAt: int, userAt: int, videoAt: int)
      requires LinkedOk(lowAt, userAt, videoAt)
      ensures Valid() && ProcessRuns.Booting(State())
    {
      pidArray := new bool[NUM_PROCS](_ => false);
      pcbs := new Pcb[NUM_PROCS](_ => Pcb(0, 0, 0, 0, 0));
      terminals := new Term[MAX_TERM](_ => Term(false, -1));
      curTerm, curActive, nextSched, esp, esp0 := 0, 0, 0, MB8 - 4, MB8;
      paging := new PageTables(lowAt, userAt, videoAt);
      new;
      paging.Boot();
    }

    method GetProcNum() returns (r: int)
      requires Valid()
      modifies pidArray
      ensures Valid() && r == FreePid(old(pidArray[..]))
      ensures pidArray[..] == if r == -1 then old(pidArray[..]) else old(pidArray[..])[r := true]
    {
      var i := 0;
      while i < NUM_PROCS
        invariant 0 <= i <= NUM_PROCS
        invariant forall q :: 0 <= q < i ==> pidArray[q]
      {
        if !pidArray[i] {
          pidArray[i] := true;
          return i;
        }
        i := i + 1;
      }
      return -1;
    }

    /** The PCB and terminal part of execute, for the process number pid. */
    method SetUpPcb(pid: int, sp: int)
      requires Valid() && 0 <= pid < NUM_PROCS
      modifies this`curActive, pcbs, terminals
      ensures curActive == if old(terminals[curTerm].active) then old(curActive) else curTerm
      ensures terminals[..] == old(terminals[..])[curTerm := Term(true, pid)]
      ensures var was := old(State());
              var numbered := was.pcbs[pid := was.pcbs[pid].(number := pid)];
              var parent := if was.terms[curTerm].active then numbered[was.terms[curTerm].apn].number else pid;
              pcbs[..] == was.pcbs[pid := Pcb(pid, parent, curTerm, sp, was.pcbs[pid].esp)]
    {
      pcbs[pid] := pcbs[pid].(parentKsp := sp);
      pcbs[pid] := pcbs[pid].(number := pid);
      if !terminals[curTerm].active {
        curActive := curTerm;
        pcbs[pid] := pcbs[pid].(parent := pcbs[pid].number);
        terminals[curTerm] := terminals[curTerm].(active := true);
      } else {
        pcbs[pid] := pcbs[pid].(parent := pcbs[terminals[curTerm].apn].number);
      }
      pcbs[pid] := pcbs[pid].(term := curTerm);
      terminals[curTerm] := terminals[curTerm].(apn := pcbs[pid].number);
    }

    /** execute from the point where the command name has been parsed and looked up. */
    method Execute(found: Lookup, sp: int) returns (r: int)
      requires Valid()
      modifies this`curActive, this`esp, this`esp0, pidArray, pcbs, terminals, paging.directory
      ensures Valid() && (State(), r) == Processes.Execute(old(State()), found, sp)
    {
      if !found.Program? {
        return -1;
      }
      ghost var was := State();
      hide FreePid, WithLargePage, FixedEntries;
      var pid := GetProcNum();
      if pid == -1 {
        assert State() == was;
        return -1;
      }
      paging.PageRemap(MB128, Frame(pid));
      assert State() == was.(pids := was.pids[pid := true], tables := WithLargePage(was.tables, MB128, Frame(pid)));
      SetUpPcb(pid, sp);
      esp0 := StackTop(pid);
      esp := esp0;
      assert State() == Processes.Execute(was, found, sp).0;
      hide Processes.Execute, Sized;
      return 0;
    }

    /** A root's execute("shell") does not come back, so the code after it serves other processes. */
    method Halt(sp: int)
      requires Valid() && terminals[curActive].apn >= 0
      modifies this`curActive, this`esp, this`esp0, pidArray, pcbs, terminals, paging.directory
      ensures Valid() && State() == Processes.Halt(old(State()), sp)
    {
      hide Processes.Execute, WithLargePage, FixedEntries;
      var pcb := pcbs[terminals[curActive].apn];
      var parent := pcbs[pcb.parent];
      pidArray[pcb.number] := false;
      terminals[curActive] := terminals[curActive].(apn := parent.number);
      if pcb.number == pcb.parent {
        terminals[curActive] := terminals[curActive].(active := false);
        ghost var was := old(State());
        assert State() == was.(pids := was.pids[pcb.number := false],
                               terms := was.terms[was.act := Term(false, parent.number)]);
        var _ := Execute(Program, sp);
        return;
      }
      paging.PageRemap(MB128, Frame(parent.number));
      esp0 := pcb.parentKsp;
      esp := pcb.parentKsp;
    }

    method GetNextScheduled() returns (apn: int)
      requires Valid()
      modifies this`nextSched
      ensures Valid() && State() == old(State())
      ensures nextSched == NextScheduled(terminals[..], curActive) && apn == terminals[nextSched].apn
    {
      nextSched := curActive;
      var i := 0;
      while i < MAX_TERM - 1
        invariant 0 <= i <= MAX_TERM - 1 && nextSched == (curActive + i) % MAX_TERM
        invariant i == 1 ==> !terminals[nextSched].active
        invariant i == 2 ==> !terminals[(curActive + 1) % MAX_TERM].active
      {
        nextSched := (nextSched + 1) % MAX_TERM;
        if terminals[nextSched].active {
          break;
        }
        i := i + 1;
      }
      return terminals[nextSched].apn;
    }

    method VidmapCall(screenStart: int) returns (r: int)
      requires Valid()
      modifies paging.directory, paging.userTable
      ensures Valid() && (State(), r) == Vidmap(old(State()), screenStart)
    {
      if screenStart == 0 || screenStart == MB4 {
        return -1;
      }
      paging.TableRemap(MB136, VIDEO);
      return MB136;
    }

    /** Calls vidmap on a local variable, whose address is neither NULL nor 4MB; so does SwitchTerminal. */
    method ProcessContextSwitch(next: int, sp: int)
      requires Valid() && 0 <= next < NUM_PROCS && terminals[curActive].apn >= 0 && 0 <= nextSched < MAX_TERM
      modifies this`curActive, this`esp, this`esp0, pcbs, paging.directory, paging.userTable, paging.videoTable
      ensures Valid()
      ensures var s := old(State());
              var saved := s.pcbs[s.terms[s.act].apn := s.pcbs[s.terms[s.act].apn].(esp := sp)];
              var term := s.pcbs[next].term;
              State() == s.(pcbs := saved, act := nextSched, esp := saved[next].esp, esp0 := StackTop(next),
                            tables := VideoWindow(WithLargePage(s.tables, MB128, Frame(next)), term != s.cur, term))
    {
      paging.PageRemap(MB128, Frame(next));
      paging.TableRemap(MB136, VIDEO);
      var oldPcb := terminals[curActive].apn;
      curActive := nextSched;
      var term := pcbs[next].term;
      if term != curTerm {
        paging.VidmemRemap(MB136, BackingPage(term));
      }
      esp0 := StackTop(next);
      pcbs[oldPcb] := pcbs[oldPcb].(esp := sp);
      esp := pcbs[next].esp;
    }

    method PitScheduling(sp: int)
      requires Valid() && terminals[curActive].apn >= 0
      requires terminals[1].active || terminals[2].active ==>
                 terminals[NextScheduled(terminals[..], curActive)].apn >= 0
      modifies this`nextSched, this`curActive, this`esp, this`esp0, pcbs,
               paging.directory, paging.userTable, paging.videoTable
      ensures Valid() && State() == Tick(old(State()), sp)
    {
      if terminals[1].active || terminals[2].active {
        var next := GetNextScheduled();
        ProcessContextSwitch(next, sp);
      }
    }

    /** switch_terminal's effect on processes; its effect on the screen is in module Console. */
    method SwitchTerminal(n: int, sp: int)
      requires Valid() && 0 <= n && terminals[curActive].apn >= 0
      modifies this`curTerm, this`curActive, this`esp, this`esp0, pidArray, pcbs, terminals,
               paging.directory, paging.userTable, paging.videoTable
      ensures Valid() && State() == SwitchTo(old(State()), n, sp)
    {
      if n > MAX_TERM - 1 || n == curTerm {
        return;
      }
      if terminals[n].active {
        curTerm := n;
        paging.TableRemap(MB136, VIDEO);
        if curActive != curTerm {
          paging.VidmemRemap(MB136, BackingPage(curActive));
        }
        return;
      }
      curTerm := n;
      var oldPcb := terminals[curActive].apn;
      pcbs[oldPcb] := pcbs[oldPcb].(esp := sp);
      var _ := Execute(Program, sp);
    }

    method Perform(c: Call)
      requires Valid() && Callable(State(), c)
      modifies this, pidArray, pcbs, terminals, paging.directory, paging.userTable, paging.videoTable
      ensures Valid() && State() == Step(old(State()), c)
    {
      match c {
        case Exec(found, sp) => var _ := Execute(found, sp);
        case Exit(sp) => Halt(sp);
        case Timer(sp) => PitScheduling(sp);
        case Show(n, sp) => SwitchTerminal(n, sp);
        case MapVideo(screenStart) => var _ := VidmapCall(screenStart);
      }
    }

    /** From the first shell on, every guarded run of the kernel ends in a consistent state. */
    method Serve(bootSp: int, cs: seq<Call>)
      requires Valid() && ProcessRuns.Booting(State())
      requires GuardedRun(Processes.Execute(State(), Program, bootSp).0, cs)
      modifies this, pidArray, pcbs, terminals, paging.directory, paging.userTable, paging.videoTable
      ensures Valid() && Consistent(State())
      ensures State() == Run(Processes.Execute(old(State()), Program, bootSp).0, cs)
    {
      BootReachesInv(State(), bootSp);
      var _ := Execute(Program, bootSp);
      ghost var first := State();
      RunKeepsInv(first, cs);
      hide Consistent, Step, Guarded, Callable;
      var i := 0;
      while i < |cs|
        invariant 0 <= i <= |cs|
        invariant Valid() && Consistent(State())
        invariant GuardedRun(State(), cs[i..]) && Run(State(), cs[i..]) == Run(first, cs)
      {
        assert cs[i..][1..] == cs[i + 1..];
        StepIsDefined(State(), cs[i]);
        Perform(cs[i]);
        i := i + 1;
      }
    }
  }
}
