/**
 Kernel and console as one machine: a launch also changes the executing terminal, the timer's
 choice is the one the console writes for, and only live processes write and read.
 */
module Joint {
  import opened Bytes
  import opened Limits
  import Processes
  import ProcessRuns
  import Screens
  import Terminals
  import Sessions
  import Formats
  import Kernel
  import Console

  datatype State = State(m: Processes.Machine, c: Terminals.System)

  /** A system call or interrupt of the process side, or a key, write or read of the console. */
  datatype Act = Sys(call: ProcessRuns.Call) | Io(io: Console.Call)

  /** Both sides name the same terminals, and a terminal without a shell is blank. */
  ghost predicate Matched(s: State) {
    && Processes.Sized(s.m) && ProcessRuns.Consistent(s.m) && Terminals.SystemOk(s.c)
    && s.m.cur == s.c.cur && s.m.act == s.c.act
    && forall t :: 0 <= t < MAX_TERM && !s.m.terms[t].active ==> s.c.term[t] == Terminals.Blank(t)
  }

  /** What a call does to the console: a switch, the launch of a shell, the timer's choice. */
  ghost function Effects(m: Processes.Machine, call: ProcessRuns.Call): (es: seq<Terminals.Event>)
    requires Processes.Sized(m)
  {
    match call
    case Show(n, _) =>
      [Terminals.Switch(n)] + (if ProcessRuns.Launches(m, call) then [Terminals.Tick(n)] else [])
    case Timer(_) =>
      if ProcessRuns.Switching(m) then [Terminals.Tick(Processes.NextScheduled(m.terms, m.act))] else []
    case Exec(_, _) => []
    case Exit(_) => []
    case MapVideo(_) => []
  }

  ghost predicate Possible(s: State, a: Act)
    requires Processes.Sized(s.m) && Terminals.SystemOk(s.c)
  {
    match a
    case Sys(call) => ProcessRuns.Guarded(s.m, call) && (call.Show? ==> call.n < 256)
    case Io(io) =>
      Console.CallOk(io) && (io.Pressed? || io.Wrote? || io.Took?) && Terminals.Enabled(s.c, Console.EventOf(io))
  }

  ghost function EventsOf(s: State, a: Act): seq<Terminals.Event>
    requires Processes.Sized(s.m) && Terminals.SystemOk(s.c) && Possible(s, a)
  {
    match a
    case Sys(call) => Effects(s.m, call)
    case Io(io) => [Console.EventOf(io)]
  }

  lemma OneEvent(c: Terminals.System, e: Terminals.Event)
    requires Terminals.SystemOk(c) && Terminals.Enabled(c, e)
    ensures Terminals.Legal(c, [e]) && Terminals.Run(c, [e]) == Terminals.Step(c, e)
  {
    assert [e][1..] == [];
  }

  /** The console after the effects of a call. */
  ghost function Affected(m: Processes.Machine, c: Terminals.System, call: ProcessRuns.Call): Terminals.System
    requires Processes.Sized(m)
  {
    match call
    case Show(n, _) =>
      c.(cur := if n < MAX_TERM then n else c.cur, act := if ProcessRuns.Launches(m, call) then n else c.act)
    case Timer(_) => c.(act := if ProcessRuns.Switching(m) then Processes.NextScheduled(m.terms, m.act) else c.act)
    case _ => c
  }

  lemma EffectsAre(m: Processes.Machine, c: Terminals.System, call: ProcessRuns.Call)
    requires Processes.Sized(m) && Terminals.SystemOk(c) && (call.Show? ==> call.n >= 0)
    ensures Terminals.Legal(c, Effects(m, call)) && Terminals.Run(c, Effects(m, call)) == Affected(m, c, call)
  {
    if call.Show? {
      var e := Terminals.Switch(call.n);
      var c' := Terminals.Step(c, e);
      OneEvent(c, e);
      if ProcessRuns.Launches(m, call) {
        OneEvent(c', Terminals.Tick(call.n));
        Terminals.RunAppend(c, [e], [Terminals.Tick(call.n)]);
      } else {
        assert [e] + [] == [e];
      }
    } else if call.Timer? && ProcessRuns.Switching(m) {
      OneEvent(c, Terminals.Tick(Processes.NextScheduled(m.terms, m.act)));
    }
  }

  /** The terminals a call leaves displayed, executing and active. */
  ghost predicate Moves(m: Processes.Machine, m': Processes.Machine, call: ProcessRuns.Call)
    requires Processes.Sized(m) && Processes.Sized(m')
  {
    && m'.cur == (if call.Show? && call.n < MAX_TERM then call.n else m.cur)
    && m'.act == (if ProcessRuns.Launches(m, call) then call.n
                  else if call.Timer? && ProcessRuns.Switching(m) then Processes.NextScheduled(m.terms, m.act)
                  else m.act)
    && forall t :: 0 <= t < MAX_TERM && m.terms[t].active ==> m'.terms[t].active
  }

  lemma CallMoves(m: Processes.Machine, call: ProcessRuns.Call)
    requires ProcessRuns.Consistent(m) && ProcessRuns.Guarded(m, call)
    ensures Moves(m, ProcessRuns.Step(m, call), call)
  {
    ProcessRuns.StepIsDefined(m, call);
    ShownIsActive(m);
    hide Processes.Execute, Processes.Halt, Processes.Tick, Processes.SwitchTo, ProcessRuns.Consistent, Moves;
    match call {
      case Exit(sp) => ExitMoves(m, sp);
      case Exec(found, sp) => ExecMoves(m, found, sp);
      case Show(n, sp) => ShowMoves(m, n, sp);
      case Timer(sp) => TickMoves(m, sp);
      case MapVideo(screenStart) => VidmapMoves(m, screenStart);
    }
  }

  lemma ShownIsActive(m: Processes.Machine)
    requires ProcessRuns.Consistent(m)
    ensures Processes.Sized(m) && m.terms[m.cur].active && m.terms[m.act].active && m.terms[m.act].apn >= 0
  {
  }

  lemma ShowMoves(m: Processes.Machine, n: int, sp: int)
    requires Processes.Sized(m) && 0 <= n && m.terms[m.act].apn >= 0 && m.terms[m.cur].active
    requires n < MAX_TERM && !m.terms[n].active ==> Processes.FreePid(m.pids) != -1
    ensures Moves(m, Processes.SwitchTo(m, n, sp), ProcessRuns.Show(n, sp))
  {
  }

  lemma TickMoves(m: Processes.Machine, sp: int)
    requires Processes.Sized(m) && m.terms[m.act].apn >= 0
    requires ProcessRuns.Switching(m) ==> m.terms[Processes.NextScheduled(m.terms, m.act)].apn >= 0
    ensures Moves(m, Processes.Tick(m, sp), ProcessRuns.Timer(sp))
  {
    hide Processes.NextScheduled;
  }

  lemma ExitMoves(m: Processes.Machine, sp: int)
    requires ProcessRuns.Consistent(m) && ProcessRuns.Guarded(m, ProcessRuns.Exit(sp)) && m.terms[m.act].apn >= 0
    ensures Moves(m, Processes.Halt(m, sp), ProcessRuns.Exit(sp))
  {
    ProcessRuns.ExitKeepsFlags(m, sp);
    hide ProcessRuns.Consistent, ProcessRuns.Guarded;
    ExitKeepsShown(m, sp);
    FlagsAre(m);
    FlagsAre(Processes.Halt(m, sp));
    hide Processes.Halt, ProcessRuns.Flags;
  }

  lemma FlagsAre(m: Processes.Machine)
    requires Processes.Sized(m)
    ensures forall t :: 0 <= t < MAX_TERM ==> ProcessRuns.Flags(m)[t] == m.terms[t].active
  {
  }

  lemma ExitKeepsShown(m: Processes.Machine, sp: int)
    requires Processes.Sized(m) && m.terms[m.act].apn >= 0
    ensures Processes.Halt(m, sp).cur == m.cur
  {
  }

  lemma ExecMoves(m: Processes.Machine, found: Processes.Lookup, sp: int)
    requires Processes.Sized(m) && m.terms[m.cur].active
    ensures Moves(m, Processes.Execute(m, found, sp).0, ProcessRuns.Exec(found, sp))
  {
  }

  lemma VidmapMoves(m: Processes.Machine, screenStart: int)
    requires Processes.Sized(m)
    ensures Moves(m, Processes.Vidmap(m, screenStart).0, ProcessRuns.MapVideo(screenStart))
  {
  }

  // ---------------------------------------------------------------- joint runs

  /** A possible act is legal on the console side and leaves both sides matched. */
  lemma ActIsLegal(s: State, a: Act)
    requires Matched(s) && Possible(s, a)
    ensures Terminals.Legal(s.c, EventsOf(s, a))
    ensures var c' := Terminals.Run(s.c, EventsOf(s, a));
            c' == match a case Sys(call) => Affected(s.m, s.c, call)
                          case Io(io) => Terminals.Step(s.c, Console.EventOf(io))
  {
    hide ProcessRuns.Consistent, Terminals.SystemOk, Processes.Sized, Terminals.Step, Affected;
    match a
    case Sys(call) => EffectsAre(s.m, s.c, call);
    case Io(io) => OneEvent(s.c, Console.EventOf(io));
  }

  ghost function Step(s: State, a: Act): (r: State)
    requires Matched(s) && Possible(s, a)
  {
    ActIsLegal(s, a);
    State(if a.Sys? then ProcessRuns.Step(s.m, a.call) else s.m, Terminals.Run(s.c, EventsOf(s, a)))
  }

  lemma SysMatches(s: State, call: ProcessRuns.Call)
    requires Matched(s) && Possible(s, Sys(call))
    ensures Matched(State(ProcessRuns.Step(s.m, call), Affected(s.m, s.c, call)))
  {
    ProcessRuns.StepIsDefined(s.m, call);
    CallMoves(s.m, call);
    EffectsAre(s.m, s.c, call);
    hide ProcessRuns.Consistent, ProcessRuns.Step, ProcessRuns.Guarded, Effects, Terminals.LogicalOk;
  }

  lemma IoMatches(s: State, io: Console.Call)
    requires Matched(s) && Possible(s, Io(io))
    ensures Matched(State(s.m, Terminals.Step(s.c, Console.EventOf(io))))
  {
    ShownIsActive(s.m);
    hide ProcessRuns.Consistent, Terminals.PressKey, Terminals.WriteText, Terminals.TakeLine, Terminals.LogicalOk,
         Terminals.SystemOk, Terminals.Blank, Processes.Sized;
  }

  lemma StepMatches(s: State, a: Act)
    requires Matched(s) && Possible(s, a)
    ensures Matched(Step(s, a))
  {
    ActIsLegal(s, a);
    hide Matched, Possible;
    match a {
      case Sys(call) => SysMatches(s, call);
      case Io(io) => IoMatches(s, io);
    }
  }

  ghost predicate PossibleRun(s: State, acts: seq<Act>)
    requires Matched(s)
    decreases |acts|
  {
    acts == [] || (Possible(s, acts[0]) && (StepMatches(s, acts[0]); PossibleRun(Step(s, acts[0]), acts[1..])))
  }

  ghost function Run(s: State, acts: seq<Act>): (r: State)
    requires Matched(s) && PossibleRun(s, acts)
    decreases |acts|
  {
    if acts == [] then s
    else
      StepMatches(s, acts[0]);
      Run(Step(s, acts[0]), acts[1..])
  }

  /** The process side of a run, and the console side. */
  function CallsOf(acts: seq<Act>): seq<ProcessRuns.Call> {
    if acts == [] then [] else (if acts[0].Sys? then [acts[0].call] else []) + CallsOf(acts[1..])
  }

  ghost function EventsOfRun(s: State, acts: seq<Act>): seq<Terminals.Event>
    requires Matched(s) && PossibleRun(s, acts)
    decreases |acts|
  {
    if acts == [] then []
    else
      StepMatches(s, acts[0]);
      EventsOf(s, acts[0]) + EventsOfRun(Step(s, acts[0]), acts[1..])
  }

  /**
   Over every joint run both invariants hold, both sides agree on the displayed and the executing
   terminal, and terminals without a shell stay blank.
   */
  lemma {:induction false} RunMatches(s: State, acts: seq<Act>)
    requires Matched(s) && PossibleRun(s, acts)
    ensures Matched(Run(s, acts))
    decreases |acts|
  {
    if acts != [] {
      StepMatches(s, acts[0]);
      hide Matched, Possible, Step;
      RunMatches(Step(s, acts[0]), acts[1..]);
    }
  }

  /** A joint run is a guarded run of the processes and a legal run of the console, whose switches it determines. */
  lemma {:induction false} RunProjects(s: State, acts: seq<Act>)
    requires Matched(s) && PossibleRun(s, acts)
    ensures ProcessRuns.GuardedRun(s.m, CallsOf(acts)) && Run(s, acts).m == ProcessRuns.Run(s.m, CallsOf(acts))
    ensures Terminals.Legal(s.c, EventsOfRun(s, acts))
    ensures Run(s, acts).c == Terminals.Run(s.c, EventsOfRun(s, acts))
    decreases |acts|
  {
    if acts != [] {
      var a, s', rest := acts[0], Step(s, acts[0]), acts[1..];
      StepMatches(s, a);
      ActIsLegal(s, a);
      RunProjects(s', rest);
      hide Matched, Terminals.SystemOk, ProcessRuns.Step, ProcessRuns.Guarded, Processes.Sized;
      Terminals.RunAppend(s.c, EventsOf(s, a), EventsOfRun(s', rest));
      CallsProject(s.m, a, s'.m, CallsOf(rest));
    }
  }

  lemma CallsProject(m: Processes.Machine, a: Act, m': Processes.Machine, cs: seq<ProcessRuns.Call>)
    requires Processes.Sized(m) && Processes.Sized(m') && ProcessRuns.GuardedRun(m', cs)
    requires a.Sys? ==> ProcessRuns.Guarded(m, a.call) && m' == ProcessRuns.Step(m, a.call)
    requires a.Io? ==> m' == m
    ensures var all := (if a.Sys? then [a.call] else []) + cs;
            ProcessRuns.GuardedRun(m, all) && ProcessRuns.Run(m, all) == ProcessRuns.Run(m', cs)
  {
    hide ProcessRuns.Step, ProcessRuns.Guarded;
    if a.Sys? {
      assert ([a.call] + cs)[1..] == cs;
    } else {
      assert [] + cs == cs;
    }
  }

  /** Whoever writes or reads is a live process of the terminal it writes to or reads from. */
  lemma WriterIsLive(s: State)
    requires Matched(s)
    ensures var p := s.m.terms[s.c.act].apn;
            0 <= p < NUM_PROCS && s.m.pids[p] && s.m.pcbs[p].number == p && s.m.pcbs[p].term == s.c.act
  {
    var chains :| Processes.Inv(s.m, chains);
    Processes.ActiveProcess(s.m, chains, s.m.act);
    Processes.RootIffAlone(s.m, chains);
  }

  /** A shell that is launched finds a clear screen and an empty line, and is the next to write. */
  lemma LaunchFindsBlank(s: State, n: int, sp: int)
    requires Matched(s) && Possible(s, Sys(ProcessRuns.Show(n, sp))) && n < MAX_TERM && !s.m.terms[n].active
    ensures var r := Step(s, Sys(ProcessRuns.Show(n, sp)));
            r.c.cur == n && r.c.act == n && r.c.term[n] == Terminals.Blank(n)
  {
    ActIsLegal(s, Sys(ProcessRuns.Show(n, sp)));
    hide ProcessRuns.Consistent, Terminals.SystemOk, ProcessRuns.Step;
  }

  lemma BootMatches(m: Processes.Machine, sp: int)
    requires ProcessRuns.Booting(m)
    ensures Matched(State(Processes.Execute(m, Processes.Program, sp).0, Sessions.BootSystem()))
  {
    ProcessRuns.BootReachesInv(m, sp);
    ProcessRuns.FirstShell(m, sp);
    hide ProcessRuns.Consistent, Processes.Execute;
  }

  /** After boot: the first shell in terminal 0, three blank terminals. */
  ghost function Booted(m: Processes.Machine, sp: int): (s: State)
    requires ProcessRuns.Booting(m)
    ensures Matched(s)
  {
    BootMatches(m, sp);
    State(Processes.Execute(m, Processes.Program, sp).0, Sessions.BootSystem())
  }

  // ---------------------------------------------------------------- both objects together

  ghost function KernelObjects(k: Kernel.Kernel): set<object>
    reads k
  {
    {k, k.pidArray, k.pcbs, k.terminals, k.paging.directory, k.paging.userTable, k.paging.videoTable}
  }

  /** Kernel and console are sound, share no memory, and are in state s. */
  ghost predicate Holds(k: Kernel.Kernel, c: Console.Console, s: State)
    reads *
  {
    && k.Valid() && c.Valid() && KernelObjects(k) + {k.paging, k.paging.table} !! c.Footprint()
    && k.State() == s.m && c.State() == s.c
  }

  method CallKernel(k: Kernel.Kernel, c: Console.Console, call: ProcessRuns.Call, ghost s: State)
    requires Holds(k, c, s) && ProcessRuns.Callable(s.m, call)
    modifies KernelObjects(k)
    ensures Holds(k, c, s.(m := ProcessRuns.Step(s.m, call)))
  {
    hide ProcessRuns.Callable, ProcessRuns.Step, Processes.Sized, Terminals.SystemOk;
    k.Perform(call);
  }

  /** The console's part of a display switch, and of a change of the executing terminal. */
  method ShowOn(k: Kernel.Kernel, c: Console.Console, n: int, ghost s: State)
    requires Holds(k, c, s) && 0 <= n < 256
    modifies c.Footprint()
    ensures Holds(k, c, s.(c := s.c.(cur := if n < MAX_TERM then n else s.c.cur)))
  {
    hide Processes.Sized, Terminals.SystemOk;
    var _ := c.SwitchTerminal(n);
  }

  method Follow(k: Kernel.Kernel, c: Console.Console, ghost s: State)
    requires Holds(k, c, s)
    modifies c.Footprint()
    ensures Holds(k, c, s.(c := s.c.(act := s.m.act)))
  {
    hide Terminals.SystemOk;
    if c.curActive != k.curActive {
      c.Schedule(k.curActive);
    }
  }

  method PerformSys(k: Kernel.Kernel, c: Console.Console, call: ProcessRuns.Call, ghost s: State)
    requires Holds(k, c, s) && Matched(s) && Possible(s, Sys(call))
    modifies KernelObjects(k), c.Footprint()
    ensures Holds(k, c, State(ProcessRuns.Step(s.m, call), Affected(s.m, s.c, call)))
  {
    ProcessRuns.StepIsDefined(s.m, call);
    CallMoves(s.m, call);
    ghost var m' := ProcessRuns.Step(s.m, call);
    ghost var r := State(m', Affected(s.m, s.c, call));
    ghost var shown := if call.Show? && call.n < MAX_TERM then call.n else s.c.cur;
    assert s.(m := m').(c := s.c.(cur := shown, act := m'.act)) == r;
    hide ProcessRuns.Step, ProcessRuns.Guarded, Matched, Moves, Affected;
    CallKernel(k, c, call, s);
    if call.Show? {
      ShowOn(k, c, call.n, s.(m := m'));
    }
    Follow(k, c, s.(m := m', c := s.c.(cur := shown)));
  }

  /** One act on the real kernel and the real console; what a read returned is handed out. */
  method Perform(k: Kernel.Kernel, c: Console.Console, a: Act, ghost s: State) returns (lines: seq<seq<byte>>)
    requires Holds(k, c, s) && Matched(s) && Possible(s, a)
    modifies KernelObjects(k), c.Footprint()
    ensures Holds(k, c, Step(s, a)) && lines == Handed(s, a)
  {
    ActIsLegal(s, a);
    lines := [];
    hide Sessions.Returned;
    match a {
      case Sys(call) => PerformSys(k, c, call, s);
      case Io(io) => lines := c.Perform(io);
    }
  }

  /** What an act hands to the program that makes it. */
  ghost function Handed(s: State, a: Act): seq<seq<byte>>
    requires Matched(s) && Possible(s, a)
  {
    match a
    case Sys(_) => []
    case Io(io) => Sessions.Returned(s.c, Console.EventOf(io))
  }

  ghost function AllHanded(s: State, acts: seq<Act>): seq<seq<byte>>
    requires Matched(s) && PossibleRun(s, acts)
    decreases |acts|
  {
    if acts == [] then []
    else
      StepMatches(s, acts[0]);
      Handed(s, acts[0]) + AllHanded(Step(s, acts[0]), acts[1..])
  }

  /** From boot on, every run of possible acts on the real kernel and console is the joint run. */
  method Serve(k: Kernel.Kernel, c: Console.Console, bootSp: int, acts: seq<Act>) returns (lines: seq<seq<byte>>)
    requires k.Valid() && ProcessRuns.Booting(k.State()) && c.Valid() && c.State() == Sessions.BootSystem()
    requires KernelObjects(k) + {k.paging, k.paging.table} !! c.Footprint()
    requires PossibleRun(Booted(k.State(), bootSp), acts)
    modifies KernelObjects(k), c.Footprint()
    ensures var s := Booted(old(k.State()), bootSp);
            && Holds(k, c, Run(s, acts)) && Matched(Run(s, acts))
            && lines == AllHanded(s, acts)
  {
    ghost var first := Booted(k.State(), bootSp);
    StartShell(k, c, bootSp);
    lines := PerformAll(k, c, first, acts);
  }

  method StartShell(k: Kernel.Kernel, c: Console.Console, bootSp: int)
    requires k.Valid() && ProcessRuns.Booting(k.State()) && c.Valid() && c.State() == Sessions.BootSystem()
    requires KernelObjects(k) + {k.paging, k.paging.table} !! c.Footprint()
    modifies KernelObjects(k)
    ensures Holds(k, c, Booted(old(k.State()), bootSp))
  {
    hide Processes.Execute, Terminals.SystemOk, Processes.Sized;
    var _ := k.Execute(Processes.Program, bootSp);
  }

  method PerformAll(k: Kernel.Kernel, c: Console.Console, ghost first: State, acts: seq<Act>)
    returns (lines: seq<seq<byte>>)
    requires Holds(k, c, first) && Matched(first) && PossibleRun(first, acts)
    modifies KernelObjects(k), c.Footprint()
    ensures Holds(k, c, Run(first, acts)) && Matched(Run(first, acts)) && lines == AllHanded(first, acts)
  {
    hide Possible, Holds, Step, Handed, OnTheWay;
    ghost var s := first;
    lines := [];
    SetsOut(first, acts);
    for i := 0 to |acts|
      invariant OnTheWay(first, acts, i, s, lines) && Holds(k, c, s)
    {
      StepsOn(first, acts, i, s, lines);
      hide Matched, PossibleRun, Run, AllHanded;
      var more := Perform(k, c, acts[i], s);
      s := Step(s, acts[i]);
      lines := lines + more;
    }
    Arrives(first, acts, s, lines);
  }

  /** After i acts of a run: where it is and what has been handed out. */
  ghost predicate OnTheWay(first: State, acts: seq<Act>, i: int, s: State, lines: seq<seq<byte>>) {
    && Matched(first) && PossibleRun(first, acts) && 0 <= i <= |acts| && Matched(s) && PossibleRun(s, acts[i..])
    && Run(s, acts[i..]) == Run(first, acts) && AllHanded(first, acts) == lines + AllHanded(s, acts[i..])
  }

  lemma SetsOut(first: State, acts: seq<Act>)
    requires Matched(first) && PossibleRun(first, acts)
    ensures OnTheWay(first, acts, 0, first, [])
  {
    assert acts[0..] == acts;
  }

  lemma StepsOn(first: State, acts: seq<Act>, i: int, s: State, lines: seq<seq<byte>>)
    requires OnTheWay(first, acts, i, s, lines) && i < |acts|
    ensures Matched(s) && Possible(s, acts[i])
    ensures OnTheWay(first, acts, i + 1, Step(s, acts[i]), lines + Handed(s, acts[i]))
  {
    RunSplits(s, acts, i);
    hide Matched, Possible, PossibleRun, Run, Step, Handed, AllHanded;
    var now, later := Handed(s, acts[i]), AllHanded(Step(s, acts[i]), acts[i + 1..]);
    assert lines + (now + later) == (lines + now) + later;
  }

  lemma Arrives(first: State, acts: seq<Act>, s: State, lines: seq<seq<byte>>)
    requires OnTheWay(first, acts, |acts|, s, lines)
    ensures Matched(first) && PossibleRun(first, acts) && s == Run(first, acts) && Matched(s)
    ensures lines == AllHanded(first, acts)
  {
  }

  lemma RunSplits(s: State, acts: seq<Act>, i: nat)
    requires Matched(s) && i < |acts| && PossibleRun(s, acts[i..])
    ensures Possible(s, acts[i]) && Matched(Step(s, acts[i])) && PossibleRun(Step(s, acts[i]), acts[i + 1..])
    ensures Run(s, acts[i..]) == Run(Step(s, acts[i]), acts[i + 1..])
    ensures AllHanded(s, acts[i..]) == Handed(s, acts[i]) + AllHanded(Step(s, acts[i]), acts[i + 1..])
  {
    assert acts[i..][1..] == acts[i + 1..];
    StepMatches(s, acts[i]);
    hide Matched, Possible, Step, Handed;
  }

  // ---------------------------------------------------------------- a run that loses a line

  /** One possible act with its result and its events, and a run of them. */
  ghost predicate Does(s: State, a: Act, r: State, es: seq<Terminals.Event>) {
    Matched(s) && Possible(s, a) && Step(s, a) == r && EventsOf(s, a) == es && Matched(r)
  }

  ghost predicate Reaches(s: State, acts: seq<Act>, r: State, es: seq<Terminals.Event>) {
    Matched(s) && PossibleRun(s, acts) && Run(s, acts) == r && EventsOfRun(s, acts) == es
  }

  lemma ReachesFirst(s: State, a: Act, m: State, es: seq<Terminals.Event>, acts: seq<Act>, r: State,
                     fs: seq<Terminals.Event>)
    requires Does(s, a, m, es) && Reaches(m, acts, r, fs)
    ensures Reaches(s, [a] + acts, r, es + fs)
  {
    hide Matched, Possible, Step, EventsOf;
    assert ([a] + acts)[1..] == acts;
  }

  /** Two shells, the one of terminal 0 with process 0. */
  ghost predicate TwoShells(s: State, cur: int, act: int) {
    && Matched(s) && s.m.cur == cur && s.m.act == act
    && s.m.terms[0] == Processes.Term(true, 0) && s.m.terms[1] == Processes.Term(true, 1) && !s.m.terms[2].active
  }

  lemma SecondIsLaunched(m: Processes.Machine, sp: int) returns (a: Act, r: State)
    requires ProcessRuns.Booting(m)
    ensures Does(Booted(m, sp), a, r, [Terminals.Switch(1), Terminals.Tick(1)])
    ensures TwoShells(r, 1, 1) && r.c.term == Sessions.BootSystem().term
  {
    var s := Booted(m, sp);
    a := Sys(ProcessRuns.Show(1, s.m.esp));
    ProcessRuns.FirstShell(m, sp);
    hide Processes.Execute, ProcessRuns.Consistent;
    ProcessRuns.SecondShell(s.m, s.m.esp);
    StepMatches(s, a);
    ActIsLegal(s, a);
    r := Step(s, a);
    hide Processes.SwitchTo, Matched, Terminals.SystemOk;
    assert ProcessRuns.Callable(s.m, a.call);
  }

  lemma ShownAgain(s: State, n: int) returns (a: Act, r: State)
    requires (n == 0 || n == 1) && TwoShells(s, 1 - n, s.m.act)
    ensures Does(s, a, r, [Terminals.Switch(n)]) && TwoShells(r, n, s.m.act) && r.c.term == s.c.term
  {
    a := Sys(ProcessRuns.Show(n, s.m.esp));
    hide ProcessRuns.Consistent, Terminals.SystemOk;
    ShownIsActive(s.m);
    StepMatches(s, a);
    ActIsLegal(s, a);
    r := Step(s, a);
  }

  lemma TimerReturns(s: State) returns (a: Act, r: State)
    requires TwoShells(s, 0, 1)
    ensures Does(s, a, r, [Terminals.Tick(0)]) && TwoShells(r, 0, 0) && r.c.term == s.c.term
  {
    a := Sys(ProcessRuns.Timer(s.m.esp));
    assert Processes.NextScheduled(s.m.terms, 1) == 0;
    hide ProcessRuns.Consistent, Processes.NextScheduled, Terminals.SystemOk;
    ShownIsActive(s.m);
    StepMatches(s, a);
    ActIsLegal(s, a);
    r := Step(s, a);
  }

  lemma KeyPressed(s: State, k: int, cur: int) returns (a: Act, r: State)
    requires 0 <= cur < MAX_TERM && TwoShells(s, cur, 0)
    requires 0 <= k < 0x1_0000 && Terminals.KeyAllowed(s.c.term[cur], k)
    ensures Does(s, a, r, [Terminals.Key(k)]) && TwoShells(r, cur, 0) && r.c == Terminals.Step(s.c, Terminals.Key(k))
  {
    a := Io(Console.Pressed(k));
    hide ProcessRuns.Consistent, Terminals.PressKey;
    StepMatches(s, a);
    ActIsLegal(s, a);
    r := Step(s, a);
  }

  /** From two shells with terminal 0 displayed and executing: a line entered there, one begun in terminal 1. */
  lemma TwoLines(s: State) returns (acts: seq<Act>, r: State)
    requires TwoShells(s, 0, 0) && s.c.term == Sessions.BootSystem().term
    ensures Reaches(s, acts, r, [Terminals.Key(65)] + ([Terminals.Key(Terminals.ENTER)] + ([Terminals.Switch(1)]
                                + ([Terminals.Key(66)] + []))))
  {
    var a, s1 := KeyPressed(s, 65, 0);
    var b, s2 := KeyPressed(s1, Terminals.ENTER, 0);
    var c, s3 := ShownAgain(s2, 1);
    var d, s4 := KeyPressed(s3, 66, 1);
    assert Reaches(s4, [], s4, []);
    hide Does, Reaches, TwoShells, Terminals.Step;
    ReachesFirst(s3, d, s4, [Terminals.Key(66)], [], s4, []);
    ReachesFirst(s2, c, s3, [Terminals.Switch(1)], [d] + [], s4, [Terminals.Key(66)] + []);
    var fs := [Terminals.Switch(1)] + ([Terminals.Key(66)] + []);
    ReachesFirst(s1, b, s2, [Terminals.Key(Terminals.ENTER)], [c] + ([d] + []), s4, fs);
    acts, r := [a] + ([b] + ([c] + ([d] + []))), s4;
    ReachesFirst(s, a, s1, [Terminals.Key(65)], [b] + ([c] + ([d] + [])), s4, [Terminals.Key(Terminals.ENTER)] + fs);
  }

  lemma LosingRun(m: Processes.Machine, sp: int) returns (acts: seq<Act>, r: State)
    requires ProcessRuns.Booting(m)
    ensures Reaches(Booted(m, sp), acts, r, LosingEvents())
  {
    var s := Booted(m, sp);
    var a, s1 := SecondIsLaunched(m, sp);
    assert s1.m.act == 1;
    hide Does, Reaches, TwoShells, Booted, ProcessRuns.Booting, Sessions.BootSystem;
    var b, s2 := ShownAgain(s1, 0);
    var c, s3 := TimerReturns(s2);
    var rest, last := TwoLines(s3);
    var fs := [Terminals.Key(65)] + ([Terminals.Key(Terminals.ENTER)] + ([Terminals.Switch(1)]
              + ([Terminals.Key(66)] + [])));
    ReachesFirst(s2, c, s3, [Terminals.Tick(0)], rest, last, fs);
    ReachesFirst(s1, b, s2, [Terminals.Switch(0)], [c] + rest, last, [Terminals.Tick(0)] + fs);
    var gs := [Terminals.Switch(0)] + ([Terminals.Tick(0)] + fs);
    var first := [Terminals.Switch(1), Terminals.Tick(1)];
    acts, r := [a] + ([b] + ([c] + rest)), last;
    ReachesFirst(s, a, s1, first, [b] + ([c] + rest), last, gs);
    EventsJoined();
  }

  lemma EventsJoined()
    ensures [Terminals.Switch(1), Terminals.Tick(1)] + ([Terminals.Switch(0)] + ([Terminals.Tick(0)]
            + ([Terminals.Key(65)] + ([Terminals.Key(Terminals.ENTER)] + ([Terminals.Switch(1)]
            + ([Terminals.Key(66)] + [])))))) == LosingEvents()
  {
  }

  function LosingEvents(): seq<Terminals.Event> {
    [Terminals.Switch(1), Terminals.Tick(1), Terminals.Switch(0), Terminals.Tick(0), Terminals.Key(65),
     Terminals.Key(Terminals.ENTER), Terminals.Switch(1), Terminals.Key(66)]
  }

  /**
   After boot the kernel reaches, by possible acts, the state in which a read of the shell in
   terminal 0 returns and clears what is typed in terminal 1.
   */
  lemma LineIsLost(m: Processes.Machine, sp: int) returns (acts: seq<Act>)
    requires ProcessRuns.Booting(m)
    ensures PossibleRun(Booted(m, sp), acts)
    ensures var r := Run(Booted(m, sp), acts); Matched(r) && Sessions.LosesLine(r.c)
  {
    var r;
    acts, r := LosingRun(m, sp);
    Loses(Booted(m, sp), acts, r);
  }

  lemma Loses(s: State, acts: seq<Act>, r: State)
    requires Reaches(s, acts, r, LosingEvents()) && s.c == Sessions.BootSystem()
    ensures Matched(r) && Sessions.LosesLine(r.c)
  {
    RunProjects(s, acts);
    RunMatches(s, acts);
    var _ := Sessions.LineTakenByOther();
    hide Matched, Sessions.LosesLine;
  }
}
