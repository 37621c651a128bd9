/**
 Whole runs of the process machine: every guarded run keeps the invariant, which guards are
 needed, what a halt undoes, how the scheduler rotates, and what the address map shows.
 */
module ProcessRuns {
  import opened Limits
  import opened Paging
  import opened Processes

  ghost predicate Consistent(s: Machine) {
    exists chains :: Inv(s, chains)
  }

  /** System calls and interrupts, each taken with the kernel stack pointer at sp. */
  datatype Call = Exec(found: Lookup, sp: int) | Exit(sp: int) | Timer(sp: int) | Show(n: int, sp: int)
                | MapVideo(screenStart: int)

  /** sp has not left the 8KB region the kernel stack pointer is in. */
  predicate SameStack(s: Machine, sp: int) {
    MaskedPcb(sp) == MaskedPcb(s.esp)
  }

  predicate IsRoot(s: Machine)
    requires |s.pcbs| == NUM_PROCS && |s.terms| == MAX_TERM && 0 <= s.act < MAX_TERM
  {
    0 <= s.terms[s.act].apn < NUM_PROCS && s.pcbs[s.terms[s.act].apn].number == s.pcbs[s.terms[s.act].apn].parent
  }

  ghost predicate Guarded(s: Machine, c: Call)
    requires Sized(s)
  {
    match c
    case Exec(found, sp) => SameStack(s, sp) && (found.Program? && FreePid(s.pids) != -1 ==> s.cur == s.act)
    case Exit(sp) => SameStack(s, sp) && (IsRoot(s) ==> s.cur == s.act)
    case Timer(sp) => SameStack(s, sp)
    case Show(n, sp) =>
      0 <= n && SameStack(s, sp) && (n < MAX_TERM && !s.terms[n].active ==> FreePid(s.pids) != -1)
    case MapVideo(_) => true
  }

  /** The process numbers the call looks up are not -1; every guarded call of a consistent state is so. */
  ghost predicate Callable(s: Machine, c: Call)
    requires Sized(s)
  {
    && s.terms[s.act].apn >= 0
    && (c.Timer? && (s.terms[1].active || s.terms[2].active) ==> s.terms[NextScheduled(s.terms, s.act)].apn >= 0)
    && (c.Show? ==> c.n >= 0)
  }

  ghost function Step(s: Machine, c: Call): (r: Machine)
    requires Sized(s)
    ensures Sized(r)
  {
    if !Callable(s, c) then s else
    match c
    case Exec(found, sp) => Execute(s, found, sp).0
    case Exit(sp) => Halt(s, sp)
    case Timer(sp) => Tick(s, sp)
    case Show(n, sp) => SwitchTo(s, n, sp)
    case MapVideo(screenStart) => Vidmap(s, screenStart).0
  }

  lemma StackInUse(s: Machine, chains: seq<seq<int>>, sp: int)
    requires Inv(s, chains)
    ensures SameStack(s, sp) <==> InStack(sp, s.terms[s.act].apn)
  {
    MaskFindsPcb(sp, s.terms[s.act].apn);
    MaskFindsPcb(s.esp, s.terms[s.act].apn);
  }

  lemma StepKeepsInv(s: Machine, chains: seq<seq<int>>, c: Call) returns (chains': seq<seq<int>>)
    requires Inv(s, chains) && Guarded(s, c)
    ensures Callable(s, c) && Inv(Step(s, c), chains')
  {
    chains' := chains;
    match c {
      case Exec(found, sp) =>
        StackInUse(s, chains, sp);
        if found.Program? && FreePid(s.pids) != -1 {
          chains' := ExecuteKeepsInv(s, chains, sp);
        }
      case Exit(sp) =>
        RootIffAlone(s, chains);
        chains' := HaltKeepsInv(s, chains, sp);
      case Timer(sp) =>
        StackInUse(s, chains, sp);
        TickKeepsInv(s, chains, sp);
      case Show(n, sp) =>
        StackInUse(s, chains, sp);
        chains' := SwitchKeepsInv(s, chains, n, sp);
      case MapVideo(screenStart) =>
        ForestSame(s, Vidmap(s, screenStart).0, chains);
        VideoWindowMapped(s.tables, false, 0);
    }
  }

  /** In a consistent state every guarded call finds live processes and leaves a consistent state. */
  lemma StepIsDefined(s: Machine, c: Call)
    requires Consistent(s) && Guarded(s, c)
    ensures Callable(s, c) && Consistent(Step(s, c))
  {
    var chains :| Inv(s, chains);
    var _ := StepKeepsInv(s, chains, c);
  }

  // ---------------------------------------------------------------- runs

  ghost predicate GuardedRun(s: Machine, cs: seq<Call>)
    requires Sized(s)
    decreases |cs|
  {
    cs == [] || (Guarded(s, cs[0]) && GuardedRun(Step(s, cs[0]), cs[1..]))
  }

  ghost function Run(s: Machine, cs: seq<Call>): (r: Machine)
    requires Sized(s) && GuardedRun(s, cs)
    ensures Sized(r)
    decreases |cs|
  {
    if cs == [] then s else Run(Step(s, cs[0]), cs[1..])
  }

  lemma {:induction false} RunKeepsInv(s: Machine, cs: seq<Call>)
    requires Consistent(s) && GuardedRun(s, cs)
    ensures Consistent(Run(s, cs))
    decreases |cs|
  {
    if cs != [] {
      StepIsDefined(s, cs[0]);
      RunKeepsInv(Step(s, cs[0]), cs[1..]);
    }
  }

  /** The machine before init_terminal executes the first shell. */
  ghost predicate Booting(s: Machine) {
    && Sized(s) && s.cur == 0 && s.act == 0 && FixedEntries(s.tables)
    && (forall p :: 0 <= p < NUM_PROCS ==> !s.pids[p]) && (forall t :: 0 <= t < MAX_TERM ==> !s.terms[t].active)
  }

  lemma BootReachesInv(s: Machine, sp: int)
    requires Booting(s)
    ensures Consistent(Execute(s, Program, sp).0) && Execute(s, Program, sp).0.terms[0] == Term(true, 0)
  {
    var chains: seq<seq<int>> := [[], [], []];
    assert Forest(s, chains) by {
      assert forall t :: 0 <= t < MAX_TERM ==> chains[t] == [];
    }
    assert FreePid(s.pids) == 0;
    FirstProcess(s, chains, sp);
  }

  // ---------------------------------------------------------------- what the invariant says

  /** The k-th ancestor of p along the parent links. */
  ghost function Ancestor(s: Machine, p: int, k: nat): (q: int)
    requires Sized(s) && 0 <= p < NUM_PROCS
    ensures 0 <= q < NUM_PROCS
  {
    if k == 0 then p else s.pcbs[Ancestor(s, p, k - 1)].parent
  }

  lemma {:induction false} AncestorInChain(s: Machine, t: int, chain: seq<int>, k: nat)
    requires Sized(s) && Chain(s, t, chain) && k < |chain| && 0 <= chain[|chain| - 1] < NUM_PROCS
    ensures Ancestor(s, chain[|chain| - 1], k) == chain[|chain| - 1 - k]
  {
    if k > 0 {
      AncestorInChain(s, t, chain, k - 1);
      assert Link(s, t, chain, |chain| - k);
    }
  }

  /** p is apn or one of its ancestors up to the given depth. */
  ghost predicate Above(s: Machine, apn: int, depth: nat, p: int)
    requires Sized(s) && 0 <= apn < NUM_PROCS
  {
    exists k :: 0 <= k <= depth && Ancestor(s, apn, k) == p
  }

  /**
   The process forest: the live processes of an active terminal are its active process and the
   ancestors of it, all different, up to a root that is its own parent.
   */
  lemma ForestOfParents(s: Machine, t: int) returns (depth: nat)
    requires Consistent(s) && 0 <= t < MAX_TERM && s.terms[t].active
    ensures var apn := s.terms[t].apn;
            && (forall i, j :: 0 <= i < j <= depth ==> Ancestor(s, apn, i) != Ancestor(s, apn, j))
            && s.pcbs[Ancestor(s, apn, depth)].parent == Ancestor(s, apn, depth)
            && (forall p :: 0 <= p < NUM_PROCS ==> (s.pids[p] && s.pcbs[p].term == t <==> Above(s, apn, depth, p)))
  {
    var chains :| Inv(s, chains);
    depth := |chains[t]| - 1;
    AncestorsAreChain(s, chains, t);
    hide Ancestor, Running, Consistent, Inv, Forest, Above;
    forall p | 0 <= p < NUM_PROCS
      ensures s.pids[p] && s.pcbs[p].term == t <==> Above(s, s.terms[t].apn, depth, p)
    {
      ChainIsAbove(s, chains, t, depth, p);
    }
  }

  lemma AncestorsAreChain(s: Machine, chains: seq<seq<int>>, t: int)
    requires Sized(s) && Forest(s, chains) && 0 <= t < MAX_TERM && s.terms[t].active
    ensures chains[t] != [] && 0 <= s.terms[t].apn < NUM_PROCS
    ensures var apn, depth := s.terms[t].apn, |chains[t]| - 1;
            && (forall k :: 0 <= k <= depth ==> Ancestor(s, apn, k) == chains[t][depth - k])
            && (forall i, j :: 0 <= i < j <= depth ==> Ancestor(s, apn, i) != Ancestor(s, apn, j))
            && s.pcbs[Ancestor(s, apn, depth)].parent == Ancestor(s, apn, depth)
  {
    var chain, apn := chains[t], s.terms[t].apn;
    ActiveProcess(s, chains, t);
    assert Chain(s, t, chain) && Link(s, t, chain, 0);
    forall k | 0 <= k <= |chain| - 1 ensures Ancestor(s, apn, k) == chain[|chain| - 1 - k] {
      AncestorInChain(s, t, chain, k);
    }
    hide Ancestor, Forest;
  }

  lemma ChainIsAbove(s: Machine, chains: seq<seq<int>>, t: int, depth: nat, p: int)
    requires Sized(s) && Forest(s, chains) && 0 <= t < MAX_TERM && depth == |chains[t]| - 1
    requires 0 <= s.terms[t].apn < NUM_PROCS && 0 <= p < NUM_PROCS
    requires forall k :: 0 <= k <= depth ==> Ancestor(s, s.terms[t].apn, k) == chains[t][depth - k]
    ensures s.pids[p] && s.pcbs[p].term == t <==> Above(s, s.terms[t].apn, depth, p)
  {
    if s.pids[p] && s.pcbs[p].term == t {
      var i :| 0 <= i < |chains[t]| && chains[t][i] == p;
      assert Ancestor(s, s.terms[t].apn, depth - i) == p;
    }
    if k :| 0 <= k <= depth && Ancestor(s, s.terms[t].apn, k) == p {
      assert p in chains[t];
      InChain(s, chains, t, p);
    }
  }

  /** A live process belongs to an active terminal. */
  lemma LiveMeansActive(s: Machine, p: int)
    requires Consistent(s) && 0 <= p < NUM_PROCS && s.pids[p]
    ensures s.terms[s.pcbs[p].term].active
  {
    var chains :| Inv(s, chains);
    assert p in chains[s.pcbs[p].term];
  }

  /** Masking the stack pointer finds the same PCB as the executing terminal's process number. */
  lemma LookupsAgree(s: Machine, sp: int)
    requires Consistent(s) && SameStack(s, sp)
    ensures MaskedPcb(sp) == PcbAddress(s.terms[s.act].apn) && InStack(s.esp0, s.terms[s.act].apn)
  {
    var chains :| Inv(s, chains);
    StackInUse(s, chains, sp);
    MaskFindsPcb(sp, s.terms[s.act].apn);
  }

  /** The address map in every reachable state. */
  lemma AddressMap(s: Machine)
    requires Consistent(s)
    ensures MapsLargePage(s.tables, MB4, MB4) && MapsPage(s.tables, VIDEO, VIDEO)
    ensures forall t :: 0 <= t < MAX_TERM ==> MapsPage(s.tables, BackingPage(t), BackingPage(t))
    ensures MapsLargePage(s.tables, MB128, Frame(s.terms[s.act].apn))
  {
    FixedPartIsIdentity(s.tables);
    UserPageMapped(s.tables, s.terms[s.act].apn);
  }

  /** Right after a context switch or a switch between active terminals, 136MB is the executing terminal's screen. */
  lemma VideoFollowsTerminal(s: Machine, c: Call)
    requires Consistent(s) && Guarded(s, c)
    requires (c.Timer? && (s.terms[1].active || s.terms[2].active))
             || (c.Show? && c.n < MAX_TERM && c.n != s.cur && s.terms[c.n].active)
    ensures var r := Step(s, c); MapsPage(r.tables, MB136, ScreenPage(r))
  {
    var chains :| Inv(s, chains);
    if c.Timer? {
      SchedulerPicksLive(s, chains);
      var to := NextScheduled(s.terms, s.act);
      TickMaps(s.tables, s.terms[to].apn, to != s.cur, to);
    } else {
      VideoWindowMapped(s.tables, s.act != c.n, s.act);
    }
  }

  /**
   vidmap fails without change exactly for the addresses 0 and 4MB; otherwise 136MB is video memory,
   which is the executing terminal's screen if and only if that terminal is displayed.
   */
  lemma VidmapExact(s: Machine, screenStart: int)
    requires Consistent(s)
    ensures var (r, result) := Vidmap(s, screenStart);
            && (result == -1 <==> screenStart == 0 || screenStart == MB4)
            && (result == -1 ==> r == s)
            && (result != -1 ==> result == MB136 && r == s.(tables := r.tables) && MapsPage(r.tables, MB136, VIDEO)
                                 && (MapsPage(r.tables, MB136, ScreenPage(s)) <==> s.act == s.cur))
  {
    var (r, result) := Vidmap(s, screenStart);
    if result != -1 {
      VideoWindowMapped(s.tables, false, 0);
      hide WithWindow, FixedEntries, Consistent;
      OnlyVideo(r.tables, s.act);
    }
  }

  lemma OnlyVideo(t: Tables, act: int)
    requires TablesOk(t) && MapsPage(t, MB136, VIDEO) && 0 <= act
    ensures !MapsPage(t, MB136, BackingPage(act))
  {
    hide MapsPage;
    if MapsPage(t, MB136, BackingPage(act)) {
      MapsOnce(t, MB136, VIDEO, BackingPage(act));
    }
  }

  /** Where the executing terminal's characters are. */
  function ScreenPage(s: Machine): int {
    if s.act == s.cur then VIDEO else BackingPage(s.act)
  }

  // ---------------------------------------------------------------- the guards are exact

  /** A successful execute keeps the invariant if and only if the displayed terminal is the executing one. */
  lemma ExecuteGuardExact(s: Machine, sp: int)
    requires Consistent(s) && SameStack(s, sp) && FreePid(s.pids) != -1
    ensures Consistent(Execute(s, Program, sp).0) <==> s.cur == s.act
  {
    var chains :| Inv(s, chains);
    if s.cur == s.act {
      StackInUse(s, chains, sp);
      var _ := ExecuteKeepsInv(s, chains, sp);
    } else {
      ActiveProcess(s, chains, s.act);
      hide Forest, FixedEntries;
      var s', pid := Execute(s, Program, sp).0, FreePid(s.pids);
      assert s'.terms[s'.act] == s.terms[s.act] && s'.esp == StackTop(pid) && pid != s.terms[s.act].apn;
      assert !InStack(StackTop(pid), s.terms[s.act].apn);
    }
  }

  lemma RelaunchGuardExact(s: Machine, sp: int)
    requires Consistent(s) && SameStack(s, sp) && IsRoot(s)
    ensures Consistent(Halt(s, sp)) <==> s.cur == s.act
  {
    var chains :| Inv(s, chains);
    RootIffAlone(s, chains);
    if s.cur == s.act {
      var _ := HaltKeepsInv(s, chains, sp);
    } else {
      assert Halt(s, sp) == Execute(RootFreed(s), Program, sp).0;
      assert !RootFreed(s).pids[s.terms[s.act].apn];
      assert !Halt(s, sp).terms[s.act].active && Halt(s, sp).act == s.act;
    }
  }

  lemma LaunchGuardExact(s: Machine, n: int, sp: int)
    requires Consistent(s) && SameStack(s, sp) && 0 <= n < MAX_TERM && !s.terms[n].active
    ensures Consistent(SwitchTo(s, n, sp)) <==> FreePid(s.pids) != -1
  {
    var chains :| Inv(s, chains);
    StackInUse(s, chains, sp);
    if FreePid(s.pids) != -1 {
      var _ := SwitchKeepsInv(s, chains, n, sp);
    }
  }

  lemma FirstShell(s: Machine, sp: int)
    requires Booting(s)
    ensures var e := Execute(s, Program, sp).0;
            && e.cur == e.act == 0 && FreePid(e.pids) == 1 && !e.pids[2] && e.terms[0] == Term(true, 0)
            && !e.terms[1].active && !e.terms[2].active && e.pcbs[0].number == e.pcbs[0].parent == 0
  {
    assert FreePid(s.pids) == 0;
  }

  lemma SecondShell(e: Machine, sp: int)
    requires Sized(e) && e.cur == e.act == 0 && FreePid(e.pids) == 1 && !e.pids[2] && e.terms[0] == Term(true, 0)
    requires !e.terms[1].active && !e.terms[2].active && e.pcbs[0].number == e.pcbs[0].parent == 0
    ensures var m := SwitchTo(e, 1, sp);
            && m.cur == m.act == 1 && m.terms[0] == Term(true, 0) && m.terms[1] == Term(true, 1) && !m.terms[2].active
            && FreePid(m.pids) == 2
            && m.pids == e.pids[1 := true] && m.pcbs[0].number == m.pcbs[0].parent == 0
  {
  }

  /**
   Right after boot: launch a second terminal and let the timer switch back, passing terminal 2.
   The root shell then runs behind another terminal with a number free, which fails the guards of
   execute and of a root's halt.
   */
  lemma ShellBehindDisplayed(s: Machine, bootSp: int) returns (cs: seq<Call>)
    requires Booting(s)
    ensures var e := Execute(s, Program, bootSp).0;
            && GuardedRun(e, cs)
            && var r := Run(e, cs);
               && Consistent(r) && r.cur == 1 && r.act == 0 && IsRoot(r) && FreePid(r.pids) == 2
               && !Consistent(Execute(r, Program, r.esp).0) && !Consistent(Halt(r, r.esp))
  {
    var e := Execute(s, Program, bootSp).0;
    FirstShell(s, bootSp);
    BootReachesInv(s, bootSp);
    hide Execute, SwitchTo, Consistent, Halt;
    var m := SwitchTo(e, 1, e.esp);
    StepIsDefined(e, Show(1, e.esp));
    SecondShell(e, e.esp);
    cs := [Show(1, e.esp), Timer(m.esp)];
    TwoSteps(e, cs);
    StepIsDefined(m, cs[1]);
    var r := Tick(m, m.esp);
    assert r.pids == m.pids;
    ExecuteGuardExact(r, r.esp);
    RelaunchGuardExact(r, r.esp);
  }

  lemma TwoSteps(s: Machine, cs: seq<Call>)
    requires Sized(s) && |cs| == 2 && Guarded(s, cs[0]) && Guarded(Step(s, cs[0]), cs[1])
    ensures GuardedRun(s, cs) && Run(s, cs) == Step(Step(s, cs[0]), cs[1])
  {
    hide Step, Guarded;
    assert cs[1..][0] == cs[1] && cs[1..][1..] == [];
    var m := Step(s, cs[0]);
    assert GuardedRun(m, cs[1..]);
    assert Run(m, cs[1..]) == Run(Step(m, cs[1]), []);
  }

  /** Each process executes the next one, from number i on. */
  ghost function Nesting(i: int): (cs: seq<Call>)
    decreases NUM_PROCS - i
  {
    if i >= NUM_PROCS then [] else [Exec(Program, StackTop(i - 1))] + Nesting(i + 1)
  }

  ghost predicate Nested(s: Machine, i: int) {
    && Consistent(s) && s.cur == s.act == 0 && s.esp == StackTop(i - 1) && !s.terms[1].active
    && forall p :: 0 <= p < NUM_PROCS ==> (s.pids[p] <==> p < i)
  }

  lemma {:induction false} NestingFills(s: Machine, i: int)
    requires 1 <= i <= NUM_PROCS && Nested(s, i)
    ensures GuardedRun(s, Nesting(i)) && Nested(Run(s, Nesting(i)), NUM_PROCS)
    decreases NUM_PROCS - i
  {
    if i < NUM_PROCS {
      assert FreePid(s.pids) == i;
      StepIsDefined(s, Nesting(i)[0]);
      hide Consistent, Forest;
      NestingFills(Step(s, Nesting(i)[0]), i + 1);
    }
  }

  /** Five executes fill the process table, which fails the guard of a launch. */
  lemma FullTable(s: Machine, bootSp: int)
    requires Booting(s)
    ensures var e := Execute(s, Program, bootSp).0;
            && GuardedRun(e, Nesting(1))
            && var r := Run(e, Nesting(1));
               && Consistent(r) && FreePid(r.pids) == -1 && !r.terms[1].active
               && !Consistent(SwitchTo(r, 1, r.esp))
  {
    BootReachesInv(s, bootSp);
    var e := Execute(s, Program, bootSp).0;
    assert FreePid(s.pids) == 0;
    NestingFills(e, 1);
    hide Consistent;
    var r := Run(e, Nesting(1));
    LaunchGuardExact(r, 1, r.esp);
  }

  // ---------------------------------------------------------------- interrupts inside a call

  ghost predicate Switching(s: Machine)
    requires Sized(s)
  {
    s.terms[1].active || s.terms[2].active
  }

  /**
   halt allows interrupts before it leaves the halted process's stack.  A tick there keeps the
   invariant if and only if it switches to no other terminal: otherwise the parent's saved stack
   pointer is one into the freed stack.
   */
  lemma HaltWindow(s: Machine, sp: int, tickSp: int)
    requires Consistent(s) && SameStack(s, sp) && SameStack(s, tickSp) && !IsRoot(s)
    ensures var h := Halt(s, sp); var w := h.(esp := sp);
            && (!Switching(s) ==> Tick(w, tickSp).(esp := h.esp) == h && Consistent(h))
            && (Switching(s) ==> w.terms[NextScheduled(w.terms, w.act)].apn >= 0 && !Consistent(Tick(w, tickSp)))
  {
    var chains :| Inv(s, chains);
    StackInUse(s, chains, tickSp);
    RootIffAlone(s, chains);
    ActiveProcess(s, chains, s.act);
    var chains' := HaltKeepsInv(s, chains, sp);
    hide Forest, FixedEntries, Consistent;
    if Switching(s) {
      var h := Halt(s, sp);
      SchedulerPicksLive(h, chains');
      OldStackSaved(h.(esp := sp), tickSp);
    }
  }

  /** A switch that saves a pointer outside the stack of the process it leaves reaches no consistent state. */
  lemma OldStackSaved(w: Machine, tickSp: int)
    requires Sized(w) && Switching(w) && w.terms[w.act].apn >= 0 && w.terms[w.act].active
    requires var n := NextScheduled(w.terms, w.act); n != w.act && w.terms[n].apn >= 0
    requires !InStack(tickSp, w.terms[w.act].apn)
    ensures !Consistent(Tick(w, tickSp))
  {
  }

  /**
   execute allows interrupts before it enters the new process, still on its caller's stack.  A
   tick there that switches saves tickSp for the new process, and keeps the invariant if and only
   if that is in the new process's own stack, as in a relaunch that reuses the number.
   */
  lemma ExecuteWindow(s: Machine, sp: int, tickSp: int)
    requires Sized(s) && FreePid(s.pids) != -1 && Consistent(Execute(s, Program, sp).0)
    ensures var e := Execute(s, Program, sp).0; var w := e.(esp := sp);
            && (!Switching(e) ==> Tick(w, tickSp).(esp := e.esp) == e)
            && (Switching(e) ==> w.terms[NextScheduled(w.terms, w.act)].apn >= 0
                                 && (Consistent(Tick(w, tickSp)) <==> InStack(tickSp, FreePid(s.pids))))
  {
    var e, pid := Execute(s, Program, sp).0, FreePid(s.pids);
    var chains :| Inv(e, chains);
    if Switching(e) {
      SchedulerPicksLive(e, chains);
      assert e.terms[e.cur].apn == pid;
      hide Forest, FixedEntries, Execute, Consistent;
      if InStack(tickSp, pid) {
        TickKeepsInv(e, chains, tickSp);
        assert Tick(e.(esp := sp), tickSp) == Tick(e, tickSp);
        assert Consistent(Tick(e, tickSp));
      } else {
        OldStackSaved(e.(esp := sp), tickSp);
      }
    }
  }

  /** When a program executes another one, a tick in that window keeps the invariant exactly if it does not switch. */
  lemma NestedExecuteWindow(s: Machine, sp: int, tickSp: int)
    requires Consistent(s) && s.cur == s.act && SameStack(s, sp) && SameStack(s, tickSp) && FreePid(s.pids) != -1
    ensures var e := Execute(s, Program, sp).0; var w := e.(esp := sp);
            && (!Switching(s) ==> Tick(w, tickSp).(esp := e.esp) == e && Consistent(e))
            && (Switching(s) ==> w.terms[NextScheduled(w.terms, w.act)].apn >= 0 && !Consistent(Tick(w, tickSp)))
  {
    var chains :| Inv(s, chains);
    StackInUse(s, chains, sp);
    StackInUse(s, chains, tickSp);
    ActiveProcess(s, chains, s.act);
    var _ := ExecuteKeepsInv(s, chains, sp);
    ExecuteWindow(s, sp, tickSp);
    assert !InStack(tickSp, FreePid(s.pids));
  }

  /** The displayed terminal is still inactive, and everything else is as it should be. */
  ghost predicate Launching(s: Machine) {
    && Sized(s) && Consistent(s.(cur := s.act)) && !s.terms[s.cur].active
    && forall t :: 0 <= t < MAX_TERM && s.terms[t].active ==> InStack(s.pcbs[s.terms[t].apn].esp, s.terms[t].apn)
  }

  lemma TickKeepsLaunching(s: Machine, sp: int)
    requires Launching(s) && SameStack(s, sp)
    ensures Callable(s, Timer(sp)) && Launching(Tick(s, sp)) && Tick(s, sp).pids == s.pids
  {
    var shown := s.(cur := s.act);
    var chains :| Inv(shown, chains);
    StackInUse(shown, chains, sp);
    hide Forest, FixedEntries;
    if Switching(s) {
      SchedulerPicksLive(shown, chains);
      SwitchWhileLaunching(s, chains, sp);
    }
  }

  lemma SwitchWhileLaunching(s: Machine, chains: seq<seq<int>>, sp: int)
    requires 0 <= s.cur < MAX_TERM && 0 <= s.act < MAX_TERM && Inv(s.(cur := s.act), chains)
    requires InStack(sp, s.terms[s.act].apn) && Switching(s)
    requires forall t :: 0 <= t < MAX_TERM && s.terms[t].active ==> InStack(s.pcbs[s.terms[t].apn].esp, s.terms[t].apn)
    requires var n := NextScheduled(s.terms, s.act);
             n != s.act && s.terms[n].active && s.terms[n].apn >= 0 && s.pcbs[s.terms[n].apn].term == n
             && s.terms[n].apn != s.terms[s.act].apn
    ensures Inv(Tick(s, sp).(cur := Tick(s, sp).act), chains)
  {
    var to, s' := NextScheduled(s.terms, s.act), Tick(s, sp);
    TickMaps(s.tables, s.terms[to].apn, to != s.cur, to);
    ForestSame(s.(cur := s.act), s'.(cur := to), chains);
    hide Forest, FixedEntries, VideoWindow, WithLargePage, UserPageIs, NextScheduled;
  }

  ghost predicate TicksFit(s: Machine, sps: seq<int>)
    requires Sized(s)
    decreases |sps|
  {
    sps == [] || (Callable(s, Timer(sps[0])) && SameStack(s, sps[0]) && TicksFit(Tick(s, sps[0]), sps[1..]))
  }

  ghost function Ticks(s: Machine, sps: seq<int>): (r: Machine)
    requires Sized(s) && TicksFit(s, sps)
    ensures Sized(r)
    decreases |sps|
  {
    if sps == [] then s else Ticks(Tick(s, sps[0]), sps[1..])
  }

  lemma {:induction false} TicksKeepLaunching(s: Machine, sps: seq<int>)
    requires Launching(s) && TicksFit(s, sps)
    ensures Launching(Ticks(s, sps)) && Ticks(s, sps).pids == s.pids
    decreases |sps|
  {
    if sps != [] {
      TickKeepsLaunching(s, sps[0]);
      TicksKeepLaunching(Tick(s, sps[0]), sps[1..]);
    }
  }

  /**
   switch_terminal allows interrupts between recording the new terminal and its shell's execute.
   After any ticks there the execute still ends in a state with the invariant; what it does to the
   caller's saved stack pointer is in LaunchKeepsPointer.
   */
  lemma LaunchWindow(s: Machine, n: int, sp: int, sps: seq<int>, sp': int)
    requires Consistent(s) && SameStack(s, sp) && 0 <= n < MAX_TERM && !s.terms[n].active && FreePid(s.pids) != -1
    requires TicksFit(Recorded(s, n, sp), sps)
    ensures var w := Recorded(s, n, sp);
            && SwitchTo(s, n, sp) == Execute(w, Program, sp).0
            && Consistent(Execute(Ticks(w, sps), Program, sp').0)
  {
    var chains :| Inv(s, chains);
    ActiveProcess(s, chains, s.act);
    var w := Recorded(s, n, sp);
    RecordedIsLaunching(s, chains, n, sp);
    TicksKeepLaunching(w, sps);
    hide Ticks, TicksFit, Launching;
    LaunchCompletes(Ticks(w, sps), sp');
  }

  lemma {:induction false} TicksSavePointer(s: Machine, sps: seq<int>, caller: int)
    requires Launching(s) && TicksFit(s, sps) && 0 <= caller < NUM_PROCS
    ensures var was, now := s.pcbs[caller].esp, Ticks(s, sps).pcbs[caller].esp;
            && (now == was || now in sps) && (!Switching(s) ==> now == was)
            && (Switching(s) && sps != [] && s.terms[s.act].apn == caller ==> now in sps)
    decreases |sps|
  {
    if sps != [] {
      TickKeepsLaunching(s, sps[0]);
      TickSavesPointer(s, sps[0], caller);
      hide Tick, Launching, Switching, Sized;
      TicksSavePointer(Tick(s, sps[0]), sps[1..], caller);
    }
  }

  lemma TickSavesPointer(s: Machine, sp: int, caller: int)
    requires Sized(s) && Callable(s, Timer(sp)) && 0 <= caller < NUM_PROCS
    ensures var now := Tick(s, sp).pcbs[caller].esp;
            (Switching(Tick(s, sp)) <==> Switching(s))
            && now == if Switching(s) && s.terms[s.act].apn == caller then sp else s.pcbs[caller].esp
  {
  }

  /**
   The launch leaves its caller the stack pointer switch_terminal recorded if and only if no tick
   in the window switched.  A tick that did saved its own, deeper frame, which the caller's
   execute then builds over.
   */
  lemma LaunchKeepsPointer(s: Machine, n: int, sp: int, sps: seq<int>, sp': int)
    requires Consistent(s) && SameStack(s, sp) && 0 <= n < MAX_TERM && !s.terms[n].active && FreePid(s.pids) != -1
    requires TicksFit(Recorded(s, n, sp), sps) && sp !in sps
    ensures var caller, r := s.terms[s.act].apn, Execute(Ticks(Recorded(s, n, sp), sps), Program, sp').0;
            && SwitchTo(s, n, sp).pcbs[caller].esp == sp && s.pids[caller]
            && (r.pcbs[caller].esp == sp <==> sps == [] || !Switching(s))
            && (r.pcbs[caller].esp == sp || r.pcbs[caller].esp in sps)
  {
    LaunchWindow(s, n, sp, sps, sp');
    var chains :| Inv(s, chains);
    ActiveProcess(s, chains, s.act);
    var w, caller := Recorded(s, n, sp), s.terms[s.act].apn;
    RecordedIsLaunching(s, chains, n, sp);
    TicksKeepLaunching(w, sps);
    TicksSavePointer(w, sps, caller);
    hide Ticks, TicksFit, Launching, Consistent, Forest, FixedEntries;
    assert FreePid(s.pids) != caller;
  }

  lemma RecordedIsLaunching(s: Machine, chains: seq<seq<int>>, n: int, sp: int)
    requires Inv(s, chains) && SameStack(s, sp) && 0 <= n < MAX_TERM && !s.terms[n].active && s.terms[s.act].apn >= 0
    ensures Launching(Recorded(s, n, sp))
  {
    StackInUse(s, chains, sp);
    var w := Recorded(s, n, sp);
    ForestSame(s, w.(cur := s.act), chains);
    assert Inv(w.(cur := s.act), chains);
  }

  ghost function Recorded(s: Machine, n: int, sp: int): (r: Machine)
    requires Sized(s) && 0 <= n < MAX_TERM && s.terms[s.act].apn >= 0
    ensures Sized(r)
  {
    var running := s.terms[s.act].apn;
    s.(cur := n, pcbs := s.pcbs[running := s.pcbs[running].(esp := sp)])
  }

  lemma LaunchCompletes(s: Machine, sp: int)
    requires Launching(s) && FreePid(s.pids) != -1
    ensures Consistent(Execute(s, Program, sp).0)
  {
    var chains :| Inv(s.(cur := s.act), chains);
    ForestSame(s.(cur := s.act), s, chains);
    FirstProcess(s, chains, sp);
  }

  // ---------------------------------------------------------------- execute and halt

  /** Halting a process that was just executed gives back its number, its page and the caller's stack. */
  lemma HaltUndoesExecute(s: Machine, sp: int, sp': int)
    requires Consistent(s) && s.cur == s.act && SameStack(s, sp) && FreePid(s.pids) != -1
    ensures var r := Halt(Execute(s, Program, sp).0, sp');
            && r.pids == s.pids && r.terms == s.terms && r.tables == s.tables
            && r.cur == s.cur && r.act == s.act && r.esp == sp
            && forall p :: 0 <= p < NUM_PROCS && s.pids[p] ==> r.pcbs[p] == s.pcbs[p]
  {
    var chains :| Inv(s, chains);
    RootIffAlone(s, chains);
    var r := Halt(Execute(s, Program, sp).0, sp');
    assert r.tables.dir == s.tables.dir;
  }

  /** Live process pid of terminal t was executed by parent, which left its stack pointer at sp. */
  ghost predicate Child(s: Machine, t: int, pid: int, parent: int, sp: int)
    requires Sized(s)
  {
    && 0 <= t < MAX_TERM && 0 <= pid < NUM_PROCS && 0 <= parent < NUM_PROCS && parent != pid
    && s.pids[pid] && s.pcbs[pid] == Pcb(pid, parent, t, sp, s.pcbs[pid].esp)
    && s.pids[parent] && s.pcbs[parent].number == parent && s.pcbs[parent].term == t
  }

  /** The call does not halt process pid. */
  ghost predicate Spares(s: Machine, c: Call, pid: int)
    requires Sized(s)
  {
    c.Exit? ==> s.terms[s.act].apn != pid
  }

  /** A process that has executed another one is not what its terminal runs. */
  lemma CallerWaits(s: Machine, t: int, pid: int, parent: int, sp: int)
    requires Consistent(s) && Child(s, t, pid, parent, sp)
    ensures s.terms[t].active && s.terms[t].apn != parent
  {
    var chains :| Inv(s, chains);
    assert Chain(s, t, chains[t]);
    var i :| 0 <= i < |chains[t]| && chains[t][i] == pid;
    assert Link(s, t, chains[t], i);
  }

  /** An execute takes a free number, so it is neither the child's nor the parent's. */
  lemma ExecuteKeepsChild(s: Machine, found: Lookup, stack: int, t: int, pid: int, parent: int, sp: int)
    requires Sized(s) && Child(s, t, pid, parent, sp)
    ensures Child(Execute(s, found, stack).0, t, pid, parent, sp)
  {
    assert FreePid(s.pids) != pid && FreePid(s.pids) != parent;
  }

  /** The process that halts is neither the child nor its waiting parent. */
  lemma HaltKeepsChild(s: Machine, stack: int, t: int, pid: int, parent: int, sp: int)
    requires Consistent(s) && Child(s, t, pid, parent, sp) && s.terms[s.act].apn != pid
    ensures Child(Halt(s, stack), t, pid, parent, sp)
  {
    CallerWaits(s, t, pid, parent, sp);
    var chains :| Inv(s, chains);
    ActiveProcess(s, chains, s.act);
    RootIffAlone(s, chains);
    hide Forest, FixedEntries, Consistent, Inv, Running, InStack, Execute;
    assert s.terms[s.act].apn != parent;
    if IsRoot(s) {
      assert Halt(s, stack) == Execute(RootFreed(s), Program, stack).0;
      ExecuteKeepsChild(RootFreed(s), Program, stack, t, pid, parent, sp);
    }
  }

  lemma SwitchKeepsChild(s: Machine, n: int, stack: int, t: int, pid: int, parent: int, sp: int)
    requires Sized(s) && 0 <= n && s.terms[s.act].apn >= 0 && Child(s, t, pid, parent, sp)
    ensures Child(SwitchTo(s, n, stack), t, pid, parent, sp)
  {
    if n < MAX_TERM && !s.terms[n].active {
      var running := s.terms[s.act].apn;
      var m := s.(cur := n, pcbs := s.pcbs[running := s.pcbs[running].(esp := stack)]);
      assert Child(m, t, pid, parent, sp);
      ExecuteKeepsChild(m, Program, stack, t, pid, parent, sp);
    }
  }

  lemma TickKeepsChild(s: Machine, stack: int, t: int, pid: int, parent: int, sp: int)
    requires Sized(s) && s.terms[s.act].apn >= 0 && Child(s, t, pid, parent, sp)
    requires s.terms[1].active || s.terms[2].active ==> s.terms[NextScheduled(s.terms, s.act)].apn >= 0
    ensures Child(Tick(s, stack), t, pid, parent, sp)
  {
  }

  lemma StepKeepsChild(s: Machine, c: Call, t: int, pid: int, parent: int, sp: int)
    requires Consistent(s) && Guarded(s, c) && Spares(s, c, pid) && Child(s, t, pid, parent, sp)
    ensures Child(Step(s, c), t, pid, parent, sp)
  {
    StepIsDefined(s, c);
    hide Execute, Halt, Tick, SwitchTo, Consistent;
    match c {
      case Exec(found, stack) => ExecuteKeepsChild(s, found, stack, t, pid, parent, sp);
      case Exit(stack) => HaltKeepsChild(s, stack, t, pid, parent, sp);
      case Timer(stack) => TickKeepsChild(s, stack, t, pid, parent, sp);
      case Show(n, stack) => SwitchKeepsChild(s, n, stack, t, pid, parent, sp);
      case MapVideo(screenStart) => assert Child(Vidmap(s, screenStart).0, t, pid, parent, sp);
    }
  }

  ghost predicate SparingRun(s: Machine, cs: seq<Call>, pid: int)
    requires Sized(s) && GuardedRun(s, cs)
    decreases |cs|
  {
    cs == [] || (Spares(s, cs[0], pid) && SparingRun(Step(s, cs[0]), cs[1..], pid))
  }

  /** Until it halts, an executed process keeps its parent and its parent's saved stack, also while it waits itself. */
  lemma {:induction false} RunKeepsChild(s: Machine, cs: seq<Call>, t: int, pid: int, parent: int, sp: int)
    requires Consistent(s) && GuardedRun(s, cs) && SparingRun(s, cs, pid) && Child(s, t, pid, parent, sp)
    ensures Child(Run(s, cs), t, pid, parent, sp)
    decreases |cs|
  {
    if cs != [] {
      StepIsDefined(s, cs[0]);
      StepKeepsChild(s, cs[0], t, pid, parent, sp);
      RunKeepsChild(Step(s, cs[0]), cs[1..], t, pid, parent, sp);
    }
  }

  /**
   Whatever happens in between, including executes and halts of further processes in the same
   terminal, the halt of an executed process gives its terminal, page and stack back to the
   process that executed it, and frees exactly its number.
   */
  lemma HaltReturnsToCaller(s: Machine, sp: int, cs: seq<Call>, sp': int)
    requires Consistent(s) && s.cur == s.act && SameStack(s, sp) && FreePid(s.pids) != -1
    requires var e := Execute(s, Program, sp).0;
             && GuardedRun(e, cs) && SparingRun(e, cs, FreePid(s.pids))
             && Run(e, cs).terms[Run(e, cs).act].apn == FreePid(s.pids)
    ensures var r, t, pid := Run(Execute(s, Program, sp).0, cs), s.act, FreePid(s.pids);
            var h := Halt(r, sp');
            && r.act == t && h.terms == r.terms[t := s.terms[t]] && h.pids == r.pids[pid := false]
            && UserPageIs(h.tables, s.terms[t].apn) && h.esp == h.esp0 == sp && InStack(sp, s.terms[t].apn)
  {
    var chains :| Inv(s, chains);
    StackInUse(s, chains, sp);
    RootIffAlone(s, chains);
    ActiveProcess(s, chains, s.act);
    var e, pid, parent := Execute(s, Program, sp).0, FreePid(s.pids), s.terms[s.act].apn;
    var _ := ExecuteKeepsInv(s, chains, sp);
    hide Forest, FixedEntries;
    assert Child(e, s.act, pid, parent, sp);
    RunKeepsChild(e, cs, s.act, pid, parent, sp);
    var r := Run(e, cs);
    RunKeepsInv(e, cs);
    var chains' :| Inv(r, chains');
    ActiveProcess(r, chains', r.act);
    PageRemapEntry(r.tables, parent);
  }

  lemma PageRemapEntry(t: Tables, pid: int)
    requires TablesOk(t)
    ensures UserPageIs(WithLargePage(t, MB128, Frame(pid)), pid)
  {
  }

  /** An execute that fails changes nothing: no such file, not an executable, or no free number. */
  lemma FailedExecuteChangesNothing(s: Machine, found: Lookup, sp: int)
    requires Sized(s)
    ensures Execute(s, found, sp).1 == -1 <==> !found.Program? || forall p :: 0 <= p < NUM_PROCS ==> s.pids[p]
    ensures Execute(s, found, sp).1 == -1 ==> Execute(s, found, sp).0 == s
    ensures Execute(s, found, sp).1 != -1 ==>
              exists p :: 0 <= p < NUM_PROCS && !s.pids[p] && Execute(s, found, sp).0.pids == s.pids[p := true]
  {
    var p := FreePid(s.pids);
    if found.Program? && p != -1 {
      assert Execute(s, found, sp).0.pids == s.pids[p := true];
    }
  }

  /** A new process starts with its whole stack, in its own page, for itself and for interrupts. */
  lemma NewProcessStarts(s: Machine, sp: int)
    requires Sized(s) && FreePid(s.pids) != -1
    ensures var (r, result) := Execute(s, Program, sp); var pid := FreePid(s.pids);
            && result == 0 && r.esp == r.esp0 && r.esp0 + 4 == PcbAddress(pid) + KB8
            && UserPageIs(r.tables, pid) && r.terms[s.cur] == Term(true, pid)
  {
    PageRemapEntry(s.tables, FreePid(s.pids));
  }

  /** A halting root shell always finds a number for its successor. */
  lemma RelaunchFindsSlot(s: Machine, sp: int)
    requires Consistent(s) && IsRoot(s)
    ensures Execute(RootFreed(s), Program, sp).1 == 0
  {
    assert !RootFreed(s).pids[s.terms[s.act].apn];
  }

  // ---------------------------------------------------------------- preemption

  /** Terminal t does not execute; its live process pid was left with its stack pointer at sp. */
  ghost predicate Preempted(s: Machine, t: int, pid: int, sp: int)
    requires Sized(s)
  {
    && 0 <= t < MAX_TERM && t != s.act && 0 <= pid < NUM_PROCS
    && s.terms[t] == Term(true, pid) && s.pids[pid] && s.pcbs[pid].term == t && s.pcbs[pid].esp == sp
  }

  lemma ExecuteKeepsPreempted(s: Machine, found: Lookup, stack: int, t: int, pid: int, sp: int)
    requires Sized(s) && Preempted(s, t, pid, sp) && s.cur != t
    requires Execute(s, found, stack).0.act != t
    ensures Preempted(Execute(s, found, stack).0, t, pid, sp)
  {
    assert FreePid(s.pids) != pid;
  }

  lemma HaltKeepsPreempted(s: Machine, stack: int, t: int, pid: int, sp: int)
    requires Consistent(s) && Guarded(s, Exit(stack)) && Preempted(s, t, pid, sp)
    ensures Preempted(Halt(s, stack), t, pid, sp)
  {
    var chains :| Inv(s, chains);
    ActiveProcess(s, chains, s.act);
    RootIffAlone(s, chains);
    hide Forest, FixedEntries, Consistent, Inv, Running, InStack, Execute;
    if IsRoot(s) {
      assert Halt(s, stack) == Execute(RootFreed(s), Program, stack).0;
      RelaunchKeepsPreempted(s, stack, t, pid, sp);
    }
  }

  lemma RelaunchKeepsPreempted(s: Machine, stack: int, t: int, pid: int, sp: int)
    requires Sized(s) && s.terms[s.act].apn >= 0 && s.terms[s.act].apn != pid && s.cur == s.act
    requires Preempted(s, t, pid, sp)
    ensures Preempted(Execute(RootFreed(s), Program, stack).0, t, pid, sp)
  {
    ExecuteKeepsPreempted(RootFreed(s), Program, stack, t, pid, sp);
  }

  lemma TickKeepsPreempted(s: Machine, stack: int, t: int, pid: int, sp: int)
    requires Sized(s) && Callable(s, Timer(stack)) && s.terms[s.act].apn != pid
    requires Preempted(s, t, pid, sp) && Tick(s, stack).act != t
    ensures Preempted(Tick(s, stack), t, pid, sp)
  {
  }

  lemma SwitchKeepsPreempted(s: Machine, n: int, stack: int, t: int, pid: int, sp: int)
    requires Sized(s) && 0 <= n && s.terms[s.act].apn >= 0 && s.terms[s.act].apn != pid
    requires Preempted(s, t, pid, sp) && SwitchTo(s, n, stack).act != t
    ensures Preempted(SwitchTo(s, n, stack), t, pid, sp)
  {
    if n < MAX_TERM && n != s.cur && !s.terms[n].active {
      var running := s.terms[s.act].apn;
      var m := s.(cur := n, pcbs := s.pcbs[running := s.pcbs[running].(esp := stack)]);
      ExecuteKeepsPreempted(m, Program, stack, t, pid, sp);
    }
  }

  lemma StepKeepsPreempted(s: Machine, c: Call, t: int, pid: int, sp: int)
    requires Consistent(s) && Guarded(s, c) && Preempted(s, t, pid, sp) && Step(s, c).act != t
    ensures Preempted(Step(s, c), t, pid, sp)
  {
    var chains :| Inv(s, chains);
    ActiveProcess(s, chains, s.act);
    StepIsDefined(s, c);
    hide Forest, FixedEntries, Consistent, Inv, Execute, Halt, Tick, SwitchTo;
    match c {
      case Exec(found, stack) =>
        if found.Program? && FreePid(s.pids) != -1 {
          ExecuteKeepsPreempted(s, found, stack, t, pid, sp);
        } else {
          assert Execute(s, found, stack).0 == s by { FailedExecuteChangesNothing(s, found, stack); }
        }
      case Exit(stack) => HaltKeepsPreempted(s, stack, t, pid, sp);
      case Timer(stack) => TickKeepsPreempted(s, stack, t, pid, sp);
      case Show(n, stack) => SwitchKeepsPreempted(s, n, stack, t, pid, sp);
      case MapVideo(screenStart) => assert Preempted(Vidmap(s, screenStart).0, t, pid, sp);
    }
  }

  /** Terminal t does not execute at any point of the run. */
  ghost predicate AwayRun(s: Machine, cs: seq<Call>, t: int)
    requires Sized(s) && GuardedRun(s, cs)
    decreases |cs|
  {
    s.act != t && (cs == [] || AwayRun(Step(s, cs[0]), cs[1..], t))
  }

  lemma {:induction false} AwayKeepsPreempted(s: Machine, cs: seq<Call>, t: int, pid: int, sp: int)
    requires Consistent(s) && GuardedRun(s, cs) && AwayRun(s, cs, t) && Preempted(s, t, pid, sp)
    ensures Consistent(Run(s, cs)) && Preempted(Run(s, cs), t, pid, sp)
    decreases |cs|
  {
    if cs != [] {
      StepIsDefined(s, cs[0]);
      StepKeepsPreempted(s, cs[0], t, pid, sp);
      AwayKeepsPreempted(Step(s, cs[0]), cs[1..], t, pid, sp);
    }
  }

  /** The state in which process pid of terminal t goes on at sp, with its own page and a whole stack for interrupts. */
  ghost predicate Resumed(r: Machine, t: int, pid: int, sp: int)
    requires Sized(r)
  {
    && 0 <= t < MAX_TERM && r.act == t && r.terms[t] == Term(true, pid)
    && r.esp == sp && r.esp0 + 4 == PcbAddress(pid) + KB8 && UserPageIs(r.tables, pid)
  }

  /** The tick that picks the terminal again. */
  lemma TickResumes(r: Machine, t: int, pid: int, sp: int, sp': int)
    requires Consistent(r) && Preempted(r, t, pid, sp) && NextScheduled(r.terms, r.act) == t
    ensures Callable(r, Timer(sp')) && Resumed(Tick(r, sp'), t, pid, sp)
  {
    var chains :| Inv(r, chains);
    ActiveProcess(r, chains, r.act);
    hide Forest, FixedEntries, Consistent;
    assert r.terms[r.act].active && r.terms[t].active;
    assert Switching(r);
    TickMaps(r.tables, pid, t != r.cur, t);
  }

  /**
   A preempted process goes on where it was: whatever guarded calls the other terminals make until
   the timer picks its terminal again, its stack pointer is then the one it was left with.
   */
  lemma PreemptedResumes(s: Machine, sp: int, cs: seq<Call>, sp': int)
    requires Consistent(s) && SameStack(s, sp) && Switching(s)
    requires Callable(s, Timer(sp)) && GuardedRun(Tick(s, sp), cs) && AwayRun(Tick(s, sp), cs, s.act)
    requires var r := Run(Tick(s, sp), cs); NextScheduled(r.terms, r.act) == s.act
    ensures var r := Run(Tick(s, sp), cs);
            Callable(r, Timer(sp')) && Resumed(Tick(r, sp'), s.act, s.terms[s.act].apn, sp)
  {
    var chains :| Inv(s, chains);
    ActiveProcess(s, chains, s.act);
    SchedulerPicksLive(s, chains);
    StepIsDefined(s, Timer(sp));
    hide Forest, FixedEntries, Consistent, Inv;
    assert Preempted(Tick(s, sp), s.act, s.terms[s.act].apn, sp);
    AwayKeepsPreempted(Tick(s, sp), cs, s.act, s.terms[s.act].apn, sp);
    TickResumes(Run(Tick(s, sp), cs), s.act, s.terms[s.act].apn, sp, sp');
  }

  lemma LaunchPreempts(s: Machine, n: int, sp: int)
    requires Sized(s) && 0 <= n < MAX_TERM && !s.terms[n].active && n != s.cur && FreePid(s.pids) != -1
    requires s.terms[s.act].active && s.terms[s.act].apn >= 0
    requires s.pids[s.terms[s.act].apn] && s.pcbs[s.terms[s.act].apn].term == s.act
    ensures Preempted(SwitchTo(s, n, sp), s.act, s.terms[s.act].apn, sp)
  {
  }

  /** So does the process during which another terminal was launched. */
  lemma LaunchedOverResumes(s: Machine, n: int, sp: int, cs: seq<Call>, sp': int)
    requires Consistent(s) && Guarded(s, Show(n, sp)) && Launches(s, Show(n, sp)) && s.terms[s.act].apn >= 0
    requires GuardedRun(SwitchTo(s, n, sp), cs) && AwayRun(SwitchTo(s, n, sp), cs, s.act)
    requires var r := Run(SwitchTo(s, n, sp), cs); NextScheduled(r.terms, r.act) == s.act
    ensures var r := Run(SwitchTo(s, n, sp), cs);
            Callable(r, Timer(sp')) && Resumed(Tick(r, sp'), s.act, s.terms[s.act].apn, sp)
  {
    var chains :| Inv(s, chains);
    ActiveProcess(s, chains, s.act);
    StepIsDefined(s, Show(n, sp));
    hide Forest, FixedEntries, Consistent, Inv;
    LaunchPreempts(s, n, sp);
    hide SwitchTo, Preempted, Tick, Resumed;
    AwayKeepsPreempted(SwitchTo(s, n, sp), cs, s.act, s.terms[s.act].apn, sp);
    TickResumes(Run(SwitchTo(s, n, sp), cs), s.act, s.terms[s.act].apn, sp, sp');
  }

  // ---------------------------------------------------------------- fairness

  ghost function Flags(s: Machine): (f: seq<bool>)
    requires Sized(s)
    ensures |f| == MAX_TERM
  {
    [s.terms[0].active, s.terms[1].active, s.terms[2].active]
  }

  function CountActive(f: seq<bool>): int
    requires |f| == MAX_TERM
  {
    (if f[0] then 1 else 0) + (if f[1] then 1 else 0) + (if f[2] then 1 else 0)
  }

  function NextOf(t: int): int {
    if t == 2 then 0 else t + 1
  }

  /** The next active terminal in cyclic order, when there is another one. */
  function Following(f: seq<bool>, t: int): (n: int)
    requires |f| == MAX_TERM && 0 <= t < MAX_TERM
    ensures 0 <= n < MAX_TERM
  {
    if f[NextOf(t)] then NextOf(t) else NextOf(NextOf(t))
  }

  lemma NextScheduledFollows(s: Machine)
    requires Sized(s)
    ensures NextScheduled(s.terms, s.act) == Following(Flags(s), s.act)
  {
    assert (s.act + 1) % MAX_TERM == NextOf(s.act);
    assert (s.act + 2) % MAX_TERM == NextOf(NextOf(s.act));
  }

  ghost predicate Launches(s: Machine, c: Call)
    requires Sized(s)
  {
    c.Show? && 0 <= c.n < MAX_TERM && !s.terms[c.n].active
  }

  /** No call of the run launches a terminal, so the active set stays as it is. */
  ghost predicate NoLaunch(s: Machine, cs: seq<Call>)
    requires Sized(s) && GuardedRun(s, cs)
    decreases |cs|
  {
    cs == [] || (!Launches(s, cs[0]) && NoLaunch(Step(s, cs[0]), cs[1..]))
  }

  /** The terminals the timer ticks of a run switch to, in order. */
  ghost function Slots(s: Machine, cs: seq<Call>): (a: seq<int>)
    requires Sized(s) && GuardedRun(s, cs)
    ensures forall i :: 0 <= i < |a| ==> 0 <= a[i] < MAX_TERM
    decreases |cs|
  {
    if cs == [] then [] else
      var s' := Step(s, cs[0]);
      (if cs[0].Timer? then [s'.act] else []) + Slots(s', cs[1..])
  }

  lemma ExitKeepsFlags(s: Machine, sp: int)
    requires Consistent(s) && Guarded(s, Exit(sp))
    ensures Flags(Halt(s, sp)) == Flags(s) && Halt(s, sp).act == s.act
  {
    var chains :| Inv(s, chains);
    RootIffAlone(s, chains);
    hide Forest, FixedEntries;
    if IsRoot(s) {
      assert !RootFreed(s).pids[s.terms[s.act].apn];
      assert Halt(s, sp) == Execute(RootFreed(s), Program, sp).0;
    }
  }

  lemma StepKeepsFlags(s: Machine, c: Call)
    requires Consistent(s) && Guarded(s, c) && !Launches(s, c)
    ensures Flags(Step(s, c)) == Flags(s)
    ensures Step(s, c).act == if c.Timer? && CountActive(Flags(s)) >= 2 then Following(Flags(s), s.act) else s.act
  {
    if c.Exit? {
      ExitKeepsFlags(s, c.sp);
    } else if c.Timer? {
      NextScheduledFollows(s);
      hide NextScheduled, Following;
      var chains :| Inv(s, chains);
    } else {
      var chains :| Inv(s, chains);
      hide Forest, FixedEntries;
    }
  }

  /** Each slot follows the one before it; the first follows the terminal that was executing. */
  lemma {:induction false} SlotsRotate(s: Machine, cs: seq<Call>)
    requires Consistent(s) && GuardedRun(s, cs) && NoLaunch(s, cs) && CountActive(Flags(s)) >= 2
    ensures var a := Slots(s, cs);
            && (a != [] ==> a[0] == Following(Flags(s), s.act))
            && forall i :: 0 < i < |a| ==> a[i] == Following(Flags(s), a[i - 1])
    decreases |cs|
  {
    if cs != [] {
      var s', rest := Step(s, cs[0]), cs[1..];
      StepKeepsFlags(s, cs[0]);
      StepIsDefined(s, cs[0]);
      SlotsRotate(s', rest);
      hide Step, Consistent, Following;
      var a, b := Slots(s, cs), Slots(s', rest);
      if cs[0].Timer? {
        assert a == [s'.act] + b;
        hide Slots, GuardedRun, NoLaunch, Inv, Sized;
        forall i | 0 < i < |a| ensures a[i] == Following(Flags(s), a[i - 1]) {
          assert a[i] == b[i - 1];
        }
      } else {
        assert a == b;
      }
    }
  }

  lemma FollowingIsActive(f: seq<bool>, t: int)
    requires |f| == MAX_TERM && 0 <= t < MAX_TERM && f[t] && CountActive(f) >= 2
    ensures f[Following(f, t)] && Following(f, t) != t
    ensures CountActive(f) == 2 ==> Following(f, Following(f, t)) == t
    ensures CountActive(f) == 3 ==> Following(f, t) == NextOf(t)
  {
  }

  /** t occurs exactly once in the k slots from i on. */
  ghost predicate OnceIn(a: seq<int>, i: int, k: int, t: int) {
    0 <= i && i + k <= |a| && exists j :: OnlyAt(a, i, k, t, j)
  }

  ghost predicate OnlyAt(a: seq<int>, i: int, k: int, t: int, j: int)
    requires 0 <= i && i + k <= |a|
  {
    i <= j < i + k && forall m :: i <= m < i + k ==> (a[m] == t <==> m == j)
  }

  lemma {:induction false} SlotsAreActive(f: seq<bool>, act: int, a: seq<int>, i: int)
    requires |f| == MAX_TERM && 0 <= act < MAX_TERM && f[act] && CountActive(f) >= 2
    requires forall m :: 0 <= m < |a| ==> 0 <= a[m] < MAX_TERM
    requires a != [] ==> a[0] == Following(f, act)
    requires forall m :: 0 < m < |a| ==> a[m] == Following(f, a[m - 1])
    requires 0 <= i < |a|
    ensures f[a[i]]
    decreases i
  {
    if i == 0 {
      FollowingIsActive(f, act);
    } else {
      SlotsAreActive(f, act, a, i - 1);
      FollowingIsActive(f, a[i - 1]);
    }
  }

  /** The cyclic order visits each active terminal once in a full turn. */
  lemma TurnVisitsAll(f: seq<bool>, a: seq<int>, i: int, t: int)
    requires |f| == MAX_TERM && 0 <= t < MAX_TERM && f[t]
    requires CountActive(f) >= 2 && 0 <= i && i + CountActive(f) <= |a|
    requires 0 <= a[i] < MAX_TERM && f[a[i]] && a[i + 1] == Following(f, a[i])
    requires CountActive(f) == 3 ==> a[i + 2] == Following(f, Following(f, a[i]))
    ensures OnceIn(a, i, CountActive(f), t)
  {
    FollowingIsActive(f, a[i]);
    if CountActive(f) == 2 {
      assert OnlyAt(a, i, 2, t, if t == a[i] then i else i + 1);
    } else {
      FollowingIsActive(f, a[i + 1]);
      assert OnlyAt(a, i, 3, t, if t == a[i] then i else if t == a[i + 1] then i + 1 else i + 2);
    }
  }

  /**
   Fairness: over every guarded run without launches and with k >= 2 active terminals, any k
   consecutive timer ticks run each active terminal exactly once, whatever else happens between.
   */
  lemma SchedulerIsFair(s: Machine, cs: seq<Call>, i: int, t: int)
    requires Consistent(s) && GuardedRun(s, cs) && NoLaunch(s, cs)
    requires 0 <= t < MAX_TERM && s.terms[t].active
    requires var k := CountActive(Flags(s)); k >= 2 && 0 <= i && i + k <= |Slots(s, cs)|
    ensures OnceIn(Slots(s, cs), i, CountActive(Flags(s)), t)
  {
    var a, f := Slots(s, cs), Flags(s);
    SlotsRotate(s, cs);
    SlotsAreActive(f, s.act, a, i);
    assert a[i + 1] == Following(f, a[i]);
    TurnVisitsAll(f, a, i, t);
  }
}
