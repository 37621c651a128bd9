/**
 Processes, terminals, scheduler and address map as one state machine: what execute, halt, the
 timer tick and the terminal switch do, and the invariant every guarded run keeps.
 */
module Processes {
  import opened Bytes
  import opened Limits
  import opened Paging

  const KB8 := 0x2000

  /** The fields of pcb_t the life cycle uses; a kernel stack pointer is a 32-bit address. */
  datatype Pcb = Pcb(number: int, parent: int, term: int, parentKsp: int, esp: int)

  datatype Term = Term(active: bool, apn: int)

  /** cur is the displayed terminal, act the executing one, esp the kernel stack pointer in use. */
  datatype Machine = Machine(pids: seq<bool>, pcbs: seq<Pcb>, terms: seq<Term>,
                             cur: int, act: int, esp: int, esp0: int, tables: Tables)

  ghost predicate Sized(s: Machine) {
    && |s.pids| == NUM_PROCS && |s.pcbs| == NUM_PROCS && |s.terms| == MAX_TERM
    && 0 <= s.cur < MAX_TERM && 0 <= s.act < MAX_TERM && TablesOk(s.tables)
    && (forall p :: 0 <= p < NUM_PROCS ==> 0 <= s.pcbs[p].parent < NUM_PROCS && 0 <= s.pcbs[p].number < NUM_PROCS
                                           && 0 <= s.pcbs[p].term < MAX_TERM)
    && forall t :: 0 <= t < MAX_TERM ==> -1 <= s.terms[t].apn < NUM_PROCS
                                          && (s.terms[t].active ==> s.terms[t].apn >= 0)
  }

  // ---------------------------------------------------------------- PCB addresses

  /** get_pcb_ptr_process: PCBs sit at the bottom of 8KB kernel stacks below 8MB. */
  function PcbAddress(p: int): int {
    MB8 - (p + 1) * KB8
  }

  predicate InStack(sp: int, p: int) {
    PcbAddress(p) <= sp < PcbAddress(p) + KB8
  }

  /** get_pcb_ptr: the stack pointer masked with 0xFFFFE000; see MaskIsMaskedPcb. */
  function MaskedPcb(sp: int): int {
    sp / KB8 * KB8
  }

  /** The 32-bit word with bytes b3 to b0, and its value. */
  function WordOf(b3: bv8, b2: bv8, b1: bv8, b0: bv8): bv32 {
    (b3 as bv32 << 24) | (b2 as bv32 << 16) | (b1 as bv32 << 8) | b0 as bv32
  }

  function ValueOf(b3: bv8, b2: bv8, b1: bv8, b0: bv8): int {
    0x100_0000 * b3 as int + 0x1_0000 * b2 as int + 0x100 * b1 as int + b0 as int
  }

  /** Masking a word changes its two low bytes, and its value as rounding down to 8KB does. */
  lemma MaskIsMaskedPcb(b3: bv8, b2: bv8, b1: bv8, b0: bv8)
    ensures WordOf(b3, b2, b1, b0) & 0xFFFF_E000 == WordOf(b3, b2, b1 & 0xE0, 0)
    ensures ValueOf(b3, b2, b1 & 0xE0, 0) == MaskedPcb(ValueOf(b3, b2, b1, b0))
  {
    hide WordOf, MaskedPcb;
    MaskedWord(b3, b2, b1, b0);
    MaskedByte(b1);
    RoundedDown(0x100 * b3 as int + b2 as int, b1 as int, b0 as int);
  }

  lemma MaskedWord(b3: bv8, b2: bv8, b1: bv8, b0: bv8)
    ensures WordOf(b3, b2, b1, b0) & 0xFFFF_E000 == WordOf(b3, b2, b1 & 0xE0, 0)
  {
  }

  lemma RoundedDown(high: int, b1: int, b0: int)
    requires 0 <= b1 < 256 && 0 <= b0 < 256
    ensures 0x1_0000 * high + 0x100 * (b1 / 0x20 * 0x20) == MaskedPcb(0x1_0000 * high + 0x100 * b1 + b0)
  {
    DivModUnique(0x1_0000 * high + 0x100 * b1 + b0, KB8, 8 * high + b1 / 0x20, 0x100 * (b1 % 0x20) + b0);
  }

  lemma MaskedByte(b: bv8)
    ensures (b & 0xE0) as int == b as int / 0x20 * 0x20
  {
  }

  /** A stack pointer finds the PCB of process p by masking exactly when it is in p's stack. */
  lemma MaskFindsPcb(sp: int, p: int)
    ensures MaskedPcb(sp) == PcbAddress(p) <==> InStack(sp, p)
  {
    assert PcbAddress(p) == (1024 - (p + 1)) * KB8;
  }

  /** The esp0 value execute and the context switch load for process p. */
  function StackTop(p: int): (sp: int)
    ensures InStack(sp, p)
  {
    MB8 - KB8 * p - 4
  }

  /** It is the last word of the stack, which lies between its PCB and the next stack or 8MB. */
  lemma StackTopIsLast(p: int)
    ensures StackTop(p) % 4 == 0 && InStack(StackTop(p) + 3, p) && !InStack(StackTop(p) + 4, p)
    ensures StackTop(p) + 4 == if p == 0 then MB8 else PcbAddress(p - 1)
    ensures forall q, sp :: q != p && InStack(sp, p) ==> !InStack(sp, q)
  {
  }

  // ---------------------------------------------------------------- operations

  /** get_proc_num: the lowest free process number, or -1. */
  function FreePid(pids: seq<bool>): (p: int)
    requires |pids| == NUM_PROCS
    ensures p == -1 <==> forall q :: 0 <= q < NUM_PROCS ==> pids[q]
    ensures p != -1 ==> 0 <= p < NUM_PROCS && !pids[p] && forall q :: 0 <= q < p ==> pids[q]
  {
    FreePidFrom(pids, 0)
  }

  function FreePidFrom(pids: seq<bool>, i: int): (p: int)
    requires |pids| == NUM_PROCS && 0 <= i <= NUM_PROCS
    ensures p == -1 <==> forall q :: i <= q < NUM_PROCS ==> pids[q]
    ensures p != -1 ==> i <= p < NUM_PROCS && !pids[p] && forall q :: i <= q < p ==> pids[q]
    decreases NUM_PROCS - i
  {
    if i == NUM_PROCS then -1 else if !pids[i] then i else FreePidFrom(pids, i + 1)
  }

  /** What execute finds under the parsed command name. */
  datatype Lookup = NotFound | NotElf | Program

  /** execute called with the stack pointer at sp; the second result is its return value if it returns. */
  function Execute(s: Machine, found: Lookup, sp: int): (r: (Machine, int))
    requires Sized(s)
    ensures Sized(r.0)
  {
    if !found.Program? then (s, -1)
    else
      var pid := FreePid(s.pids);
      if pid == -1 then (s, -1)
      else
        var root := !s.terms[s.cur].active;
        var numbered := s.pcbs[pid := s.pcbs[pid].(number := pid)];
        var parent := if root then pid else numbered[s.terms[s.cur].apn].number;
        (Machine(s.pids[pid := true],
                 s.pcbs[pid := Pcb(pid, parent, s.cur, sp, s.pcbs[pid].esp)],
                 s.terms[s.cur := Term(true, pid)],
                 s.cur, if root then s.cur else s.act,
                 StackTop(pid), StackTop(pid),
                 WithLargePage(s.tables, MB128, Frame(pid))), 0)
  }

  /** halt: a root shell is replaced by a new one, any other process returns to its parent. */
  function Halt(s: Machine, sp: int): (r: Machine)
    requires Sized(s) && s.terms[s.act].apn >= 0
    ensures Sized(r)
  {
    var pcb := s.pcbs[s.terms[s.act].apn];
    var next := s.pcbs[pcb.parent].number;
    var freed := s.pids[pcb.number := false];
    if pcb.number == pcb.parent then
      Execute(s.(pids := freed, terms := s.terms[s.act := Term(false, next)]), Program, sp).0
    else
      s.(pids := freed, terms := s.terms[s.act := s.terms[s.act].(apn := next)],
         tables := WithLargePage(s.tables, MB128, Frame(next)), esp := pcb.parentKsp, esp0 := pcb.parentKsp)
  }

  /** get_next_scheduled: the first other active terminal, or the last one looked at. */
  function NextScheduled(terms: seq<Term>, act: int): (n: int)
    requires |terms| == MAX_TERM && 0 <= act < MAX_TERM
    ensures 0 <= n < MAX_TERM
  {
    if terms[(act + 1) % MAX_TERM].active then (act + 1) % MAX_TERM else (act + 2) % MAX_TERM
  }

  /** PIT_scheduling and process_contextswitch, with the stack pointer at sp. */
  function Tick(s: Machine, sp: int): (r: Machine)
    requires Sized(s) && s.terms[s.act].apn >= 0
    requires s.terms[1].active || s.terms[2].active ==> s.terms[NextScheduled(s.terms, s.act)].apn >= 0
    ensures Sized(r)
  {
    if !s.terms[1].active && !s.terms[2].active then s
    else
      var to := NextScheduled(s.terms, s.act);
      var next, old' := s.terms[to].apn, s.terms[s.act].apn;
      var term := s.pcbs[next].term;
      var saved := s.pcbs[old' := s.pcbs[old'].(esp := sp)];
      s.(pcbs := saved, act := to, esp := saved[next].esp, esp0 := StackTop(next),
         tables := VideoWindow(WithLargePage(s.tables, MB128, Frame(next)), term != s.cur, term))
  }

  /** switch_terminal: show an active terminal, or launch a shell on an inactive one. */
  function SwitchTo(s: Machine, n: int, sp: int): (r: Machine)
    requires Sized(s) && 0 <= n && s.terms[s.act].apn >= 0
    ensures Sized(r)
  {
    if n >= MAX_TERM || n == s.cur then s
    else if s.terms[n].active then
      s.(cur := n, tables := VideoWindow(s.tables, s.act != n, s.act))
    else
      var running := s.terms[s.act].apn;
      Execute(s.(cur := n, pcbs := s.pcbs[running := s.pcbs[running].(esp := sp)]), Program, sp).0
  }

  /** The vidmap system call; the second result is its return value, also stored at screenStart on success. */
  function Vidmap(s: Machine, screenStart: int): (r: (Machine, int))
    requires Sized(s)
    ensures Sized(r.0)
  {
    if screenStart == 0 || screenStart == MB4 then (s, -1)
    else (s.(tables := WithWindow(s.tables, MB136, VIDEO)), MB136)
  }

  // ---------------------------------------------------------------- the invariant

  /** Element i of a chain: a live process of terminal t whose parent is the element before it. */
  ghost predicate Link(s: Machine, t: int, chain: seq<int>, i: int)
    requires Sized(s) && 0 <= i < |chain|
  {
    var p, parent := chain[i], chain[Max(0, i - 1)];
    && 0 <= p < NUM_PROCS && s.pids[p]
    && s.pcbs[p].number == p && s.pcbs[p].term == t && s.pcbs[p].parent == parent
    && (i > 0 ==> InStack(s.pcbs[p].parentKsp, parent))
  }

  /** From a root that is its own parent to the terminal's active process, without repeats. */
  ghost predicate Chain(s: Machine, t: int, chain: seq<int>)
    requires Sized(s)
  {
    && (forall i :: 0 <= i < |chain| ==> Link(s, t, chain, i))
    && (forall i, j :: 0 <= i < j < |chain| ==> chain[i] != chain[j])
  }

  /** The live processes are exactly the members of the active terminals' chains. */
  ghost predicate Forest(s: Machine, chains: seq<seq<int>>)
    requires Sized(s)
  {
    && |chains| == MAX_TERM
    && (forall t :: 0 <= t < MAX_TERM ==>
          && Chain(s, t, chains[t]) && (s.terms[t].active <==> chains[t] != [])
          && (chains[t] != [] ==> s.terms[t].apn == chains[t][|chains[t]| - 1]))
    && (forall p :: 0 <= p < NUM_PROCS && s.pids[p] ==> p in chains[s.pcbs[p].term])
  }

  /** The executing terminal's process runs on its own stack; the others were left on theirs. */
  ghost predicate Running(s: Machine)
    requires Sized(s)
  {
    && s.terms[0].active && s.terms[s.cur].active && s.terms[s.act].active
    && InStack(s.esp, s.terms[s.act].apn) && InStack(s.esp0, s.terms[s.act].apn)
    && (forall t :: 0 <= t < MAX_TERM && t != s.act && s.terms[t].active ==>
          InStack(s.pcbs[s.terms[t].apn].esp, s.terms[t].apn))
    && FixedEntries(s.tables) && UserPageIs(s.tables, s.terms[s.act].apn)
  }

  ghost predicate Inv(s: Machine, chains: seq<seq<int>>) {
    Sized(s) && Forest(s, chains) && Running(s)
  }

  // ---------------------------------------------------------------- one step

  /** The links of p are the same in both states. */
  ghost predicate SameLinks(s: Machine, s': Machine, p: int)
    requires Sized(s) && Sized(s') && 0 <= p < NUM_PROCS
  {
    s'.pids[p] && s'.pcbs[p] == s.pcbs[p].(esp := s'.pcbs[p].esp)
  }

  lemma ChainFrame(s: Machine, s': Machine, t: int, chain: seq<int>)
    requires Sized(s) && Sized(s') && Chain(s, t, chain)
    requires forall i :: 0 <= i < |chain| ==> 0 <= chain[i] < NUM_PROCS && SameLinks(s, s', chain[i])
    ensures Chain(s', t, chain)
  {
    forall i | 0 <= i < |chain| ensures Link(s', t, chain, i) {
      assert Link(s, t, chain, i) && SameLinks(s, s', chain[i]);
    }
  }

  lemma ChainExtend(s: Machine, t: int, chain: seq<int>, pid: int)
    requires Sized(s) && Chain(s, t, chain) && pid !in chain
    requires Link(s, t, chain + [pid], |chain|)
    ensures Chain(s, t, chain + [pid])
  {
    forall i | 0 <= i < |chain + [pid]| ensures Link(s, t, chain + [pid], i) {
      if i < |chain| {
        assert Link(s, t, chain, i);
      }
    }
  }

  lemma ChainPrefix(s: Machine, t: int, chain: seq<int>)
    requires Sized(s) && Chain(s, t, chain) && chain != []
    ensures Chain(s, t, chain[..|chain| - 1])
  {
    var init := chain[..|chain| - 1];
    forall i | 0 <= i < |init| ensures Link(s, t, init, i) {
      assert Link(s, t, chain, i);
    }
  }

  /** A process number in some chain is live and belongs to that chain's terminal only. */
  lemma InChain(s: Machine, chains: seq<seq<int>>, t: int, p: int)
    requires Sized(s) && Forest(s, chains) && 0 <= t < MAX_TERM && p in chains[t]
    ensures 0 <= p < NUM_PROCS && s.pids[p] && s.pcbs[p].term == t && s.pcbs[p].number == p
  {
    var i :| 0 <= i < |chains[t]| && chains[t][i] == p;
    assert Chain(s, t, chains[t]) && Link(s, t, chains[t], i);
  }

  /** Terminal t gets a new process pid at the end of its chain; nothing else changes hands. */
  lemma ForestGrows(s: Machine, s': Machine, chains: seq<seq<int>>, t: int, pid: int)
    requires Sized(s) && Sized(s') && Forest(s, chains) && 0 <= t < MAX_TERM
    requires 0 <= pid < NUM_PROCS && !s.pids[pid]
    requires s'.pids == s.pids[pid := true] && s'.terms == s.terms[t := Term(true, pid)]
    requires forall p :: 0 <= p < NUM_PROCS && p != pid && s.pids[p] ==> SameLinks(s, s', p)
    requires Link(s', t, chains[t] + [pid], |chains[t]|)
    ensures Forest(s', chains[t := chains[t] + [pid]])
  {
    var chains' := chains[t := chains[t] + [pid]];
    forall u | 0 <= u < MAX_TERM ensures Chain(s', u, chains'[u]) {
      assert Chain(s, u, chains[u]);
      forall i | 0 <= i < |chains[u]|
        ensures 0 <= chains[u][i] < NUM_PROCS && SameLinks(s, s', chains[u][i]) && chains[u][i] != pid
      {
        InChain(s, chains, u, chains[u][i]);
      }
      ChainFrame(s, s', u, chains[u]);
      if u == t {
        ChainExtend(s', t, chains[t], pid);
      }
    }
    forall p | 0 <= p < NUM_PROCS && s'.pids[p] ensures p in chains'[s'.pcbs[p].term] {
      if p != pid {
        assert SameLinks(s, s', p) && p in chains[s.pcbs[p].term];
      } else {
        assert chains'[t][|chains[t]|] == pid;
      }
    }
  }

  /** A process's command to execute is found and a slot is free. */
  lemma ExecuteKeepsInv(s: Machine, chains: seq<seq<int>>, sp: int) returns (chains': seq<seq<int>>)
    requires Inv(s, chains) && s.cur == s.act && InStack(sp, s.terms[s.act].apn) && FreePid(s.pids) != -1
    ensures Inv(Execute(s, Program, sp).0, chains')
    ensures chains' == chains[s.cur := chains[s.cur] + [FreePid(s.pids)]]
  {
    var pid, s', chain := FreePid(s.pids), Execute(s, Program, sp).0, chains[s.cur];
    chains' := chains[s.cur := chain + [pid]];
    assert Chain(s, s.cur, chain) && Link(s, s.cur, chain, |chain| - 1);
    assert Link(s', s.cur, chain + [pid], |chain|);
    ForestGrows(s, s', chains, s.cur, pid);
    PageRemapKeeps(s.tables, pid);
  }

  /** In s', terminal t has lost the last process of its chain. */
  ghost predicate Lost(s: Machine, s': Machine, chains: seq<seq<int>>, t: int)
    requires Sized(s) && Sized(s') && |chains| == MAX_TERM && 0 <= t < MAX_TERM
  {
    chains[t] != [] && s.terms[t].apn >= 0
    && var init := chains[t][..|chains[t]| - 1];
       && s'.pids == s.pids[s.terms[t].apn := false] && s'.pcbs == s.pcbs
       && (forall u :: 0 <= u < MAX_TERM && u != t ==> s'.terms[u] == s.terms[u])
       && (s'.terms[t].active <==> init != []) && (init != [] ==> s'.terms[t].apn == init[|init| - 1])
  }

  lemma ShrunkChain(s: Machine, s': Machine, chains: seq<seq<int>>, t: int, u: int)
    requires Sized(s) && Sized(s') && Forest(s, chains) && 0 <= t < MAX_TERM && Lost(s, s', chains, t)
    requires 0 <= u < MAX_TERM
    ensures Chain(s', u, if u == t then chains[t][..|chains[t]| - 1] else chains[u])
  {
    var chain := if u == t then chains[t][..|chains[t]| - 1] else chains[u];
    assert Chain(s, u, chains[u]) && Chain(s, t, chains[t]);
    assert chains[t][|chains[t]| - 1] in chains[t];
    InChain(s, chains, t, s.terms[t].apn);
    if u == t {
      ChainPrefix(s, t, chains[t]);
    }
    forall i | 0 <= i < |chain| ensures 0 <= chain[i] < NUM_PROCS && SameLinks(s, s', chain[i]) {
      assert chain[i] == chains[u][i];
      InChain(s, chains, u, chain[i]);
    }
    ChainFrame(s, s', u, chain);
  }

  lemma ForestShrinks(s: Machine, s': Machine, chains: seq<seq<int>>, t: int)
    requires Sized(s) && Sized(s') && Forest(s, chains) && 0 <= t < MAX_TERM && Lost(s, s', chains, t)
    ensures Forest(s', chains[t := chains[t][..|chains[t]| - 1]])
  {
    var init := chains[t][..|chains[t]| - 1];
    var chains' := chains[t := init];
    assert chains[t] == init + [s.terms[t].apn];
    forall u | 0 <= u < MAX_TERM ensures Chain(s', u, chains'[u]) {
      ShrunkChain(s, s', chains, t, u);
    }
    forall p | 0 <= p < NUM_PROCS && s'.pids[p] ensures p in chains'[s'.pcbs[p].term] {
      assert p != s.terms[t].apn && s.pids[p] && p in chains[s.pcbs[p].term];
    }
  }

  /** A root is exactly a process that is alone in its terminal's chain. */
  lemma RootIffAlone(s: Machine, chains: seq<seq<int>>)
    requires Inv(s, chains)
    ensures var p := s.terms[s.act].apn; var chain := chains[s.act];
            && chain != [] && s.pcbs[p].number == p && s.pids[p]
            && (s.pcbs[p].parent == p <==> |chain| == 1)
            && (|chain| > 1 ==> s.pcbs[p].parent == chain[|chain| - 2]
                                && s.pcbs[chain[|chain| - 2]].number == chain[|chain| - 2]
                                && InStack(s.pcbs[p].parentKsp, chain[|chain| - 2]))
  {
    var chain := chains[s.act];
    assert Chain(s, s.act, chain) && Link(s, s.act, chain, |chain| - 1);
    if |chain| > 1 {
      assert Link(s, s.act, chain, |chain| - 2);
    }
  }

  lemma ReturnKeepsInv(s: Machine, chains: seq<seq<int>>, sp: int)
    requires Inv(s, chains) && |chains[s.act]| > 1
    ensures Inv(Halt(s, sp), chains[s.act := chains[s.act][..|chains[s.act]| - 1]])
  {
    RootIffAlone(s, chains);
    var s' := Halt(s, sp);
    var p := s.terms[s.act].apn;
    assert Lost(s, s', chains, s.act);
    ForestShrinks(s, s', chains, s.act);
    hide Forest, FixedEntries, Lost;
    PageRemapKeeps(s.tables, s.pcbs[p].parent);
  }

  /** The state in which halt of a root shell calls execute. */
  function RootFreed(s: Machine): (m: Machine)
    requires Sized(s) && s.terms[s.act].apn >= 0
    ensures Sized(m)
  {
    var p := s.terms[s.act].apn;
    s.(pids := s.pids[p := false], terms := s.terms[s.act := Term(false, p)])
  }

  lemma RelaunchKeepsInv(s: Machine, chains: seq<seq<int>>, sp: int)
    requires Inv(s, chains) && |chains[s.act]| == 1 && s.cur == s.act
    ensures Inv(Halt(s, sp), chains[s.act := [FreePid(RootFreed(s).pids)]])
  {
    RootIffAlone(s, chains);
    var m := RootFreed(s);
    assert chains[s.act][..|chains[s.act]| - 1] == [];
    ForestShrinks(s, m, chains, s.act);
    assert !m.pids[s.terms[s.act].apn];
    assert Halt(s, sp) == Execute(m, Program, sp).0;
    hide Forest;
    FirstProcess(m, chains[s.act := []], sp);
    var pid := FreePid(m.pids);
    assert chains[s.act := []][s.act := [pid]] == chains[s.act := [pid]];
  }

  /** execute on an inactive displayed terminal: its first shell becomes a root. */
  lemma FirstProcess(s: Machine, chains: seq<seq<int>>, sp: int)
    requires Sized(s) && Forest(s, chains) && !s.terms[s.cur].active && FreePid(s.pids) != -1
    requires FixedEntries(s.tables) && (s.cur == 0 || s.terms[0].active)
    requires forall t :: 0 <= t < MAX_TERM && t != s.cur && s.terms[t].active ==>
               InStack(s.pcbs[s.terms[t].apn].esp, s.terms[t].apn)
    ensures Inv(Execute(s, Program, sp).0, chains[s.cur := [FreePid(s.pids)]])
  {
    var pid, s' := FreePid(s.pids), Execute(s, Program, sp).0;
    assert chains[s.cur] == [] && [] + [pid] == [pid];
    assert Link(s', s.cur, [] + [pid], 0);
    ForestGrows(s, s', chains, s.cur, pid);
    forall t | 0 <= t < MAX_TERM && t != s.cur && s.terms[t].active
      ensures InStack(s'.pcbs[s.terms[t].apn].esp, s.terms[t].apn)
    {
      ActiveProcess(s, chains, t);
    }
    hide Forest;
    PageRemapKeeps(s.tables, pid);
  }

  lemma HaltKeepsInv(s: Machine, chains: seq<seq<int>>, sp: int) returns (chains': seq<seq<int>>)
    requires Inv(s, chains) && (|chains[s.act]| == 1 ==> s.cur == s.act)
    ensures Inv(Halt(s, sp), chains')
    ensures chains' == chains[s.act := if |chains[s.act]| == 1 then [FreePid(RootFreed(s).pids)]
                                       else chains[s.act][..|chains[s.act]| - 1]]
  {
    RootIffAlone(s, chains);
    chains' := chains[s.act := if |chains[s.act]| == 1 then [FreePid(RootFreed(s).pids)]
                               else chains[s.act][..|chains[s.act]| - 1]];
    hide Forest, Halt;
    if |chains[s.act]| == 1 {
      RelaunchKeepsInv(s, chains, sp);
    } else {
      ReturnKeepsInv(s, chains, sp);
    }
  }

  /** States with the same processes and terminals have the same chains. */
  lemma ForestSame(s: Machine, s': Machine, chains: seq<seq<int>>)
    requires Sized(s) && Sized(s') && Forest(s, chains)
    requires s'.pids == s.pids && s'.terms == s.terms
    requires forall p :: 0 <= p < NUM_PROCS ==> s'.pcbs[p] == s.pcbs[p].(esp := s'.pcbs[p].esp)
    ensures Forest(s', chains)
  {
    forall t | 0 <= t < MAX_TERM ensures Chain(s', t, chains[t]) {
      assert Chain(s, t, chains[t]);
      forall i | 0 <= i < |chains[t]| ensures 0 <= chains[t][i] < NUM_PROCS && SameLinks(s, s', chains[t][i]) {
        InChain(s, chains, t, chains[t][i]);
      }
      ChainFrame(s, s', t, chains[t]);
    }
  }

  lemma ActiveProcess(s: Machine, chains: seq<seq<int>>, t: int)
    requires Sized(s) && Forest(s, chains) && 0 <= t < MAX_TERM && s.terms[t].active
    ensures s.terms[t].apn >= 0 && s.pids[s.terms[t].apn] && s.pcbs[s.terms[t].apn].term == t
  {
    assert chains[t][|chains[t]| - 1] in chains[t];
    InChain(s, chains, t, s.terms[t].apn);
  }

  lemma NextIsActive(terms: seq<Term>, act: int)
    requires |terms| == MAX_TERM && 0 <= act < MAX_TERM
    requires terms[0].active && (terms[1].active || terms[2].active)
    ensures NextScheduled(terms, act) != act && terms[NextScheduled(terms, act)].active
  {
    if act == 0 {
    } else if act == 1 {
    } else {
    }
  }

  /** Whenever the timer switches, it switches to another active terminal with a live process. */
  lemma SchedulerPicksLive(s: Machine, chains: seq<seq<int>>)
    requires Inv(s, chains) && (s.terms[1].active || s.terms[2].active)
    ensures var n := NextScheduled(s.terms, s.act);
            && n != s.act && s.terms[n].active && s.terms[n].apn >= 0 && s.pids[s.terms[n].apn]
            && s.pcbs[s.terms[n].apn].term == n && s.terms[n].apn != s.terms[s.act].apn
  {
    hide Forest;
    NextIsActive(s.terms, s.act);
    ActiveProcess(s, chains, NextScheduled(s.terms, s.act));
    ActiveProcess(s, chains, s.act);
  }

  lemma TickKeepsInv(s: Machine, chains: seq<seq<int>>, sp: int)
    requires Inv(s, chains) && InStack(sp, s.terms[s.act].apn)
    ensures s.terms[1].active || s.terms[2].active ==> s.terms[NextScheduled(s.terms, s.act)].apn >= 0
    ensures Inv(Tick(s, sp), chains)
  {
    hide Forest;
    if s.terms[1].active || s.terms[2].active {
      SchedulerPicksLive(s, chains);
      var s', to := Tick(s, sp), NextScheduled(s.terms, s.act);
      ForestSame(s, s', chains);
      TickMaps(s.tables, s.terms[to].apn, to != s.cur, to);
    }
  }

  lemma TickMaps(t: Tables, next: int, hidden: bool, term: int)
    requires FixedEntries(t) && 0 <= term < MAX_TERM
    ensures var t' := VideoWindow(WithLargePage(t, MB128, Frame(next)), hidden, term);
            && FixedEntries(t') && UserPageIs(t', next)
            && MapsPage(t', MB136, if hidden then BackingPage(term) else VIDEO)
  {
    PageRemapKeeps(t, next);
    VideoWindowMapped(WithLargePage(t, MB128, Frame(next)), hidden, term);
  }

  lemma SwitchKeepsInv(s: Machine, chains: seq<seq<int>>, n: int, sp: int) returns (chains': seq<seq<int>>)
    requires Inv(s, chains) && 0 <= n && InStack(sp, s.terms[s.act].apn)
    requires n < MAX_TERM && !s.terms[n].active ==> FreePid(s.pids) != -1
    ensures Inv(SwitchTo(s, n, sp), chains')
    ensures chains' == if n < MAX_TERM && !s.terms[n].active then chains[n := [FreePid(s.pids)]] else chains
  {
    var s' := SwitchTo(s, n, sp);
    chains' := chains;
    if n < MAX_TERM && s.terms[n].active {
      ForestSame(s, s', chains);
      VideoWindowMapped(s.tables, s.act != n, s.act);
    } else if n < MAX_TERM {
      ActiveProcess(s, chains, s.act);
      var running := s.terms[s.act].apn;
      var m := s.(cur := n, pcbs := s.pcbs[running := s.pcbs[running].(esp := sp)]);
      ForestSame(s, m, chains);
      hide Forest, FixedEntries;
      FirstProcess(m, chains, sp);
      chains' := chains[n := [FreePid(s.pids)]];
    }
  }
}
