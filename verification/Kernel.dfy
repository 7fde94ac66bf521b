/**
 The kernel's process tables: the pid bitmap and count, the process control
 blocks with their parent links, the per-terminal and active pids, and the two
 processor settings that must follow the active process. Each entry point is
 proved to take the step of module Processes that it stands for.
 */
module Kernel {
  import opened Counting
  import opened Processes
  import opened Terminals
  import opened Text

  const MB_4: nat := 0x40_0000
  const MB_8: nat := 0x80_0000
  const KB_8: nat := 0x2000
  const PAGE_SIZE: nat := 0x1000
  const NO_PROCESS: nat := 255
  const EXCEPTION_RETURN: nat := 256

  /** `parentPointer` is an address, 0 for a shell started by the kernel. */
  datatype Pcb = Pcb(currentId: nat, parentId: nat, parentPointer: nat,
                     stack: Context, switchStack: Context, terminal: nat)

  // ----- Memory layout

  function PcbAddress(pid: nat): nat
    requires pid < MAX_PROCESS
  {
    MB_8 - KB_8 * (pid + 1)
  }

  function PidOf(address: nat): nat
    requires PcbAddress(5) <= address < MB_8
  {
    (MB_8 - 1 - address) / KB_8
  }

  function StackTop(pid: nat): nat
    requires pid < MAX_PROCESS
  {
    MB_8 - pid * KB_8 - 4
  }

  /** The page-directory entry for the 4MB frame of a process. */
  function UserPage(pid: nat): nat {
    (MB_8 + pid * MB_4) / PAGE_SIZE
  }

  predicate InKernelStack(esp: nat, pid: nat)
    requires pid < MAX_PROCESS
  {
    PcbAddress(pid) <= esp <= StackTop(pid)
  }

  /** A stack pointer with the mask 0xFFFFE000 applied. */
  function Masked(esp: nat): nat {
    esp - esp % KB_8
  }

  lemma MaskIsSubtraction(esp: bv32)
    ensures esp & 0xFFFF_E000 == esp - esp % 0x2000
  {}

  /** Masking any stack pointer of a process finds its control block; the 8KB areas and the 4MB frames of two processes are apart. */
  lemma LayoutIsSound(esp: nat, pid: nat, other: nat)
    requires pid < MAX_PROCESS && other < MAX_PROCESS && InKernelStack(esp, pid)
    ensures Masked(esp) == PcbAddress(pid) && PidOf(PcbAddress(pid)) == pid
    ensures InKernelStack(StackTop(pid), pid) && (InKernelStack(esp, other) ==> other == pid)
    ensures other != pid ==> UserPage(other) + MB_4 / PAGE_SIZE <= UserPage(pid) || UserPage(pid) + MB_4 / PAGE_SIZE <= UserPage(other)
  {}

  /** Where things lie: control blocks at the bottom and stack tops in the last word of 8KB areas that go down from 8MB,
      and the user frames, 1024 pages each, from 8MB up. */
  lemma LayoutIs(pid: nat)
    requires pid < MAX_PROCESS
    ensures PcbAddress(pid) == 0x7F_E000 - 0x2000 * pid && StackTop(pid) == PcbAddress(pid) + 0x1FFC
    ensures UserPage(pid) == 2048 + 1024 * pid
    ensures StackTop(pid) < 0x80_0000 <= UserPage(pid) * 4096
  {}

  // ----- The pid bitmap

  predicate Bit(a: bv8, p: nat)
    requires p < 8
  {
    (a >> p) & 1 == 1
  }

  lemma BitAfter(a: bv8, p: nat, q: nat)
    requires p < 8 && q < 8
    ensures Bit(a | (1 << p), q) <==> p == q || Bit(a, q)
    ensures Bit(a ^ (1 << p), q) <==> (p == q) != Bit(a, q)
  {
    assert p in {0, 1, 2, 3, 4, 5, 6, 7} && q in {0, 1, 2, 3, 4, 5, 6, 7};
  }

  function BitCount(a: bv8, n: nat): nat
    requires n <= 8
  {
    if n == 0 then 0 else BitCount(a, n - 1) + if Bit(a, n - 1) then 1 else 0
  }

  /** The pids whose bits are set. */
  function BitsOf(a: bv8): (pids: set<nat>)
    ensures forall p: nat :: p in pids <==> p < 8 && Bit(a, p)
  {
    set p: nat | p < 8 && Bit(a, p)
  }

  lemma BitsAfter(a: bv8, p: nat)
    requires p < 8
    ensures BitsOf(a | (1 << p)) == BitsOf(a) + {p}
    ensures Bit(a, p) ==> BitsOf(a ^ (1 << p)) == BitsOf(a) - {p}
  {
    forall q: nat | q < 8
      ensures q in BitsOf(a | (1 << p)) <==> q in BitsOf(a) + {p}
      ensures Bit(a, p) ==> (q in BitsOf(a ^ (1 << p)) <==> q in BitsOf(a) - {p})
    {
      BitAfter(a, p, q);
    }
  }

  lemma {:induction false} BitCountIsSize(a: bv8, n: nat)
    requires n <= 8
    ensures BitCount(a, n) == |BitsOf(a) * Below(n)|
  {
    if n > 0 {
      BitCountIsSize(a, n - 1);
      OneMore(BitsOf(a), n);
    }
  }

  // ----- Tables and the machine they represent

  datatype Tables = Tables(processCnt: nat, pids: set<nat>, pcbs: seq<Pcb>, terminalPid: seq<nat>,
                           active: nat, userPage: nat, esp0: nat)

  /** The control block of the process at depth `i` of terminal `t`. */
  ghost predicate FrameAgrees(pcbs: seq<Pcb>, m: Machine, t: nat, i: nat)
    requires m.On? && Has(m, t, i)
  {
    var f := At(m, t, i);
    && f.pid < |pcbs| && f.pid < MAX_PROCESS
    && var p := pcbs[f.pid];
    && p.currentId == f.pid && p.terminal == t
    && (if i == 0 then p.parentPointer == 0 && p.parentId == 0
        else At(m, t, i - 1).pid < MAX_PROCESS && p.parentId == At(m, t, i - 1).pid
             && p.parentPointer == PcbAddress(At(m, t, i - 1).pid))
    && (if i < |m.terms[t]| - 1 then f.saved == Some(p.stack)
        else t != m.running ==> f.saved == Some(p.switchStack))
  }

  ghost predicate FramesAgree(pcbs: seq<Pcb>, m: Machine)
    requires m.On?
  {
    forall t: nat, i: nat {:trigger FrameAgrees(pcbs, m, t, i)} | Has(m, t, i) :: FrameAgrees(pcbs, m, t, i)
  }

  function LastPid(stack: seq<Frame>): nat {
    if stack == [] then NO_PROCESS else Top(stack).pid
  }

  ghost predicate TerminalsAgree(terminalPid: seq<nat>, terms: seq<seq<Frame>>) {
    && |terminalPid| == TERMINALS == |terms|
    && forall t | 0 <= t < TERMINALS :: terminalPid[t] == LastPid(terms[t])
  }

  lemma TerminalsAfter(terminalPid: seq<nat>, terms: seq<seq<Frame>>, t: nat, stack: seq<Frame>)
    requires TerminalsAgree(terminalPid, terms) && t < TERMINALS
    ensures TerminalsAgree(terminalPid[t := LastPid(stack)], terms[t := stack])
  {}

  /** The tables hold exactly the machine `m`. */
  ghost predicate Agrees(k: Tables, m: Machine) {
    && Sound(m) && m.On?
    && |k.pcbs| == MAX_PROCESS && FramesAgree(k.pcbs, m)
    && TerminalsAgree(k.terminalPid, m.terms)
    && k.processCnt == Size(m) && k.pids == Live(m)
    && k.active == Top(m.terms[m.running]).pid < MAX_PROCESS
    && k.userPage == UserPage(k.active) && k.esp0 == StackTop(k.active)
  }

  lemma LowBitsCount(a: bv8)
    requires forall p | p in BitsOf(a) :: p < MAX_PROCESS
    ensures BitCount(a, MAX_PROCESS) == |BitsOf(a)|
  {
    BitCountIsSize(a, MAX_PROCESS);
    assert BitsOf(a) * Below(MAX_PROCESS) == BitsOf(a);
  }

  /** The count is the number of set bits among the low six, and no other bit is ever set. */
  lemma CountIsBits(k: Tables, m: Machine, a: bv8)
    requires Agrees(k, m) && k.pids == BitsOf(a)
    ensures k.processCnt == BitCount(a, MAX_PROCESS) && forall p: nat | p < 8 && Bit(a, p) :: p < MAX_PROCESS
  {
    LowBitsCount(a);
  }

  /** The frame that is mapped and the kernel stack in use are the active process's, and user frames begin at 8MB, above
      all that the kernel keeps. */
  lemma SettingsFollowActive(k: Tables, m: Machine)
    requires Agrees(k, m)
    ensures k.userPage == 2048 + 1024 * k.active && k.userPage * 4096 >= 0x80_0000
    ensures k.esp0 == 0x7F_FFFC - 0x2000 * k.active && InKernelStack(k.esp0, k.active)
  {
    LayoutIs(k.active);
  }

  /** Following parent links from a terminal's last process leads down its stack to a shell. */
  lemma ParentLinks(k: Tables, m: Machine, t: nat, i: nat)
    requires Agrees(k, m) && Has(m, t, i)
    ensures At(m, t, i).pid < MAX_PROCESS
    ensures k.pcbs[At(m, t, i).pid].parentPointer == 0 <==> i == 0
    ensures i > 0 ==> var parent := At(m, t, i - 1).pid;
              && parent < MAX_PROCESS && parent in k.pids
              && k.pcbs[At(m, t, i).pid].parentPointer == PcbAddress(parent)
  {
    assert FrameAgrees(k.pcbs, m, t, i);
    if i > 0 {
      LiveHas(m, t, i - 1);
    }
  }

  // ----- What each entry point does to the tables, and the step it is

  const NOWHERE: Context := Context(0, 0)

  /** A control block as init_pcb and its caller fill it in; `parent` is NO_PROCESS for a shell. */
  function NewPcb(pid: nat, parent: nat, terminal: nat): Pcb
    requires parent == NO_PROCESS || parent < MAX_PROCESS
  {
    if parent == NO_PROCESS then Pcb(pid, 0, 0, NOWHERE, NOWHERE, terminal)
    else Pcb(pid, parent, PcbAddress(parent), NOWHERE, NOWHERE, terminal)
  }

  function Activated(k: Tables, pid: nat): Tables
    requires pid < MAX_PROCESS
  {
    k.(active := pid, userPage := UserPage(pid), esp0 := StackTop(pid))
  }

  function Preempted(k: Tables, cur: Context): Tables
    requires k.active < |k.pcbs|
  {
    k.(pcbs := k.pcbs[k.active := k.pcbs[k.active].(switchStack := cur)])
  }

  function WithNew(k: Tables, pid: nat, parent: nat, terminal: nat): Tables
    requires pid < |k.pcbs| && pid < MAX_PROCESS && terminal < |k.terminalPid|
    requires parent == NO_PROCESS || parent < MAX_PROCESS
  {
    Activated(k, pid).(processCnt := k.processCnt + 1, pids := k.pids + {pid},
                       pcbs := k.pcbs[pid := NewPcb(pid, parent, terminal)],
                       terminalPid := k.terminalPid[terminal := pid])
  }

  function CalledAt(k: Tables, parent: nat, cur: Context): Tables
    requires parent < |k.pcbs|
  {
    k.(pcbs := k.pcbs[parent := k.pcbs[parent].(stack := cur)])
  }

  /** A terminal number of three or more makes the store of the pid miss the table. */
  function Removed(k: Tables, pid: nat, parent: nat, terminal: nat): Tables
    requires pid < MAX_PROCESS && parent < MAX_PROCESS && k.processCnt > 0
  {
    Activated(k, parent).(processCnt := k.processCnt - 1, pids := k.pids - {pid},
                          terminalPid := if terminal < |k.terminalPid| then k.terminalPid[terminal := parent] else k.terminalPid)
  }

  lemma FramesAfterPreempt(k: Tables, m: Machine, next: nat, cur: Context)
    requires Agrees(k, m)
    ensures FramesAgree(Preempted(k, cur).pcbs, On(Save(m, cur).terms, next))
  {
    var pcbs, n := Preempted(k, cur).pcbs, On(Save(m, cur).terms, next);
    var top := |m.terms[m.running]| - 1;
    SavedFrames(m, cur);
    OnlyHere(m, m.running, top);
    forall t: nat, i: nat | Has(n, t, i) ensures FrameAgrees(pcbs, n, t, i) {
      assert Has(m, t, i) && FrameAgrees(k.pcbs, m, t, i) && At(n, t, i) == At(Save(m, cur), t, i);
      if i > 0 { assert At(n, t, i - 1) == At(Save(m, cur), t, i - 1) && Has(m, t, i - 1); }
      if t != m.running || i != top {
        assert At(m, t, i).pid != At(m, m.running, top).pid;
      }
    }
  }

  /** The process that the table names for a terminal, and the context its block holds if it does not run. */
  lemma NextProcess(k: Tables, m: Machine, next: nat)
    requires Agrees(k, m) && next < TERMINALS && m.terms[next] != []
    ensures var last, pid := Top(m.terms[next]), k.terminalPid[next];
            && pid == last.pid < MAX_PROCESS
            && (next != m.running ==> pid != k.active && last.saved == Some(k.pcbs[pid].switchStack))
  {
    var top := |m.terms[next]| - 1;
    assert Has(m, next, top) && FrameAgrees(k.pcbs, m, next, top);
    if next != m.running {
      OnlyHere(m, next, top);
      assert Has(m, m.running, |m.terms[m.running]| - 1);
    }
  }

  lemma SwitchAgrees(k: Tables, m: Machine, next: nat, cur: Context)
    requires Agrees(k, m) && next < TERMINALS && m.terms[next] != []
    ensures var pid := k.terminalPid[next]; var after := Activated(Preempted(k, cur), pid);
            && pid < MAX_PROCESS && Agrees(after, Step(m, Tick(next, cur)))
            && Result(m, Tick(next, cur)) == Resumes(after.pcbs[pid].switchStack)
  {
    NextProcess(k, m, next);
    FramesAfterPreempt(k, m, next, cur);
    SwitchIsSound(m, next, cur);
    SaveIsLive(m, cur);
    var n, after := On(Save(m, cur).terms, next), Activated(Preempted(k, cur), k.terminalPid[next]);
    assert n == Step(m, Tick(next, cur)) && Top(n.terms[next]).pid == after.active;
    assert FramesAgree(after.pcbs, n) && TerminalsAgree(after.terminalPid, n.terms);
    assert after.processCnt == Size(n) && after.pids == Live(n);
  }

  lemma FramesAfterShell(k: Tables, m: Machine, next: nat, cur: Context, pid: nat)
    requires Agrees(k, m) && next < TERMINALS && m.terms[next] == [] && pid < MAX_PROCESS && pid !in Live(m)
    ensures FramesAgree(WithNew(Preempted(k, cur), pid, NO_PROCESS, next).pcbs, Push(Save(m, cur), next, pid))
  {
    var was := Preempted(k, cur).pcbs;
    var n := Push(Save(m, cur), next, pid);
    FramesAfterPreempt(k, m, next, cur);
    forall t: nat, i: nat | Has(n, t, i) ensures FrameAgrees(was[pid := NewPcb(pid, NO_PROCESS, next)], n, t, i) {
      if t != next {
        var s := On(Save(m, cur).terms, next);
        assert Has(s, t, i) && FrameAgrees(was, s, t, i) && At(n, t, i) == At(s, t, i);
        assert Has(m, t, i);
        LiveHas(m, t, i);
        SavedFrames(m, cur);
      }
    }
  }

  lemma TerminalsAfterShell(terminalPid: seq<nat>, m: Machine, next: nat, cur: Context, pid: nat)
    requires Sound(m) && m.On? && TerminalsAgree(terminalPid, m.terms) && next < TERMINALS
    ensures TerminalsAgree(terminalPid[next := pid], Push(Save(m, cur), next, pid).terms)
  {
    var terms := Save(m, cur).terms;
    assert forall t | 0 <= t < TERMINALS :: LastPid(terms[t]) == LastPid(m.terms[t]);
    TerminalsAfter(terminalPid, terms, next, terms[next] + [Frame(pid, None)]);
  }

  lemma NewIsActive(m: Machine, next: nat, cur: Context, pid: nat)
    requires Sound(m) && m.On? && next < TERMINALS && pid < MAX_PROCESS && pid !in Live(m)
    ensures var n := Push(Save(m, cur), next, pid);
            && Sound(n) && n.On? && Size(n) == Size(m) + 1 && Live(n) == Live(m) + {pid}
            && n.running == next && Top(n.terms[next]).pid == pid
  {
    PushIsSound(m, next, pid, cur);
  }

  lemma ShellAgrees(k: Tables, m: Machine, next: nat, cur: Context)
    requires Agrees(k, m) && next < TERMINALS && m.terms[next] == [] && Size(m) < MAX_PROCESS
    ensures var pid := FirstFree(Live(m), 0);
            pid < MAX_PROCESS && Agrees(WithNew(Preempted(k, cur), pid, NO_PROCESS, next), Step(m, Tick(next, cur)))
  {
    var pid := FirstFree(Live(m), 0);
    FreePidExists(m);
    var n, after := Push(Save(m, cur), next, pid), WithNew(Preempted(k, cur), pid, NO_PROCESS, next);
    assert FramesAgree(after.pcbs, n) by { FramesAfterShell(k, m, next, cur, pid); }
    assert TerminalsAgree(after.terminalPid, n.terms) by { TerminalsAfterShell(k.terminalPid, m, next, cur, pid); }
    NewIsActive(m, next, cur, pid);
    assert n == Step(m, Tick(next, cur));
  }

  function AfterExecute(m: Machine, cur: Context, pid: nat): Machine
    requires Sound(m) && m.On?
  {
    Push(Save(m, cur), m.running, pid)
  }

  function PcbsAfterExecute(k: Tables, terminal: nat, cur: Context, pid: nat): seq<Pcb>
    requires k.active < MAX_PROCESS && |k.pcbs| == MAX_PROCESS && pid < MAX_PROCESS
  {
    var pcbs := k.pcbs[pid := NewPcb(pid, k.active, terminal)];
    pcbs[k.active := pcbs[k.active].(stack := cur)]
  }

  lemma ChildFrame(k: Tables, m: Machine, cur: Context, pid: nat)
    requires Agrees(k, m) && pid < MAX_PROCESS && pid !in Live(m)
    ensures var n, top := AfterExecute(m, cur, pid), |m.terms[m.running]|;
            Has(n, m.running, top) && FrameAgrees(PcbsAfterExecute(k, m.running, cur, pid), n, m.running, top)
  {
    var n, top := AfterExecute(m, cur, pid), |m.terms[m.running]|;
    assert Has(m, m.running, top - 1);
    LiveHas(m, m.running, top - 1);
    assert At(n, m.running, top) == Frame(pid, None) && At(n, m.running, top - 1).pid == k.active != pid;
  }

  lemma OldFrame(k: Tables, m: Machine, cur: Context, pid: nat, t: nat, i: nat)
    requires Agrees(k, m) && pid < MAX_PROCESS && pid !in Live(m) && Has(m, t, i)
    ensures var n := AfterExecute(m, cur, pid);
            Has(n, t, i) && FrameAgrees(PcbsAfterExecute(k, m.running, cur, pid), n, t, i)
  {
    var n, top := AfterExecute(m, cur, pid), |m.terms[m.running]| - 1;
    var pcbs := PcbsAfterExecute(k, m.running, cur, pid);
    LiveHas(m, t, i);
    SavedFrames(m, cur);
    assert FrameAgrees(k.pcbs, m, t, i) && At(n, t, i) == At(Save(m, cur), t, i);
    assert At(m, t, i).pid != pid;
    if i > 0 { assert Has(m, t, i - 1) && At(n, t, i - 1) == At(Save(m, cur), t, i - 1); }
    if !Runs(m, t, i) {
      OnlyHere(m, t, i);
      assert Has(m, m.running, top) && At(m, m.running, top).pid == k.active;
      assert pcbs[At(m, t, i).pid] == k.pcbs[At(m, t, i).pid];
    }
  }

  lemma FramesAfterExecute(k: Tables, m: Machine, cur: Context, pid: nat)
    requires Agrees(k, m) && pid < MAX_PROCESS && pid !in Live(m)
    ensures FramesAgree(PcbsAfterExecute(k, m.running, cur, pid), AfterExecute(m, cur, pid))
  {
    var n, top := AfterExecute(m, cur, pid), |m.terms[m.running]|;
    ChildFrame(k, m, cur, pid);
    forall t: nat, i: nat | Has(n, t, i) ensures FrameAgrees(PcbsAfterExecute(k, m.running, cur, pid), n, t, i) {
      if !(t == m.running && i == top) { OldFrame(k, m, cur, pid, t, i); }
    }
  }

  lemma ExecuteAgrees(k: Tables, m: Machine, cur: Context)
    requires Agrees(k, m) && Size(m) < MAX_PROCESS
    ensures var pid := FirstFree(Live(m), 0);
            && pid < MAX_PROCESS
            && Agrees(CalledAt(WithNew(k, pid, k.active, m.running), k.active, cur), Step(m, Execute(true, cur)))
  {
    var pid := FirstFree(Live(m), 0);
    FreePidExists(m);
    FramesAfterExecute(k, m, cur, pid);
    PushIsSound(m, m.running, pid, cur);
    var n := AfterExecute(m, cur, pid);
    TerminalsAfter(k.terminalPid, m.terms, m.running, n.terms[m.running]);
    assert m.terms[m.running := n.terms[m.running]] == n.terms;
    var after := CalledAt(WithNew(k, pid, k.active, m.running), k.active, cur);
    assert n == Step(m, Execute(true, cur)) && Sound(n) && Top(n.terms[n.running]).pid == pid;
    assert FramesAgree(after.pcbs, n) && TerminalsAgree(after.terminalPid, n.terms);
    assert after.processCnt == Size(n) && after.pids == Live(n);
  }

  lemma FramesAfterHalt(pcbs: seq<Pcb>, m: Machine)
    requires Sound(m) && m.On? && FramesAgree(pcbs, m) && |m.terms[m.running]| > 1
    ensures FramesAgree(pcbs, Pop(m))
  {
    var n := Pop(m);
    forall t: nat, i: nat | Has(n, t, i) ensures FrameAgrees(pcbs, n, t, i) {
      assert Has(m, t, i) && FrameAgrees(pcbs, m, t, i) && At(n, t, i) == At(m, t, i);
      if i > 0 { assert At(n, t, i - 1) == At(m, t, i - 1); }
    }
  }

  /** What the kernel reads in the control blocks of a halting process and its parent. */
  lemma HaltingPcb(k: Tables, m: Machine)
    requires Agrees(k, m) && |m.terms[m.running]| > 1
    ensures var stack := m.terms[m.running]; var parent := k.pcbs[k.active].parentId;
            && parent == stack[|stack| - 2].pid < MAX_PROCESS
            && k.pcbs[k.active].parentPointer == PcbAddress(parent)
            && k.pcbs[parent].terminal == m.running
            && stack[|stack| - 2].saved == Some(k.pcbs[parent].stack)
  {
    var top := |m.terms[m.running]| - 1;
    assert Has(m, m.running, top) && FrameAgrees(k.pcbs, m, m.running, top);
    assert Has(m, m.running, top - 1) && FrameAgrees(k.pcbs, m, m.running, top - 1);
  }

  lemma HaltAgrees(k: Tables, m: Machine, parent: nat)
    requires Agrees(k, m) && |m.terms[m.running]| > 1
    requires parent == m.terms[m.running][|m.terms[m.running]| - 2].pid
    ensures parent < MAX_PROCESS && k.processCnt > 0
    ensures Agrees(Removed(k, k.active, parent, m.running), Pop(m))
  {
    HaltingPcb(k, m);
    PopIsSound(m);
    FramesAfterHalt(k.pcbs, m);
    var n, after := Pop(m), Removed(k, k.active, parent, m.running);
    TerminalsAfter(k.terminalPid, m.terms, m.running, n.terms[m.running]);
    assert LastPid(n.terms[m.running]) == parent;
    assert TerminalsAgree(after.terminalPid, n.terms);
    assert after.pids == Live(n) && after.processCnt == Size(n);
  }

  /** The parent link of a terminal's last process stays inside the terminal. */
  lemma ParentSharesTerminal(k: Tables, m: Machine, t: nat)
    requires Agrees(k, m) && t < TERMINALS && k.terminalPid[t] < MAX_PROCESS
    ensures var last := k.pcbs[k.terminalPid[t]];
            last.parentPointer != 0 ==> last.parentId < MAX_PROCESS && k.pcbs[last.parentId].terminal == t
  {
    var top := |m.terms[t]| - 1;
    assert Has(m, t, top) && FrameAgrees(k.pcbs, m, t, top);
    if top > 0 {
      assert Has(m, t, top - 1) && FrameAgrees(k.pcbs, m, t, top - 1);
    }
  }

  lemma ActiveBlock(k: Tables, m: Machine)
    requires Agrees(k, m)
    ensures k.active in Live(m) && k.pcbs[k.active].terminal == m.running
  {
    var top := |m.terms[m.running]| - 1;
    LiveHas(m, m.running, top);
    assert Has(m, m.running, top) && FrameAgrees(k.pcbs, m, m.running, top);
  }

  /** A child made for another terminal than its parent's fits no machine at all. */
  lemma MisplacedChildAgreesWithNothing(k: Tables, m: Machine, pid: nat, terminal: nat, cur: Context, n: Machine)
    requires Agrees(k, m) && pid < MAX_PROCESS && pid !in Live(m) && terminal < TERMINALS && terminal != m.running
    ensures !Agrees(CalledAt(WithNew(k, pid, k.active, terminal), k.active, cur), n)
  {
    var after := CalledAt(WithNew(k, pid, k.active, terminal), k.active, cur);
    ActiveBlock(k, m);
    assert after.pcbs[pid].parentPointer == PcbAddress(k.active) && after.pcbs[pid].parentId == k.active;
    assert after.pcbs[k.active].terminal == m.running && after.terminalPid[terminal] == pid;
    if Agrees(after, n) {
      ParentSharesTerminal(after, n, terminal);
    }
  }

  // ----- The steps as functions of the tables

  /** What the code relies on before it indexes with the pids it has stored. */
  predicate Usable(k: Tables) {
    && |k.pcbs| == MAX_PROCESS && |k.terminalPid| == TERMINALS && k.active < MAX_PROCESS
    && (forall t | 0 <= t < TERMINALS :: k.terminalPid[t] < MAX_PROCESS || k.terminalPid[t] == NO_PROCESS)
    && (k.processCnt < MAX_PROCESS ==> FirstFree(k.pids, 0) < MAX_PROCESS)
  }

  function ShellStarted(k: Tables, ter: nat): Tables
    requires |k.pcbs| == MAX_PROCESS && |k.terminalPid| == TERMINALS && ter < TERMINALS && FirstFree(k.pids, 0) < MAX_PROCESS
  {
    var cleared := if ter == 0 then k.(terminalPid := [NO_PROCESS, NO_PROCESS, NO_PROCESS]) else k;
    WithNew(cleared, FirstFree(k.pids, 0), NO_PROCESS, ter)
  }

  /** A shell that has to start needs a free slot: execute_shell does not test for one. */
  predicate CanTick(k: Tables, next: nat) {
    Usable(k) && next < TERMINALS && (k.processCnt == 0 || k.terminalPid[next] == NO_PROCESS ==> k.processCnt < MAX_PROCESS)
  }

  function TickTables(k: Tables, next: nat, cur: Context): (Tables, Outcome)
    requires CanTick(k, next)
  {
    if k.processCnt == 0 then (ShellStarted(k, 0), Starts(FirstFree(k.pids, 0)))
    else
      var saved := Preempted(k, cur);
      if k.terminalPid[next] == NO_PROCESS then (ShellStarted(saved, next), Starts(FirstFree(k.pids, 0)))
      else
        var after := Activated(saved, k.terminalPid[next]);
        (after, Resumes(after.pcbs[after.active].switchStack))
  }

  function ExecuteTables(k: Tables, executable: bool, terminal: nat, cur: Context): (Tables, Outcome)
    requires Usable(k) && terminal < TERMINALS
  {
    if !executable then (k, Fails(-1))
    else if k.processCnt >= MAX_PROCESS then (k, Fails(2))
    else
      var pid := FirstFree(k.pids, 0);
      (CalledAt(WithNew(k, pid, k.active, terminal), k.active, cur), Starts(pid))
  }

  predicate HasParent(k: Tables)
    requires k.active < |k.pcbs|
  {
    var p := k.pcbs[k.active];
    && k.active in k.pids && k.processCnt > 0 && p.parentId < |k.pcbs| && p.parentId < MAX_PROCESS
    && k.pcbs[p.parentId].terminal < |k.terminalPid|
  }

  function HaltTables(k: Tables, status: int): (Tables, Outcome)
    requires Usable(k) && (k.pcbs[k.active].parentPointer != 0 ==> HasParent(k))
  {
    var p := k.pcbs[k.active];
    if p.parentPointer == 0 then (k, Starts(k.active))
    else
      var parent := k.pcbs[p.parentId];
      (Removed(k, k.active, p.parentId, parent.terminal), Unwinds(parent.stack, status))
  }

  // ----- Refinement: tables that hold a machine take its steps

  lemma EmptyTerminal(k: Tables, m: Machine, t: nat)
    requires Agrees(k, m) && t < TERMINALS
    ensures k.terminalPid[t] == NO_PROCESS <==> m.terms[t] == []
    ensures k.terminalPid[t] < MAX_PROCESS || k.terminalPid[t] == NO_PROCESS
    ensures k.processCnt > 0
  {
    if m.terms[t] != [] {
      LiveHas(m, t, |m.terms[t]| - 1);
      assert At(m, t, |m.terms[t]| - 1).pid < MAX_PROCESS;
    }
  }

  lemma AgreeingIsUsable(k: Tables, m: Machine)
    requires Agrees(k, m)
    ensures Usable(k)
  {
    forall t | 0 <= t < TERMINALS ensures k.terminalPid[t] < MAX_PROCESS || k.terminalPid[t] == NO_PROCESS {
      EmptyTerminal(k, m, t);
    }
    if k.processCnt < MAX_PROCESS { FreePidExists(m); }
  }

  lemma TickRefines(k: Tables, m: Machine, next: nat, cur: Context)
    requires Agrees(k, m) && Allowed(m, Tick(next, cur))
    ensures CanTick(k, next)
    ensures Agrees(TickTables(k, next, cur).0, Step(m, Tick(next, cur)))
    ensures TickTables(k, next, cur).1 == Result(m, Tick(next, cur))
  {
    AgreeingIsUsable(k, m);
    EmptyTerminal(k, m, next);
    if m.terms[next] == [] {
      ShellAgrees(k, m, next, cur);
    } else {
      SwitchAgrees(k, m, next, cur);
    }
  }

  /** Execute takes its step, unless the displayed terminal is not the caller's: then what it leaves is no machine. */
  lemma ExecuteRefines(k: Tables, m: Machine, executable: bool, terminal: nat, cur: Context)
    requires Agrees(k, m) && terminal < TERMINALS
    ensures Usable(k)
    ensures var (after, o) := ExecuteTables(k, executable, terminal, cur);
            && o == Result(m, Execute(executable, cur))
            && (!o.Starts? || terminal == m.running <==> exists n: Machine :: Agrees(after, n))
            && (!o.Starts? || terminal == m.running ==> Agrees(after, Step(m, Execute(executable, cur))))
  {
    AgreeingIsUsable(k, m);
    if executable && k.processCnt < MAX_PROCESS {
      if terminal == m.running {
        ExecuteAgrees(k, m, cur);
      } else {
        forall n: Machine ensures !Agrees(ExecuteTables(k, executable, terminal, cur).0, n) {
          FreePidExists(m);
          MisplacedChildAgreesWithNothing(k, m, FirstFree(Live(m), 0), terminal, cur, n);
        }
      }
    }
  }

  /** The running process has a parent block to return to, unless it is its terminal's shell. */
  lemma HaltingHasParent(k: Tables, m: Machine)
    requires Agrees(k, m)
    ensures Usable(k) && (k.pcbs[k.active].parentPointer != 0 <==> |m.terms[m.running]| > 1)
    ensures k.pcbs[k.active].parentPointer != 0 ==> HasParent(k)
  {
    AgreeingIsUsable(k, m);
    var top := |m.terms[m.running]| - 1;
    ParentLinks(k, m, m.running, top);
    LiveHas(m, m.running, top);
    EmptyTerminal(k, m, m.running);
    if top > 0 { HaltingPcb(k, m); }
  }

  lemma HaltOfChildRefines(k: Tables, m: Machine, status: nat)
    requires Agrees(k, m) && |m.terms[m.running]| > 1 && Usable(k) && HasParent(k) && k.pcbs[k.active].parentPointer != 0
    ensures HaltTables(k, status).1 == Result(m, Halt(status)) && Agrees(HaltTables(k, status).0, Step(m, Halt(status)))
  {
    HaltingPcb(k, m);
    HaltAgrees(k, m, k.pcbs[k.active].parentId);
    assert Step(m, Halt(status)) == Pop(m);
  }

  lemma HaltOfShellRefines(k: Tables, m: Machine, status: nat)
    requires Agrees(k, m) && |m.terms[m.running]| == 1 && Usable(k) && k.pcbs[k.active].parentPointer == 0
    ensures HaltTables(k, status) == (k, Result(m, Halt(status))) && Step(m, Halt(status)) == m
  {
    assert Result(m, Halt(status)) == Starts(k.active);
  }

  lemma HaltRefines(k: Tables, m: Machine, status: nat)
    requires Agrees(k, m) && Usable(k) && (k.pcbs[k.active].parentPointer != 0 ==> HasParent(k))
    ensures Agrees(HaltTables(k, status).0, Step(m, Halt(status)))
    ensures HaltTables(k, status).1 == Result(m, Halt(status))
  {
    HaltingHasParent(k, m);
    if |m.terms[m.running]| > 1 {
      HaltOfChildRefines(k, m, status);
    } else {
      HaltOfShellRefines(k, m, status);
    }
  }

  /** The last process of a terminal is live and its block names that terminal. */
  lemma LastOf(k: Tables, m: Machine, t: nat)
    requires Agrees(k, m) && t < TERMINALS && k.terminalPid[t] < MAX_PROCESS
    ensures k.terminalPid[t] in k.pids && k.pcbs[k.terminalPid[t]].terminal == t
  {
    EmptyTerminal(k, m, t);
    var top := |m.terms[t]| - 1;
    LiveHas(m, t, top);
    assert Has(m, t, top) && FrameAgrees(k.pcbs, m, t, top);
  }

  lemma LiveBlock(k: Tables, m: Machine, pid: nat, ter: nat)
    requires Agrees(k, m) && ter < TERMINALS && |m.terms[ter]| == 1
    requires pid in k.pids && pid != k.terminalPid[ter]
    ensures pid < MAX_PROCESS && k.pcbs[pid].terminal != ter
  {
    var t, i := FindLive(m, pid);
    assert Has(m, t, i) && FrameAgrees(k.pcbs, m, t, i);
  }

  /** Removing the shell of a terminal leaves no machine, whatever is taken for the terminal of its missing parent. */
  lemma RemovedShellAgreesWithNothing(k: Tables, m: Machine, ter: nat, parent: nat, terminal: nat, n: Machine)
    requires Agrees(k, m) && ter < TERMINALS && |m.terms[ter]| == 1 && parent < MAX_PROCESS && k.processCnt > 0
    ensures k.terminalPid[ter] < MAX_PROCESS && !Agrees(Removed(k, k.terminalPid[ter], parent, terminal), n)
  {
    EmptyTerminal(k, m, ter);
    var pid := k.terminalPid[ter];
    var after := Removed(k, pid, parent, terminal);
    assert after.pcbs == k.pcbs && after.pids == k.pids - {pid} && after.terminalPid[ter] in {pid, parent};
    if Agrees(after, n) {
      ActiveBlock(after, n);
      LiveBlock(k, m, parent, ter);
      LastOf(after, n, ter);
    }
  }

  /** The exception and keyboard halts apply to the process `pid`. For a shell they read the parent's block through a
      null pointer; `atNull` is what they find there. */
  predicate CanForce(k: Tables, pid: nat) {
    && Usable(k) && k.processCnt > 0
    && pid < MAX_PROCESS && pid in k.pids && k.pcbs[pid].parentId < MAX_PROCESS
  }

  function ParentBlock(k: Tables, pid: nat, atNull: Pcb): Pcb
    requires CanForce(k, pid)
  {
    if k.pcbs[pid].parentPointer == 0 then atNull else k.pcbs[k.pcbs[pid].parentId]
  }

  function ForcedTables(k: Tables, pid: nat, atNull: Pcb): (Tables, Outcome)
    requires CanForce(k, pid)
  {
    var block := ParentBlock(k, pid, atNull);
    (Removed(k, pid, k.pcbs[pid].parentId, block.terminal), Unwinds(block.stack, EXCEPTION_RETURN))
  }

  /** The block of the last process of a terminal, and whether it names a parent. */
  lemma LastBlock(k: Tables, m: Machine, ter: nat)
    requires Agrees(k, m) && ter < TERMINALS && m.terms[ter] != []
    ensures CanForce(k, k.terminalPid[ter])
    ensures k.pcbs[k.terminalPid[ter]].parentPointer != 0 <==> |m.terms[ter]| > 1
  {
    AgreeingIsUsable(k, m);
    EmptyTerminal(k, m, ter);
    LastOf(k, m, ter);
    ParentLinks(k, m, ter, |m.terms[ter]| - 1);
    assert FrameAgrees(k.pcbs, m, ter, |m.terms[ter]| - 1);
  }

  lemma ForcedOnRunning(k: Tables, m: Machine, atNull: Pcb)
    requires Agrees(k, m) && |m.terms[m.running]| > 1
    ensures k.terminalPid[m.running] == k.active && CanForce(k, k.active)
    ensures Agrees(ForcedTables(k, k.active, atNull).0, Step(m, Halt(EXCEPTION_RETURN)))
    ensures ForcedTables(k, k.active, atNull).1 == Result(m, Halt(EXCEPTION_RETURN))
  {
    LastBlock(k, m, m.running);
    HaltingHasParent(k, m);
    HaltRefines(k, m, EXCEPTION_RETURN);
  }

  /** The exception halt, which does not test for a shell, leaves a machine exactly when there is a parent to return to. */
  lemma ForcedHaltRefines(k: Tables, m: Machine, atNull: Pcb)
    requires Agrees(k, m)
    ensures CanForce(k, k.active)
    ensures var after := ForcedTables(k, k.active, atNull).0;
            && ((exists n: Machine :: Agrees(after, n)) <==> |m.terms[m.running]| > 1)
            && (|m.terms[m.running]| > 1 ==> Agrees(after, Step(m, Halt(EXCEPTION_RETURN))))
  {
    LastBlock(k, m, m.running);
    if |m.terms[m.running]| > 1 {
      ForcedOnRunning(k, m, atNull);
    } else {
      ForcedOnShell(k, m, m.running, atNull);
    }
  }

  lemma ForcedOnShell(k: Tables, m: Machine, ter: nat, atNull: Pcb)
    requires Agrees(k, m) && ter < TERMINALS && |m.terms[ter]| == 1
    ensures CanForce(k, k.terminalPid[ter])
    ensures forall n: Machine :: !Agrees(ForcedTables(k, k.terminalPid[ter], atNull).0, n)
  {
    LastBlock(k, m, ter);
    forall n: Machine ensures !Agrees(ForcedTables(k, k.terminalPid[ter], atNull).0, n) {
      RemovedShellAgreesWithNothing(k, m, ter, k.pcbs[k.terminalPid[ter]].parentId, atNull.terminal, n);
    }
  }

  /** The machine on which Ctrl-C is a plain halt. On another terminal than the running one it acts as if the running
      process had just been preempted where the scheduler stopped it the last time, for nobody saves where it is now. */
  function Interrupted(k: Tables, m: Machine, ter: nat): Machine
    requires Sound(m) && m.On? && ter < TERMINALS && m.terms[ter] != [] && k.active < |k.pcbs|
  {
    if ter == m.running then m else Step(m, Tick(ter, k.pcbs[k.active].switchStack))
  }

  /** A forced halt overwrites all that says which process was active. */
  lemma ForcedIgnoresActive(k: Tables, pid: nat, atNull: Pcb)
    requires CanForce(k, pid)
    ensures CanForce(Activated(k, pid), pid)
    ensures ForcedTables(Activated(k, pid), pid, atNull) == ForcedTables(k, pid, atNull)
  {}

  lemma InterruptedAgrees(k: Tables, m: Machine, ter: nat)
    requires Agrees(k, m) && ter < TERMINALS && ter != m.running && m.terms[ter] != []
    ensures var n, pid := Interrupted(k, m, ter), k.terminalPid[ter];
            n.running == ter && n.terms[ter] == m.terms[ter] && pid < MAX_PROCESS && Agrees(Activated(k, pid), n)
  {
    var stale := k.pcbs[k.active].switchStack;
    assert Preempted(k, stale) == k;
    SwitchAgrees(k, m, ter, stale);
  }

  lemma InterruptedElsewhere(k: Tables, m: Machine, ter: nat, atNull: Pcb)
    requires Agrees(k, m) && ter < TERMINALS && ter != m.running && |m.terms[ter]| > 1
    ensures CanForce(k, k.terminalPid[ter])
    ensures var n, (after, o) := Interrupted(k, m, ter), ForcedTables(k, k.terminalPid[ter], atNull);
            && n.running == ter && |n.terms[ter]| > 1
            && Agrees(after, Step(n, Halt(EXCEPTION_RETURN))) && o == Result(n, Halt(EXCEPTION_RETURN))
  {
    var n, pid := Interrupted(k, m, ter), k.terminalPid[ter];
    LastBlock(k, m, ter);
    InterruptedAgrees(k, m, ter);
    ForcedOnRunning(Activated(k, pid), n, atNull);
    ForcedIgnoresActive(k, pid, atNull);
  }

  lemma InterruptedRuns(k: Tables, m: Machine, ter: nat, atNull: Pcb)
    requires Agrees(k, m) && ter < TERMINALS && |m.terms[ter]| > 1
    ensures CanForce(k, k.terminalPid[ter])
    ensures var n, (after, o) := Interrupted(k, m, ter), ForcedTables(k, k.terminalPid[ter], atNull);
            && n.running == ter && |n.terms[ter]| > 1
            && Agrees(after, Step(n, Halt(EXCEPTION_RETURN))) && o == Result(n, Halt(EXCEPTION_RETURN))
  {
    if ter == m.running {
      ForcedOnRunning(k, m, atNull);
    } else {
      InterruptedElsewhere(k, m, ter, atNull);
    }
  }

  /** The tables determine which terminal runs. */
  lemma OnlyOneRunning(k: Tables, m: Machine, n: Machine)
    requires Agrees(k, m) && n.On? && n.running != m.running
    ensures !Agrees(k, n)
  {
    ActiveBlock(k, m);
    if Agrees(k, n) { ActiveBlock(k, n); }
  }

  lemma HaltStays(m: Machine, status: nat)
    requires Sound(m) && m.On?
    ensures Step(m, Halt(status)).running == m.running
  {}

  /** Elsewhere than on the running terminal the result is no halt of the running process, for another one is active. */
  lemma StrayIsNotAHalt(after: Tables, m: Machine, n: Machine)
    requires Sound(m) && m.On? && Sound(n) && n.On? && n.running != m.running
    requires Agrees(after, Step(n, Halt(EXCEPTION_RETURN)))
    ensures !Agrees(after, Step(m, Halt(EXCEPTION_RETURN)))
  {
    HaltStays(m, EXCEPTION_RETURN);
    HaltStays(n, EXCEPTION_RETURN);
    OnlyOneRunning(after, Step(n, Halt(EXCEPTION_RETURN)), Step(m, Halt(EXCEPTION_RETURN)));
  }

  /** Ctrl-C on a started terminal leaves a machine exactly when the terminal's last process is no shell, and takes the
      step of halt exactly when that terminal also runs. */
  lemma KeyboardHaltRefines(k: Tables, m: Machine, ter: nat, atNull: Pcb)
    requires Agrees(k, m) && ter < TERMINALS && m.terms[ter] != []
    ensures CanForce(k, k.terminalPid[ter])
    ensures var (after, o) := ForcedTables(k, k.terminalPid[ter], atNull);
            && ((exists n: Machine :: Agrees(after, n)) <==> |m.terms[ter]| > 1)
            && (Agrees(after, Step(m, Halt(EXCEPTION_RETURN))) <==> |m.terms[ter]| > 1 && ter == m.running)
            && (|m.terms[ter]| > 1 ==>
                  && Agrees(after, Step(Interrupted(k, m, ter), Halt(EXCEPTION_RETURN)))
                  && o == Result(Interrupted(k, m, ter), Halt(EXCEPTION_RETURN)))
  {
    LastBlock(k, m, ter);
    if |m.terms[ter]| == 1 {
      ForcedOnShell(k, m, ter, atNull);
    } else {
      InterruptedRuns(k, m, ter, atNull);
      if ter != m.running {
        StrayIsNotAHalt(ForcedTables(k, k.terminalPid[ter], atNull).0, m, Interrupted(k, m, ter));
      }
    }
  }

  /** So a Ctrl-C on another terminal breaks the promise of the scheduler: the process it interrupts at `cur` goes on
      there only if that is where it had been stopped the time before. */
  lemma StrayHaltLosesContext(k: Tables, m: Machine, ter: nat, cur: Context, later: Context)
    requires Agrees(k, m) && ter < TERMINALS && |m.terms[ter]| > 1 && ter != m.running
    ensures Result(Step(Step(m, Tick(ter, cur)), Halt(EXCEPTION_RETURN)), Tick(m.running, later)) == Resumes(cur)
    ensures var after := Step(Interrupted(k, m, ter), Halt(EXCEPTION_RETURN));
            Result(after, Tick(m.running, later)) == Resumes(cur) <==> cur == k.pcbs[k.active].switchStack
  {
    HaltElsewhere(m, ter, cur, EXCEPTION_RETURN, later);
    HaltElsewhere(m, ter, k.pcbs[k.active].switchStack, EXCEPTION_RETURN, later);
  }

  /** The first tick finds no process and starts the first shell, whatever terminal is next. */
  lemma BootRefines(k: Tables, next: nat, cur: Context)
    requires k.pids == {} && k.processCnt == 0 && Usable(k) && next < TERMINALS
    ensures CanTick(k, next)
    ensures Agrees(TickTables(k, next, cur).0, Step(Off, Tick(next, cur)))
    ensures TickTables(k, next, cur).1 == Result(Off, Tick(next, cur))
  {
    var n := On([[Frame(0, None)], [], []], 0);
    var after := TickTables(k, next, cur).0;
    assert Live(n) == {0} by { assert LiveIn([Frame(0, None)]) == LiveIn([]) + {0}; }
    assert FirstFree(k.pids, 0) == 0;
    forall t: nat, i: nat | Has(n, t, i) ensures FrameAgrees(after.pcbs, n, t, i) && t == 0 && i == 0 {}
    assert TerminalsAgree(after.terminalPid, n.terms);
  }

  // ----- Whole runs of the kernel

  datatype Call =
    | Timer(cur: Context)
    | Executes(executable: bool, terminal: nat, cur: Context)  // with the displayed terminal
    | Halts(status: nat)
    | Interrupts(terminal: nat, atNull: Pcb)                   // Ctrl-C, with the displayed terminal

  function NextCount(pit: nat, c: Call): nat {
    if c.Timer? then (pit + 1) % TICKS else pit
  }

  function EventOf(pit: nat, c: Call): Event {
    match c
    case Timer(cur) => Tick(Scheduled(pit), cur)
    case Executes(executable, _, cur) => Execute(executable, cur)
    case Halts(status) => Halt(status)
    case Interrupts(_, _) => Halt(EXCEPTION_RETURN)
  }

  function Events(pit: nat, cs: seq<Call>): seq<Event>
    decreases cs
  {
    if cs == [] then [] else [EventOf(pit, cs[0])] + Events(NextCount(pit, cs[0]), cs[1..])
  }

  predicate CanServe(k: Tables, pit: nat, c: Call) {
    match c
    case Timer(cur) => CanTick(k, Scheduled(pit))
    case Executes(_, terminal, _) => Usable(k) && terminal < TERMINALS
    case Halts(_) => Usable(k) && (k.pcbs[k.active].parentPointer != 0 ==> HasParent(k))
    case Interrupts(terminal, _) => terminal < |k.terminalPid| && CanForce(k, k.terminalPid[terminal])
  }

  function Serve(k: Tables, pit: nat, c: Call): (Tables, Outcome)
    requires CanServe(k, pit, c)
  {
    match c
    case Timer(cur) => TickTables(k, Scheduled(pit), cur)
    case Executes(executable, terminal, cur) => ExecuteTables(k, executable, terminal, cur)
    case Halts(status) => HaltTables(k, status)
    case Interrupts(terminal, atNull) => ForcedTables(k, k.terminalPid[terminal], atNull)
  }

  ghost predicate CanServeAll(k: Tables, pit: nat, cs: seq<Call>)
    decreases |cs|
  {
    cs != [] ==> CanServe(k, pit, cs[0]) && CanServeAll(Serve(k, pit, cs[0]).0, NextCount(pit, cs[0]), cs[1..])
  }

  ghost function ServeAll(k: Tables, pit: nat, cs: seq<Call>): Tables
    requires CanServeAll(k, pit, cs)
    decreases |cs|
  {
    if cs == [] then k else ServeAll(Serve(k, pit, cs[0]).0, NextCount(pit, cs[0]), cs[1..])
  }

  /** What the code leaves to luck besides a free slot for a starting shell: a child is made from the displayed
      terminal, and Ctrl-C hits the running process, which is not a shell. */
  predicate OnItsTerminal(m: Machine, c: Call)
    requires m.On? && |m.terms| == TERMINALS && m.running < TERMINALS
  {
    match c
    case Timer(_) => true
    case Executes(executable, terminal, _) =>
      terminal < TERMINALS && (executable && Size(m) < MAX_PROCESS ==> terminal == m.running)
    case Halts(_) => true
    case Interrupts(terminal, _) => terminal == m.running && |m.terms[terminal]| > 1
  }

  predicate Guarded(m: Machine, pit: nat, c: Call)
    requires m.On? && |m.terms| == TERMINALS && m.running < TERMINALS
  {
    Allowed(m, EventOf(pit, c)) && OnItsTerminal(m, c)
  }

  ghost predicate AllGuarded(m: Machine, pit: nat, cs: seq<Call>)
    requires Sound(m) && m.On?
    decreases |cs|
  {
    cs != [] ==> Guarded(m, pit, cs[0]) && AllGuarded(Step(m, EventOf(pit, cs[0])), NextCount(pit, cs[0]), cs[1..])
  }

  lemma ServeRefines(k: Tables, m: Machine, pit: nat, c: Call)
    requires Agrees(k, m) && Guarded(m, pit, c)
    ensures CanServe(k, pit, c) && Agrees(Serve(k, pit, c).0, Step(m, EventOf(pit, c)))
    ensures Serve(k, pit, c).1 == Result(m, EventOf(pit, c))
  {
    match c
    case Timer(cur) => TickRefines(k, m, Scheduled(pit), cur);
    case Executes(executable, terminal, cur) => ExecuteRefines(k, m, executable, terminal, cur);
    case Halts(status) => HaltingHasParent(k, m); HaltRefines(k, m, status);
    case Interrupts(_, atNull) => ForcedOnRunning(k, m, atNull);
  }

  /** Every guarded run of the kernel's tables is a run of the machine, and its tables hold that machine throughout. */
  lemma {:induction false} KernelRunRefines(k: Tables, m: Machine, pit: nat, cs: seq<Call>)
    requires Agrees(k, m) && AllGuarded(m, pit, cs)
    ensures CanServeAll(k, pit, cs) && CanRun(m, Events(pit, cs))
    ensures Agrees(ServeAll(k, pit, cs), Run(m, Events(pit, cs)))
    decreases |cs|
  {
    if cs != [] {
      ServeRefines(k, m, pit, cs[0]);
      KernelRunRefines(Serve(k, pit, cs[0]).0, Step(m, EventOf(pit, cs[0])), NextCount(pit, cs[0]), cs[1..]);
      assert Events(pit, cs)[0] == EventOf(pit, cs[0]) && Events(pit, cs)[1..] == Events(NextCount(pit, cs[0]), cs[1..]);
    }
  }

  /** The same guards with patience in place of luck about slots: nothing is executed before the three shells exist. */
  ghost predicate AllPatient(m: Machine, pit: nat, cs: seq<Call>)
    requires Sound(m) && m.On? && Young(m)
    decreases |cs|
  {
    cs != [] ==>
      && Patient(m, EventOf(pit, cs[0])) && OnItsTerminal(m, cs[0])
      && (PatientStep(m, EventOf(pit, cs[0]));
          AllPatient(Step(m, EventOf(pit, cs[0])), NextCount(pit, cs[0]), cs[1..]))
  }

  lemma {:induction false} PatientIsGuarded(m: Machine, pit: nat, cs: seq<Call>)
    requires Sound(m) && m.On? && Young(m) && AllPatient(m, pit, cs)
    ensures AllGuarded(m, pit, cs)
    decreases |cs|
  {
    if cs != [] {
      PatientStep(m, EventOf(pit, cs[0]));
      PatientIsGuarded(Step(m, EventOf(pit, cs[0])), NextCount(pit, cs[0]), cs[1..]);
    }
  }

  function Booted(): (m: Machine)
    ensures Sound(m) && m.On? && Young(m)
  {
    Step(Off, Tick(0, NOWHERE))
  }

  /** From empty tables: a first tick, and then any calls that wait for the shells and keep to their terminal, all can be
      served, and the tables hold the machine of that run throughout. */
  lemma BootedKernelRuns(k: Tables, pit: nat, cur: Context, cs: seq<Call>)
    requires k.pids == {} && k.processCnt == 0 && Usable(k)
    requires AllPatient(Booted(), NextCount(pit, Timer(cur)), cs)
    ensures var next := NextCount(pit, Timer(cur));
            && CanServeAll(k, pit, [Timer(cur)] + cs) && CanRun(Booted(), Events(next, cs))
            && Agrees(ServeAll(k, pit, [Timer(cur)] + cs), Run(Booted(), Events(next, cs)))
  {
    var next, calls := NextCount(pit, Timer(cur)), [Timer(cur)] + cs;
    assert calls[0] == Timer(cur) && calls[1..] == cs;
    BootRefines(k, Scheduled(pit), cur);
    PatientIsGuarded(Booted(), next, cs);
    KernelRunRefines(TickTables(k, Scheduled(pit), cur).0, Booted(), next, cs);
  }

  // ----- The kernel's entry points

  class System {
    var pitCnt: nat
    var processCnt: nat
    var availPid: bv8
    const pcbs: array<Pcb>
    const terminalPid: array<nat>
    var activeProcess: nat
    var activeTer: nat
    var userPage: nat
    var esp0: nat

    ghost function View(): Tables
      reads this, pcbs, terminalPid
    {
      Tables(processCnt, BitsOf(availPid), pcbs[..], terminalPid[..], activeProcess, userPage, esp0)
    }

    ghost predicate Valid()
      reads this, pcbs, terminalPid
    {
      pitCnt < TICKS && activeTer < TERMINALS && Usable(View())
    }

    constructor ()
      ensures Valid() && pitCnt == 0 && View().pids == {} && View().processCnt == 0
      ensures fresh(pcbs) && fresh(terminalPid)
    {
      pitCnt, processCnt, availPid, activeProcess, activeTer, userPage, esp0 := 0, 0, 0, 0, 0, 0, MB_8;
      pcbs := new Pcb[MAX_PROCESS](_ => Pcb(0, 0, 0, NOWHERE, NOWHERE, 0));
      terminalPid := new nat[TERMINALS](_ => 0);
      new;
      forall p: nat | p < 8 ensures !Bit(availPid, p) { assert p in {0, 1, 2, 3, 4, 5, 6, 7}; }
      assert BitsOf(availPid) == {};
    }

    /** `task_init`: the least free pid, or 255 when the count says six. */
    method TaskInit() returns (pid: nat)
      requires processCnt < MAX_PROCESS ==> FirstFree(BitsOf(availPid), 0) < MAX_PROCESS
      modifies this`processCnt, this`availPid, this`userPage
      ensures old(processCnt) >= MAX_PROCESS ==>
                pid == NO_PROCESS && processCnt == old(processCnt) && availPid == old(availPid) && userPage == old(userPage)
      ensures old(processCnt) < MAX_PROCESS ==>
                && pid == FirstFree(BitsOf(old(availPid)), 0) < MAX_PROCESS
                && BitsOf(availPid) == BitsOf(old(availPid)) + {pid}
                && processCnt == old(processCnt) + 1 && userPage == 2048 + 1024 * pid
    {
      if processCnt >= MAX_PROCESS { return NO_PROCESS; }
      pid := 0;
      var i := 0;
      while i < MAX_PROCESS
        invariant 0 <= i <= MAX_PROCESS && availPid == old(availPid)
        invariant FirstFree(BitsOf(availPid), i) == FirstFree(BitsOf(availPid), 0)
      {
        if (availPid >> i) & 1 == 0 {
          assert !Bit(availPid, i);
          pid := i;
          BitsAfter(availPid, pid);
          availPid := availPid | (1 << pid);
          break;
        }
        assert Bit(availPid, i) by { assert (availPid >> i) & 1 <= 1; }
        i := i + 1;
      }
      userPage := UserPage(pid);
      processCnt := processCnt + 1;
    }

    /** `init_pcb`, with the terminal its caller stores. */
    method InitPcb(pid: nat, parent: nat, terminal: nat)
      requires pid < pcbs.Length && pid < MAX_PROCESS && (parent == NO_PROCESS || parent < MAX_PROCESS)
      modifies pcbs
      ensures pcbs[..] == old(pcbs[..])[pid := NewPcb(pid, parent, terminal)]
      ensures pcbs[pid] == if parent == 255 then Pcb(pid, 0, 0, Context(0, 0), Context(0, 0), terminal)
                           else Pcb(pid, parent, 0x7F_E000 - 0x2000 * parent, Context(0, 0), Context(0, 0), terminal)
    {
      pcbs[pid] := pcbs[pid].(currentId := pid);
      if parent == NO_PROCESS {
        pcbs[pid] := pcbs[pid].(parentId := 0, parentPointer := 0);
      } else {
        pcbs[pid] := pcbs[pid].(parentId := parent, parentPointer := PcbAddress(parent));
      }
      pcbs[pid] := pcbs[pid].(stack := NOWHERE, switchStack := NOWHERE);
      pcbs[pid] := pcbs[pid].(terminal := terminal);
    }

    /** `execute_shell`, up to its jump to the program. */
    method ExecuteShell(ter: nat) returns (o: Outcome)
      requires pcbs.Length == MAX_PROCESS && terminalPid.Length == TERMINALS && ter < TERMINALS
      requires processCnt < MAX_PROCESS && FirstFree(BitsOf(availPid), 0) < MAX_PROCESS
      modifies this, pcbs, terminalPid
      ensures View() == ShellStarted(old(View()), ter) && o == Starts(FirstFree(BitsOf(old(availPid)), 0))
      ensures o == Starts(activeProcess) && terminalPid[ter] == activeProcess
      ensures userPage == 2048 + 1024 * activeProcess && esp0 == 0x7F_FFFC - 0x2000 * activeProcess
      ensures pitCnt == old(pitCnt) && activeTer == old(activeTer)
    {
      if ter == 0 {
        terminalPid[0], terminalPid[1], terminalPid[2] := NO_PROCESS, NO_PROCESS, NO_PROCESS;
      }
      assert terminalPid[..] == if ter == 0 then [NO_PROCESS, NO_PROCESS, NO_PROCESS] else old(terminalPid[..]);
      var pid := TaskInit();
      InitPcb(pid, NO_PROCESS, ter);
      activeProcess := pid;
      terminalPid[ter] := pid;
      esp0 := StackTop(pid);
      return Starts(pid);
    }

    /** `switch_process`, without its video part (see module Video). */
    method SwitchProcess(next: nat, cur: Context) returns (o: Outcome)
      requires CanTick(View(), next)
      modifies this, pcbs, terminalPid
      ensures View() == TickTables(old(View()), next, cur).0 && o == TickTables(old(View()), next, cur).1
      ensures old(processCnt) > 0 && old(terminalPid[next]) != 255 ==>
                && activeProcess == old(terminalPid[next]) && o == Resumes(pcbs[activeProcess].switchStack)
                && pcbs[old(activeProcess)].switchStack == cur
      ensures old(processCnt) == 0 || old(terminalPid[next]) == 255 ==> o == Starts(activeProcess)
      ensures userPage == 2048 + 1024 * activeProcess && esp0 == 0x7F_FFFC - 0x2000 * activeProcess
      ensures pitCnt == old(pitCnt) && activeTer == old(activeTer)
    {
      if processCnt == 0 {
        o := ExecuteShell(0);
        return;
      }
      ghost var k := View();
      var nextPid := terminalPid[next];
      pcbs[activeProcess] := pcbs[activeProcess].(switchStack := cur);
      assert pcbs[..] == Preempted(k, cur).pcbs;
      activeProcess := nextPid;
      if nextPid == NO_PROCESS {
        o := ExecuteShell(next);
      } else {
        userPage := UserPage(activeProcess);
        o := Resumes(pcbs[activeProcess].switchStack);
        esp0 := StackTop(activeProcess);
      }
    }

    /** `pit_handler`: the counter is 32 bits wide. */
    method PitHandler(cur: Context) returns (o: Outcome)
      requires pitCnt < TICKS && CanTick(View(), pitCnt % TERMINALS)
      modifies this, pcbs, terminalPid
      ensures Scheduled(old(pitCnt)) == old(pitCnt) % 3 && (View(), o) == TickTables(old(View()), old(pitCnt) % 3, cur)
      ensures pitCnt == (old(pitCnt) + 1) % TICKS && activeTer == old(activeTer)
    {
      var next := pitCnt % TERMINALS;
      pitCnt := (pitCnt + 1) % TICKS;
      o := SwitchProcess(next, cur);
    }

    /** `get_pcb`: the control block at the bottom of the stack in use. */
    method GetPcb(esp: nat) returns (pid: nat)
      requires activeProcess < MAX_PROCESS && InKernelStack(esp, activeProcess)
      ensures pid == activeProcess
    {
      LayoutIsSound(esp, activeProcess, activeProcess);
      return PidOf(Masked(esp));
    }

    /** `sys_execute`, told whether it is given a command and whether that names an executable file; `cur` is the frame
        it saves for the child's halt. */
    method SysExecute(given: bool, executable: bool, esp: nat, cur: Context) returns (o: Outcome)
      requires Valid() && InKernelStack(esp, activeProcess)
      modifies this, pcbs, terminalPid
      ensures (View(), o) == ExecuteTables(old(View()), given && executable, old(activeTer), cur)
      ensures !given || !executable ==> o == Fails(-1) && View() == old(View())
      ensures given && executable && old(processCnt) >= 6 ==> o == Fails(2) && View() == old(View())
      ensures given && executable && old(processCnt) < 6 ==>
                && o == Starts(activeProcess) && terminalPid[old(activeTer)] == activeProcess
                && activeProcess !in BitsOf(old(availPid)) && (forall p: nat | p < activeProcess :: p in BitsOf(old(availPid)))
                && pcbs[activeProcess].parentId == old(activeProcess) && pcbs[old(activeProcess)].stack == cur
                && userPage == 2048 + 1024 * activeProcess && esp0 == 0x7F_FFFC - 0x2000 * activeProcess
      ensures pitCnt == old(pitCnt) && activeTer == old(activeTer)
    {
      var parent := GetPcb(esp);
      if !given { return Fails(-1); }
      if !executable { return Fails(-1); }
      ghost var k := View();
      var pid := TaskInit();
      if pid == NO_PROCESS {
        return Fails(2);
      }
      InitPcb(pid, parent, activeTer);
      terminalPid[activeTer] := pid;
      activeProcess := pid;
      esp0 := StackTop(pid);
      pcbs[parent] := pcbs[parent].(stack := cur);
      return Starts(pid);
    }

    /** `task_halt`. */
    method TaskHalt(pid: nat)
      requires pid < pcbs.Length && pid < MAX_PROCESS && processCnt > 0 && Bit(availPid, pid)
      modifies this`availPid, this`userPage, this`processCnt
      ensures BitsOf(availPid) == BitsOf(old(availPid)) - {pid}
      ensures userPage == 2048 + 1024 * pcbs[pid].parentId && processCnt == old(processCnt) - 1
    {
      BitsAfter(availPid, pid);
      availPid := availPid ^ (1 << pid);
      var parent := pcbs[pid].parentId;
      userPage := UserPage(parent);
      processCnt := processCnt - 1;
    }

    /** `sys_halt`: a shell started by the kernel is entered again instead. */
    method SysHalt(status: nat, esp: nat) returns (o: Outcome)
      requires Valid() && InKernelStack(esp, activeProcess)
      requires pcbs[activeProcess].parentPointer != 0 ==> HasParent(View())
      modifies this, terminalPid
      ensures (View(), o) == HaltTables(old(View()), status)
      ensures old(pcbs[activeProcess]).parentPointer == 0 ==> o == Starts(old(activeProcess)) && View() == old(View())
      ensures old(pcbs[activeProcess]).parentPointer != 0 ==>
                && activeProcess == pcbs[old(activeProcess)].parentId && o == Unwinds(pcbs[activeProcess].stack, status)
                && userPage == 2048 + 1024 * activeProcess && esp0 == 0x7F_FFFC - 0x2000 * activeProcess
      ensures pitCnt == old(pitCnt) && activeTer == old(activeTer)
    {
      var pid := GetPcb(esp);
      if pcbs[pid].parentPointer == 0 {
        return Starts(pid);
      }
      var parent := pcbs[pid].parentId;
      TaskHalt(pid);
      activeProcess := parent;
      var parentTer := pcbs[parent].terminal;
      terminalPid[parentTer] := parent;
      o := Unwinds(pcbs[parent].stack, status);
      esp0 := StackTop(parent);
    }

    /** `exception_halt`, which does not test for a shell without a parent. */
    method ExceptionHalt(esp: nat, atNull: Pcb) returns (o: Outcome)
      requires Valid() && InKernelStack(esp, activeProcess) && CanForce(View(), activeProcess)
      modifies this, terminalPid
      ensures (View(), o) == ForcedTables(old(View()), old(activeProcess), atNull)
      ensures activeProcess == pcbs[old(activeProcess)].parentId && o.Unwinds? && o.value == 256
      ensures userPage == 2048 + 1024 * activeProcess && esp0 == 0x7F_FFFC - 0x2000 * activeProcess
      ensures pitCnt == old(pitCnt) && activeTer == old(activeTer)
    {
      var pid := GetPcb(esp);
      o := Force(pid, atNull);
    }

    /** `keyboard_halt`, which acts on the displayed terminal. */
    method KeyboardHalt(atNull: Pcb) returns (o: Outcome)
      requires Valid() && CanForce(View(), terminalPid[activeTer])
      modifies this, terminalPid
      ensures (View(), o) == ForcedTables(old(View()), old(terminalPid[activeTer]), atNull)
      ensures activeProcess == pcbs[old(terminalPid[activeTer])].parentId && o.Unwinds? && o.value == 256
      ensures userPage == 2048 + 1024 * activeProcess && esp0 == 0x7F_FFFC - 0x2000 * activeProcess
      ensures pitCnt == old(pitCnt) && activeTer == old(activeTer)
    {
      var pid := terminalPid[activeTer];
      o := Force(pid, atNull);
    }

    /** The statements that these two share. */
    method Force(pid: nat, atNull: Pcb) returns (o: Outcome)
      requires Valid() && CanForce(View(), pid)
      modifies this, terminalPid
      ensures (View(), o) == ForcedTables(old(View()), pid, atNull)
      ensures activeProcess == pcbs[pid].parentId && o.Unwinds? && o.value == 256
      ensures userPage == 2048 + 1024 * activeProcess && esp0 == 0x7F_FFFC - 0x2000 * activeProcess
      ensures pitCnt == old(pitCnt) && activeTer == old(activeTer)
    {
      var parent := pcbs[pid].parentId;
      var block := if pcbs[pid].parentPointer == 0 then atNull else pcbs[parent];
      activeProcess := parent;
      var parentTer := block.terminal;
      if parentTer < terminalPid.Length { terminalPid[parentTer] := parent; }
      TaskHalt(pid);
      o := Unwinds(block.stack, EXCEPTION_RETURN);
      esp0 := StackTop(parent);
    }
  }
}
