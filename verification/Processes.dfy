/**
 The process model behind the kernel's tables: three terminals, each a stack of
 processes with its shell at the bottom, one of them running. The theorems
 here are about every run of such a machine; module Kernel refines it.
 */
module Processes {
  import opened Counting
  import opened Terminals
  import opened Text

  const MAX_PROCESS: nat := 6

  /** A saved stack pointer and base pointer. */
  datatype Context = Context(esp: nat, ebp: nat)

  /** A live process, with the context it is stopped at unless it is the one that runs. */
  datatype Frame = Frame(pid: nat, saved: Option<Context>)

  datatype Machine = Off | On(terms: seq<seq<Frame>>, running: nat)

  datatype Event =
    | Tick(next: nat, cur: Context)             // the timer preempts at `cur`
    | Execute(executable: bool, cur: Context)   // the running process calls execute at `cur`
    | Halt(status: nat)                         // it halts, or dies of an exception or of Ctrl-C

  datatype Outcome =
    | Starts(pid: nat)                          // a program is entered from its first instruction
    | Resumes(at: Context)                      // a preempted process goes on
    | Unwinds(at: Context, value: int)          // the execute call made at `at` returns `value`
    | Fails(value: int)                         // the execute call itself returns

  // ----- Stacks

  function Top(stack: seq<Frame>): Frame
    requires stack != []
  {
    stack[|stack| - 1]
  }

  function SaveTop(stack: seq<Frame>, c: Context): seq<Frame>
    requires stack != []
  {
    stack[|stack| - 1 := Top(stack).(saved := Some(c))]
  }

  function LiveIn(stack: seq<Frame>): (live: set<nat>)
    ensures |live| <= |stack|
  {
    if stack == [] then {} else LiveIn(stack[..|stack| - 1]) + {Top(stack).pid}
  }

  function Live(m: Machine): set<nat>
    requires m.On? && |m.terms| == TERMINALS
  {
    LiveIn(m.terms[0]) + LiveIn(m.terms[1]) + LiveIn(m.terms[2])
  }

  function Size(m: Machine): nat
    requires m.On? && |m.terms| == TERMINALS
  {
    |m.terms[0]| + |m.terms[1]| + |m.terms[2]|
  }

  predicate Has(m: Machine, t: nat, i: nat)
    requires m.On?
  {
    t < |m.terms| && i < |m.terms[t]|
  }

  function At(m: Machine, t: nat, i: nat): Frame
    requires m.On? && Has(m, t, i)
  {
    m.terms[t][i]
  }

  lemma {:induction false} LiveInHas(stack: seq<Frame>, i: nat)
    requires i < |stack|
    ensures stack[i].pid in LiveIn(stack)
  {
    if i < |stack| - 1 { LiveInHas(stack[..|stack| - 1], i); }
  }

  lemma LiveHas(m: Machine, t: nat, i: nat)
    requires m.On? && |m.terms| == TERMINALS && Has(m, t, i)
    ensures At(m, t, i).pid in Live(m)
  {
    LiveInHas(m.terms[t], i);
    assert t == 0 || t == 1 || t == 2;
  }

  lemma {:induction false} FindInStack(stack: seq<Frame>, pid: nat) returns (i: nat)
    requires pid in LiveIn(stack)
    ensures i < |stack| && stack[i].pid == pid
  {
    i := |stack| - 1;
    if Top(stack).pid != pid { i := FindInStack(stack[..|stack| - 1], pid); }
  }

  /** Every live pid is some process's. */
  lemma FindLive(m: Machine, pid: nat) returns (t: nat, i: nat)
    requires m.On? && |m.terms| == TERMINALS && pid in Live(m)
    ensures Has(m, t, i) && At(m, t, i).pid == pid
  {
    t := if pid in LiveIn(m.terms[0]) then 0 else if pid in LiveIn(m.terms[1]) then 1 else 2;
    i := FindInStack(m.terms[t], pid);
  }

  /** The least pid from `from` on that is not live, or six. */
  function FirstFree(live: set<nat>, from: nat): (p: nat)
    requires from <= MAX_PROCESS
    ensures from <= p <= MAX_PROCESS
    ensures forall q | from <= q < p :: q in live
    ensures p < MAX_PROCESS ==> p !in live
    decreases MAX_PROCESS - from
  {
    if from == MAX_PROCESS || from !in live then from else FirstFree(live, from + 1)
  }

  /** While fewer than six processes are live there is a pid for another. */
  lemma FreePidExists(m: Machine)
    requires m.On? && |m.terms| == TERMINALS && Size(m) < MAX_PROCESS
    ensures FirstFree(Live(m), 0) < MAX_PROCESS
  {
    var live, all := Live(m), Below(MAX_PROCESS);
    assert |live| <= Size(m);
    assert |live - all| == |live| - |live * all|;
    assert live * all != all;
  }

  // ----- Steps

  predicate Runs(m: Machine, t: nat, i: nat)
    requires m.On? && Has(m, t, i)
  {
    t == m.running && i == |m.terms[t]| - 1
  }

  /** Every process but the running one is stopped at a saved context. */
  ghost predicate Stopped(m: Machine)
    requires m.On?
  {
    forall t: nat, i: nat | Has(m, t, i) && !Runs(m, t, i) :: At(m, t, i).saved.Some?
  }

  /** The shape every reachable machine has. */
  ghost predicate Sound(m: Machine) {
    m.On? ==>
      && |m.terms| == TERMINALS && m.running < TERMINALS
      && m.terms[m.running] != [] && m.terms[0] != []
      && (forall p | p in Live(m) :: p < MAX_PROCESS)
      && |Live(m)| == Size(m)                          // no pid is used twice
      && Stopped(m)
  }

  /** A step is allowed unless it would start a shell with no process slot left. */
  predicate Allowed(m: Machine, e: Event)
    requires m.On? ==> |m.terms| == TERMINALS
  {
    match e
    case Tick(next, _) => next < TERMINALS && (m.On? && m.terms[next] == [] ==> Size(m) < MAX_PROCESS)
    case Execute(_, _) => m.On?
    case Halt(_) => m.On?
  }

  function Push(m: Machine, t: nat, pid: nat): Machine
    requires m.On? && t < |m.terms|
  {
    On(m.terms[t := m.terms[t] + [Frame(pid, None)]], t)
  }

  function Save(m: Machine, c: Context): Machine
    requires m.On? && m.running < |m.terms| && m.terms[m.running] != []
  {
    On(m.terms[m.running := SaveTop(m.terms[m.running], c)], m.running)
  }

  function Pop(m: Machine): Machine
    requires m.On? && m.running < |m.terms| && m.terms[m.running] != []
  {
    var stack := m.terms[m.running];
    On(m.terms[m.running := stack[..|stack| - 1]], m.running)
  }

  // ----- Every step keeps the shape

  lemma SaveTopIsLive(stack: seq<Frame>, c: Context)
    requires stack != []
    ensures LiveIn(SaveTop(stack, c)) == LiveIn(stack)
  {
    assert SaveTop(stack, c)[..|stack| - 1] == stack[..|stack| - 1];
  }

  lemma SaveIsLive(m: Machine, c: Context)
    requires Sound(m) && m.On?
    ensures var s := Save(m, c);
            |s.terms| == TERMINALS && Size(s) == Size(m) && Live(s) == Live(m)
  {
    SaveTopIsLive(m.terms[m.running], c);
    var s := Save(m, c);
    forall t | 0 <= t < TERMINALS ensures LiveIn(s.terms[t]) == LiveIn(m.terms[t]) && |s.terms[t]| == |m.terms[t]| {
      assert t != m.running ==> s.terms[t] == m.terms[t];
    }
    assert LiveIn(s.terms[0]) == LiveIn(m.terms[0]) && LiveIn(s.terms[1]) == LiveIn(m.terms[1]) && LiveIn(s.terms[2]) == LiveIn(m.terms[2]);
  }

  lemma SavedFrames(m: Machine, c: Context)
    requires Sound(m) && m.On?
    ensures forall t: nat, i: nat :: Has(Save(m, c), t, i) <==> Has(m, t, i)
    ensures forall t: nat, i: nat | Has(m, t, i) ::
              At(Save(m, c), t, i) == if Runs(m, t, i) then At(m, t, i).(saved := Some(c)) else At(m, t, i)
  {}

  lemma PushIsLive(m: Machine, t: nat, pid: nat)
    requires m.On? && |m.terms| == TERMINALS && t < TERMINALS
    ensures Live(Push(m, t, pid)) == Live(m) + {pid} && Size(Push(m, t, pid)) == Size(m) + 1
  {
    var stack := Push(m, t, pid).terms[t];
    assert stack[..|stack| - 1] == m.terms[t];
    assert LiveIn(stack) == LiveIn(m.terms[t]) + {pid};
  }

  lemma PushIsSound(m: Machine, t: nat, pid: nat, c: Context)
    requires Sound(m) && m.On? && t < TERMINALS
    requires pid < MAX_PROCESS && pid !in Live(m)
    ensures var n := Push(Save(m, c), t, pid);
            Sound(n) && Size(n) == Size(m) + 1 && Live(n) == Live(m) + {pid}
  {
    var s := Save(m, c);
    var n := Push(s, t, pid);
    SaveIsLive(m, c);
    SavedFrames(m, c);
    PushIsLive(s, t, pid);
    forall u: nat, i: nat | Has(n, u, i) && !Runs(n, u, i) ensures At(n, u, i).saved.Some? {
      assert Has(m, u, i) && At(n, u, i) == At(s, u, i);
    }
  }

  /** A halted process leaves no other process with its pid: the count of live pids drops. */
  lemma PopIsSound(m: Machine)
    requires Sound(m) && m.On? && |m.terms[m.running]| > 1
    ensures Sound(Pop(m)) && Size(Pop(m)) == Size(m) - 1
    ensures Live(m) == Live(Pop(m)) + {Top(m.terms[m.running]).pid}
    ensures Top(m.terms[m.running]).pid !in Live(Pop(m))
  {
    var n, p := Pop(m), Top(m.terms[m.running]).pid;
    assert LiveIn(m.terms[m.running]) == LiveIn(n.terms[m.running]) + {p};
    assert Live(m) == Live(n) + {p};
    assert |Live(n)| <= Size(n);
    forall u: nat, i: nat | Has(n, u, i) && !Runs(n, u, i) ensures At(n, u, i).saved.Some? {
      assert Has(m, u, i) && At(n, u, i) == At(m, u, i);
    }
  }

  lemma SwitchIsSound(m: Machine, next: nat, c: Context)
    requires Sound(m) && m.On? && next < TERMINALS && m.terms[next] != []
    ensures Sound(On(Save(m, c).terms, next))
  {
    SaveIsLive(m, c);
    SavedFrames(m, c);
    var n := On(Save(m, c).terms, next);
    assert forall t: nat, i: nat | Has(n, t, i) :: Has(Save(m, c), t, i) && At(n, t, i) == At(Save(m, c), t, i);
  }

  /** The machine after an event. Whatever is allowed keeps the shape, so a run needs no other condition. */
  function Step(m: Machine, e: Event): (n: Machine)
    requires Sound(m) && Allowed(m, e)
    ensures Sound(n) && n.On?
  {
    match e
    case Tick(next, cur) =>
      if m.Off? then On([[Frame(0, None)], [], []], 0)
      else if m.terms[next] == [] then
        FreePidExists(m);
        PushIsSound(m, next, FirstFree(Live(m), 0), cur);
        Push(Save(m, cur), next, FirstFree(Live(m), 0))
      else
        SwitchIsSound(m, next, cur);
        On(Save(m, cur).terms, next)
    case Execute(executable, cur) =>
      if executable && Size(m) < MAX_PROCESS then
        FreePidExists(m);
        PushIsSound(m, m.running, FirstFree(Live(m), 0), cur);
        Push(Save(m, cur), m.running, FirstFree(Live(m), 0))
      else m
    case Halt(_) =>
      if |m.terms[m.running]| == 1 then m
      else
        PopIsSound(m);
        Pop(m)
  }

  function Result(m: Machine, e: Event): Outcome
    requires Sound(m) && Allowed(m, e)
  {
    match e
    case Tick(next, cur) =>
      if m.Off? then Starts(0)
      else if m.terms[next] == [] then Starts(FirstFree(Live(m), 0))
      else Resumes(StoppedAt(Top(Save(m, cur).terms[next])))
    case Execute(executable, cur) =>
      if !executable then Fails(-1)
      else if Size(m) >= MAX_PROCESS then Fails(2)
      else Starts(FirstFree(Live(m), 0))
    case Halt(status) =>
      var stack := m.terms[m.running];
      if |stack| == 1 then Starts(Top(stack).pid)
      else Unwinds(StoppedAt(stack[|stack| - 2]), status)
  }

  function StoppedAt(f: Frame): Context {
    if f.saved.Some? then f.saved.value else Context(0, 0)
  }

  lemma {:induction false} DifferentInStack(stack: seq<Frame>, i: nat, j: nat)
    requires |LiveIn(stack)| == |stack| && i < j < |stack|
    ensures stack[i].pid != stack[j].pid
  {
    var front := stack[..|stack| - 1];
    assert |LiveIn(front)| <= |front|;
    if j < |front| {
      DifferentInStack(front, i, j);
    } else {
      LiveInHas(front, i);
      assert Top(stack).pid !in LiveIn(front);
    }
  }

  lemma FullUnion(a: set<nat>, b: set<nat>, c: set<nat>, x: nat, y: nat, z: nat)
    requires |a| <= x && |b| <= y && |c| <= z && |a + b + c| == x + y + z
    ensures |a| == x && |b| == y && |c| == z && a !! b && a !! c && b !! c
  {
    assert |a + b| == |a| + |b| - |a * b|;
    assert |(a + b) + c| == |a + b| + |c| - |(a + b) * c|;
    assert a * b == {} && (a + b) * c == {};
    forall e | e in a || e in b || e in c
      ensures !(e in a && e in b) && !(e in a && e in c) && !(e in b && e in c)
    {
      assert e !in a * b && e !in (a + b) * c;
    }
  }

  lemma TerminalsAreApart(m: Machine, t: nat, u: nat)
    requires Sound(m) && m.On? && t < TERMINALS && u < TERMINALS
    ensures |LiveIn(m.terms[t])| == |m.terms[t]|
    ensures t != u ==> LiveIn(m.terms[t]) !! LiveIn(m.terms[u])
  {
    var a, b, c := LiveIn(m.terms[0]), LiveIn(m.terms[1]), LiveIn(m.terms[2]);
    FullUnion(a, b, c, |m.terms[0]|, |m.terms[1]|, |m.terms[2]|);
    assert t in {0, 1, 2} && u in {0, 1, 2};
  }

  /** No two live processes share a pid. */
  lemma OnlyHere(m: Machine, t: nat, i: nat)
    requires Sound(m) && m.On? && Has(m, t, i)
    ensures forall u: nat, j: nat | Has(m, u, j) && !(u == t && j == i) :: At(m, u, j).pid != At(m, t, i).pid
  {
    forall u: nat, j: nat | Has(m, u, j) && !(u == t && j == i) ensures At(m, u, j).pid != At(m, t, i).pid {
      TerminalsAreApart(m, t, u);
      LiveInHas(m.terms[u], j);
      LiveInHas(m.terms[t], i);
      if u == t && i < j { DifferentInStack(m.terms[t], i, j); }
      if u == t && j < i { DifferentInStack(m.terms[t], j, i); }
    }
  }

  // ----- Runs

  /** Nothing but the guard of each step. */
  ghost predicate CanRun(m: Machine, es: seq<Event>)
    requires Sound(m)
    decreases |es|
  {
    es != [] ==> Allowed(m, es[0]) && CanRun(Step(m, es[0]), es[1..])
  }

  ghost function Run(m: Machine, es: seq<Event>): (n: Machine)
    requires Sound(m) && CanRun(m, es)
    ensures Sound(n) && (m.On? || es != [] ==> n.On?)
    decreases |es|
  {
    if es == [] then m else Run(Step(m, es[0]), es[1..])
  }

  lemma SizeIsBounded(m: Machine)
    requires Sound(m) && m.On?
    ensures Size(m) <= MAX_PROCESS
  {
    var all := Below(MAX_PROCESS);
    assert Live(m) <= all && all * Live(m) == Live(m);
    assert |all - Live(m)| == |all| - |all * Live(m)|;
  }

  /** Safety of every run: distinct pids below six, and every process but the running one stopped at a saved context. */
  lemma RunIsSafe(m: Machine, es: seq<Event>)
    requires Sound(m) && CanRun(m, es) && (m.On? || es != [])
    ensures var n := Run(m, es);
            && Size(n) <= MAX_PROCESS && |Live(n)| == Size(n)
            && (forall t: nat, i: nat | Has(n, t, i) :: At(n, t, i).pid < MAX_PROCESS && (Runs(n, t, i) || At(n, t, i).saved.Some?))
  {
    var n := Run(m, es);
    SizeIsBounded(n);
    forall t: nat, i: nat | Has(n, t, i) ensures At(n, t, i).pid < MAX_PROCESS { LiveHas(n, t, i); }
  }

  /** Terminal `t` does not run before, between or after the events. */
  ghost predicate Away(m: Machine, es: seq<Event>, t: nat)
    requires Sound(m) && CanRun(m, es)
    decreases |es|
  {
    m.On? && m.running != t && (es != [] ==> Away(Step(m, es[0]), es[1..], t))
  }

  lemma StepElsewhere(m: Machine, e: Event, t: nat)
    requires Sound(m) && m.On? && Allowed(m, e) && t < TERMINALS
    requires m.running != t && Step(m, e).running != t
    ensures |Step(m, e).terms| == TERMINALS && Step(m, e).terms[t] == m.terms[t]
  {
    match e
    case Tick(_, cur) => assert Save(m, cur).terms[t] == m.terms[t];
    case Execute(_, cur) => assert Save(m, cur).terms[t] == m.terms[t];
    case Halt(_) =>
  }

  /** Isolation: nothing touches the processes of a terminal that does not run. */
  lemma {:induction false} AwayIsUntouched(m: Machine, es: seq<Event>, t: nat)
    requires Sound(m) && CanRun(m, es) && Away(m, es, t) && t < TERMINALS
    ensures var n := Run(m, es); n.running != t && n.terms[t] == m.terms[t]
    decreases |es|
  {
    if es != [] {
      StepElsewhere(m, es[0], t);
      AwayIsUntouched(Step(m, es[0]), es[1..], t);
    }
  }

  lemma TickSaves(m: Machine, next: nat, cur: Context)
    requires Sound(m) && m.On? && next != m.running && Allowed(m, Tick(next, cur))
    ensures Step(m, Tick(next, cur)).terms[m.running] == SaveTop(m.terms[m.running], cur)
  {}

  lemma TickResumes(m: Machine, t: nat, cur: Context, later: Context)
    requires Sound(m) && m.On? && t < TERMINALS && t != m.running
    requires m.terms[t] != [] && Top(m.terms[t]).saved == Some(cur)
    ensures Result(m, Tick(t, later)) == Resumes(cur)
    ensures Step(m, Tick(t, later)).running == t && Step(m, Tick(t, later)).terms[t] == m.terms[t]
  {}

  /** A child that dies elsewhere does not change where a preempted process goes on. */
  lemma HaltElsewhere(m: Machine, other: nat, cur: Context, status: nat, later: Context)
    requires Sound(m) && m.On? && other < TERMINALS && other != m.running && |m.terms[other]| > 1
    ensures var n := Step(m, Tick(other, cur));
            && Sound(n) && n.On? && Sound(Step(n, Halt(status)))
            && Result(Step(n, Halt(status)), Tick(m.running, later)) == Resumes(cur)
  {
    var n := Step(m, Tick(other, cur));
    TickSaves(m, other, cur);
    StepElsewhere(n, Halt(status), m.running);
    TickResumes(Step(n, Halt(status)), m.running, cur, later);
  }

  /** The scheduler resumes a terminal exactly where its process was last preempted, whatever ran in between. */
  lemma PreemptedIsResumed(m: Machine, next: nat, cur: Context, es: seq<Event>, later: Context)
    requires Sound(m) && m.On? && next != m.running && Allowed(m, Tick(next, cur))
    requires CanRun(Step(m, Tick(next, cur)), es) && Away(Step(m, Tick(next, cur)), es, m.running)
    ensures var n := Run(Step(m, Tick(next, cur)), es); var back := Tick(m.running, later);
            Allowed(n, back) && Result(n, back) == Resumes(cur)
            && Step(n, back).terms[m.running] == SaveTop(m.terms[m.running], cur)
  {
    var first := Step(m, Tick(next, cur));
    TickSaves(m, next, cur);
    AwayIsUntouched(first, es, m.running);
    TickResumes(Run(first, es), m.running, cur, later);
  }

  /** The stack of terminal `t` never gets shorter than `n` frames. */
  ghost predicate StaysAbove(m: Machine, es: seq<Event>, t: nat, n: nat)
    requires Sound(m) && CanRun(m, es)
    decreases |es|
  {
    && m.On? && t < |m.terms| && |m.terms[t]| >= n
    && (es != [] ==> StaysAbove(Step(m, es[0]), es[1..], t, n))
  }

  /** The three things a step can do to one stack. */
  predicate Follows(was: seq<Frame>, now: seq<Frame>) {
    || now == was
    || (was == [] && |now| == 1)
    || (was != [] && |was| <= |now| <= |was| + 1 && now[..|was| - 1] == was[..|was| - 1])
    || (was != [] && now == was[..|was| - 1])
  }

  lemma SaveFollows(m: Machine, c: Context, t: nat)
    requires Sound(m) && m.On? && t < TERMINALS
    ensures |Save(m, c).terms| == TERMINALS && Follows(m.terms[t], Save(m, c).terms[t])
  {
    var was, now := m.terms[t], Save(m, c).terms[t];
    assert was != [] ==> now[..|was| - 1] == was[..|was| - 1];
  }

  lemma PushFollows(m: Machine, c: Context, t: nat, pid: nat, u: nat)
    requires Sound(m) && m.On? && t < TERMINALS && u < TERMINALS
    ensures |Push(Save(m, c), t, pid).terms| == TERMINALS && Follows(m.terms[u], Push(Save(m, c), t, pid).terms[u])
  {
    SaveFollows(m, c, u);
    var was, now := m.terms[u], Push(Save(m, c), t, pid).terms[u];
    assert was != [] ==> now[..|was| - 1] == was[..|was| - 1];
  }

  lemma StepFollows(m: Machine, e: Event, t: nat)
    requires Sound(m) && m.On? && Allowed(m, e) && t < TERMINALS
    ensures |Step(m, e).terms| == TERMINALS && Follows(m.terms[t], Step(m, e).terms[t])
  {
    match e
    case Tick(next, cur) =>
      if m.terms[next] == [] {
        PushFollows(m, cur, next, FirstFree(Live(m), 0), t);
      } else {
        SaveFollows(m, cur, t);
      }
    case Execute(_, cur) => PushFollows(m, cur, m.running, FirstFree(Live(m), 0), t);
    case Halt(_) =>
  }

  lemma FollowsBelow(was: seq<Frame>, now: seq<Frame>, n: nat)
    requires Follows(was, now) && 0 < n <= |was| && n <= |now|
    ensures now[..n - 1] == was[..n - 1]
  {
    assert |was| > 0 ==> was[..n - 1] == was[..|was| - 1][..n - 1];
    assert |was| <= |now| ==> now[..n - 1] == now[..|was| - 1][..n - 1];
  }

  lemma StepKeepsBelow(m: Machine, e: Event, t: nat, n: nat)
    requires Sound(m) && m.On? && Allowed(m, e) && t < TERMINALS && n > 0
    requires |m.terms[t]| >= n && |Step(m, e).terms| == TERMINALS && |Step(m, e).terms[t]| >= n
    ensures Step(m, e).terms[t][..n - 1] == m.terms[t][..n - 1]
  {
    StepFollows(m, e, t);
    FollowsBelow(m.terms[t], Step(m, e).terms[t], n);
  }

  /** A waiting parent is not changed while its child lives. */
  lemma {:induction false} WaitingIsUntouched(m: Machine, es: seq<Event>, t: nat, n: nat)
    requires Sound(m) && CanRun(m, es) && n > 0 && StaysAbove(m, es, t, n)
    ensures |Run(m, es).terms[t]| >= n && Run(m, es).terms[t][..n - 1] == m.terms[t][..n - 1]
    decreases |es|
  {
    if es != [] {
      StepKeepsBelow(m, es[0], t, n);
      WaitingIsUntouched(Step(m, es[0]), es[1..], t, n);
    }
  }

  lemma ExecutePushes(m: Machine, cur: Context)
    requires Sound(m) && m.On? && Size(m) < MAX_PROCESS
    ensures var child := Step(m, Execute(true, cur));
            && child.running == m.running
            && child.terms[m.running] == SaveTop(m.terms[m.running], cur) + [Frame(FirstFree(Live(m), 0), None)]
  {}

  lemma HaltUnwinds(m: Machine, stack: seq<Frame>, cur: Context, status: nat)
    requires Sound(m) && m.On? && stack != [] && Top(stack).saved == Some(cur)
    requires |m.terms[m.running]| == |stack| + 1 && m.terms[m.running][..|stack|] == stack
    ensures Result(m, Halt(status)) == Unwinds(cur, status)
    ensures Step(m, Halt(status)).running == m.running && Step(m, Halt(status)).terms[m.running] == stack
  {}

  /** Execute and halt match: whatever ran while the child lived, its halt returns to the very call that made it, on the stack it left. */
  lemma ChildReturnsToItsCall(m: Machine, cur: Context, es: seq<Event>, status: nat)
    requires Sound(m) && m.On? && Size(m) < MAX_PROCESS
    requires var child := Step(m, Execute(true, cur)); var n := |m.terms[m.running]| + 1;
             && CanRun(child, es) && StaysAbove(child, es, m.running, n)
             && child.On? && Run(child, es).running == m.running && |Run(child, es).terms[m.running]| == n
    ensures var last := Run(Step(m, Execute(true, cur)), es);
            && Result(last, Halt(status)) == Unwinds(cur, status)
            && Step(last, Halt(status)).terms[m.running] == SaveTop(m.terms[m.running], cur)
  {
    var child := Step(m, Execute(true, cur));
    ExecutePushes(m, cur);
    WaitingIsUntouched(child, es, m.running, |m.terms[m.running]| + 1);
    HaltUnwinds(Run(child, es), SaveTop(m.terms[m.running], cur), cur, status);
  }

  // ----- No shell is ever refused a slot, if execute waits for the three shells

  predicate Started(m: Machine) {
    m.On? && |m.terms| == TERMINALS && m.terms[0] != [] && m.terms[1] != [] && m.terms[2] != []
  }

  /** Until all terminals have started, each holds at most its shell. */
  predicate Young(m: Machine) {
    m.On? && |m.terms| == TERMINALS && !Started(m) ==> |m.terms[0]| <= 1 && |m.terms[1]| <= 1 && |m.terms[2]| <= 1
  }

  predicate Patient(m: Machine, e: Event) {
    match e
    case Tick(next, _) => next < TERMINALS
    case Execute(_, _) => Started(m)
    case Halt(_) => m.On?
  }

  lemma PatientTick(m: Machine, next: nat, cur: Context)
    requires Sound(m) && m.On? && Young(m) && next < TERMINALS
    ensures Allowed(m, Tick(next, cur)) && Young(Step(m, Tick(next, cur)))
  {
    var saved := Save(m, cur).terms;
    assert |saved[0]| == |m.terms[0]| && |saved[1]| == |m.terms[1]| && |saved[2]| == |m.terms[2]|;
    if m.terms[next] == [] {
      var n := saved[next := saved[next] + [Frame(FirstFree(Live(m), 0), None)]];
      assert Step(m, Tick(next, cur)) == On(n, next);
      assert |n[0]| <= 1 && |n[1]| <= 1 && |n[2]| <= 1;
    }
  }

  lemma PatientExecute(m: Machine, executable: bool, cur: Context)
    requires Sound(m) && Started(m)
    ensures Started(Step(m, Execute(executable, cur)))
  {
    var saved := Save(m, cur).terms;
    assert saved[0] != [] && saved[1] != [] && saved[2] != [];
  }

  lemma PatientHalt(m: Machine, status: nat)
    requires Sound(m) && m.On? && Young(m)
    ensures Young(Step(m, Halt(status)))
  {
    if |m.terms[m.running]| > 1 {
      assert Started(m);
      var n := m.terms[m.running := m.terms[m.running][..|m.terms[m.running]| - 1]];
      assert n[0] != [] && n[1] != [] && n[2] != [];
    }
  }

  lemma PatientStep(m: Machine, e: Event)
    requires Sound(m) && Young(m) && Patient(m, e)
    ensures Allowed(m, e) && Young(Step(m, e))
  {
    match e
    case Tick(next, cur) => if m.On? { PatientTick(m, next, cur); }
    case Execute(executable, cur) => PatientExecute(m, executable, cur);
    case Halt(status) => PatientHalt(m, status);
  }

  ghost predicate PatientRun(m: Machine, es: seq<Event>)
    requires Sound(m) && Young(m)
    decreases |es|
  {
    es != [] ==>
      && Patient(m, es[0])
      && (PatientStep(m, es[0]); PatientRun(Step(m, es[0]), es[1..]))
  }

  lemma {:induction false} PatientCanRun(m: Machine, es: seq<Event>)
    requires Sound(m) && Young(m) && PatientRun(m, es)
    ensures CanRun(m, es)
    decreases |es|
  {
    if es != [] {
      PatientStep(m, es[0]);
      PatientCanRun(Step(m, es[0]), es[1..]);
    }
  }

  /** From power-on, such a run never meets a shell that cannot start. */
  lemma BootedCanRun(es: seq<Event>)
    requires PatientRun(Off, es)
    ensures CanRun(Off, es)
  {
    PatientCanRun(Off, es);
  }

  // ----- Round robin

  const TICKS: nat := 0x1_0000_0000

  /** The terminal that the `k`-th timer interrupt picks, from a 32-bit counter. */
  function Scheduled(k: nat): nat {
    (k % TICKS) % TERMINALS
  }

  predicate HasATurn(t: nat, k: nat, n: nat) {
    exists j | k <= j < k + n :: Scheduled(j) == t
  }

  lemma NextScheduled(k: nat)
    ensures (k + 1) % TICKS == if k % TICKS + 1 < TICKS then k % TICKS + 1 else 0
    ensures Scheduled(k + 1) == if k % TICKS + 1 == TICKS || Scheduled(k) == 2 then 0 else Scheduled(k) + 1
  {
    NextRemainder(k, TICKS);
    NextRemainder(k % TICKS, TERMINALS);
  }

  /** Every terminal has a turn in any four ticks, and in any three exactly when the counter does not wrap among them. */
  lemma EveryTerminalHasATurn(k: nat)
    ensures HasATurn(0, k, 4) && HasATurn(1, k, 4) && HasATurn(2, k, 4)
    ensures HasATurn(0, k, 3) && HasATurn(1, k, 3) && HasATurn(2, k, 3) <==> k % TICKS + 2 < TICKS
  {
    NextScheduled(k);
    NextScheduled(k + 1);
    NextScheduled(k + 2);
    var a, b, c, d := Scheduled(k), Scheduled(k + 1), Scheduled(k + 2), Scheduled(k + 3);
    assert HasATurn(a, k, 3) && HasATurn(b, k, 3) && HasATurn(c, k, 3);
    assert HasATurn(a, k, 4) && HasATurn(b, k, 4) && HasATurn(c, k, 4) && HasATurn(d, k, 4);
    assert forall t | t !in {a, b, c} :: !HasATurn(t, k, 3);
  }
}
