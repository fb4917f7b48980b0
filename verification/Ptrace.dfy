/** The tracer's event loop: every wait report is turned into a callback, and the table of traced processes follows. */
module Ptrace {

  // ---------------------------------------------------------------- reports and callbacks

  const SIGTRAP := 5
  const SYSCALL_STOP := 133 // SIGTRAP | 0x80
  const SIGUSR2 := 12

  const SYS_RT_SIGRETURN := 15
  const SYS_KILL := 62

  datatype PtraceEvent = Fork | VFork | Clone | Exec | VForkDone | NoEvent

  datatype Status = Exited(value: int) | Signaled(signal: int) | Stopped(signal: int, event: PtraceEvent)

  /** What waitpid reports, what the registers of the stopped process hold when the tracer reads them, and the signal
      with which a syscall callback replies. */
  datatype Report = Interrupted | NoChildren | Changed(pid: int, status: Status, origRax: int, rsi: int, reply: int)

  datatype Callback =
    | OnStart(pid: int)
    | OnExit(pid: int, value: int)
    | OnTerminate(pid: int, signal: int)
    | OnSignal(pid: int, signal: int)
    | OnSyscallEnter(pid: int)
    | OnSyscallExit(pid: int)
    | OnEvent(pid: int, event: PtraceEvent)

  /** The callback that a state change leads to, for a pid that is in the table or not, in the kernel or not. */
  function CallbackFor(pid: int, status: Status, known: bool, inKernel: bool): Callback {
    if !known then OnStart(pid)
    else match status
      case Exited(value) => OnExit(pid, value)
      case Signaled(signal) => OnTerminate(pid, signal)
      case Stopped(signal, event) =>
        if signal == SYSCALL_STOP then if inKernel then OnSyscallExit(pid) else OnSyscallEnter(pid)
        else if signal == SIGTRAP && event != NoEvent then OnEvent(pid, event)
        else OnSignal(pid, signal)
  }

  /** The state changes among the first n reports that the loop handles: those in front of the report that no child is
      left. */
  function Handled(reports: seq<Report>, n: nat): (handled: seq<Report>)
    requires n <= |reports|
    ensures forall r <- handled :: r.Changed?
  {
    if n == 0 then []
    else if reports[n-1].Changed? && ChildrenLeft(reports, n - 1) then Handled(reports, n - 1) + [reports[n-1]]
    else Handled(reports, n - 1)
  }

  /** None of the first n reports says that no child is left. */
  predicate ChildrenLeft(reports: seq<Report>, n: nat)
    requires n <= |reports|
  { forall i :: 0 <= i < n ==> reports[i] != NoChildren }

  /** Nothing is handled after the report that no child is left. */
  lemma {:induction false} HandledStops(reports: seq<Report>, i: nat, n: nat)
    requires i < n <= |reports| && reports[i] == NoChildren
    ensures Handled(reports, n) == Handled(reports, i)
    decreases n
  {
    if i < n - 1 { HandledStops(reports, i, n - 1); }
  }

  /** The positions of the state changes in front of the report that no child is left. */
  ghost function Changes(reports: seq<Report>, n: nat): set<int>
    requires n <= |reports|
  { set i | 0 <= i < n && reports[i].Changed? && forall j :: 0 <= j < i ==> reports[j] != NoChildren }

  /** Each of these state changes is handled once, in the order of the reports, and nothing else is. */
  lemma {:induction false} HandledInOrder(reports: seq<Report>, n: nat)
    requires n <= |reports|
    ensures |Handled(reports, n)| == |Changes(reports, n)|
    ensures forall i <- Changes(reports, n) :: HandledAt(reports, n, i)
  {
    if n > 0 {
      var done := Changes(reports, n - 1);
      HandledInOrder(reports, n - 1);
      ChangesStep(reports, n);
      forall i <- Changes(reports, n) ensures HandledAt(reports, n, i) {
        if i in done { HandledBefore(reports, n, i); } else { HandledLast(reports, n); }
      }
    }
  }

  /** State change number i is handled behind those in front of it. */
  ghost predicate HandledAt(reports: seq<Report>, n: nat, i: int)
    requires 0 <= i < n <= |reports|
  { |Changes(reports, i)| < |Handled(reports, n)| && Handled(reports, n)[|Changes(reports, i)|] == reports[i] }

  lemma HandledBefore(reports: seq<Report>, n: nat, i: int)
    requires 0 <= i < n - 1 < |reports| && HandledAt(reports, n - 1, i)
    ensures HandledAt(reports, n, i)
  {
  }

  lemma HandledLast(reports: seq<Report>, n: nat)
    requires 0 < n <= |reports| && reports[n-1].Changed? && ChildrenLeft(reports, n - 1)
    requires |Handled(reports, n - 1)| == |Changes(reports, n - 1)|
    ensures HandledAt(reports, n, n - 1)
  {
  }

  lemma ChangesStep(reports: seq<Report>, n: nat)
    requires 0 < n <= |reports|
    ensures Changes(reports, n) == Changes(reports, n - 1) +
      if reports[n-1].Changed? && ChildrenLeft(reports, n - 1) then {n - 1} else {}
  {
  }

  /** One more report, before the one that no child is left. */
  lemma HandledStep(reports: seq<Report>, i: nat)
    requires i < |reports| && ChildrenLeft(reports, i) && reports[i] != NoChildren
    ensures ChildrenLeft(reports, i + 1)
    ensures Handled(reports, i + 1) == Handled(reports, i) + if reports[i].Changed? then [reports[i]] else []
  {
  }

  // ---------------------------------------------------------------- the protocol of callbacks

  /** Where one pid stands after the callbacks made for it. */
  datatype Phase = Untraced | InUser | InKernel | Violated

  /** The protocol: a start, then syscall enter and exit in turn with other events at any time, then one end. */
  function Step(phase: Phase, c: Callback): Phase {
    match (phase, c)
    case (Untraced, OnStart(_)) => InUser
    case (InUser, OnSyscallEnter(_)) => InKernel
    case (InKernel, OnSyscallExit(_)) => InUser
    case (InUser, OnSignal(_, _)) => InUser
    case (InKernel, OnSignal(_, _)) => InKernel
    case (InUser, OnEvent(_, _)) => InUser
    case (InKernel, OnEvent(_, _)) => InKernel
    case (InUser, OnExit(_, _)) => Untraced
    case (InKernel, OnExit(_, _)) => Untraced
    case (InUser, OnTerminate(_, _)) => Untraced
    case (InKernel, OnTerminate(_, _)) => Untraced
    case _ => Violated
  }

  function PhaseOf(log: seq<Callback>, pid: int): Phase {
    if log == [] then Untraced
    else
      var rest, c := log[..|log|-1], log[|log|-1];
      if c.pid == pid then Step(PhaseOf(rest, pid), c) else PhaseOf(rest, pid)
  }

  ghost predicate Ends(c: Callback, pid: int) { c.pid == pid && (c.OnExit? || c.OnTerminate?) }

  lemma {:induction false} ViolatedStays(log: seq<Callback>, pid: int, n: nat)
    requires n <= |log| && PhaseOf(log[..n], pid) == Violated
    ensures PhaseOf(log, pid) == Violated
    decreases |log|
  {
    if n == |log| {
      assert log[..n] == log;
    } else {
      var rest := log[..|log|-1];
      assert rest[..n] == log[..n];
      ViolatedStays(rest, pid, n);
    }
  }

  /** Right after callback i, a traced pid is in the kernel iff the callback entered it, and so on. */
  lemma PhaseAfter(log: seq<Callback>, pid: int, i: nat)
    requires i < |log| && log[i].pid == pid && PhaseOf(log, pid) != Violated
    ensures PhaseOf(log[..i+1], pid) == Step(PhaseOf(log[..i], pid), log[i]) != Violated
  {
    assert log[..i+1][..i] == log[..i] && log[..i+1][i] == log[i];
    if PhaseOf(log[..i+1], pid) == Violated { ViolatedStays(log, pid, i + 1); }
  }

  /** Without a callback that leaves it, a phase lasts. */
  lemma {:induction false} PhaseLasts(log: seq<Callback>, pid: int, i: nat, j: nat)
    requires i <= j <= |log| && PhaseOf(log, pid) != Violated
    requires PhaseOf(log[..i], pid) == InKernel
    requires forall k :: i <= k < j ==> !(log[k].pid == pid && log[k].OnSyscallExit?) && !Ends(log[k], pid)
    ensures PhaseOf(log[..j], pid) == InKernel
    decreases j
  {
    if i < j {
      PhaseLasts(log, pid, i, j - 1);
      assert log[..j][..j-1] == log[..j-1] && log[..j][j-1] == log[j-1];
      if log[j-1].pid == pid { PhaseAfter(log, pid, j - 1); }
    }
  }

  /** In a log that keeps the protocol, a process that entered the kernel leaves it, or ends, before it enters again. */
  lemma EnterAndExitAlternate(log: seq<Callback>, pid: int, i: nat, j: nat)
    requires i < j < |log| && PhaseOf(log, pid) != Violated
    requires log[i] == OnSyscallEnter(pid) && log[j] == OnSyscallEnter(pid)
    ensures exists k :: i < k < j && log[k].pid == pid && (log[k].OnSyscallExit? || Ends(log[k], pid))
  {
    PhaseAfter(log, pid, i);
    PhaseAfter(log, pid, j);
    if forall k :: i < k < j ==> !(log[k].pid == pid && log[k].OnSyscallExit?) && !Ends(log[k], pid) {
      PhaseLasts(log, pid, i + 1, j);
    }
  }

  // ---------------------------------------------------------------- the tracer

  class TracedProcess {
    const pid: int
    var inKernel: bool
    var returningFromSignal: bool
    var hasUserSignalHandlers: bool

    constructor (pid: int)
      ensures this.pid == pid && !inKernel && !returningFromSignal && !hasUserSignalHandlers
    {
      this.pid := pid;
      inKernel, returningFromSignal, hasUserSignalHandlers := false, false, false;
    }

    method ToggleKernelUser()
      modifies this`inKernel
      ensures inKernel == !old(inKernel)
    {
      inKernel := !inKernel;
    }

    method SetReturningFromSignal(b: bool)
      modifies this`returningFromSignal
      ensures returningFromSignal == b
    {
      returningFromSignal := b;
    }

    method SetHasUserSignalHandlers(b: bool)
      modifies this`hasUserSignalHandlers
      ensures hasUserSignalHandlers == b
    {
      hasUserSignalHandlers := b;
    }
  }

  class Tracer {
    const loadLib: bool
    var processList: map<int, TracedProcess>
    var log: seq<Callback>
    /** The stopped processes that were made to run on, each with the signal that it was given. */
    var resumed: seq<(int, int)>

    /** Every entry of the table describes its own pid, and the table agrees with the callbacks made so far. */
    ghost predicate Valid()
      reads this, processList.Values
    {
      && (forall p <- processList :: processList[p].pid == p)
      && (forall p :: PhaseOf(log, p) == PhaseInTable(p))
    }

    /** The phase that the process table records for a pid. */
    ghost function PhaseInTable(p: int): Phase
      reads this, processList.Values
    {
      if p !in processList then Untraced
      else if processList[p].inKernel then InKernel else InUser
    }

    constructor (loadLib: bool)
      ensures Valid() && processList == map[] && log == [] && resumed == []
    {
      this.loadLib := loadLib;
      processList, log, resumed := map[], [], [];
    }

    /** Records a callback. */
    method Call(c: Callback)
      modifies this`log
      ensures log == old(log) + [c]
      ensures forall p :: PhaseOf(log, p) == if c.pid == p then Step(PhaseOf(old(log), p), c) else PhaseOf(old(log), p)
    {
      log := log + [c];
      assert log[..|log|-1] == old(log);
    }

    /** Lets a stopped process run until its next syscall entry, syscall exit or signal. */
    method Resume(pid: int, signal: int)
      modifies this`resumed
      ensures resumed == old(resumed) + [(pid, signal)]
    {
      resumed := resumed + [(pid, signal)];
    }

    /** May be called by a handler of syscall entries; the source asserts what is required here. */
    method SetSyscall(tracee: TracedProcess)
      requires tracee.pid in processList && tracee.inKernel
    {
    }

    /** May be called by a handler of syscall exits; the source asserts what is required here. */
    method SetReturnValue(tracee: TracedProcess)
      requires tracee.pid in processList && !tracee.inKernel
    {
    }

    method HandleNewBornProcess(pid: int)
      requires Valid() && pid !in processList
      modifies this
      ensures Valid() && log == old(log) + [OnStart(pid)] && resumed == old(resumed) + [(pid, 0)]
      ensures pid in processList && processList == old(processList)[pid := processList[pid]] && fresh(processList[pid])
      ensures !processList[pid].inKernel && !processList[pid].returningFromSignal
      ensures !processList[pid].hasUserSignalHandlers
    {
      var newborn := new TracedProcess(pid);
      processList := processList[pid := newborn];
      Call(OnStart(pid));
      Resume(pid, 0);
    }

    method HandleExitedProcess(pid: int, value: int)
      requires Valid() && pid in processList
      modifies this
      ensures Valid() && log == old(log) + [OnExit(pid, value)] && resumed == old(resumed)
      ensures processList == old(processList) - {pid}
    {
      processList := processList - {pid};
      Call(OnExit(pid, value));
    }

    method HandleTerminatedProcess(pid: int, signal: int)
      requires Valid() && pid in processList
      modifies this
      ensures Valid() && log == old(log) + [OnTerminate(pid, signal)] && resumed == old(resumed)
      ensures processList == old(processList) - {pid}
    {
      processList := processList - {pid};
      Call(OnTerminate(pid, signal));
    }

    /** Handles a syscall stop; the process runs on with the signal that the callback returned, unless a kill with
        signal 0, the tracee library's greeting, is answered. */
    method HandleSyscalledProcess(pid: int, origRax: int, rsi: int, handlerSignal: int)
      requires Valid() && pid in processList
      modifies this`log, this`resumed, processList[pid]
      ensures Valid() && processList == old(processList)
      ensures log == old(log) + [if old(processList[pid].inKernel) then OnSyscallExit(pid) else OnSyscallEnter(pid)]
      ensures processList[pid].inKernel == !old(processList[pid].inKernel)
      ensures processList[pid].returningFromSignal ==
        if processList[pid].inKernel && origRax == SYS_RT_SIGRETURN then true
        else old(processList[pid].returningFromSignal) && (processList[pid].inKernel || origRax >= 0)
      ensures var greeted := loadLib && !processList[pid].inKernel && origRax == SYS_KILL && rsi == 0;
        && processList[pid].hasUserSignalHandlers == (greeted || old(processList[pid].hasUserSignalHandlers))
        && resumed == old(resumed) + [(pid, if greeted then SIGUSR2 else handlerSignal)]
    {
      var process := processList[pid];
      process.ToggleKernelUser();
      if process.inKernel {
        Call(OnSyscallEnter(pid));
        SetSyscall(process);
      } else {
        Call(OnSyscallExit(pid));
        SetReturnValue(process);
      }
      var signalToInject := handlerSignal;
      if process.inKernel && origRax == SYS_RT_SIGRETURN {
        process.SetReturningFromSignal(true);
      } else if !process.inKernel && process.returningFromSignal && origRax < 0 {
        process.SetReturningFromSignal(false);
      }
      if loadLib {
        if !process.inKernel && origRax == SYS_KILL {
          if rsi == 0 {
            process.SetHasUserSignalHandlers(true);
            signalToInject := SIGUSR2;
          }
        }
      }
      Resume(pid, signalToInject);
    }

    method HandleTrappedProcess(pid: int, event: PtraceEvent)
      requires Valid() && pid in processList
      modifies this`log, this`resumed, processList[pid]
      ensures Valid() && processList == old(processList)
      ensures processList[pid].inKernel == old(processList[pid].inKernel)
      ensures processList[pid].returningFromSignal == old(processList[pid].returningFromSignal)
      ensures processList[pid].hasUserSignalHandlers == (event != Exec && old(processList[pid].hasUserSignalHandlers))
      ensures log == old(log) + [if event == NoEvent then OnSignal(pid, SIGTRAP) else OnEvent(pid, event)]
      ensures resumed == old(resumed) + [(pid, SIGTRAP)]
    {
      if event == Exec {
        processList[pid].SetHasUserSignalHandlers(false);
      }
      if event == NoEvent {
        Call(OnSignal(pid, SIGTRAP));
      } else {
        Call(OnEvent(pid, event));
      }
      Resume(pid, SIGTRAP);
    }

    method HandleSignaledProcess(pid: int, signal: int, event: PtraceEvent)
      requires Valid() && pid in processList
      modifies this`log, this`resumed, processList[pid]
      ensures Valid() && processList == old(processList)
      ensures processList[pid].inKernel == old(processList[pid].inKernel)
      ensures processList[pid].returningFromSignal == old(processList[pid].returningFromSignal)
      ensures processList[pid].hasUserSignalHandlers ==
        (!(signal == SIGTRAP && event == Exec) && old(processList[pid].hasUserSignalHandlers))
      ensures log == old(log) + [if signal != SIGTRAP then OnSignal(pid, signal)
                                 else if event == NoEvent then OnSignal(pid, SIGTRAP) else OnEvent(pid, event)]
      ensures resumed == old(resumed) + [(pid, signal)]
    {
      if signal == SIGTRAP {
        HandleTrappedProcess(pid, event);
      } else {
        Call(OnSignal(pid, signal));
        Resume(pid, signal);
      }
    }

    /** Handles one report of a state change; the first report of a pid starts it, whatever the report says. A process
        that has not ended is resumed exactly once: with signal 0 at its start, with its own signal after a signal, and
        after a syscall stop with the signal that the callback replied, or with SIGUSR2 on the way out of a kill with
        signal 0 when the library is loaded. */
    method Dispatch(report: Report)
      requires Valid() && report.Changed?
      modifies this, if report.pid in processList then {processList[report.pid]} else {}
      ensures Valid() && fresh(processList.Values - old(processList.Values))
      ensures log == old(log) + [NextCallback(old(log), report)]
      ensures resumed == old(resumed) + Resumption(loadLib, old(log), report)
      ensures processList == if report.pid in processList then old(processList)[report.pid := processList[report.pid]]
                             else old(processList) - {report.pid}
      ensures var pid := report.pid;
        pid !in old(processList) ==>
          && log == old(log) + [OnStart(pid)] && resumed == old(resumed) + [(pid, 0)]
          && pid in processList && !processList[pid].inKernel
          && !processList[pid].returningFromSignal && !processList[pid].hasUserSignalHandlers
      ensures report.pid in old(processList) ==>
        match report.status
        case Exited(value) =>
          log == old(log) + [OnExit(report.pid, value)] && resumed == old(resumed) && report.pid !in processList
        case Signaled(signal) =>
          log == old(log) + [OnTerminate(report.pid, signal)] && resumed == old(resumed) && report.pid !in processList
        case Stopped(signal, event) =>
          && report.pid in processList && processList[report.pid] == old(processList)[report.pid]
          && if signal == 133 then
               var wasInKernel := old(processList[report.pid].inKernel);
               var greeted := loadLib && wasInKernel && report.origRax == 62 && report.rsi == 0;
               && log == old(log) + [if wasInKernel then OnSyscallExit(report.pid) else OnSyscallEnter(report.pid)]
               && resumed == old(resumed) + [(report.pid, if greeted then 12 else report.reply)]
               && processList[report.pid].inKernel == !wasInKernel
               && processList[report.pid].returningFromSignal ==
                    (if !wasInKernel && report.origRax == 15 then true
                     else old(processList[report.pid].returningFromSignal) && (!wasInKernel || report.origRax >= 0))
               && processList[report.pid].hasUserSignalHandlers ==
                    (greeted || old(processList[report.pid].hasUserSignalHandlers))
             else
               && log == old(log) + [if signal == 5 && event != NoEvent then OnEvent(report.pid, event)
                                     else OnSignal(report.pid, signal)]
               && resumed == old(resumed) + [(report.pid, signal)]
               && processList[report.pid].inKernel == old(processList[report.pid].inKernel)
               && processList[report.pid].returningFromSignal == old(processList[report.pid].returningFromSignal)
               && processList[report.pid].hasUserSignalHandlers ==
                    (!(signal == 5 && event == Exec) && old(processList[report.pid].hasUserSignalHandlers))
    {
      var pid := report.pid;
      if pid in processList {
        match report.status
        case Exited(value) => HandleExitedProcess(pid, value);
        case Signaled(signal) => HandleTerminatedProcess(pid, signal);
        case Stopped(signal, event) =>
          if signal == SYSCALL_STOP {
            HandleSyscalledProcess(pid, report.origRax, report.rsi, report.reply);
          } else {
            HandleSignaledProcess(pid, signal, event);
          }
      } else {
        HandleNewBornProcess(pid);
      }
    }

    /** The run since a state with callbacks log0, resumptions resumed0 and table keys0 has followed the given state
        changes: it made for each, in order, the one callback that it calls for; the table holds exactly the processes
        that have started and not ended; and each was resumed once, with the signal due, for each of its changes but the
        one that ended it. */
    ghost predicate Followed(log0: seq<Callback>, resumed0: seq<(int, int)>, keys0: set<int>, changes: seq<Report>)
      reads this, processList.Values
    {
      && Valid()
      && (forall r <- changes :: r.Changed?)
      && Answered(log0, log, changes)
      && Continued(loadLib, resumed0, resumed, |log0|, log, changes)
      && forall p :: p in processList <==> Live(p, p in keys0, changes)
    }

    /** Handles one more state change of a run. */
    method Follow(report: Report, ghost log0: seq<Callback>, ghost resumed0: seq<(int, int)>, ghost keys0: set<int>,
                  ghost changes: seq<Report>)
      requires report.Changed? && Followed(log0, resumed0, keys0, changes)
      modifies this, processList.Values
      ensures Followed(log0, resumed0, keys0, changes + [report])
      ensures fresh(processList.Values - old(processList.Values))
    {
      ghost var before, running := log, resumed;
      assert PhaseOf(before, report.pid) == PhaseInTable(report.pid);
      assert (changes + [report])[..|changes|] == changes;
      Dispatch(report);
      AnsweredStep(log0, before, changes, report, log);
      ContinuedStep(loadLib, resumed0, running, resumed, |log0|, before, NextCallback(before, report), changes,
                    report);
    }

    /** A run starts with nothing to follow. */
    lemma FollowedNothing()
      requires Valid()
      ensures Followed(log, resumed, processList.Keys, [])
    {
    }

    lemma NoneViolated()
      requires Valid()
      ensures forall p :: PhaseOf(log, p) != Violated
    {
      forall p ensures PhaseOf(log, p) != Violated { assert PhaseOf(log, p) == PhaseInTable(p); }
    }

    /** The loop body of StartTracing, for a report other than the one that no child is left. */
    method FollowReport(reports: seq<Report>, i: nat, ghost log0: seq<Callback>, ghost resumed0: seq<(int, int)>,
                        ghost keys0: set<int>)
      requires i < |reports| && ChildrenLeft(reports, i) && reports[i] != NoChildren
      requires Followed(log0, resumed0, keys0, Handled(reports, i))
      modifies this, processList.Values
      ensures ChildrenLeft(reports, i + 1) && Followed(log0, resumed0, keys0, Handled(reports, i + 1))
      ensures fresh(processList.Values - old(processList.Values))
    {
      HandledStep(reports, i);
      if reports[i] != Interrupted {
        Follow(reports[i], log0, resumed0, keys0, Handled(reports, i));
      } else {
        assert Handled(reports, i + 1) == Handled(reports, i);
      }
    }

    /** The loop: handles reports until there are no children left to wait for. It follows every state change before
        that, and no callback breaks the protocol. */
    method StartTracing(reports: seq<Report>)
      requires Valid()
      modifies this, processList.Values
      ensures Followed(old(log), old(resumed), old(processList.Keys), Handled(reports, |reports|))
      ensures forall p :: PhaseOf(log, p) != Violated
    {
      ghost var log0, resumed0, keys0 := log, resumed, processList.Keys;
      FollowedNothing();
      var i := 0;
      while i < |reports|
        invariant 0 <= i <= |reports| && ChildrenLeft(reports, i)
        invariant Followed(log0, resumed0, keys0, Handled(reports, i))
        invariant fresh(processList.Values - old(processList.Values))
      {
        if reports[i] == NoChildren {
          break;
        }
        FollowReport(reports, i, log0, resumed0, keys0);
        i := i + 1;
      }
      assert Handled(reports, |reports|) == Handled(reports, i) by {
        if i < |reports| { HandledStops(reports, i, |reports|); }
      }
      NoneViolated();
    }
  }

  /** Is p being traced after the given state changes, if it was, or was not, before? Its first report starts it,
      whatever that report says; the report of an exit or of a termination ends it. */
  predicate Live(p: int, before: bool, changes: seq<Report>)
    requires forall r <- changes :: r.Changed?
  {
    if changes == [] then before
    else
      var rest, r := changes[..|changes|-1], changes[|changes|-1];
      if r.pid == p then !Live(p, before, rest) || r.status.Stopped? else Live(p, before, rest)
  }

  /** With which signal a state change lets its process run on, after the given callbacks; a process that has ended
      does not run on. */
  function Resumption(loadLib: bool, log: seq<Callback>, r: Report): seq<(int, int)>
    requires r.Changed?
  {
    var phase := PhaseOf(log, r.pid);
    if phase == Untraced then [(r.pid, 0)]
    else match r.status
      case Stopped(signal, _) =>
        if signal != SYSCALL_STOP then [(r.pid, signal)]
        else if loadLib && phase == InKernel && r.origRax == SYS_KILL && r.rsi == 0 then [(r.pid, SIGUSR2)]
        else [(r.pid, r.reply)]
      case _ => []
  }

  /** The resumptions, in order, that the first k of the state changes lead to, if their callbacks follow the first n
      in the log. */
  function Resumptions(loadLib: bool, n: nat, log: seq<Callback>, changes: seq<Report>, k: nat): seq<(int, int)>
    requires (forall r <- changes :: r.Changed?) && k <= |changes| && n + k <= |log|
  {
    if k == 0 then []
    else Resumptions(loadLib, n, log, changes, k - 1) + Resumption(loadLib, log[..n + k - 1], changes[k-1])
  }

  /** What has been resumed in addition is what the given state changes lead to. */
  ghost predicate Continued(loadLib: bool, before: seq<(int, int)>, after: seq<(int, int)>, n: nat, log: seq<Callback>,
                            changes: seq<Report>)
    requires forall r <- changes :: r.Changed?
  {
    n + |changes| == |log| && after == before + Resumptions(loadLib, n, log, changes, |changes|)
  }

  lemma {:induction false} ResumptionsKept(loadLib: bool, n: nat, log: seq<Callback>, c: Callback, changes: seq<Report>,
                                           r: Report, k: nat)
    requires (forall c <- changes :: c.Changed?) && (forall c <- changes + [r] :: c.Changed?)
    requires k <= |changes| && n + |changes| == |log|
    ensures Resumptions(loadLib, n, log + [c], changes + [r], k) == Resumptions(loadLib, n, log, changes, k)
    decreases k
  {
    if k > 0 {
      ResumptionsKept(loadLib, n, log, c, changes, r, k - 1);
      assert (log + [c])[..n + k - 1] == log[..n + k - 1];
    }
  }

  lemma ContinuedStep(loadLib: bool, before: seq<(int, int)>, running: seq<(int, int)>, after: seq<(int, int)>,
                      n: nat, log: seq<Callback>, c: Callback, changes: seq<Report>, r: Report)
    requires r.Changed? && (forall c <- changes :: c.Changed?) && Continued(loadLib, before, running, n, log, changes)
    requires after == running + Resumption(loadLib, log, r)
    ensures forall c <- changes + [r] :: c.Changed?
    ensures Continued(loadLib, before, after, n, log + [c], changes + [r])
  {
    ResumptionsKept(loadLib, n, log, c, changes, r, |changes|);
    assert (log + [c])[..|log|] == log;
  }

  /** The callback that a state change calls for after the given callbacks. */
  function NextCallback(log: seq<Callback>, r: Report): Callback
    requires r.Changed?
  {
    var phase := PhaseOf(log, r.pid);
    CallbackFor(r.pid, r.status, phase != Untraced, phase == InKernel)
  }

  /** after is before with, for each of the state changes in order, the callback that it calls for. */
  ghost predicate Answered(before: seq<Callback>, after: seq<Callback>, changes: seq<Report>)
    requires forall r <- changes :: r.Changed?
  {
    && before <= after && |after| == |before| + |changes|
    && forall i :: 0 <= i < |changes| ==> Answers(|before|, after, changes, i)
  }

  /** The callback for state change number i, in a log that continues one of length n, is the one that it calls for. */
  ghost predicate Answers(n: nat, log: seq<Callback>, changes: seq<Report>, i: int)
    requires 0 <= i < |changes| && |log| >= n + |changes| && changes[i].Changed?
  { log[n + i] == NextCallback(log[..n + i], changes[i]) }

  lemma AnsweredStep(before: seq<Callback>, log: seq<Callback>, changes: seq<Report>, r: Report, after: seq<Callback>)
    requires r.Changed? && (forall c <- changes :: c.Changed?) && Answered(before, log, changes)
    requires after == log + [NextCallback(log, r)]
    ensures (forall c <- changes + [r] :: c.Changed?) && Answered(before, after, changes + [r])
  {
    forall i | 0 <= i <= |changes| ensures Answers(|before|, after, changes + [r], i) {
      assert after[..|before| + i] == log[..|before| + i];
      if i < |changes| { assert Answers(|before|, log, changes, i); } else { assert log[..|log|] == log; }
    }
  }

  // ---------------------------------------------------------------- the kernel flag

  /** How many syscall stops of a pid have led to callbacks since it started. */
  function SyscallStops(log: seq<Callback>, pid: int): nat {
    if log == [] then 0
    else
      var rest, c := log[..|log|-1], log[|log|-1];
      if c.pid != pid then SyscallStops(rest, pid)
      else if c.OnStart? then 0
      else if c.OnSyscallEnter? || c.OnSyscallExit? then SyscallStops(rest, pid) + 1
      else SyscallStops(rest, pid)
  }

  /** The flag that every syscall stop toggles tells whether their number is odd. */
  lemma {:induction false} KernelFlagIsParity(log: seq<Callback>, pid: int)
    requires PhaseOf(log, pid) == InUser || PhaseOf(log, pid) == InKernel
    ensures PhaseOf(log, pid) == InKernel <==> SyscallStops(log, pid) % 2 == 1
    decreases |log|
  {
    var rest, c := log[..|log|-1], log[|log|-1];
    if c.pid != pid || !c.OnStart? { KernelFlagIsParity(rest, pid); }
  }
}
