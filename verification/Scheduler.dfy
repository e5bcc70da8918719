/** The rate-monotonic scheduler (mp2.c) as a state machine. Each critical
    section, and each timer callback, is one atomic step; so is a yield together
    with the call that blocks the task, and a dispatch together with the policy
    changes that follow it. */
module Scheduler {
  import opened Arith
  import opened Options

  datatype RmsState = Sleeping | Ready | Running

  /** A registered task. `regTime`, `yieldCount` and `releaseCount` are history: when it
      was registered, how often it yielded, how often its timer fired. */
  datatype Task = Task(pid: int, period: nat, comp: nat, state: RmsState, nextWake: nat, timer: Option<nat>,
                       regTime: nat, yieldCount: nat, releaseCount: nat)

  /** The task list in order, the current task, the clock in jiffies, and the
      kernel's view: which processes are SCHED_FIFO, which are blocked. */
  datatype State = State(tasks: seq<Task>, curr: Option<int>, now: nat, fifo: set<int>, blocked: set<int>)

  const INITIAL := State([], None, 0, {}, {})

  /* ---- arithmetic of the C code ---- */

  /** An `int` argument passed as `unsigned long`. */
  function AsULong(x: int): nat
    requires -0x8000_0000 <= x < 0x8000_0000
  {
    if x < 0 then x + TWO64 else x
  }

  /** (comp * 1000) / period in 64-bit arithmetic. */
  function Permille(comp: nat, period: nat): nat
    requires period > 0
  {
    comp * 1000 % TWO64 / period
  }

  /** msecs_to_jiffies with a jiffy of one millisecond; out of range saturates. */
  function Jiffies(period: nat): nat {
    if period < 0x8000_0000 then period else 0x3FFF_FFFF_FFFF_FFFE
  }

  /* ---- the list ---- */

  /** Position of the task with this pid. */
  function IndexOf(tasks: seq<Task>, pid: int): (r: Option<nat>)
    ensures r.Some? ==> r.value < |tasks| && tasks[r.value].pid == pid
    ensures r.None? ==> forall i :: 0 <= i < |tasks| ==> tasks[i].pid != pid
  {
    if tasks == [] then None
    else if tasks[0].pid == pid then Some(0)
    else match IndexOf(tasks[1..], pid) case None => None case Some(i) => Some(i + 1)
  }

  /** usum over the list, in 64-bit arithmetic, starting from `sum`. */
  function Usum(sum: nat, tasks: seq<Task>): nat
    requires forall i :: 0 <= i < |tasks| ==> tasks[i].period > 0
  {
    if tasks == [] then sum
    else
      var t := tasks[|tasks| - 1];
      (Usum(sum, tasks[..|tasks| - 1]) + Permille(t.comp, t.period)) % TWO64
  }

  ghost predicate PeriodsOk(tasks: seq<Task>) {
    forall i :: 0 <= i < |tasks| ==> tasks[i].period > 0
  }

  /** First READY task of least period among the first n. */
  function BestReady(tasks: seq<Task>, n: nat): (r: Option<nat>)
    requires n <= |tasks|
    ensures r.Some? ==> r.value < n && tasks[r.value].state == Ready
  {
    if n == 0 then None
    else
      var b := BestReady(tasks, n - 1);
      if tasks[n - 1].state == Ready && (b.None? || tasks[n - 1].period < tasks[b.value].period) then Some(n - 1) else b
  }

  /* ---- steps ---- */

  function RegisterStep(s: State, pid: int, period: nat, comp: nat): State
    requires PeriodsOk(s.tasks)
  {
    if period == 0 || comp == 0 || IndexOf(s.tasks, pid).Some? then s
    else if Usum(Permille(comp, period), s.tasks) > 693 then s
    else s.(tasks := s.tasks + [Task(pid, period, comp, Sleeping, s.now, None, s.now, 0, 0)])
  }

  function DeregisterStep(s: State, pid: int): State {
    match IndexOf(s.tasks, pid)
    case None => s
    case Some(i) =>
      s.(tasks := s.tasks[..i] + s.tasks[i + 1..],
         curr := if s.curr == Some(pid) then None else s.curr,
         fifo := s.fifo - {pid})
  }

  /** A yield called by process `caller`, which must be running to call it. */
  function YieldStep(s: State, caller: int, pid: int): State {
    if caller in s.blocked || pid != caller then s
    else match IndexOf(s.tasks, pid)
      case None => s
      case Some(i) =>
        var t := s.tasks[i];
        var wake := t.nextWake + Jiffies(t.period);
        s.(tasks := s.tasks[i := t.(state := Sleeping, nextWake := wake, timer := Some(wake),
                                    yieldCount := t.yieldCount + 1)],
           curr := if s.curr == Some(pid) then None else s.curr,
           blocked := s.blocked + {pid})
  }

  /** The timer of task pid, if it is armed and due. */
  function TimerStep(s: State, pid: int): State {
    match IndexOf(s.tasks, pid)
    case None => s
    case Some(i) =>
      var t := s.tasks[i];
      if t.timer.None? || s.now < t.timer.value then s
      else s.(tasks := s.tasks[i := t.(state := Ready, timer := None, releaseCount := t.releaseCount + 1)])
  }

  /** Make task i the running task: SCHED_FIFO and awake. */
  function Promote(s: State, i: nat): State
    requires i < |s.tasks|
  {
    var t := s.tasks[i];
    s.(tasks := s.tasks[i := t.(state := Running)], curr := Some(t.pid),
       fifo := s.fifo + {t.pid}, blocked := s.blocked - {t.pid})
  }

  function DispatchStep(s: State): State {
    match BestReady(s.tasks, |s.tasks|)
    case None => s
    case Some(n) =>
      var c := if s.curr.None? then None else IndexOf(s.tasks, s.curr.value);
      if c.None? || s.tasks[c.value].state == Sleeping then Promote(s, n)
      else if s.tasks[c.value].state == Running && s.tasks[c.value].period > s.tasks[n].period then
        var prev := s.tasks[c.value];
        var s' := Promote(s.(tasks := s.tasks[c.value := prev.(state := Ready)]), n);
        s'.(fifo := s'.fifo - {prev.pid})
      else s
  }

  datatype Action =
    | Tick
    | Register(pid: int, period: int, comp: int)
    | Yield(caller: int, pid: int)
    | Deregister(pid: int)
    | TimerFires(pid: int)
    | Dispatch

  /** Registration arguments are C ints. */
  predicate ActionOk(a: Action) {
    a.Register? ==> -0x8000_0000 <= a.period < 0x8000_0000 && -0x8000_0000 <= a.comp < 0x8000_0000
  }

  function Step(s: State, a: Action): State
    requires PeriodsOk(s.tasks) && ActionOk(a)
  {
    match a
    case Tick => s.(now := s.now + 1)
    case Register(pid, period, comp) => RegisterStep(s, pid, AsULong(period), AsULong(comp))
    case Yield(caller, pid) => YieldStep(s, caller, pid)
    case Deregister(pid) => DeregisterStep(s, pid)
    case TimerFires(pid) => TimerStep(s, pid)
    case Dispatch => DispatchStep(s)
  }

  /* ---- the invariant ---- */

  ghost predicate DistinctPids(tasks: seq<Task>) {
    forall i, j :: 0 <= i < j < |tasks| ==> tasks[i].pid != tasks[j].pid
  }

  /** The release bookkeeping of one task. */
  ghost predicate TimerOk(t: Task, now: nat) {
    && t.period > 0
    && (t.timer.Some? ==> t.state == Sleeping && t.timer.value == t.nextWake)
    && t.nextWake == t.regTime + t.yieldCount * Jiffies(t.period)
    && t.releaseCount + (if t.timer.Some? then 1 else 0) <= t.yieldCount
    && t.regTime + t.releaseCount * Jiffies(t.period) <= now
  }

  /** Pids are distinct; a task is RUNNING exactly when it is current; the current
      task is registered; an armed timer means SLEEPING; and a registered task is
      both SCHED_FIFO and unblocked exactly when it is current. */
  ghost predicate Inv(s: State) {
    && DistinctPids(s.tasks)
    && (forall i :: 0 <= i < |s.tasks| ==> TimerOk(s.tasks[i], s.now))
    && (forall i :: 0 <= i < |s.tasks| ==> (s.tasks[i].state == Running <==> s.curr == Some(s.tasks[i].pid)))
    && (s.curr.Some? ==> IndexOf(s.tasks, s.curr.value).Some?)
    && (forall i :: 0 <= i < |s.tasks| ==>
          (s.tasks[i].pid in s.fifo && s.tasks[i].pid !in s.blocked <==> s.curr == Some(s.tasks[i].pid)))
    && (forall p :: p in s.fifo ==> IndexOf(s.tasks, p).Some?)
  }

  lemma InvPeriods(s: State)
    requires Inv(s)
    ensures PeriodsOk(s.tasks)
  {
    forall i | 0 <= i < |s.tasks| ensures s.tasks[i].period > 0 { assert TimerOk(s.tasks[i], s.now); }
  }

  lemma IndexIs(tasks: seq<Task>, i: nat)
    requires i < |tasks| && DistinctPids(tasks)
    ensures IndexOf(tasks, tasks[i].pid) == Some(i)
  {}

  /** Same pids in the same places: the same lookups. */
  lemma {:induction false} SameIndex(a: seq<Task>, b: seq<Task>, pid: int)
    requires |a| == |b| && forall i :: 0 <= i < |a| ==> a[i].pid == b[i].pid
    ensures IndexOf(a, pid) == IndexOf(b, pid)
    decreases |a|
  {
    if a != [] { SameIndex(a[1..], b[1..], pid); }
  }

  lemma TickInv(s: State)
    requires Inv(s)
    ensures Inv(s.(now := s.now + 1))
  {
    forall i | 0 <= i < |s.tasks| ensures TimerOk(s.tasks[i], s.now + 1) { assert TimerOk(s.tasks[i], s.now); }
  }

  lemma RegisterInv(s: State, pid: int, period: nat, comp: nat)
    requires Inv(s) && PeriodsOk(s.tasks)
    ensures Inv(RegisterStep(s, pid, period, comp))
  {
    var s' := RegisterStep(s, pid, period, comp);
    if s' != s {
      hide Usum, IndexOf;
      forall i | 0 <= i < |s'.tasks| ensures TimerOk(s'.tasks[i], s'.now) {
        if i < |s.tasks| { assert TimerOk(s.tasks[i], s.now); }
      }
      forall p | IndexOf(s.tasks, p).Some? ensures IndexOf(s'.tasks, p).Some? {
        assert s'.tasks[IndexOf(s.tasks, p).value].pid == p;
      }
      if s.curr.Some? { assert IndexOf(s.tasks, s.curr.value).Some?; }
    }
  }

  lemma DeregisterInv(s: State, pid: int)
    requires Inv(s)
    ensures Inv(DeregisterStep(s, pid))
  {
    hide TimerOk, IndexOf;
    var s' := DeregisterStep(s, pid);
    if IndexOf(s.tasks, pid).Some? {
      var k := IndexOf(s.tasks, pid).value;
      assert forall i :: 0 <= i < |s'.tasks| ==> s'.tasks[i] == if i < k then s.tasks[i] else s.tasks[i + 1];
      forall i | 0 <= i < |s'.tasks| ensures TimerOk(s'.tasks[i], s'.now) && s'.tasks[i].pid != pid {
        assert TimerOk(s.tasks[if i < k then i else i + 1], s.now);
      }
      forall p | p != pid && IndexOf(s.tasks, p).Some? ensures IndexOf(s'.tasks, p).Some? {
        var j := IndexOf(s.tasks, p).value;
        assert s'.tasks[if j < k then j else j - 1].pid == p;
      }
    }
  }

  /** Arming the timer for the next period. */
  lemma YieldTimer(t: Task, now: nat)
    requires TimerOk(t, now)
    ensures var wake := t.nextWake + Jiffies(t.period);
            TimerOk(t.(state := Sleeping, nextWake := wake, timer := Some(wake), yieldCount := t.yieldCount + 1), now)
  {
    hide Jiffies;
    assert (t.yieldCount + 1) * Jiffies(t.period) == t.yieldCount * Jiffies(t.period) + Jiffies(t.period);
  }

  lemma YieldInv(s: State, caller: int, pid: int)
    requires Inv(s)
    ensures Inv(YieldStep(s, caller, pid))
  {
    hide TimerOk, Jiffies, IndexOf;
    var s' := YieldStep(s, caller, pid);
    if s' != s {
      var k := IndexOf(s.tasks, pid).value;
      forall i | 0 <= i < |s'.tasks| ensures TimerOk(s'.tasks[i], s'.now) {
        YieldTimer(s.tasks[i], s.now);
      }
      forall p ensures IndexOf(s'.tasks, p) == IndexOf(s.tasks, p) { SameIndex(s.tasks, s'.tasks, p); }
      forall i | 0 <= i < |s.tasks| && s.tasks[i].pid == pid ensures i == k { IndexIs(s.tasks, i); }
    }
  }

  lemma TimerInv(s: State, pid: int)
    requires Inv(s)
    ensures Inv(TimerStep(s, pid))
  {
    var s' := TimerStep(s, pid);
    if s' != s {
      forall i | 0 <= i < |s'.tasks| ensures TimerOk(s'.tasks[i], s'.now) {
        assert TimerOk(s.tasks[i], s.now);
        if i == IndexOf(s.tasks, pid).value { ReleaseTime(s.tasks[i], s.now); }
      }
      forall p ensures IndexOf(s'.tasks, p) == IndexOf(s.tasks, p) { SameIndex(s.tasks, s'.tasks, p); }
    }
  }

  /** When a timer fires, its task has been registered for one more whole period than it had releases. */
  lemma ReleaseTime(t: Task, now: nat)
    requires TimerOk(t, now) && t.timer.Some? && t.timer.value <= now
    ensures t.regTime + (t.releaseCount + 1) * Jiffies(t.period) <= now
  {
    hide Jiffies;
    assert (t.releaseCount + 1) * Jiffies(t.period) <= t.yieldCount * Jiffies(t.period);
  }

  /** Task i, not SLEEPING, in another state. */
  function WithState(tasks: seq<Task>, i: nat, state: RmsState): seq<Task>
    requires i < |tasks|
  {
    tasks[i := tasks[i].(state := state)]
  }

  lemma WithStateKeeps(tasks: seq<Task>, now: nat, i: nat, state: RmsState)
    requires i < |tasks| && tasks[i].state != Sleeping && DistinctPids(tasks)
    requires forall j :: 0 <= j < |tasks| ==> TimerOk(tasks[j], now)
    ensures var tasks' := WithState(tasks, i, state);
            && DistinctPids(tasks') && (forall j :: 0 <= j < |tasks| ==> TimerOk(tasks'[j], now))
            && (forall j :: 0 <= j < |tasks| && tasks[j].pid == tasks[i].pid ==> j == i)
            && (forall p :: IndexOf(tasks', p) == IndexOf(tasks, p))
  {
    hide Jiffies, IndexOf;
    var tasks' := WithState(tasks, i, state);
    forall p ensures IndexOf(tasks', p) == IndexOf(tasks, p) { SameIndex(tasks, tasks', p); }
  }

  /** Preempting the running task: READY again and no longer SCHED_FIFO. */
  function Demote(s: State, i: nat): State
    requires i < |s.tasks|
  {
    s.(tasks := WithState(s.tasks, i, Ready), curr := None, fifo := s.fifo - {s.tasks[i].pid})
  }

  lemma DemoteInv(s: State, i: nat)
    requires Inv(s) && i < |s.tasks| && s.curr == Some(s.tasks[i].pid)
    ensures Inv(Demote(s, i))
  {
    hide TimerOk, IndexOf;
    WithStateKeeps(s.tasks, s.now, i, Ready);
  }

  lemma PromoteInv(s: State, n: nat)
    requires Inv(s) && s.curr.None? && n < |s.tasks| && s.tasks[n].state == Ready
    ensures Inv(Promote(s, n))
  {
    hide TimerOk, IndexOf;
    WithStateKeeps(s.tasks, s.now, n, Running);
  }

  lemma DispatchInv(s: State)
    requires Inv(s)
    ensures Inv(DispatchStep(s))
  {
    hide TimerOk, IndexOf, BestReady;
    if DispatchStep(s) != s {
      var n := BestReady(s.tasks, |s.tasks|).value;
      if s.curr.None? {
        PromoteInv(s, n);
      } else {
        var c := IndexOf(s.tasks, s.curr.value).value;
        DemoteInv(s, c);
        PromoteInv(Demote(s, c), n);
        assert DispatchStep(s) == Promote(Demote(s, c), n);
      }
    }
  }

  lemma StepInv(s: State, a: Action)
    requires Inv(s) && PeriodsOk(s.tasks) && ActionOk(a)
    ensures Inv(Step(s, a))
  {
    hide Inv, RegisterStep, DeregisterStep, YieldStep, TimerStep, DispatchStep;
    match a
    case Tick => TickInv(s);
    case Register(pid, period, comp) => RegisterInv(s, pid, AsULong(period), AsULong(comp));
    case Yield(caller, pid) => YieldInv(s, caller, pid);
    case Deregister(pid) => DeregisterInv(s, pid);
    case TimerFires(pid) => TimerInv(s, pid);
    case Dispatch => DispatchInv(s);
  }

  ghost predicate RunOk(acts: seq<Action>) {
    forall i :: 0 <= i < |acts| ==> ActionOk(acts[i])
  }

  /** The state after a run from module load. */
  ghost function Exec(acts: seq<Action>): (s: State)
    requires RunOk(acts)
    ensures Inv(s) && PeriodsOk(s.tasks)
  {
    if acts == [] then INITIAL
    else
      var s := Exec(acts[..|acts| - 1]);
      StepInv(s, acts[|acts| - 1]);
      InvPeriods(Step(s, acts[|acts| - 1]));
      Step(s, acts[|acts| - 1])
  }
}
