/** What the dispatcher decides, what admission guarantees, and how much work can be released. */
module RateMonotonic {
  import opened Arith
  import opened Options
  import opened Scheduler

  /* ---- dispatching ---- */

  predicate Eligible(t: Task) { t.state != Sleeping }

  /** Task i goes before task j: shorter period; on a tie the running one, then list order. */
  predicate Beats(tasks: seq<Task>, i: nat, j: nat)
    requires i < |tasks| && j < |tasks|
  {
    tasks[i].period < tasks[j].period
    || (tasks[i].period == tasks[j].period && (tasks[i].state == Running || (tasks[j].state != Running && i < j)))
  }

  /** The memoryless rule: the winner looks at the list alone. */
  ghost predicate IsWinner(tasks: seq<Task>, i: nat) {
    i < |tasks| && Eligible(tasks[i])
    && forall j :: 0 <= j < |tasks| && j != i && Eligible(tasks[j]) ==> Beats(tasks, i, j)
  }

  /** A task's state once the winner is known. */
  ghost function Dispatched(tasks: seq<Task>, i: nat): Task
    requires i < |tasks|
  {
    if IsWinner(tasks, i) then tasks[i].(state := Running)
    else if Eligible(tasks[i]) then tasks[i].(state := Ready)
    else tasks[i]
  }

  lemma {:induction false} BestReadyIsLeast(tasks: seq<Task>, n: nat)
    requires n <= |tasks|
    ensures BestReady(tasks, n).None? ==> forall j :: 0 <= j < n ==> tasks[j].state != Ready
    ensures BestReady(tasks, n).Some? ==>
      var k := BestReady(tasks, n).value;
      forall j :: 0 <= j < n && tasks[j].state == Ready ==>
        tasks[k].period < tasks[j].period || (tasks[k].period == tasks[j].period && k <= j)
    decreases n
  {
    if n > 0 { BestReadyIsLeast(tasks, n - 1); }
  }

  /** At most one task is RUNNING, the current one. */
  lemma OneRunning(s: State, i: nat, j: nat)
    requires Inv(s) && i < |s.tasks| && j < |s.tasks| && s.tasks[i].state == Running && s.tasks[j].state == Running
    ensures i == j
  {
    hide TimerOk;
    IndexIs(s.tasks, i);
    IndexIs(s.tasks, j);
  }

  /** When the dispatcher looks at the current task, it is RUNNING. */
  lemma CurrentIsRunning(s: State)
    requires Inv(s) && s.curr.Some?
    ensures IndexOf(s.tasks, s.curr.value).Some?
    ensures s.tasks[IndexOf(s.tasks, s.curr.value).value].state == Running
  {
    hide TimerOk;
  }

  /** The index the dispatcher leaves RUNNING, computed as the code does from its remembered current task. */
  function Choice(s: State): Option<nat> {
    var n := BestReady(s.tasks, |s.tasks|);
    var c := if s.curr.None? then None else IndexOf(s.tasks, s.curr.value);
    if c.None? then n
    else if n.Some? && s.tasks[c.value].period > s.tasks[n.value].period then n
    else c
  }

  lemma ChoiceWins(s: State)
    requires Inv(s)
    ensures Choice(s).None? ==> forall i :: 0 <= i < |s.tasks| ==> !Eligible(s.tasks[i])
    ensures Choice(s).Some? ==> IsWinner(s.tasks, Choice(s).value)
  {
    hide TimerOk;
    BestReadyIsLeast(s.tasks, |s.tasks|);
    if s.curr.Some? {
      CurrentIsRunning(s);
      var c := IndexOf(s.tasks, s.curr.value).value;
      forall j: nat | j < |s.tasks| && s.tasks[j].state == Running ensures j == c { OneRunning(s, c, j); }
    }
  }

  lemma WinnerUnique(tasks: seq<Task>, i: nat, j: nat)
    requires IsWinner(tasks, i) && IsWinner(tasks, j)
    requires forall a: nat, b: nat ::
      a < |tasks| && b < |tasks| && tasks[a].state == Running && tasks[b].state == Running ==> a == b
    ensures i == j
  {
    assert i == j || Beats(tasks, i, j);
  }

  /** What dispatching does, in terms of the index it chooses. */
  lemma DispatchByChoice(s: State)
    requires Inv(s)
    ensures var s', c := DispatchStep(s), Choice(s);
            && |s'.tasks| == |s.tasks|
            && (forall i: nat :: i < |s.tasks| ==>
                  s'.tasks[i] == if c == Some(i) then s.tasks[i].(state := Running)
                                 else if Eligible(s.tasks[i]) then s.tasks[i].(state := Ready) else s.tasks[i])
            && s'.curr == if c.None? then None else Some(s.tasks[c.value].pid)
  {
    hide Inv, IndexOf;
    OneRunningAll(s);
    if s.curr.Some? { CurrentIsRunning(s); }
  }

  lemma OneRunningAll(s: State)
    requires Inv(s)
    ensures forall i: nat, j: nat ::
      i < |s.tasks| && j < |s.tasks| && s.tasks[i].state == Running && s.tasks[j].state == Running ==> i == j
    ensures s.curr.None? ==> forall i :: 0 <= i < |s.tasks| ==> s.tasks[i].state != Running
  {
    hide TimerOk, IndexOf;
    forall i: nat, j: nat | i < |s.tasks| && j < |s.tasks| && s.tasks[i].state == Running && s.tasks[j].state == Running
      ensures i == j
    {
      OneRunning(s, i, j);
    }
  }

  lemma WinnerIffChosen(s: State, i: nat)
    requires Inv(s)
    ensures IsWinner(s.tasks, i) <==> Choice(s) == Some(i)
  {
    hide Inv, IsWinner, Choice;
    ChoiceWins(s);
    OneRunningAll(s);
    if IsWinner(s.tasks, i) { WinnerIsChoice(s.tasks, i, Choice(s)); }
  }

  /** Dispatching puts every task in the state that the memoryless rule gives it. */
  lemma DispatchIsMemoryless(s: State)
    requires Inv(s)
    ensures var s' := DispatchStep(s);
            && |s'.tasks| == |s.tasks|
            && (forall i: nat :: i < |s.tasks| ==> s'.tasks[i] == Dispatched(s.tasks, i))
            && (s'.curr.None? <==> forall i :: 0 <= i < |s.tasks| ==> !Eligible(s.tasks[i]))
            && (forall i: nat :: IsWinner(s.tasks, i) ==> s'.curr == Some(s.tasks[i].pid))
  {
    hide Inv, IsWinner, Choice, DispatchStep;
    ChoiceWins(s);
    DispatchByChoice(s);
    WinnersInRange(s.tasks);
    forall i: nat ensures IsWinner(s.tasks, i) <==> Choice(s) == Some(i) { WinnerIffChosen(s, i); }
    if Choice(s).Some? { WinnerEligible(s.tasks, Choice(s).value); }
  }

  lemma WinnerEligible(tasks: seq<Task>, i: nat)
    requires IsWinner(tasks, i)
    ensures i < |tasks| && Eligible(tasks[i])
  {}

  lemma WinnersInRange(tasks: seq<Task>)
    ensures forall i: nat :: IsWinner(tasks, i) ==> i < |tasks|
  {}

  lemma WinnerIsChoice(tasks: seq<Task>, i: nat, c: Option<nat>)
    requires IsWinner(tasks, i)
    requires forall a: nat, b: nat ::
      a < |tasks| && b < |tasks| && tasks[a].state == Running && tasks[b].state == Running ==> a == b
    requires c.None? ==> forall j :: 0 <= j < |tasks| ==> !Eligible(tasks[j])
    requires c.Some? ==> IsWinner(tasks, c.value)
    ensures c == Some(i)
  {
    if c.Some? { WinnerUnique(tasks, i, c.value); }
  }

  /** The winner still wins once it runs. */
  lemma WinnerKeeps(tasks: seq<Task>, tasks': seq<Task>, i: nat)
    requires |tasks'| == |tasks| && forall j: nat :: j < |tasks| ==> tasks'[j] == Dispatched(tasks, j)
    requires IsWinner(tasks, i)
    ensures IsWinner(tasks', i)
  {
    forall j: nat | j < |tasks| && j != i && Eligible(tasks'[j]) ensures Beats(tasks', i, j) {
      assert Eligible(tasks[j]) && Beats(tasks, i, j);
    }
  }

  /** A dispatch that changes anything changes a task. */
  lemma ChangeShows(s: State)
    requires Inv(s)
    ensures DispatchStep(s) != s ==> DispatchStep(s).tasks != s.tasks
  {
    hide TimerOk;
    if DispatchStep(s) != s {
      var n := BestReady(s.tasks, |s.tasks|).value;
      assert DispatchStep(s).tasks[n].state == Running && s.tasks[n].state == Ready;
    }
  }

  /** A second dispatch changes nothing. */
  lemma DispatchIdempotent(s: State)
    requires Inv(s)
    ensures DispatchStep(DispatchStep(s)) == DispatchStep(s)
  {
    var s' := DispatchStep(s);
    DispatchInv(s);
    DispatchIsMemoryless(s);
    DispatchIsMemoryless(s');
    ChoiceWins(s);
    forall i: nat | i < |s'.tasks| ensures DispatchStep(s').tasks[i] == s'.tasks[i] {
      AgainSame(s.tasks, s'.tasks, i, Choice(s));
    }
    hide DispatchStep, Inv;
    assert DispatchStep(s').tasks == s'.tasks;
    ChangeShows(s');
  }

  lemma AgainSame(tasks: seq<Task>, tasks': seq<Task>, i: nat, c: Option<nat>)
    requires i < |tasks| == |tasks'| && forall j: nat :: j < |tasks| ==> tasks'[j] == Dispatched(tasks, j)
    requires c.None? ==> forall j :: 0 <= j < |tasks| ==> !Eligible(tasks[j])
    requires c.Some? ==> IsWinner(tasks, c.value)
    ensures Dispatched(tasks', i) == tasks'[i]
  {
    if c.Some? {
      var w := c.value;
      WinnerKeeps(tasks, tasks', w);
      if i == w {
        assert tasks'[w].state == Running;
      } else {
        assert tasks'[i].state == Running ==> IsWinner(tasks, i);
        LoserKeeps(tasks', i, w);
      }
    }
  }

  lemma LoserKeeps(tasks: seq<Task>, i: nat, w: nat)
    requires i < |tasks| && i != w && IsWinner(tasks, w) && tasks[w].state == Running
    ensures !IsWinner(tasks, i) || tasks[i].state == Running
  {
    assert IsWinner(tasks, i) ==> Beats(tasks, i, w) && Beats(tasks, w, i);
  }

  /* ---- admission ---- */

  /** Floored per-mille utilisation of one task, in exact arithmetic. */
  function Floor(t: Task): nat
    requires t.period > 0
  {
    t.comp * 1000 / t.period
  }

  function FloorSum(tasks: seq<Task>): nat
    requires PeriodsOk(tasks)
  {
    if tasks == [] then 0 else FloorSum(tasks[..|tasks| - 1]) + Floor(tasks[|tasks| - 1])
  }

  /** Registered with a non-negative computation time. */
  ghost predicate CompsOk(tasks: seq<Task>) {
    forall i :: 0 <= i < |tasks| ==> 0 < tasks[i].comp < 0x8000_0000
  }

  /** For such tasks the code's 64-bit sum is the exact one. */
  lemma {:induction false} UsumExact(sum: nat, tasks: seq<Task>)
    requires PeriodsOk(tasks) && CompsOk(tasks) && sum + FloorSum(tasks) < TWO64
    ensures Usum(sum, tasks) == sum + FloorSum(tasks)
    decreases |tasks|
  {
    if tasks != [] {
      hide Permille, Floor, TWO64;
      var init, t := tasks[..|tasks| - 1], tasks[|tasks| - 1];
      UsumExact(sum, init);
      PermilleIsFloor(t);
      NoWrap(Usum(sum, init) + Permille(t.comp, t.period));
    }
  }

  lemma NoWrap(x: nat)
    ensures x < TWO64 ==> x % TWO64 == x
  {}

  lemma PermilleIsFloor(t: Task)
    requires t.comp < 0x8000_0000 && t.period > 0
    ensures Permille(t.comp, t.period) == Floor(t)
  {
    PermilleExact(t.comp, t.period);
  }

  lemma PermilleExact(comp: nat, period: nat)
    requires comp < 0x8000_0000 && period > 0
    ensures Permille(comp, period) == comp * 1000 / period
  {}

  /** The task a registration would add. */
  function Candidate(s: State, pid: int, period: nat, comp: nat): Task {
    Task(pid, period, comp, Sleeping, s.now, None, s.now, 0, 0)
  }

  lemma SumOfOneMore(tasks: seq<Task>, t: Task)
    requires PeriodsOk(tasks) && t.period > 0
    ensures PeriodsOk(tasks + [t]) && FloorSum(tasks + [t]) == FloorSum(tasks) + Floor(t)
  {
    hide Floor;
    assert (tasks + [t])[..|tasks|] == tasks;
  }

  /** An admitted registration keeps the sum of floored utilisations within 693
      exactly when its computation time is not negative. */
  lemma AdmissionKeepsBound(s: State, pid: int, period: int, comp: int)
    requires Inv(s) && PeriodsOk(s.tasks) && CompsOk(s.tasks) && FloorSum(s.tasks) <= 693
    requires ActionOk(Register(pid, period, comp))
    ensures var s' := Step(s, Register(pid, period, comp));
            s' != s ==> PeriodsOk(s'.tasks) && (FloorSum(s'.tasks) <= 693 <==> comp >= 0)
  {
    var s' := Step(s, Register(pid, period, comp));
    if s' != s {
      hide Inv;
      var p, c := AsULong(period), AsULong(comp);
      SumOfOneMore(s.tasks, Candidate(s, pid, p, c));
      if comp >= 0 {
        PermilleExact(c, p);
        QuotientAtMost(c * 1000, p);
        AdmitExact(s.tasks, c * 1000 / p);
      } else {
        NegativeIsHuge(c, p);
      }
    }
  }

  lemma AdmitExact(tasks: seq<Task>, q: nat)
    requires PeriodsOk(tasks) && CompsOk(tasks) && FloorSum(tasks) <= 693 && q < 0x8000_0000 * 1000
    requires Usum(q, tasks) <= 693
    ensures FloorSum(tasks) + q <= 693
  {
    UsumExact(q, tasks);
  }

  /** A registration with a time that is not negative is admitted exactly when its times
      are not zero, its pid is new, and the exact floored sum stays within 693. */
  lemma AdmissionExact(s: State, pid: int, period: int, comp: int)
    requires PeriodsOk(s.tasks) && CompsOk(s.tasks) && FloorSum(s.tasks) <= 693
    requires ActionOk(Register(pid, period, comp)) && comp >= 0
    ensures Step(s, Register(pid, period, comp)) != s <==>
            && period != 0 && comp != 0 && IndexOf(s.tasks, pid).None?
            && FloorSum(s.tasks) + comp * 1000 / AsULong(period) <= 693
  {
    hide IndexOf, FloorSum, Usum;
    if period != 0 {
      var p := AsULong(period);
      PermilleExact(comp, p);
      QuotientAtMost(comp * 1000, p);
      UsumExact(comp * 1000 / p, s.tasks);
      hide Permille;
      var s' := RegisterStep(s, pid, p, comp);
      assert s' != s ==> |s'.tasks| == |s.tasks| + 1;
    }
  }

  /** A negative time, once admitted, is far above the bound. */
  lemma NegativeIsHuge(c: nat, p: nat)
    requires TWO64 - 0x8000_0000 <= c < TWO64 && 0 < p < TWO64
    ensures c * 1000 / p > 693
  {
    assert c * 1000 >= 999 * TWO64;
    assert 999 * p <= 999 * TWO64;
    QuotientAtLeast(c * 1000, p, 999);
  }

  lemma QuotientAtLeast(a: nat, p: nat, q: nat)
    requires p > 0 && q * p <= a
    ensures a / p >= q
  {
    var r := a / p;
    AtLeastOnce(q - r, p);
    assert a == r * p + a % p;
    assert (q - r) * p == q * p - r * p;
  }

  lemma AtLeastOnce(d: int, p: nat)
    requires p > 0
    ensures d >= 1 ==> d * p >= p
  {}

  lemma QuotientAtMost(a: nat, p: nat)
    requires p > 0
    ensures a / p <= a
  {
    var r := a / p;
    TimesAtLeast(r, p);
    assert a == r * p + a % p;
  }

  lemma {:induction false} TimesAtLeast(r: nat, p: nat)
    requires p > 0
    ensures r * p >= r
    decreases p
  {
    if p > 1 {
      TimesAtLeast(r, p - 1);
      assert r * p == r * (p - 1) + r;
    }
  }

  /* ---- admission over whole runs ---- */

  /** Step i of the run is a registration that the module admits. */
  ghost predicate Admits(acts: seq<Action>, i: nat)
    requires RunOk(acts) && i < |acts|
  {
    acts[i].Register? && Step(Exec(acts[..i]), acts[i]) != Exec(acts[..i])
  }

  /** No admitted registration of the run has a negative computation time. */
  ghost predicate NonNegative(acts: seq<Action>) {
    RunOk(acts) && forall i: nat :: i < |acts| && Admits(acts, i) ==> acts[i].comp >= 0
  }

  /** After each step of the run, the floored utilisations are within the bound. */
  ghost predicate AlwaysWithin(acts: seq<Action>)
    requires RunOk(acts)
  {
    forall i: nat :: i <= |acts| ==> Within(acts[..i])
  }

  ghost predicate Within(acts: seq<Action>)
    requires RunOk(acts)
  {
    FloorSum(Exec(acts).tasks) <= 693
  }

  /** A run and the run without its last step admit the same registrations before that step. */
  lemma InitAdmits(acts: seq<Action>, i: nat)
    requires RunOk(acts) && i < |acts| - 1
    ensures RunOk(acts[..|acts| - 1]) && (Admits(acts[..|acts| - 1], i) <==> Admits(acts, i))
  {
    hide Exec, Step;
    assert acts[..|acts| - 1][..i] == acts[..i];
  }

  lemma InitNonNegative(acts: seq<Action>)
    requires RunOk(acts) && acts != []
    ensures var init, a := acts[..|acts| - 1], acts[|acts| - 1];
            NonNegative(acts) <==>
            NonNegative(init) && (a.Register? && Step(Exec(init), a) != Exec(init) ==> a.comp >= 0)
  {
    hide Exec, Step;
    var init, last := acts[..|acts| - 1], |acts| - 1;
    forall i: nat | i < last ensures Admits(init, i) <==> Admits(acts, i) && acts[i] == init[i] {
      InitAdmits(acts, i);
    }
    assert Admits(acts, last) <==> acts[last].Register? && Step(Exec(init), acts[last]) != Exec(init);
    if NonNegative(acts) {
      forall i: nat | i < |init| && Admits(init, i) ensures init[i].comp >= 0 { assert Admits(acts, i); }
    }
    if NonNegative(init) && (Admits(acts, last) ==> acts[last].comp >= 0) {
      forall i: nat | i < |acts| && Admits(acts, i) ensures acts[i].comp >= 0 {
        if i < last { assert Admits(init, i); }
      }
    }
  }

  lemma {:induction false} SameSum(a: seq<Task>, b: seq<Task>)
    requires PeriodsOk(a) && PeriodsOk(b) && |a| == |b|
    requires forall i :: 0 <= i < |a| ==> a[i].comp == b[i].comp && a[i].period == b[i].period
    ensures FloorSum(a) == FloorSum(b)
    decreases |a|
  {
    if a != [] { SameSum(a[..|a| - 1], b[..|b| - 1]); }
  }

  lemma {:induction false} RemoveSum(a: seq<Task>, k: nat)
    requires PeriodsOk(a) && k < |a|
    ensures PeriodsOk(a[..k] + a[k + 1..]) && FloorSum(a[..k] + a[k + 1..]) + Floor(a[k]) == FloorSum(a)
    decreases |a|
  {
    hide Floor, FloorSum;
    var init, t := a[..|a| - 1], a[|a| - 1];
    assert a == init + [t];
    SumOfOneMore(init, t);
    if k == |a| - 1 {
      assert a[..k] + a[k + 1..] == init;
    } else {
      RemoveSum(init, k);
      var r := init[..k] + init[k + 1..];
      assert a[..k] + a[k + 1..] == r + [t];
      SumOfOneMore(r, t);
    }
  }

  /** Steps other than registration and removal leave every task's times alone. */
  lemma SameTimes(s: State, a: Action)
    requires PeriodsOk(s.tasks) && ActionOk(a) && !a.Register? && !a.Deregister?
    ensures var s' := Step(s, a);
            |s'.tasks| == |s.tasks| && forall i :: 0 <= i < |s.tasks| ==>
              s'.tasks[i].comp == s.tasks[i].comp && s'.tasks[i].period == s.tasks[i].period
  {
    hide PeriodsOk;
  }

  /** Steps other than registration keep the bound. */
  lemma StepKeepsBound(s: State, a: Action)
    requires PeriodsOk(s.tasks) && CompsOk(s.tasks) && FloorSum(s.tasks) <= 693
    requires ActionOk(a) && !a.Register?
    ensures PeriodsOk(Step(s, a).tasks) && CompsOk(Step(s, a).tasks) && FloorSum(Step(s, a).tasks) <= 693
  {
    if a.Deregister? {
      hide FloorSum;
      if IndexOf(s.tasks, a.pid).Some? { RemoveSum(s.tasks, IndexOf(s.tasks, a.pid).value); }
    } else {
      SameTimes(s, a);
      hide Step, FloorSum;
      SameSum(s.tasks, Step(s, a).tasks);
    }
  }

  /** In every run whose admitted registrations have non-negative times, the floored
      per-mille utilisations of the registered tasks sum to at most 693. */
  lemma {:induction false} AdmissionBound(acts: seq<Action>)
    requires NonNegative(acts)
    ensures CompsOk(Exec(acts).tasks) && FloorSum(Exec(acts).tasks) <= 693
    decreases |acts|
  {
    if acts != [] {
      hide NonNegative, Inv, Step, FloorSum;
      var init, a := acts[..|acts| - 1], acts[|acts| - 1];
      InitNonNegative(acts);
      AdmissionBound(init);
      AdmissionStep(Exec(init), a);
    }
  }

  /** A run keeps within the bound throughout exactly when it admits no negative time. */
  lemma {:induction false} BoundIffNonNegative(acts: seq<Action>)
    requires RunOk(acts)
    ensures AlwaysWithin(acts) <==> NonNegative(acts)
    decreases |acts|
  {
    hide NonNegative, Within;
    if acts == [] {
      EmptyRun();
    } else {
      var init := acts[..|acts| - 1];
      BoundIffNonNegative(init);
      InitWithin(acts);
      LastWithin(acts);
    }
  }

  lemma EmptyRun()
    ensures NonNegative([]) && Within([])
  {}

  lemma InitWithin(acts: seq<Action>)
    requires RunOk(acts) && acts != []
    ensures AlwaysWithin(acts) <==> AlwaysWithin(acts[..|acts| - 1]) && Within(acts)
  {
    hide Within;
    var init := acts[..|acts| - 1];
    assert forall i: nat :: i <= |init| ==> init[..i] == acts[..i];
    assert acts[..|acts|] == acts;
    if AlwaysWithin(acts) {
      forall i: nat | i <= |init| ensures Within(init[..i]) { assert Within(acts[..i]); }
    }
    if AlwaysWithin(init) && Within(acts) {
      forall i: nat | i <= |acts| ensures Within(acts[..i]) {
        if i < |acts| { assert Within(init[..i]); }
      }
    }
  }

  /** The last step of a run so far without negative times. */
  lemma LastWithin(acts: seq<Action>)
    requires RunOk(acts) && acts != []
    ensures NonNegative(acts) <==> NonNegative(acts[..|acts| - 1]) && Within(acts)
  {
    hide NonNegative, Inv, Step, FloorSum;
    var init, a := acts[..|acts| - 1], acts[|acts| - 1];
    InitNonNegative(acts);
    if NonNegative(acts) { AdmissionBound(acts); }
    if NonNegative(init) {
      AdmissionBound(init);
      if a.Register? { AdmissionKeepsBound(Exec(init), a.pid, a.period, a.comp); }
    }
  }

  lemma AdmissionStep(s: State, a: Action)
    requires Inv(s) && PeriodsOk(s.tasks) && CompsOk(s.tasks) && FloorSum(s.tasks) <= 693
    requires ActionOk(a) && (a.Register? && Step(s, a) != s ==> a.comp >= 0)
    ensures PeriodsOk(Step(s, a).tasks) && CompsOk(Step(s, a).tasks) && FloorSum(Step(s, a).tasks) <= 693
  {
    hide Inv, FloorSum;
    if a.Register? {
      AdmissionKeepsBound(s, a.pid, a.period, a.comp);
    } else {
      StepKeepsBound(s, a);
    }
  }

  lemma ExecOne(a: Action)
    requires ActionOk(a)
    ensures Exec([a]) == Step(INITIAL, a)
  {
    hide Inv, Step;
    assert [a][..0] == [];
  }

  /** A first registration is admitted on its own utilisation. */
  lemma FirstAdmitted(pid: int, period: int, comp: int)
    requires ActionOk(Register(pid, period, comp)) && period != 0 && comp != 0
    requires Permille(AsULong(comp), AsULong(period)) <= 693
    ensures Exec([Register(pid, period, comp)]).tasks ==
            [Task(pid, AsULong(period), AsULong(comp), Sleeping, 0, None, 0, 0, 0)]
  {
    ExecOne(Register(pid, period, comp));
    hide Permille, Exec;
  }

  lemma OneTaskSums(t: Task)
    requires t.period > 0
    ensures PeriodsOk([t]) && FloorSum([t]) == Floor(t) && UtilSum([t]) == Util(t)
  {
    hide Floor, Util;
    assert [t][..0] == [];
  }

  /** With a negative computation time and period, a task that wants nearly the
      whole processor is admitted: the bound does not hold of every run. */
  lemma NegativeTimesSlipThrough()
    ensures var acts := [Register(1, -1, -1)];
            RunOk(acts) && FloorSum(Exec(acts).tasks) > 693
  {
    hide Exec, FloorSum;
    assert Permille(TWO64 - 1, TWO64 - 1) == 0;
    FirstAdmitted(1, -1, -1);
    OneTaskSums(Task(1, TWO64 - 1, TWO64 - 1, Sleeping, 0, None, 0, 0, 0));
    NegativeIsHuge(TWO64 - 1, TWO64 - 1);
  }

  /* ---- true utilisation and released work ---- */

  function Util(t: Task): real
    requires t.period > 0
  {
    t.comp as real / t.period as real
  }

  function UtilSum(tasks: seq<Task>): real
    requires PeriodsOk(tasks)
  {
    if tasks == [] then 0.0 else UtilSum(tasks[..|tasks| - 1]) + Util(tasks[|tasks| - 1])
  }

  /** Flooring loses less than one per mille. */
  lemma UtilBelowFloor(t: Task)
    requires t.period > 0
    ensures 1000.0 * Util(t) < Floor(t) as real + 1.0
  {
    var c, p, f := t.comp as real, t.period as real, Floor(t) as real;
    assert t.comp * 1000 < (Floor(t) + 1) * t.period;
    assert c * 1000.0 < (f + 1.0) * p;
    CrossDivide(c, p, f + 1.0);
  }

  lemma CrossDivide(c: real, p: real, g: real)
    requires p > 0.0 && c * 1000.0 < g * p
    ensures 1000.0 * (c / p) < g
  {
    var u := c / p;
    assert c == u * p;
    assert (1000.0 * u - g) * p < 0.0;
  }

  lemma {:induction false} UtilBelowFloors(tasks: seq<Task>)
    requires PeriodsOk(tasks)
    ensures tasks != [] ==> 1000.0 * UtilSum(tasks) < (FloorSum(tasks) + |tasks|) as real
    ensures tasks == [] ==> UtilSum(tasks) == 0.0
    decreases |tasks|
  {
    if tasks != [] {
      var init, t := tasks[..|tasks| - 1], tasks[|tasks| - 1];
      UtilBelowFloors(init);
      UtilBelowFloor(t);
    }
  }

  /** True utilisation stays strictly below (693 + n) / 1000 for n >= 1 tasks. */
  lemma UtilisationBound(acts: seq<Action>)
    requires NonNegative(acts) && Exec(acts).tasks != []
    ensures UtilSum(Exec(acts).tasks) < (693 + |Exec(acts).tasks|) as real / 1000.0
  {
    AdmissionBound(acts);
    UtilBelowFloors(Exec(acts).tasks);
  }

  /** The slack is real: a reachable task set uses more than 693/1000. */
  lemma SlackIsReal()
    ensures var acts := [Register(1, 10000, 6939)];
            NonNegative(acts) && UtilSum(Exec(acts).tasks) > 0.693
  {
    hide Exec, UtilSum;
    assert Permille(6939, 10000) == 693;
    FirstAdmitted(1, 10000, 6939);
    var t := Task(1, 10000, 6939, Sleeping, 0, None, 0, 0, 0);
    OneTaskSums(t);
    assert Util(t) == 6939.0 / 10000.0;
  }

  /** Computation released so far by the registered tasks. */
  function Released(tasks: seq<Task>): nat {
    if tasks == [] then 0
    else Released(tasks[..|tasks| - 1]) + Work(tasks[|tasks| - 1])
  }

  function Work(t: Task): nat { t.releaseCount * t.comp }

  /** Every admitted registration in the run has positive times. */
  ghost predicate Positive(acts: seq<Action>) {
    NonNegative(acts) && forall i: nat :: i < |acts| && Admits(acts, i) ==> acts[i].period >= 0
  }

  ghost predicate PeriodsSmall(tasks: seq<Task>) {
    forall i :: 0 <= i < |tasks| ==> tasks[i].period < 0x8000_0000
  }

  lemma StepKeepsPeriods(s: State, a: Action)
    requires PeriodsOk(s.tasks) && PeriodsSmall(s.tasks) && ActionOk(a)
    requires a.Register? && Step(s, a) != s ==> a.period >= 0
    ensures PeriodsSmall(Step(s, a).tasks)
  {
    if !a.Register? && !a.Deregister? {
      SameTimes(s, a);
      hide Step;
    }
  }

  lemma InitPositive(acts: seq<Action>)
    requires Positive(acts) && acts != []
    ensures var init, a := acts[..|acts| - 1], acts[|acts| - 1];
            Positive(init) && (a.Register? && Step(Exec(init), a) != Exec(init) ==> a.period >= 0)
  {
    InitNonNegative(acts);
    hide Exec, Step, NonNegative;
    var init, last := acts[..|acts| - 1], |acts| - 1;
    forall i: nat | i < last && Admits(init, i) ensures init[i].period >= 0 {
      InitAdmits(acts, i);
    }
    assert Admits(acts, last) <==> acts[last].Register? && Step(Exec(init), acts[last]) != Exec(init);
  }

  lemma {:induction false} PositivePeriods(acts: seq<Action>)
    requires Positive(acts)
    ensures PeriodsSmall(Exec(acts).tasks)
    decreases |acts|
  {
    if acts != [] {
      hide Inv, Step;
      InitPositive(acts);
      PositivePeriods(acts[..|acts| - 1]);
      StepKeepsPeriods(Exec(acts[..|acts| - 1]), acts[|acts| - 1]);
    }
  }

  /** The part u of t milliseconds. */
  function Share(t: nat, u: real): real { t as real * u }

  lemma ShareAdds(t: nat, a: real, b: real)
    ensures Share(t, a + b) == Share(t, a) + Share(t, b)
  {}

  lemma ShareGrows(t: nat, a: real, b: real)
    requires t > 0 && a < b
    ensures Share(t, a) < Share(t, b)
  {
    assert t as real * (b - a) > 0.0;
  }

  /** A task registered for at most t jiffies has released at most its utilisation's share of t. */
  lemma ReleasedShare(task: Task, now: nat, t: nat)
    requires TimerOk(task, now) && task.period < 0x8000_0000 && now - task.regTime <= t
    ensures Work(task) as real <= Share(t, Util(task))
  {
    var k, c, p := task.releaseCount, task.comp, task.period;
    assert k * p <= t;
    assert (k as real) * (p as real) <= t as real;
    ShareOf(k as real, c as real, p as real, t as real);
    assert (k * c) as real == (k as real) * (c as real);
  }

  lemma ShareOf(k: real, c: real, p: real, t: real)
    requires p > 0.0 && c >= 0.0 && k * p <= t
    ensures k * c <= t * (c / p)
  {
    var u := c / p;
    assert c == u * p && u >= 0.0;
    assert k * c == (k * p) * u;
  }

  lemma {:induction false} ReleasedShares(tasks: seq<Task>, now: nat, t: nat)
    requires PeriodsOk(tasks) && PeriodsSmall(tasks)
    requires forall i :: 0 <= i < |tasks| ==> TimerOk(tasks[i], now) && now - tasks[i].regTime <= t
    ensures Released(tasks) as real <= Share(t, UtilSum(tasks))
    decreases |tasks|
  {
    if tasks == [] {
      assert Share(t, 0.0) == 0.0;
    } else {
      hide TimerOk, Util, Work, Share;
      var init, last := tasks[..|tasks| - 1], tasks[|tasks| - 1];
      ReleasedShares(init, now, t);
      ReleasedShare(last, now, t);
      ShareAdds(t, UtilSum(init), Util(last));
    }
  }

  lemma TimersOk(acts: seq<Action>)
    requires RunOk(acts)
    ensures forall i :: 0 <= i < |Exec(acts).tasks| ==> TimerOk(Exec(acts).tasks[i], Exec(acts).now)
  {
    var s := Exec(acts);
    assert Inv(s);
    hide Exec, TimerOk;
  }

  lemma DemandOf(tasks: seq<Task>, now: nat, t: nat)
    requires PeriodsOk(tasks) && PeriodsSmall(tasks) && t > 0
    requires forall i :: 0 <= i < |tasks| ==> TimerOk(tasks[i], now) && now - tasks[i].regTime <= t
    requires UtilSum(tasks) < (693 + |tasks|) as real / 1000.0
    ensures Released(tasks) as real < Share(t, (693 + |tasks|) as real / 1000.0)
  {
    hide TimerOk, UtilSum, Released, Share;
    ReleasedShares(tasks, now, t);
    ShareGrows(t, UtilSum(tasks), (693 + |tasks|) as real / 1000.0);
  }

  /** Work released by n >= 1 tasks, all registered within the last t > 0
      milliseconds, is less than t * (693 + n) / 1000, however tasks yield. */
  lemma DemandBound(acts: seq<Action>, t: nat)
    requires Positive(acts) && t > 0 && Exec(acts).tasks != []
    requires forall i :: 0 <= i < |Exec(acts).tasks| ==> Exec(acts).now - Exec(acts).tasks[i].regTime <= t
    ensures Released(Exec(acts).tasks) as real < Share(t, (693 + |Exec(acts).tasks|) as real / 1000.0)
  {
    hide Exec, Inv, TimerOk, UtilSum, Released, Share;
    PositivePeriods(acts);
    TimersOk(acts);
    UtilisationBound(acts);
    DemandOf(Exec(acts).tasks, Exec(acts).now, t);
  }

  /** In every run, a task's k-th release comes no earlier than k periods after its registration. */
  lemma ReleasesSpaced(acts: seq<Action>, i: nat)
    requires RunOk(acts)
    requires i < |Exec(acts).tasks|
    ensures var t := Exec(acts).tasks[i]; t.regTime + t.releaseCount * Jiffies(t.period) <= Exec(acts).now
  {
    assert TimerOk(Exec(acts).tasks[i], Exec(acts).now);
  }

  /** In every run at most one registered task is SCHED_FIFO and not blocked, and it is the current one. */
  lemma OneRealtimeTask(acts: seq<Action>, i: nat, j: nat)
    requires RunOk(acts)
    requires i < |Exec(acts).tasks| && j < |Exec(acts).tasks|
    ensures var s := Exec(acts);
            s.tasks[i].pid in s.fifo && s.tasks[i].pid !in s.blocked ==>
              s.curr == Some(s.tasks[i].pid) && s.tasks[i].state == Running
              && (s.tasks[j].pid in s.fifo && s.tasks[j].pid !in s.blocked ==> i == j)
  {
    var s := Exec(acts);
    assert Inv(s);
    hide Exec, TimerOk;
    IndexIs(s.tasks, i);
    IndexIs(s.tasks, j);
  }

  /* ---- operations against one another ---- */

  /** Removing a task just registered restores the state. */
  lemma DeregisterUndoesRegister(s: State, pid: int, period: nat, comp: nat)
    requires Inv(s) && PeriodsOk(s.tasks) && RegisterStep(s, pid, period, comp) != s
    ensures DeregisterStep(RegisterStep(s, pid, period, comp), pid) == s
  {
    hide TimerOk, Usum, Permille, IndexOf;
    var s' := RegisterStep(s, pid, period, comp);
    RegisterInv(s, pid, period, comp);
    assert pid !in s.fifo && s.curr != Some(pid);
    IndexIs(s'.tasks, |s.tasks|);
    hide Inv;
    assert s'.tasks[..|s.tasks|] + s'.tasks[|s.tasks| + 1..] == s.tasks;
  }

  /** When a task that yields now is next due. */
  function NextDue(t: Task): nat { t.nextWake + Jiffies(t.period) }

  /** That is one more whole period after registration than it has yielded; a period
      that was given as a positive number is that many milliseconds. */
  lemma NextDueIs(t: Task, now: nat)
    requires TimerOk(t, now)
    ensures NextDue(t) == t.regTime + (t.yieldCount + 1) * Jiffies(t.period)
    ensures t.period < 0x8000_0000 ==> NextDue(t) == t.regTime + (t.yieldCount + 1) * t.period
  {
    assert t.period < 0x8000_0000 ==> Jiffies(t.period) == t.period;
    hide Jiffies;
    var y, j := t.yieldCount, Jiffies(t.period);
    assert (y + 1) * j == y * j + j;
  }

  /** A yield puts the task to sleep, arms its timer one period after its last wake-up time, and blocks it. */
  lemma YieldSleeps(s: State, pid: int, i: nat)
    requires IndexOf(s.tasks, pid) == Some(i) && pid !in s.blocked
    ensures var y := YieldStep(s, pid, pid);
            && |y.tasks| == |s.tasks| && y.tasks[i].state == Sleeping && pid in y.blocked && y.curr != Some(pid)
            && IndexOf(y.tasks, pid) == Some(i) && y.now == s.now
            && y.tasks[i].timer == Some(NextDue(s.tasks[i]))
  {
    hide Jiffies, IndexOf;
    SameIndex(s.tasks, YieldStep(s, pid, pid).tasks, pid);
  }

  /** A timer has an effect exactly when it is due, and then makes its task READY. */
  lemma TimerWakes(s: State, pid: int, i: nat, wake: nat)
    requires IndexOf(s.tasks, pid) == Some(i) && s.tasks[i].timer == Some(wake)
    ensures TimerStep(s, pid) != s <==> wake <= s.now
    ensures TimerStep(s, pid) != s ==>
      var w := TimerStep(s, pid);
      |w.tasks| == |s.tasks| && w.tasks[i].state == Ready && w.blocked == s.blocked && w.tasks[i].pid == pid
  {
    var w := TimerStep(s, pid);
    if wake <= s.now { assert w.tasks[i].timer.None?; }
  }

  /** A dispatch that a task wins makes it current, SCHED_FIFO and awake. */
  lemma WinnerRuns(s: State, i: nat)
    requires Inv(s) && IsWinner(s.tasks, i)
    ensures var d := DispatchStep(s);
            d.curr == Some(s.tasks[i].pid) && s.tasks[i].pid in d.fifo && s.tasks[i].pid !in d.blocked
  {
    DispatchIsMemoryless(s);
    DispatchInv(s);
    hide Inv, DispatchStep, IsWinner;
    WinnersInRange(s.tasks);
    RunningIsRealtime(DispatchStep(s), i);
  }

  /** A job's cycle: a yield puts the task to sleep and blocks it until exactly one
      more period after its last wake-up time; then its timer makes it READY, and
      once it wins a dispatch it runs, SCHED_FIFO and awake. */
  lemma JobCycle(s: State, pid: int, i: nat, later: nat)
    requires Inv(s) && IndexOf(s.tasks, pid) == Some(i) && pid !in s.blocked && s.now <= later
    ensures var y, t := YieldStep(s, pid, pid).(now := later), s.tasks[i];
            var woken := TimerStep(y, pid);
            && |y.tasks| == |s.tasks| && y.tasks[i].state == Sleeping && pid in y.blocked && y.curr != Some(pid)
            && (woken != y <==> NextDue(t) <= later)
            && (woken != y ==> |woken.tasks| == |s.tasks| && woken.tasks[i].state == Ready && pid in woken.blocked)
            && (woken != y && IsWinner(woken.tasks, i) ==>
                  var d := DispatchStep(woken); d.curr == Some(pid) && pid in d.fifo && pid !in d.blocked)
  {
    hide Inv, YieldStep, TimerStep, DispatchStep, IsWinner, NextDue, IndexOf;
    YieldSleeps(s, pid, i);
    YieldInv(s, pid, pid);
    LaterInv(YieldStep(s, pid, pid), later);
    var y, t := YieldStep(s, pid, pid).(now := later), s.tasks[i];
    TimerInv(y, pid);
    TimerWakes(y, pid, i, NextDue(t));
    if IsWinner(TimerStep(y, pid).tasks, i) { WinnerRuns(TimerStep(y, pid), i); }
  }

  lemma LaterInv(s: State, later: nat)
    requires Inv(s) && s.now <= later
    ensures Inv(s.(now := later))
  {
    forall i | 0 <= i < |s.tasks| ensures TimerOk(s.tasks[i], later) { assert TimerOk(s.tasks[i], s.now); }
  }

  lemma RunningIsRealtime(s: State, i: nat)
    requires Inv(s) && i < |s.tasks| && s.tasks[i].state == Running
    ensures s.tasks[i].pid in s.fifo && s.tasks[i].pid !in s.blocked
  {
    hide TimerOk;
  }
}
