/** What each scheduler operation does to its own task, and that it does nothing to
    the others; and what it takes to wake a task that has yielded. */
module Isolation {
  import opened Options
  import opened Scheduler
  import opened RateMonotonic

  /* ---- the other tasks ---- */

  /** The tasks of other processes, in list order. */
  function Others(tasks: seq<Task>, pid: int): seq<Task> {
    if tasks == [] then []
    else Others(tasks[..|tasks| - 1], pid) + if tasks[|tasks| - 1].pid == pid then [] else [tasks[|tasks| - 1]]
  }

  lemma {:induction false} OthersUpdate(tasks: seq<Task>, i: nat, t: Task)
    requires i < |tasks| && t.pid == tasks[i].pid
    ensures Others(tasks[i := t], t.pid) == Others(tasks, t.pid)
    decreases |tasks|
  {
    var init, last := tasks[..|tasks| - 1], |tasks| - 1;
    if i == last {
      assert tasks[i := t][..last] == init;
    } else {
      OthersUpdate(init, i, t);
      assert tasks[i := t][..last] == init[i := t];
    }
  }

  lemma {:induction false} OthersRemove(tasks: seq<Task>, i: nat)
    requires i < |tasks|
    ensures Others(tasks[..i] + tasks[i + 1..], tasks[i].pid) == Others(tasks, tasks[i].pid)
    decreases |tasks|
  {
    var init, last, r := tasks[..|tasks| - 1], |tasks| - 1, tasks[..i] + tasks[i + 1..];
    if i == last {
      assert r == init;
    } else {
      OthersRemove(init, i);
      assert r[..|r| - 1] == init[..i] + init[i + 1..] && r[|r| - 1] == tasks[last];
    }
  }

  lemma {:induction false} OthersAll(tasks: seq<Task>, pid: int)
    requires forall i :: 0 <= i < |tasks| ==> tasks[i].pid != pid
    ensures Others(tasks, pid) == tasks
    decreases |tasks|
  {
    if tasks != [] {
      OthersAll(tasks[..|tasks| - 1], pid);
      assert tasks == tasks[..|tasks| - 1] + [tasks[|tasks| - 1]];
    }
  }

  lemma OthersAppend(tasks: seq<Task>, t: Task)
    ensures Others(tasks + [t], t.pid) == Others(tasks, t.pid)
  {
    assert (tasks + [t])[..|tasks|] == tasks;
  }

  /** The state as processes other than pid see it is the same. */
  ghost predicate SameForOthers(s: State, s': State, pid: int) {
    && Others(s'.tasks, pid) == Others(s.tasks, pid) && s'.now == s.now
    && s'.fifo - {pid} == s.fifo - {pid} && s'.blocked - {pid} == s.blocked - {pid}
    && (s.curr != Some(pid) ==> s'.curr == s.curr)
  }

  /** Registering, removing, yielding and a timer concern one process only. */
  lemma OthersUntouched(s: State, a: Action)
    requires PeriodsOk(s.tasks) && ActionOk(a) && (a.Register? || a.Deregister? || a.Yield? || a.TimerFires?)
    ensures SameForOthers(s, Step(s, a), a.pid)
  {
    hide Others, IndexOf, Usum, Permille, Jiffies;
    var s', i := Step(s, a), IndexOf(s.tasks, a.pid);
    if a.Register? {
      if s' != s { OthersAppend(s.tasks, s'.tasks[|s.tasks|]); }
    } else if i.Some? {
      if a.Deregister? {
        OthersRemove(s.tasks, i.value);
      } else if s' != s {
        OthersUpdate(s.tasks, i.value, s'.tasks[i.value]);
      }
    }
  }

  /* ---- the task itself ---- */

  /** An admitted task stands last, SLEEPING, with the times given and no release behind or ahead of it. */
  lemma RegisterEffect(s: State, pid: int, period: nat, comp: nat)
    requires PeriodsOk(s.tasks) && RegisterStep(s, pid, period, comp) != s
    ensures var s' := RegisterStep(s, pid, period, comp);
            && |s'.tasks| == |s.tasks| + 1 && s'.tasks[..|s.tasks|] == s.tasks
            && s'.curr == s.curr && s'.fifo == s.fifo && s'.blocked == s.blocked
            && var t := s'.tasks[|s.tasks|];
               && t.pid == pid && t.period == period && t.comp == comp && t.state == Sleeping && t.timer.None?
               && t.regTime == t.nextWake == s.now && t.yieldCount == t.releaseCount == 0
  {
    hide IndexOf, Usum, Permille;
  }

  /** What is left after a removal are exactly the other tasks, in order. */
  lemma DeregisterEffect(s: State, pid: int)
    requires Inv(s)
    ensures var s' := DeregisterStep(s, pid);
            && s'.tasks == Others(s.tasks, pid) && (s' == s <==> IndexOf(s.tasks, pid).None?)
            && pid !in s'.fifo && s'.blocked == s.blocked && s'.curr != Some(pid)
  {
    hide TimerOk, Others;
    var s', i := DeregisterStep(s, pid), IndexOf(s.tasks, pid);
    hide IndexOf;
    if i.Some? {
      OthersRemove(s.tasks, i.value);
      OthersAll(s'.tasks, pid);
    } else {
      OthersAll(s.tasks, pid);
    }
  }

  /** A yield acts exactly when an awake process yields for itself and is registered. Its
      task then sleeps with its timer one period further on; its times, its place in the
      list, its policy and its releases stay. */
  lemma YieldEffect(s: State, caller: int, pid: int)
    ensures YieldStep(s, caller, pid) != s <==>
            pid == caller && caller !in s.blocked && IndexOf(s.tasks, pid).Some?
    ensures YieldStep(s, caller, pid) != s ==>
            var s', i := YieldStep(s, caller, pid), IndexOf(s.tasks, pid).value;
            && |s'.tasks| == |s.tasks| && s'.fifo == s.fifo && s'.blocked == s.blocked + {pid} && s'.curr != Some(pid)
            && var t, t' := s.tasks[i], s'.tasks[i];
               && t'.pid == pid && t'.period == t.period && t'.comp == t.comp && t'.state == Sleeping
               && t'.timer == Some(NextDue(t)) && t'.nextWake == NextDue(t)
               && t'.regTime == t.regTime && t'.yieldCount == t.yieldCount + 1 && t'.releaseCount == t.releaseCount
  {
    hide IndexOf, Jiffies;
    var s' := YieldStep(s, caller, pid);
    if pid == caller && caller !in s.blocked && IndexOf(s.tasks, pid).Some? {
      assert pid in s'.blocked;
    }
  }

  /** A timer acts exactly when it is armed and due. Its task is then READY with no timer
      and one more release; nobody is woken, and the current task stays. */
  lemma TimerEffect(s: State, pid: int)
    ensures TimerStep(s, pid) != s <==>
            IndexOf(s.tasks, pid).Some?
            && var t := s.tasks[IndexOf(s.tasks, pid).value]; t.timer.Some? && t.timer.value <= s.now
    ensures TimerStep(s, pid) != s ==>
            var s', i := TimerStep(s, pid), IndexOf(s.tasks, pid).value;
            && |s'.tasks| == |s.tasks| && s'.fifo == s.fifo && s'.blocked == s.blocked && s'.curr == s.curr
            && var t, t' := s.tasks[i], s'.tasks[i];
               && t'.pid == pid && t'.period == t.period && t'.comp == t.comp && t'.state == Ready
               && t'.timer.None? && t'.nextWake == t.nextWake
               && t'.regTime == t.regTime && t'.yieldCount == t.yieldCount && t'.releaseCount == t.releaseCount + 1
  {
    hide IndexOf;
    var s', i := TimerStep(s, pid), IndexOf(s.tasks, pid);
    if i.Some? && s.tasks[i.value].timer.Some? && s.tasks[i.value].timer.value <= s.now {
      assert s'.tasks[i.value].timer.None?;
    }
  }

  /* ---- dispatching, as the kernel sees it ---- */

  /** The processes whose RUNNING task is not the winner. */
  ghost function Preempted(tasks: seq<Task>, winner: nat): set<int> {
    set j | 0 <= j < |tasks| && j != winner && tasks[j].state == Running :: tasks[j].pid
  }

  /** A dispatch wakes the winner alone and makes it SCHED_FIFO, takes SCHED_FIFO from the
      preempted task alone, and lets no time pass. Without a winner it does nothing. */
  lemma DispatchFrame(s: State)
    requires Inv(s)
    ensures var s' := DispatchStep(s);
            && s'.now == s.now
            && (forall w: nat :: IsWinner(s.tasks, w) ==>
                  s'.blocked == s.blocked - {s.tasks[w].pid}
                  && s'.fifo == s.fifo + {s.tasks[w].pid} - Preempted(s.tasks, w))
            && ((forall w: nat :: !IsWinner(s.tasks, w)) ==> s' == s)
  {
    hide TimerOk, IsWinner, IndexOf, BestReady;
    ChoiceWins(s);
    forall w: nat ensures IsWinner(s.tasks, w) <==> Choice(s) == Some(w) { WinnerIffChosen(s, w); }
    OneRunningAll(s);
    if s.curr.Some? { CurrentIsRunning(s); }
    if Choice(s).Some? {
      FrameOfChoice(s, Choice(s).value);
    } else {
      hide Inv;
      assert BestReady(s.tasks, |s.tasks|).None?;
    }
  }

  lemma FrameOfChoice(s: State, w: nat)
    requires Inv(s) && Choice(s) == Some(w) && w < |s.tasks|
    requires forall i: nat, j: nat ::
      i < |s.tasks| && j < |s.tasks| && s.tasks[i].state == Running && s.tasks[j].state == Running ==> i == j
    ensures DispatchStep(s).now == s.now && DispatchStep(s).blocked == s.blocked - {s.tasks[w].pid}
    ensures DispatchStep(s).fifo == s.fifo + {s.tasks[w].pid} - Preempted(s.tasks, w)
  {
    hide TimerOk, IndexOf, BestReady;
    var P := Preempted(s.tasks, w);
    if s.curr.None? {
      assert forall j :: 0 <= j < |s.tasks| ==> s.tasks[j].state != Running;
      assert P == {};
    } else {
      CurrentIsRunning(s);
      var c := IndexOf(s.tasks, s.curr.value).value;
      assert s.tasks[c].pid in s.fifo && s.tasks[c].pid !in s.blocked;
      if c == w {
        assert P == {};
      } else {
        assert s.tasks[c].pid in P;
        assert P == {s.tasks[c].pid};
      }
    }
  }

  /* ---- waking up ---- */

  lemma ExecNext(acts: seq<Action>, k: nat)
    requires RunOk(acts) && k < |acts|
    ensures Exec(acts[..k + 1]) == Step(Exec(acts[..k]), acts[k])
  {
    hide Step, Inv;
    assert acts[..k + 1][..k] == acts[..k];
  }

  /** pid is blocked, its task if it has one is SLEEPING, and its timer if armed is set for `due`. */
  ghost predicate Dormant(s: State, pid: int, due: nat) {
    pid in s.blocked
    && forall i :: 0 <= i < |s.tasks| && s.tasks[i].pid == pid ==>
         s.tasks[i].state == Sleeping && (s.tasks[i].timer.Some? ==> s.tasks[i].timer == Some(due))
  }

  /** Step j of the run is pid's timer, at `due` or later, and it has an effect. */
  ghost predicate FiresAt(acts: seq<Action>, j: nat, pid: int, due: nat)
    requires RunOk(acts) && j < |acts|
  {
    acts[j] == TimerFires(pid) && Step(Exec(acts[..j]), acts[j]) != Exec(acts[..j]) && due <= Exec(acts[..j]).now
  }

  /** Step k of the run is a dispatch that pid's task wins. */
  ghost predicate WinsAt(acts: seq<Action>, k: nat, pid: int)
    requires RunOk(acts) && k < |acts|
  {
    acts[k] == Dispatch
    && exists w: nat :: IsWinner(Exec(acts[..k]).tasks, w) && Exec(acts[..k]).tasks[w].pid == pid
  }

  /** Only its own timer, once due, ends a task's sleep. */
  lemma DormantStep(s: State, a: Action, pid: int, due: nat)
    requires Inv(s) && PeriodsOk(s.tasks) && ActionOk(a) && Dormant(s, pid, due)
    ensures Dormant(Step(s, a), pid, due) || (a == TimerFires(pid) && Step(s, a) != s && due <= s.now)
  {
    hide TimerOk, IndexOf, Usum, Permille, Jiffies, BestReady;
    if a.Dispatch? {
      DormantDispatch(s, pid, due);
    } else {
      hide Inv, DispatchStep;
    }
  }

  lemma DormantDispatch(s: State, pid: int, due: nat)
    requires Inv(s) && Dormant(s, pid, due)
    ensures Dormant(DispatchStep(s), pid, due)
  {
    DispatchFrame(s);
    DispatchIsMemoryless(s);
    hide Inv, DispatchStep;
    var s' := DispatchStep(s);
    forall i: nat | i < |s.tasks| && s.tasks[i].pid == pid ensures s'.tasks[i] == s.tasks[i] {
      assert s'.tasks[i] == Dispatched(s.tasks, i);
    }
    forall i: nat | i < |s.tasks| ensures s'.tasks[i].pid == s.tasks[i].pid {
      assert s'.tasks[i] == Dispatched(s.tasks, i);
    }
    if w: nat :| IsWinner(s.tasks, w) {
      assert s.tasks[w].pid != pid;
    }
  }

  /** After a run of further steps the process is still dormant, or step j fired its timer. */
  lemma {:induction false} DormantUntilFired(acts: seq<Action>, m: nat, n: nat, pid: int, due: nat) returns (j: nat)
    requires RunOk(acts) && m <= n <= |acts| && Dormant(Exec(acts[..m]), pid, due)
    ensures Dormant(Exec(acts[..n]), pid, due) || (m <= j < n && FiresAt(acts, j, pid, due))
    decreases n
  {
    hide Dormant, FiresAt, Exec, RunOk;
    j := m;
    if m < n {
      PrefixOk(acts, n - 1);
      PrefixOk(acts, n);
      j := DormantUntilFired(acts, m, n - 1, pid, due);
      if Dormant(Exec(acts[..n - 1]), pid, due) {
        DormantNext(acts, n - 1, pid, due);
        j := n - 1;
      }
    }
  }

  lemma PrefixOk(acts: seq<Action>, n: nat)
    requires RunOk(acts) && n <= |acts|
    ensures RunOk(acts[..n])
  {}

  lemma DormantNext(acts: seq<Action>, k: nat, pid: int, due: nat)
    requires RunOk(acts) && k < |acts| && Dormant(Exec(acts[..k]), pid, due)
    ensures Dormant(Exec(acts[..k + 1]), pid, due) || FiresAt(acts, k, pid, due)
  {
    hide Dormant, Step, Inv, Exec;
    ExecNext(acts, k);
    DormantStep(Exec(acts[..k]), acts[k], pid, due);
  }

  /** Only winning a dispatch unblocks a process. */
  lemma BlockedStep(s: State, a: Action, pid: int)
    requires Inv(s) && PeriodsOk(s.tasks) && ActionOk(a) && pid in s.blocked && pid !in Step(s, a).blocked
    ensures a == Dispatch && exists w: nat :: IsWinner(s.tasks, w) && s.tasks[w].pid == pid
  {
    hide IndexOf, Usum, Permille, Jiffies, BestReady, TimerOk;
    assert a == Dispatch by { hide DispatchStep, Inv; }
    DispatchFrame(s);
    hide DispatchStep, Inv, IsWinner;
  }

  lemma {:induction false} BlockedUntilWins(acts: seq<Action>, m: nat, n: nat, pid: int) returns (k: nat)
    requires RunOk(acts) && m <= n <= |acts|
    requires pid in Exec(acts[..m]).blocked && pid !in Exec(acts[..n]).blocked
    ensures m <= k < n && WinsAt(acts, k, pid)
    decreases n
  {
    hide Step, Inv;
    assert m < n;
    ExecNext(acts, n - 1);
    if pid in Exec(acts[..n - 1]).blocked {
      BlockedStep(Exec(acts[..n - 1]), acts[n - 1], pid);
      k := n - 1;
    } else {
      k := BlockedUntilWins(acts, m, n - 1, pid);
    }
  }

  lemma WinnerNotDormant(acts: seq<Action>, k: nat, pid: int, due: nat)
    requires RunOk(acts) && k < |acts| && WinsAt(acts, k, pid)
    ensures !Dormant(Exec(acts[..k]), pid, due)
  {
    hide Exec;
    var w: nat :| IsWinner(Exec(acts[..k]).tasks, w) && Exec(acts[..k]).tasks[w].pid == pid;
    WinnerEligible(Exec(acts[..k]).tasks, w);
  }

  lemma YieldIsDormant(s: State, pid: int)
    requires Inv(s) && pid !in s.blocked && IndexOf(s.tasks, pid).Some?
    ensures Dormant(YieldStep(s, pid, pid), pid, NextDue(s.tasks[IndexOf(s.tasks, pid).value]))
  {
    var i := IndexOf(s.tasks, pid).value;
    hide TimerOk, Jiffies;
    forall j: nat | j < |s.tasks| && s.tasks[j].pid == pid ensures j == i { IndexIs(s.tasks, j); }
    hide IndexOf;
  }

  /** In every run, a process that has yielded is awake again only after its own timer has
      fired, no earlier than its next due time, and its task has then won a dispatch. */
  lemma AsleepUntilDue(acts: seq<Action>, m: nat, n: nat, pid: int) returns (j: nat, k: nat)
    requires RunOk(acts) && m < n <= |acts| && acts[m] == Yield(pid, pid)
    requires pid !in Exec(acts[..m]).blocked && IndexOf(Exec(acts[..m]).tasks, pid).Some?
    requires pid !in Exec(acts[..n]).blocked
    ensures m < j < k < n && WinsAt(acts, k, pid)
    ensures var t := Exec(acts[..m]).tasks[IndexOf(Exec(acts[..m]).tasks, pid).value];
            FiresAt(acts, j, pid, NextDue(t))
  {
    hide Inv, YieldStep, Dormant, WinsAt, IndexOf, FiresAt;
    var s := Exec(acts[..m]);
    var due := NextDue(s.tasks[IndexOf(s.tasks, pid).value]);
    YieldIsDormant(s, pid);
    ExecNext(acts, m);
    DormantBlocked(Exec(acts[..m + 1]), pid, due);
    k := BlockedUntilWins(acts, m + 1, n, pid);
    WinnerNotDormant(acts, k, pid, due);
    j := DormantUntilFired(acts, m + 1, k, pid, due);
  }

  lemma DormantBlocked(s: State, pid: int, due: nat)
    requires Dormant(s, pid, due)
    ensures pid in s.blocked
  {}
}
