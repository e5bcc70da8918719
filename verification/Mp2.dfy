/** The scheduler module (mp2.c) as it runs: a task list and a current task that
    every operation updates in place. Each operation is proved to take the
    corresponding step of the state machine. */
module Mp2 {
  import opened Arith
  import opened Options
  import opened Scheduler

  class SchedulerModule {
    var tasks: seq<Task>
    var currtask: Option<int>
    var jiffies: nat
    /** Kernel state: scheduling policy and blocking of processes. */
    ghost var fifo: set<int>
    ghost var blocked: set<int>

    ghost function St(): State
      reads this
    {
      State(tasks, currtask, jiffies, fifo, blocked)
    }

    constructor ()
      ensures St() == INITIAL && Inv(St())
    {
      tasks := [];
      currtask := None;
      jiffies := 0;
      fifo := {};
      blocked := {};
    }

    /** promote_task: SCHED_FIFO, and awake. */
    ghost method PromoteTask(pid: int)
      modifies this`fifo, this`blocked
      ensures fifo == old(fifo) + {pid} && blocked == old(blocked) - {pid}
    {
      fifo := fifo + {pid};
      blocked := blocked - {pid};
    }

    /** demote_task: SCHED_NORMAL. */
    ghost method DemoteTask(pid: int)
      modifies this`fifo
      ensures fifo == old(fifo) - {pid}
    {
      fifo := fifo - {pid};
    }

    method SetState(i: nat, st: RmsState)
      requires i < |tasks|
      modifies this`tasks
      ensures tasks == old(tasks)[i := old(tasks)[i].(state := st)]
    {
      tasks := tasks[i := tasks[i].(state := st)];
    }

    /** The dispatcher's scan: the first READY task of least period. */
    method NextTask() returns (nexttask: Option<nat>)
      ensures nexttask == BestReady(tasks, |tasks|)
    {
      nexttask := None;
      var i := 0;
      while i < |tasks|
        invariant 0 <= i <= |tasks|
        invariant nexttask == BestReady(tasks, i)
      {
        if tasks[i].state == Ready && (nexttask.None? || tasks[i].period < tasks[nexttask.value].period) {
          nexttask := Some(i);
        }
        i := i + 1;
      }
    }

    /** Pick the READY task of least period; start it when nothing runs, or
        preempt the running task when its period is longer. */
    method Dispatcher()
      requires Inv(St())
      modifies this
      ensures St() == DispatchStep(old(St())) && Inv(St())
    {
      DispatchInv(St());
      hide Inv, IndexOf, BestReady;
      var nexttask := NextTask();
      var cur := if currtask.None? then None else IndexOf(tasks, currtask.value);
      if cur.None? || tasks[cur.value].state == Sleeping {
        if nexttask.None? { return; }
        currtask := Some(tasks[nexttask.value].pid);
        SetState(nexttask.value, Running);
        PromoteTask(currtask.value);
      } else if tasks[cur.value].state == Running {
        if nexttask.None? { return; }
        if tasks[cur.value].period > tasks[nexttask.value].period {
          var demoted := tasks[cur.value].pid;
          SetState(cur.value, Ready);
          currtask := Some(tasks[nexttask.value].pid);
          SetState(nexttask.value, Running);
          PromoteTask(currtask.value);
          DemoteTask(demoted);
        }
      }
    }

    /** Timer callback of task pid, once its timer is due. */
    method TimerCb(pid: int)
      requires Inv(St())
      requires IndexOf(tasks, pid).Some? && tasks[IndexOf(tasks, pid).value].timer.Some?
      requires tasks[IndexOf(tasks, pid).value].timer.value <= jiffies
      modifies this`tasks
      ensures St() == TimerStep(old(St()), pid) && Inv(St())
    {
      TimerInv(St(), pid);
      hide Inv;
      var i := IndexOf(tasks, pid).value;
      tasks := tasks[i := tasks[i].(state := Ready, timer := None, releaseCount := tasks[i].releaseCount + 1)];
    }

    /** taskregister: refuse zero times and known pids, then add up the per-mille utilisations. */
    method TaskRegister(pid: int, period: nat, comp: nat) returns (ok: bool)
      requires Inv(St()) && PeriodsOk(tasks)
      modifies this`tasks
      ensures St() == RegisterStep(old(St()), pid, period, comp) && Inv(St())
      ensures ok <==> St() != old(St())
      ensures ok <==> period != 0 && comp != 0 && IndexOf(old(tasks), pid).None?
                      && Usum(Permille(comp, period), old(tasks)) <= 693
    {
      RegisterInv(St(), pid, period, comp);
      hide Inv;
      if period == 0 || comp == 0 { return false; }
      var usum := comp * 1000 % TWO64 / period;
      var i := 0;
      while i < |tasks|
        invariant 0 <= i <= |tasks| && tasks == old(tasks) && St() == old(St())
        invariant usum == Usum(Permille(comp, period), tasks[..i])
        invariant forall j :: 0 <= j < i ==> tasks[j].pid != pid
      {
        assert tasks[..i + 1][..i] == tasks[..i];
        usum := (usum + tasks[i].comp * 1000 % TWO64 / tasks[i].period) % TWO64;
        if tasks[i].pid == pid {
          assert IndexOf(tasks, pid).Some?;
          return false;
        }
        i := i + 1;
      }
      assert tasks[..i] == tasks;
      if usum > 693 { return false; }
      tasks := tasks + [Task(pid, period, comp, Sleeping, jiffies, None, jiffies, 0, 0)];
      return true;
    }

    method Find(pid: int) returns (r: Option<nat>)
      ensures r == IndexOf(tasks, pid)
    {
      var i := 0;
      while i < |tasks|
        invariant 0 <= i <= |tasks|
        invariant forall j :: 0 <= j < i ==> tasks[j].pid != pid
        invariant IndexOf(tasks, pid) == match IndexOf(tasks[i..], pid) case None => None case Some(k) => Some(k + i)
      {
        if tasks[i].pid == pid { return Some(i); }
        assert tasks[i..][1..] == tasks[i + 1..];
        i := i + 1;
      }
      return None;
    }

    /** deregister: unlink the task, demote it, drop its timer. */
    method Deregister(pid: int) returns (ok: bool)
      requires Inv(St())
      modifies this
      ensures St() == DeregisterStep(old(St()), pid) && Inv(St())
      ensures ok <==> IndexOf(old(tasks), pid).Some?
    {
      DeregisterInv(St(), pid);
      hide Inv;
      var target := Find(pid);
      if target.None? { return false; }
      tasks := tasks[..target.value] + tasks[target.value + 1..];
      if currtask == Some(pid) { currtask := None; }
      DemoteTask(pid);
      return true;
    }

    /** taskyield called by the running process `caller`: sleep until the next period, and block. */
    method TaskYield(caller: int, pid: int) returns (ok: bool)
      requires Inv(St()) && caller !in blocked
      modifies this
      ensures St() == YieldStep(old(St()), caller, pid) && Inv(St())
      ensures ok <==> pid == caller && IndexOf(old(tasks), pid).Some?
    {
      YieldInv(St(), caller, pid);
      hide Inv;
      if pid != caller { return false; }
      var target := Find(pid);
      if target.None? { return false; }
      var t := tasks[target.value];
      var wake := t.nextWake + Jiffies(t.period);
      tasks := tasks[target.value := t.(state := Sleeping, nextWake := wake, timer := Some(wake),
                                        yieldCount := t.yieldCount + 1)];
      if currtask == Some(pid) { currtask := None; }
      blocked := blocked + {pid};
      return true;
    }
  }
}
