/** Where the profiler's numbers come from: counters kept per process by the
    kernel, read and reset by each sampling step (mp3.c, mp3_given.h). */
module FaultCounts {
  import opened Arith
  import opened Options

  /** A process's counters since the last reset. */
  datatype Counters = Counters(minflt: nat, majflt: nat, utime: nat, stime: nat)

  const ZERO := Counters(0, 0, 0, 0)

  /** A process the kernel has known; its counters outlive it. */
  datatype Proc = Proc(pid: int, alive: bool, cnt: Counters)

  /** One sample: jiffies, minor faults, major faults, CPU time. */
  datatype Sample = Sample(time: nat, minflt: nat, majflt: nat, cpu: nat)

  /** The three quantities being profiled. */
  datatype Metric = Minor | Major | Cpu

  /** What a process can incur, and which quantity it belongs to. */
  datatype Cause = MinorFault | MajorFault | UserTick | SystemTick

  function Feeds(c: Cause): Metric {
    match c case MinorFault => Minor case MajorFault => Major case UserTick => Cpu case SystemTick => Cpu
  }

  function Held(c: Counters, m: Metric): nat {
    match m case Minor => c.minflt case Major => c.majflt case Cpu => c.utime + c.stime
  }

  function Word(x: Sample, m: Metric): nat {
    match m case Minor => x.minflt case Major => x.majflt case Cpu => x.cpu
  }

  /** find_task_by_pid: the live process with this pid. */
  function FindProc(procs: seq<Proc>, pid: int): (r: Option<nat>)
    ensures r.Some? ==> r.value < |procs| && procs[r.value].alive && procs[r.value].pid == pid
    ensures r.None? ==> forall i :: 0 <= i < |procs| ==> !(procs[i].alive && procs[i].pid == pid)
  {
    if procs == [] then None
    else if procs[0].alive && procs[0].pid == pid then Some(0)
    else match FindProc(procs[1..], pid) case None => None case Some(i) => Some(i + 1)
  }

  /* ---- one sampling pass ---- */

  /** The pass over the first registered pids: processes with their counters reset,
      the pids kept, whether any was found, and the exact totals read. */
  datatype Pass = Pass(procs: seq<Proc>, kept: seq<int>, found: bool, totals: Metric -> nat)

  function Collect(procs: seq<Proc>, reg: seq<int>): (r: Pass)
    ensures |r.procs| == |procs|
  {
    if reg == [] then Pass(procs, [], false, _ => 0)
    else
      var r := Collect(procs, reg[..|reg| - 1]);
      var pid := reg[|reg| - 1];
      match FindProc(r.procs, pid)
      case None => r
      case Some(i) =>
        Pass(r.procs[i := r.procs[i].(cnt := ZERO)], r.kept + [pid], true,
             m => r.totals(m) + Held(r.procs[i].cnt, m))
  }

  /** One more pid in the pass. */
  lemma CollectNext(procs: seq<Proc>, pids: seq<int>, i: nat)
    requires i < |pids|
    ensures var r, q := Collect(procs, pids[..i]), Collect(procs, pids[..i + 1]);
            var k := FindProc(r.procs, pids[i]);
            if k.None? then q == r
            else
              && q.procs == r.procs[k.value := r.procs[k.value].(cnt := ZERO)]
              && q.kept == r.kept + [pids[i]] && q.found
                 && forall m :: q.totals(m) == r.totals(m) + Held(r.procs[k.value].cnt, m)
  {
    assert pids[..i + 1][..i] == pids[..i];
  }

  /** Adding in 64-bit arithmetic. */
  lemma AddWraps(a: nat, b: nat)
    ensures (a % TWO64 + b) % TWO64 == (a + b) % TWO64
  {}

  /** The running 64-bit sums of a pass. */
  ghost predicate Sums(r: Pass, minfault: nat, majfault: nat, cpu: nat) {
    minfault == r.totals(Minor) % TWO64 && majfault == r.totals(Major) % TWO64 && cpu == r.totals(Cpu) % TWO64
  }

  lemma SumsNext(r: Pass, q: Pass, c: Counters, minfault: nat, majfault: nat, cpu: nat)
    requires Sums(r, minfault, majfault, cpu) && forall m :: q.totals(m) == r.totals(m) + Held(c, m)
    ensures Sums(q, (minfault + c.minflt) % TWO64, (majfault + c.majflt) % TWO64, (cpu + (c.utime + c.stime)) % TWO64)
  {
    AddWraps(r.totals(Minor), c.minflt);
    AddWraps(r.totals(Major), c.majflt);
    AddWraps(r.totals(Cpu), c.utime + c.stime);
  }

  lemma SumsStart(procs: seq<Proc>)
    ensures Sums(Collect(procs, []), 0, 0, 0)
    ensures Collect(procs, []).procs == procs && Collect(procs, []).kept == [] && !Collect(procs, []).found
  {}

  function HeldSum(procs: seq<Proc>, m: Metric): nat {
    if procs == [] then 0 else HeldSum(procs[..|procs| - 1], m) + Held(procs[|procs| - 1].cnt, m)
  }

  lemma {:induction false} HeldUpdate(procs: seq<Proc>, i: nat, p: Proc, m: Metric)
    requires i < |procs|
    ensures HeldSum(procs[i := p], m) + Held(procs[i].cnt, m) == HeldSum(procs, m) + Held(p.cnt, m)
    decreases |procs|
  {
    var init := procs[..|procs| - 1];
    if i == |procs| - 1 {
      assert procs[i := p][..|procs| - 1] == init;
    } else {
      HeldUpdate(init, i, p, m);
      assert procs[i := p][..|procs| - 1] == init[i := p];
    }
  }

  /** What a pass reads is exactly what it takes away. */
  lemma {:induction false} CollectTakes(procs: seq<Proc>, reg: seq<int>, m: Metric)
    ensures Collect(procs, reg).totals(m) + HeldSum(Collect(procs, reg).procs, m) == HeldSum(procs, m)
    decreases |reg|
  {
    if reg != [] {
      CollectTakes(procs, reg[..|reg| - 1], m);
      var r := Collect(procs, reg[..|reg| - 1]);
      var i := FindProc(r.procs, reg[|reg| - 1]);
      if i.Some? { HeldUpdate(r.procs, i.value, r.procs[i.value].(cnt := ZERO), m); }
    }
  }

  lemma {:induction false} CollectKeepsProcs(procs: seq<Proc>, reg: seq<int>, j: nat)
    requires j < |procs|
    ensures Collect(procs, reg).procs[j].pid == procs[j].pid && Collect(procs, reg).procs[j].alive == procs[j].alive
    decreases |reg|
  {
    if reg != [] { CollectKeepsProcs(procs, reg[..|reg| - 1], j); }
  }

  lemma {:induction false} FindSame(a: seq<Proc>, b: seq<Proc>, pid: int)
    requires |a| == |b| && forall j :: 0 <= j < |a| ==> a[j].pid == b[j].pid && a[j].alive == b[j].alive
    ensures FindProc(a, pid) == FindProc(b, pid)
    decreases |a|
  {
    if a != [] { FindSame(a[1..], b[1..], pid); }
  }

  /** The registered pids that are alive, in order. */
  function Living(procs: seq<Proc>, reg: seq<int>): seq<int> {
    if reg == [] then []
    else Living(procs, reg[..|reg| - 1]) + if FindProc(procs, reg[|reg| - 1]).Some? then [reg[|reg| - 1]] else []
  }

  /** A pass drops exactly the pids without a live process, and writes a sample exactly when one is left. */
  lemma {:induction false} CollectKeepsLiving(procs: seq<Proc>, reg: seq<int>)
    ensures Collect(procs, reg).kept == Living(procs, reg)
    ensures Collect(procs, reg).found <==> Living(procs, reg) != []
    decreases |reg|
  {
    if reg != [] {
      var init := reg[..|reg| - 1];
      CollectKeepsLiving(procs, init);
      var r := Collect(procs, init);
      forall j: nat | j < |procs| ensures r.procs[j].pid == procs[j].pid && r.procs[j].alive == procs[j].alive {
        CollectKeepsProcs(procs, init, j);
      }
      FindSame(procs, r.procs, reg[|reg| - 1]);
    }
  }

  /* ---- what a pass reads, process by process ---- */

  /** Process i is the one that a registered pid finds. */
  predicate Reads(procs: seq<Proc>, reg: seq<int>, i: nat) {
    i < |procs| && procs[i].pid in reg && FindProc(procs, procs[i].pid) == Some(i)
  }

  /** A pass resets the counters of exactly those processes. */
  lemma {:induction false} CollectResets(procs: seq<Proc>, reg: seq<int>, i: nat)
    requires i < |procs|
    ensures Collect(procs, reg).procs[i] == if Reads(procs, reg, i) then procs[i].(cnt := ZERO) else procs[i]
    decreases |reg|
  {
    if reg != [] {
      hide FindProc;
      var init, pid := reg[..|reg| - 1], reg[|reg| - 1];
      CollectResets(procs, init, i);
      forall j: nat | j < |procs|
        ensures Collect(procs, init).procs[j].pid == procs[j].pid
        ensures Collect(procs, init).procs[j].alive == procs[j].alive
      {
        CollectKeepsProcs(procs, init, j);
      }
      FindSame(procs, Collect(procs, init).procs, pid);
      assert procs[i].pid in reg <==> procs[i].pid in init || procs[i].pid == pid;
    }
  }

  /** The counters of the first n processes, of those that are read. */
  function ReadSum(procs: seq<Proc>, reg: seq<int>, m: Metric, n: nat): nat
    requires n <= |procs|
  {
    if n == 0 then 0
    else ReadSum(procs, reg, m, n - 1) + if Reads(procs, reg, n - 1) then Held(procs[n - 1].cnt, m) else 0
  }

  lemma {:induction false} ResetTakes(procs: seq<Proc>, procs': seq<Proc>, reg: seq<int>, m: Metric, n: nat)
    requires n <= |procs| == |procs'|
    requires forall i: nat :: i < n ==> procs'[i] == if Reads(procs, reg, i) then procs[i].(cnt := ZERO) else procs[i]
    ensures HeldSum(procs[..n], m) == HeldSum(procs'[..n], m) + ReadSum(procs, reg, m, n)
    decreases n
  {
    if n > 0 {
      hide Reads;
      ResetTakes(procs, procs', reg, m, n - 1);
      assert procs[..n][..n - 1] == procs[..n - 1] && procs'[..n][..n - 1] == procs'[..n - 1];
    }
  }

  /** The totals of a pass are the counters, before it, of the live registered processes. */
  lemma CollectReads(procs: seq<Proc>, reg: seq<int>, m: Metric)
    ensures Collect(procs, reg).totals(m) == ReadSum(procs, reg, m, |procs|)
  {
    hide Collect, Reads, ReadSum, HeldSum;
    var procs' := Collect(procs, reg).procs;
    forall i: nat | i < |procs|
      ensures procs'[i] == if Reads(procs, reg, i) then procs[i].(cnt := ZERO) else procs[i]
    {
      CollectResets(procs, reg, i);
    }
    ResetTakes(procs, procs', reg, m, |procs|);
    CollectTakes(procs, reg, m);
    assert procs[..|procs|] == procs && procs'[..|procs|] == procs';
  }

  /** x is the sample of a pass at this time: the time, and the counters read in 64-bit arithmetic. */
  ghost predicate SampleOf(x: Sample, time: nat, procs: seq<Proc>, reg: seq<int>) {
    x.time == time && forall m :: Word(x, m) == ReadSum(procs, reg, m, |procs|) % TWO64
  }

  lemma MadeSampleOf(time: nat, procs: seq<Proc>, reg: seq<int>)
    ensures SampleOf(MakeSample(time, Collect(procs, reg).totals), time, procs, reg)
  {
    hide Collect, ReadSum;
    forall m: Metric ensures Collect(procs, reg).totals(m) == ReadSum(procs, reg, m, |procs|) {
      CollectReads(procs, reg, m);
    }
  }

  /** Nothing found means nothing read. */
  lemma {:induction false} NothingFound(procs: seq<Proc>, reg: seq<int>)
    ensures !Collect(procs, reg).found ==> Collect(procs, reg).procs == procs
    decreases |reg|
  {
    if reg != [] { NothingFound(procs, reg[..|reg| - 1]); }
  }

  /* ---- whole runs ---- */

  /** Registered pids, processes, samples written, and what was ever incurred. */
  datatype System = System(reg: seq<int>, procs: seq<Proc>, written: seq<Sample>, incurred: Metric -> nat)

  const BOOT := System([], [], [], _ => 0)

  datatype Action =
    | Spawn(pid: int)
    | Exit(pid: int)
    | Incur(pid: int, cause: Cause)
    | Register(pid: int)
    | Unregister(pid: int)
    | TakeSample(time: nat)

  /** One more, in 64-bit arithmetic. */
  function Inc(x: nat): nat { (x + 1) % TWO64 }

  function Bump(c: Counters, cause: Cause): Counters {
    match cause
    case MinorFault => c.(minflt := Inc(c.minflt))
    case MajorFault => c.(majflt := Inc(c.majflt))
    case UserTick => c.(utime := Inc(c.utime))
    case SystemTick => c.(stime := Inc(c.stime))
  }

  /** The words of a sample are the totals in 64-bit arithmetic. */
  function MakeSample(time: nat, totals: Metric -> nat): Sample {
    Sample(time, totals(Minor) % TWO64, totals(Major) % TWO64, totals(Cpu) % TWO64)
  }

  function RegisterPid(reg: seq<int>, pid: int): seq<int> {
    if pid <= 0 || pid in reg then reg else reg + [pid]
  }

  function UnregisterPid(reg: seq<int>, pid: int): seq<int> {
    if reg == [] then []
    else if reg[0] == pid then reg[1..]
    else [reg[0]] + UnregisterPid(reg[1..], pid)
  }

  /** Registering keeps the list and its order, and puts a new positive pid at its end. */
  lemma RegisterAppends(reg: seq<int>, pid: int, q: int)
    ensures reg <= RegisterPid(reg, pid)
    ensures q in RegisterPid(reg, pid) <==> q in reg || (q == pid && pid > 0)
    ensures pid in reg ==> RegisterPid(reg, pid) == reg
    ensures Distinct(reg) ==> Distinct(RegisterPid(reg, pid))
  {}

  predicate Distinct(reg: seq<int>) {
    forall i, j :: 0 <= i < j < |reg| ==> reg[i] != reg[j]
  }

  lemma {:induction false} UnregisterAt(reg: seq<int>, pid: int, i: nat)
    requires i < |reg| && reg[i] == pid && forall j :: 0 <= j < i ==> reg[j] != pid
    ensures UnregisterPid(reg, pid) == reg[..i] + reg[i + 1..]
    decreases i
  {
    if i > 0 {
      var rest := reg[1..];
      UnregisterAt(rest, pid, i - 1);
      assert reg[..i] == [reg[0]] + rest[..i - 1] && reg[i + 1..] == rest[i..];
    }
  }

  lemma {:induction false} UnregisterAbsent(reg: seq<int>, pid: int)
    requires forall j :: 0 <= j < |reg| ==> reg[j] != pid
    ensures UnregisterPid(reg, pid) == reg
    decreases |reg|
  {
    if reg != [] {
      UnregisterAbsent(reg[1..], pid);
      assert reg == [reg[0]] + reg[1..];
    }
  }

  /** The first place of the pid; the length of the list when there is none. */
  lemma {:induction false} FirstPlace(reg: seq<int>, pid: int, from: nat) returns (i: nat)
    requires from <= |reg| && forall j :: 0 <= j < from ==> reg[j] != pid
    ensures i <= |reg| && (i < |reg| ==> reg[i] == pid) && forall j :: 0 <= j < i ==> reg[j] != pid
    decreases |reg| - from
  {
    i := from;
    if from < |reg| && reg[from] != pid { i := FirstPlace(reg, pid, from + 1); }
  }

  /** Unregistering takes out the first entry of the pid and leaves the rest in order. */
  lemma UnregisterTakesFirst(reg: seq<int>, pid: int) returns (i: nat)
    ensures pid !in reg ==> UnregisterPid(reg, pid) == reg
    ensures pid in reg ==> i < |reg| && reg[i] == pid && pid !in reg[..i]
                           && UnregisterPid(reg, pid) == reg[..i] + reg[i + 1..]
  {
    hide UnregisterPid;
    i := FirstPlace(reg, pid, 0);
    if i < |reg| { UnregisterAt(reg, pid, i); } else { UnregisterAbsent(reg, pid); }
  }

  /** Unregistering a pid just registered restores the list. */
  lemma {:induction false} UnregisterUndoesRegister(reg: seq<int>, pid: int)
    requires pid > 0 && pid !in reg
    ensures UnregisterPid(RegisterPid(reg, pid), pid) == reg
    decreases |reg|
  {
    if reg != [] {
      UnregisterUndoesRegister(reg[1..], pid);
      assert (reg + [pid])[1..] == reg[1..] + [pid];
    }
  }

  function Step(s: System, a: Action): System {
    match a
    case Spawn(pid) => if FindProc(s.procs, pid).Some? then s else s.(procs := s.procs + [Proc(pid, true, ZERO)])
    case Exit(pid) =>
      (match FindProc(s.procs, pid)
       case None => s
       case Some(i) => s.(procs := s.procs[i := s.procs[i].(alive := false)]))
    case Incur(pid, cause) =>
      (match FindProc(s.procs, pid)
       case None => s
       case Some(i) => s.(procs := s.procs[i := s.procs[i].(cnt := Bump(s.procs[i].cnt, cause))],
                          incurred := m => s.incurred(m) + if m == Feeds(cause) then 1 else 0))
    case Register(pid) => s.(reg := RegisterPid(s.reg, pid))
    case Unregister(pid) => s.(reg := UnregisterPid(s.reg, pid))
    case TakeSample(time) =>
      var r := Collect(s.procs, s.reg);
      s.(reg := r.kept, procs := r.procs,
         written := if r.found then s.written + [MakeSample(time, r.totals)] else s.written)
  }

  function WrittenSum(written: seq<Sample>, m: Metric): nat {
    if written == [] then 0 else WrittenSum(written[..|written| - 1], m) + Word(written[|written| - 1], m)
  }

  /** Incurred so far, less what was written and what is still held. */
  function Missing(s: System, m: Metric): int {
    s.incurred(m) - WrittenSum(s.written, m) - HeldSum(s.procs, m)
  }

  predicate Multiple(x: int) { x % TWO64 == 0 }

  lemma MultipleAdds(x: int, y: int)
    requires Multiple(x) && Multiple(y)
    ensures Multiple(x + y)
  {}

  lemma WrapIsMultiple(x: nat)
    ensures Multiple(x - x % TWO64)
  {}

  lemma BumpHeld(c: Counters, cause: Cause, m: Metric)
    ensures Multiple(Held(Bump(c, cause), m) - Held(c, m) - if m == Feeds(cause) then 1 else 0)
  {
    hide Multiple, Inc;
    ZeroIsMultiple();
    OneMore(c.minflt);
    OneMore(c.majflt);
    OneMore(c.utime);
    OneMore(c.stime);
  }

  lemma OneMore(x: nat)
    ensures Multiple(Inc(x) - x - 1)
  {
    WrapIsMultiple(x + 1);
    MultipleNegates(x + 1 - (x + 1) % TWO64);
  }

  lemma MultipleNegates(x: int)
    requires Multiple(x)
    ensures Multiple(-x)
  {}

  lemma SpawnConserves(s: System, pid: int, m: Metric)
    ensures Missing(Step(s, Spawn(pid)), m) == Missing(s, m)
  {
    hide FindProc;
    assert (s.procs + [Proc(pid, true, ZERO)])[..|s.procs|] == s.procs;
  }

  lemma ExitConserves(s: System, pid: int, m: Metric)
    ensures Missing(Step(s, Exit(pid)), m) == Missing(s, m)
  {
    hide FindProc, HeldSum;
    var i := FindProc(s.procs, pid);
    if i.Some? { HeldUpdate(s.procs, i.value, s.procs[i.value].(alive := false), m); }
  }

  lemma IncurConserves(s: System, pid: int, k: Cause, m: Metric)
    ensures Multiple(Missing(Step(s, Incur(pid, k)), m) - Missing(s, m))
  {
    ZeroIsMultiple();
    hide Multiple, FindProc, HeldSum, Held, Bump;
    var i := FindProc(s.procs, pid);
    if i.Some? {
      var p := s.procs[i.value];
      HeldUpdate(s.procs, i.value, p.(cnt := Bump(p.cnt, k)), m);
      BumpHeld(p.cnt, k, m);
      MultipleNegates(Held(Bump(p.cnt, k), m) - Held(p.cnt, m) - if m == Feeds(k) then 1 else 0);
    }
  }

  /** No step loses or invents a count, up to 64-bit wrap-around. */
  lemma StepConserves(s: System, a: Action, m: Metric)
    ensures Multiple(Missing(Step(s, a), m) - Missing(s, m))
  {
    hide Multiple, Step, Missing;
    ZeroIsMultiple();
    match a
    case Spawn(pid) => SpawnConserves(s, pid, m);
    case Exit(pid) => ExitConserves(s, pid, m);
    case Incur(pid, k) => IncurConserves(s, pid, k, m);
    case Register(pid) => ListConserves(s, a, m);
    case Unregister(pid) => ListConserves(s, a, m);
    case TakeSample(time) => SampleConserves(s, time, m);
  }

  lemma ListConserves(s: System, a: Action, m: Metric)
    requires a.Register? || a.Unregister?
    ensures Missing(Step(s, a), m) == Missing(s, m)
  {
    hide WrittenSum, HeldSum, RegisterPid, UnregisterPid;
  }

  lemma ZeroIsMultiple()
    ensures Multiple(0)
  {}

  lemma SampleConserves(s: System, time: nat, m: Metric)
    ensures Multiple(Missing(Step(s, TakeSample(time)), m) - Missing(s, m))
  {
    var r, s' := Collect(s.procs, s.reg), Step(s, TakeSample(time));
    CollectTakes(s.procs, s.reg, m);
    NothingFound(s.procs, s.reg);
    hide Multiple, Collect;
    if r.found {
      var x := MakeSample(time, r.totals);
      assert (s.written + [x])[..|s.written|] == s.written;
      assert Word(x, m) == r.totals(m) % TWO64;
      WrapIsMultiple(r.totals(m));
    } else {
      ZeroIsMultiple();
    }
  }

  function Run(acts: seq<Action>): System {
    if acts == [] then BOOT else Step(Run(acts[..|acts| - 1]), acts[|acts| - 1])
  }

  lemma BootConserves(m: Metric)
    ensures Multiple(Missing(BOOT, m))
  {
    assert WrittenSum([], m) == 0 && HeldSum([], m) == 0;
    assert BOOT.incurred(m) == 0;
  }

  /** Over every run, everything incurred is either in a written sample or still
      held by a process, alive or dead, up to 64-bit wrap-around. */
  lemma {:induction false} CountsConserved(acts: seq<Action>, m: Metric)
    ensures Multiple(Missing(Run(acts), m))
    decreases |acts|
  {
    hide Multiple, Missing, Step;
    if acts == [] {
      BootConserves(m);
    } else {
      var s, a := Run(acts[..|acts| - 1]), acts[|acts| - 1];
      CountsConserved(acts[..|acts| - 1], m);
      StepConserves(s, a, m);
      MultipleAdds(Missing(s, m), Missing(Step(s, a), m) - Missing(s, m));
    }
  }

  /* ---- what the samples of a run are ---- */

  /** The sampling steps of a run that find a live registered process. */
  function SampleSteps(acts: seq<Action>): seq<nat> {
    if acts == [] then []
    else
      var init, a := acts[..|acts| - 1], acts[|acts| - 1];
      SampleSteps(init) + if a.TakeSample? && Living(Run(init).procs, Run(init).reg) != [] then [|init|] else []
  }

  /** Sample k of a run is the one of its k-th such step. */
  ghost predicate SampleAt(acts: seq<Action>, written: seq<Sample>, k: nat)
    requires k < |written| == |SampleSteps(acts)|
  {
    var n := SampleSteps(acts)[k];
    n < |acts| && acts[n].TakeSample?
    && SampleOf(written[k], acts[n].time, Run(acts[..n]).procs, Run(acts[..n]).reg)
  }

  /** In every run, the samples written are exactly those of the sampling steps that find
      a live registered process, in order: each has its step's time and, in 64-bit
      arithmetic, the counters those processes held just before it. */
  lemma {:induction false} SamplesAre(acts: seq<Action>)
    ensures |Run(acts).written| == |SampleSteps(acts)|
    ensures forall k: nat :: k < |SampleSteps(acts)| ==> SampleAt(acts, Run(acts).written, k)
    decreases |acts|
  {
    if acts != [] {
      var init, a := acts[..|acts| - 1], acts[|acts| - 1];
      SamplesAre(init);
      WrittenNext(Run(init), a);
      hide SampleOf, Step, Living;
      forall k: nat | k < |SampleSteps(acts)| ensures SampleAt(acts, Run(acts).written, k) {
        if k < |SampleSteps(init)| {
          SampleStays(acts, Run(init).written, Run(acts).written, k);
        } else {
          assert acts[..|init|] == init;
        }
      }
    }
  }

  /** A sampling step that finds a process writes its sample; no other step writes. */
  lemma WrittenNext(s: System, a: Action)
    ensures var written := Step(s, a).written;
            if a.TakeSample? && Living(s.procs, s.reg) != [] then
              |written| == |s.written| + 1 && s.written <= written
              && SampleOf(written[|s.written|], a.time, s.procs, s.reg)
            else written == s.written
  {
    hide SampleOf, Collect, FindProc, MakeSample;
    CollectKeepsLiving(s.procs, s.reg);
    if a.TakeSample? { MadeSampleOf(a.time, s.procs, s.reg); }
    hide Living;
  }

  lemma SampleStays(acts: seq<Action>, before: seq<Sample>, written: seq<Sample>, k: nat)
    requires acts != [] && before <= written && |written| == |SampleSteps(acts)|
    requires k < |before| == |SampleSteps(acts[..|acts| - 1])| && SampleAt(acts[..|acts| - 1], before, k)
    ensures SampleAt(acts, written, k)
  {
    hide SampleOf, Living, Run;
    var init := acts[..|acts| - 1];
    var n := SampleSteps(init)[k];
    assert SampleSteps(acts)[k] == n;
    assert init[..n] == acts[..n];
  }

  ghost predicate RegOk(reg: seq<int>) {
    Distinct(reg) && forall q :: q in reg ==> q > 0
  }

  lemma RemovedOk(reg: seq<int>, i: nat)
    requires RegOk(reg) && i < |reg|
    ensures RegOk(reg[..i] + reg[i + 1..])
  {
    var r := reg[..i] + reg[i + 1..];
    forall j | 0 <= j < |r| ensures r[j] == reg[if j < i then j else j + 1] && r[j] in reg {}
  }

  lemma RegOkStep(s: System, a: Action)
    requires RegOk(s.reg)
    ensures RegOk(Step(s, a).reg)
  {
    hide Collect, FindProc;
    match a
    case Register(pid) => RegisterAppends(s.reg, pid, pid);
    case Unregister(pid) =>
      hide UnregisterPid;
      var i := UnregisterTakesFirst(s.reg, pid);
      if pid in s.reg { RemovedOk(s.reg, i); }
    case TakeSample(_) =>
      hide Living;
      CollectKeepsLiving(s.procs, s.reg);
      LivingDistinct(s.procs, s.reg);
    case _ =>
  }

  /** In every run the registered pids are distinct and positive. */
  lemma {:induction false} RegisteredOnce(acts: seq<Action>)
    ensures RegOk(Run(acts).reg)
    decreases |acts|
  {
    if acts != [] {
      hide RegOk, Step;
      RegisteredOnce(acts[..|acts| - 1]);
      RegOkStep(Run(acts[..|acts| - 1]), acts[|acts| - 1]);
    }
  }

  lemma {:induction false} LivingDistinct(procs: seq<Proc>, reg: seq<int>)
    requires Distinct(reg)
    ensures Distinct(Living(procs, reg)) && forall q :: q in Living(procs, reg) ==> q in reg
    decreases |reg|
  {
    if reg != [] {
      hide FindProc;
      var init := reg[..|reg| - 1];
      LivingDistinct(procs, init);
      assert reg[|reg| - 1] !in init;
    }
  }
}
