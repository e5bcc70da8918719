/** From the kernel's counters to the monitor's output: the profiler's samples
    followed through the buffer, over every run of the module with its monitor. */
module Delivery {
  import opened FaultCounts
  import opened Ring

  /** The kernel and module on one side, the buffer with its past on the other; sample
      n of the buffer is sys.written[n]. */
  datatype World = World(sys: System, hist: History)

  const LOADED := World(BOOT, FRESH)

  datatype WorldEvent = Kernel(act: FaultCounts.Action) | Monitor

  function WorldStep(w: World, e: WorldEvent): World {
    match e
    case Kernel(act) =>
      var sys := FaultCounts.Step(w.sys, act);
      World(sys, if |sys.written| > |w.sys.written| then WriteHistory(w.hist) else w.hist)
    case Monitor => w.(hist := DrainHistory(w.hist))
  }

  function RunWorld(events: seq<WorldEvent>): World {
    if events == [] then LOADED else WorldStep(RunWorld(events[..|events| - 1]), events[|events| - 1])
  }

  /** Words of the samples with these numbers, added up. */
  function WordSum(numbers: seq<nat>, written: seq<Sample>, m: Metric): nat
    requires forall i :: 0 <= i < |numbers| ==> numbers[i] < |written|
  {
    if numbers == [] then 0
    else WordSum(numbers[..|numbers| - 1], written, m) + Word(written[numbers[|numbers| - 1]], m)
  }

  lemma {:induction false} WordSumAdds(a: seq<nat>, b: seq<nat>, written: seq<Sample>, m: Metric)
    requires forall i :: 0 <= i < |a| ==> a[i] < |written|
    requires forall i :: 0 <= i < |b| ==> b[i] < |written|
    ensures forall i :: 0 <= i < |a + b| ==> (a + b)[i] < |written|
    ensures WordSum(a + b, written, m) == WordSum(a, written, m) + WordSum(b, written, m)
    decreases |b|
  {
    if b == [] {
      assert a + b == a;
    } else {
      WordSumAdds(a, b[..|b| - 1], written, m);
      assert (a + b)[..|a + b| - 1] == a + b[..|b| - 1];
    }
  }

  /** Each of the numbers below k occurs once, and no other. */
  ghost predicate CountsTo(numbers: seq<nat>, k: nat) {
    forall n: nat :: multiset(numbers)[n] == if n < k then 1 else 0
  }

  lemma CountsInRange(numbers: seq<nat>, k: nat)
    requires CountsTo(numbers, k)
    ensures forall i :: 0 <= i < |numbers| ==> numbers[i] < k
  {
    forall i | 0 <= i < |numbers| ensures numbers[i] < k { assert multiset(numbers)[numbers[i]] > 0; }
  }

  /** One number taken out of a list takes its word with it. */
  lemma TakenOut(numbers: seq<nat>, i: nat, written: seq<Sample>, m: Metric)
    requires i < |numbers| && forall j :: 0 <= j < |numbers| ==> numbers[j] < |written|
    ensures var rest := numbers[..i] + numbers[i + 1..];
            && (forall j :: 0 <= j < |rest| ==> rest[j] < |written|)
            && WordSum(numbers, written, m) == WordSum(rest, written, m) + Word(written[numbers[i]], m)
  {
    var a, b, one := numbers[..i], numbers[i + 1..], numbers[i..i + 1];
    assert WordSum(one, written, m) == Word(written[numbers[i]], m) by { assert one[..0] == []; }
    hide WordSum;
    WordSumAdds(a, one, written, m);
    WordSumAdds(a + one, b, written, m);
    WordSumAdds(a, b, written, m);
    assert numbers == a + one + b;
  }

  lemma WrittenNext(written: seq<Sample>, k: nat, m: Metric)
    requires 0 < k <= |written|
    ensures WrittenSum(written[..k], m) == WrittenSum(written[..k - 1], m) + Word(written[k - 1], m)
  {
    assert written[..k][..k - 1] == written[..k - 1];
  }

  lemma CountsFind(numbers: seq<nat>, k: nat) returns (i: nat)
    requires CountsTo(numbers, k) && k > 0
    ensures i < |numbers| && numbers[i] == k - 1
  {
    var last: nat := k - 1;
    assert multiset(numbers)[last] == 1;
    assert last in numbers;
    i :| i < |numbers| && numbers[i] == last;
  }

  /** In whatever order the samples come, their words add up to the same. */
  lemma {:induction false} AnyOrder(numbers: seq<nat>, k: nat, written: seq<Sample>, m: Metric)
    requires CountsTo(numbers, k) && k <= |written|
    ensures forall i :: 0 <= i < |numbers| ==> numbers[i] < |written|
    ensures WordSum(numbers, written, m) == WrittenSum(written[..k], m)
    decreases k
  {
    hide CountsTo;
    CountsInRange(numbers, k);
    if k == 0 {
      assert numbers == [];
    } else {
      hide WordSum, WrittenSum;
      var i := CountsFind(numbers, k);
      Without(numbers, i, k);
      AnyOrder(numbers[..i] + numbers[i + 1..], k - 1, written, m);
      TakenOut(numbers, i, written, m);
      WrittenNext(written, k, m);
    }
  }

  lemma Without(numbers: seq<nat>, i: nat, k: nat)
    requires CountsTo(numbers, k) && i < |numbers| && k > 0 && numbers[i] == k - 1
    ensures CountsTo(numbers[..i] + numbers[i + 1..], k - 1)
  {
    var a: seq<nat>, b: seq<nat>, last: seq<nat> := numbers[..i], numbers[i + 1..], [k - 1];
    assert numbers == a + last + b;
    forall n: nat ensures multiset(a + b)[n] == if n < k - 1 then 1 else 0 {
      assert multiset(numbers)[n] == multiset(a)[n] + multiset(last)[n] + multiset(b)[n];
      assert multiset(a + b)[n] == multiset(a)[n] + multiset(b)[n];
    }
  }

  /** A sampling step writes at most one sample; no other step writes. */
  lemma WritesOne(s: System, a: FaultCounts.Action)
    ensures |s.written| <= |FaultCounts.Step(s, a).written| <= |s.written| + 1
  {
    hide Collect;
  }

  /** The buffer is in order, its samples are the ones written, and every count
      incurred is in a written sample or still held. */
  ghost predicate WorldOk(w: World, m: Metric) {
    HistoryOk(w.hist) && w.hist.count == |w.sys.written| && Multiple(Missing(w.sys, m))
  }

  lemma KernelKeeps(w: World, act: FaultCounts.Action, m: Metric)
    requires WorldOk(w, m)
    ensures WorldOk(WorldStep(w, Kernel(act)), m)
  {
    hide HistoryOk, Multiple, Missing, FaultCounts.Step, WriteHistory;
    WritesOne(w.sys, act);
    WriteKeeps(w.hist);
    WriteCounts(w.hist);
    StepConserves(w.sys, act, m);
    MultipleAdds(Missing(w.sys, m), Missing(FaultCounts.Step(w.sys, act), m) - Missing(w.sys, m));
  }

  lemma MonitorKeeps(w: World, m: Metric)
    requires WorldOk(w, m)
    ensures WorldOk(WorldStep(w, Monitor), m)
  {
    hide HistoryOk, Multiple, Missing, DrainHistory;
    DrainKeeps(w.hist);
    DrainCounts(w.hist);
  }

  lemma StartOk(m: Metric)
    ensures WorldOk(LOADED, m)
  {
    hide HistoryOk, Multiple;
    EveryRunOk([]);
    BootConserves(m);
  }

  lemma {:induction false} EveryWorldOk(events: seq<WorldEvent>, m: Metric)
    ensures WorldOk(RunWorld(events), m)
    decreases |events|
  {
    hide WorldOk, WorldStep;
    if events == [] {
      StartOk(m);
    } else {
      var w, e := RunWorld(events[..|events| - 1]), events[|events| - 1];
      EveryWorldOk(events[..|events| - 1], m);
      match e
      case Kernel(act) => KernelKeeps(w, act, m);
      case Monitor => MonitorKeeps(w, m);
    }
  }

  lemma DrainCounts(h: History)
    ensures DrainHistory(h).count == h.count
  {}

  /** Where all the samples of a history are. */
  function Everywhere(h: History): seq<nat> { h.printed + h.lost + h.ring.lower + h.ring.upper }

  lemma EverywhereCounts(h: History)
    requires HistoryOk(h)
    ensures CountsTo(Everywhere(h), h.count)
  {
    forall n: nat ensures multiset(Everywhere(h))[n] == if n < h.count then 1 else 0 {
      assert Places(h, n) == if n < h.count then 1 else 0;
      assert multiset(Everywhere(h))[n] == Places(h, n);
    }
  }

  lemma InRangeParts(h: History, k: nat)
    requires forall i :: 0 <= i < |Everywhere(h)| ==> Everywhere(h)[i] < k
    ensures forall i :: 0 <= i < |h.printed| ==> h.printed[i] < k
    ensures forall i :: 0 <= i < |h.lost| ==> h.lost[i] < k
    ensures forall i :: 0 <= i < |h.ring.lower| ==> h.ring.lower[i] < k
    ensures forall i :: 0 <= i < |h.ring.upper| ==> h.ring.upper[i] < k
  {
    var all := Everywhere(h);
    var p, l, a := |h.printed|, |h.lost|, |h.ring.lower|;
    forall i | 0 <= i < |h.printed| ensures h.printed[i] < k { assert all[i] < k; }
    forall i | 0 <= i < |h.lost| ensures h.lost[i] < k { assert all[p + i] < k; }
    forall i | 0 <= i < |h.ring.lower| ensures h.ring.lower[i] < k { assert all[p + l + i] < k; }
    forall i | 0 <= i < |h.ring.upper| ensures h.ring.upper[i] < k { assert all[p + l + a + i] < k; }
  }

  /** The parts of a history add up to what was written. */
  lemma PartsAddUp(h: History, written: seq<Sample>, m: Metric)
    requires HistoryOk(h) && h.count == |written|
    ensures Parts(h, |written|)
    ensures WrittenSum(written, m) ==
            WordSum(h.printed, written, m) + WordSum(h.lost, written, m)
            + WordSum(h.ring.lower, written, m) + WordSum(h.ring.upper, written, m)
  {
    EverywhereCounts(h);
    hide HistoryOk, CountsTo, WordSum;
    AnyOrder(Everywhere(h), h.count, written, m);
    assert written[..h.count] == written;
    InRangeParts(h, |written|);
    WordSumAdds(h.printed, h.lost, written, m);
    WordSumAdds(h.printed + h.lost, h.ring.lower, written, m);
    WordSumAdds(h.printed + h.lost + h.ring.lower, h.ring.upper, written, m);
  }

  /** Every number in the history is that of a sample. */
  ghost predicate Parts(h: History, k: nat) {
    && (forall i :: 0 <= i < |h.printed| ==> h.printed[i] < k)
    && (forall i :: 0 <= i < |h.lost| ==> h.lost[i] < k)
    && (forall i :: 0 <= i < |h.ring.lower| ==> h.ring.lower[i] < k)
    && (forall i :: 0 <= i < |h.ring.upper| ==> h.ring.upper[i] < k)
  }

  /** Over every run of processes, module and monitor: each fault and each tick of CPU
      time incurred has been printed, overwritten unread, waits in the buffer, or is
      still held by a process, up to 64-bit wrap-around. */
  lemma Delivered(events: seq<WorldEvent>, m: Metric)
    ensures var w := RunWorld(events);
            var written := w.sys.written;
            && Parts(w.hist, |written|)
            && Multiple(w.sys.incurred(m)
                        - WordSum(w.hist.printed, written, m) - WordSum(w.hist.lost, written, m)
                        - WordSum(w.hist.ring.lower, written, m) - WordSum(w.hist.ring.upper, written, m)
                        - HeldSum(w.sys.procs, m))
  {
    EveryWorldOk(events, m);
    hide RunWorld, HistoryOk, Multiple, WordSum, HeldSum, WrittenSum;
    PartsAddUp(RunWorld(events).hist, RunWorld(events).sys.written, m);
  }

  /* ---- what the monitor prints ---- */

  /** The steps of a run that are not the monitor's. */
  function KernelActs(events: seq<WorldEvent>): seq<FaultCounts.Action> {
    if events == [] then []
    else
      var init, e := events[..|events| - 1], events[|events| - 1];
      KernelActs(init) + if e.Kernel? then [e.act] else []
  }

  lemma {:induction false} KernelRun(events: seq<WorldEvent>)
    ensures RunWorld(events).sys == Run(KernelActs(events))
    decreases |events|
  {
    if events != [] {
      var init, e := events[..|events| - 1], events[|events| - 1];
      hide FaultCounts.Step;
      KernelRun(init);
      if e.Kernel? {
        var acts := KernelActs(init) + [e.act];
        assert acts[..|acts| - 1] == KernelActs(init);
      } else {
        assert KernelActs(init) + [] == KernelActs(init);
      }
    }
  }

  /** Every number printed is that of a sampling step which found a process, and the sample
      printed for it has that step's time and the counters read there. */
  lemma PrintedSamples(events: seq<WorldEvent>, n: nat)
    requires n in RunWorld(events).hist.printed
    ensures var acts, written := KernelActs(events), RunWorld(events).sys.written;
            n < |written| == |SampleSteps(acts)| && SampleAt(acts, written, n)
  {
    EveryWorldOk(events, Minor);
    KernelRun(events);
    SamplesAre(KernelActs(events));
    hide RunWorld, HistoryOk, Multiple, WordSum, HeldSum, WrittenSum, SampleAt;
    var h := RunWorld(events).hist;
    PartsAddUp(h, RunWorld(events).sys.written, Minor);
    var i :| 0 <= i < |h.printed| && h.printed[i] == n;
  }
}
