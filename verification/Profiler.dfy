/** The profiler module and its monitor over the shared memory buffer (mp3.c, monitor.c). */
module Profiler {
  import opened Arith
  import opened Options
  import opened Ring
  import opened FaultCounts

  /** -1 as an unsigned word: an empty place. */
  const EMPTY: nat := TWO64 - 1
  /** 128 pages of 512 words; sampling uses the first 48000. */
  const WORDS: nat := 65536

  /* ---- the words of the buffer ---- */

  ghost predicate SlotHolds(buf: seq<nat>, j: nat, x: Option<Sample>)
    requires |buf| == WORDS && j < SLOTS
  {
    match x
    case None => buf[4 * j] == buf[4 * j + 1] == buf[4 * j + 2] == buf[4 * j + 3] == EMPTY
    case Some(s) =>
      && buf[4 * j] == s.time != EMPTY && buf[4 * j + 1] == s.minflt
      && buf[4 * j + 2] == s.majflt && buf[4 * j + 3] == s.cpu
  }

  /** Words past the last slot are always empty; the reader may look at the first of them. */
  ghost predicate TailEmpty(buf: seq<nat>)
    requires |buf| == WORDS
  {
    forall i :: 48000 <= i < WORDS ==> buf[i] == EMPTY
  }

  ghost predicate Holds(buf: seq<nat>, r: Ring<Sample>)
    requires |buf| == WORDS
  {
    TailEmpty(buf) && forall j: nat :: j < SLOTS ==> SlotHolds(buf, j, SlotAt(r, j))
  }

  /** Four words written from 4 * j on. */
  function PutSlot(buf: seq<nat>, j: nat, a: nat, b: nat, c: nat, d: nat): seq<nat>
    requires |buf| == WORDS && j < SLOTS
  {
    buf[4 * j := a][4 * j + 1 := b][4 * j + 2 := c][4 * j + 3 := d]
  }

  lemma PutOther(buf: seq<nat>, j: nat, a: nat, b: nat, c: nat, d: nat, k: nat, x: Option<Sample>)
    requires |buf| == WORDS && j < SLOTS && k < SLOTS && k != j
    ensures SlotHolds(PutSlot(buf, j, a, b, c, d), k, x) <==> SlotHolds(buf, k, x)
  {}

  lemma WriteHolds(buf: seq<nat>, r: Ring<Sample>, x: Sample)
    requires |buf| == WORDS && ValidRing(r) && Holds(buf, r) && x.time != EMPTY
    ensures Holds(PutSlot(buf, r.w, x.time, x.minflt, x.majflt, x.cpu), Write(r, x))
  {
    var buf' := PutSlot(buf, r.w, x.time, x.minflt, x.majflt, x.cpu);
    forall j: nat | j < SLOTS ensures SlotHolds(buf', j, SlotAt(Write(r, x), j)) {
      WriteSlots(r, x, j);
      if j != r.w { PutOther(buf, r.w, x.time, x.minflt, x.majflt, x.cpu, j, SlotAt(r, j)); }
    }
  }

  /* ---- sample numbers and samples ---- */

  ghost predicate InRange(ids: seq<nat>, n: nat) { forall i :: 0 <= i < |ids| ==> ids[i] < n }

  function Pick(ids: seq<nat>, written: seq<Sample>): (r: seq<Sample>)
    requires InRange(ids, |written|)
    ensures |r| == |ids| && forall i :: 0 <= i < |ids| ==> r[i] == written[ids[i]]
  {
    seq(|ids|, i requires 0 <= i < |ids| => written[ids[i]])
  }

  ghost predicate RingInRange(r: Ring<nat>, n: nat) { InRange(r.lower, n) && InRange(r.upper, n) }

  /** The ring of samples behind a ring of sample numbers. */
  function Samples(r: Ring<nat>, written: seq<Sample>): Ring<Sample>
    requires RingInRange(r, |written|)
  {
    Ring(r.w, Pick(r.lower, written), Pick(r.upper, written))
  }

  lemma WriteSamples(r: Ring<nat>, written: seq<Sample>, x: Sample)
    requires ValidRing(r) && RingInRange(r, |written|)
    ensures RingInRange(Write<nat>(r, |written|), |written| + 1)
    ensures Samples(Write<nat>(r, |written|), written + [x]) == Write(Samples(r, written), x)
  {
    assert Pick(r.lower, written) + [x] == Pick(r.lower + [|written|], written + [x]);
    assert Pick(r.upper, written) == Pick(r.upper, written + [x]);
    if r.upper != [] { assert Pick(r.upper, written)[1..] == Pick(r.upper[1..], written + [x]); }
  }

  lemma DrainSamples(r: Ring<nat>, written: seq<Sample>)
    requires RingInRange(r, |written|)
    ensures RingInRange(Drained(r), |written|) && InRange(Printed(r), |written|)
    ensures Samples(Drained(r), written) == Drained(Samples(r, written))
    ensures Pick(Printed(r), written) == Printed(Samples(r, written))
  {
    assert Pick(r.lower + r.upper, written) == Pick(r.lower, written) + Pick(r.upper, written);
    assert Pick([], written) == [];
  }

  /* ---- the reader's progress ---- */

  /** What slot j holds once the reader has emptied the first k slots of its run. */
  ghost function AfterRead(r: Ring<Sample>, k: nat, j: nat): Option<Sample> {
    if ReadStart(r) <= j < ReadStart(r) + k then None else SlotAt(r, j)
  }

  /** The buffer once the reader has emptied the first k slots of its run. */
  ghost predicate DrainedTo(buf: seq<nat>, r: Ring<Sample>, k: nat)
    requires |buf| == WORDS
  {
    TailEmpty(buf) && forall j: nat :: j < SLOTS ==> SlotHolds(buf, j, AfterRead(r, k, j))
  }

  /** Word index of the next slot to read, wrapping at 48000 once something was read. */
  function ReadIndex(r: Ring<Sample>, k: nat): int {
    if k > 0 && ReadStart(r) + k == SLOTS then 0 else 4 * (ReadStart(r) + k)
  }

  /** The reader's test tells whether its run goes on. */
  lemma ReadTest(buf: seq<nat>, r: Ring<Sample>, k: nat)
    requires |buf| == WORDS && ValidRing(r) && k <= |Printed(r)| && DrainedTo(buf, r, k)
    ensures 0 <= ReadIndex(r, k) <= 48000
    ensures buf[ReadIndex(r, k)] != EMPTY <==> k < |Printed(r)|
    ensures k < |Printed(r)| ==> ReadStart(r) + k < SLOTS && SlotHolds(buf, ReadStart(r) + k, Some(Printed(r)[k]))
  {
    hide Printed, ReadStart, SlotAt;
    DrainSlots(r, 0);
    var j := ReadStart(r) + k;
    if k < |Printed(r)| {
      DrainSlots(r, j);
      assert SlotHolds(buf, j, AfterRead(r, k, j));
    } else if j < SLOTS {
      DrainSlots(r, j);
      assert SlotHolds(buf, j, AfterRead(r, k, j));
    } else if k > 0 {
      DrainSlots(r, 0);
      assert SlotHolds(buf, 0, AfterRead(r, k, 0));
    } else {
      assert buf[48000] == EMPTY;
    }
  }

  lemma ReadNext(buf: seq<nat>, r: Ring<Sample>, k: nat)
    requires |buf| == WORDS && ValidRing(r) && k < |Printed(r)| && DrainedTo(buf, r, k) && ReadStart(r) >= 0
    requires ReadStart(r) + k < SLOTS
    ensures DrainedTo(PutSlot(buf, ReadStart(r) + k, EMPTY, EMPTY, EMPTY, EMPTY), r, k + 1)
  {
    hide Printed, ReadStart, SlotAt;
    var j := ReadStart(r) + k;
    var buf' := PutSlot(buf, j, EMPTY, EMPTY, EMPTY, EMPTY);
    var n := k + 1;
    forall i: nat | i < SLOTS ensures SlotHolds(buf', i, AfterRead(r, n, i)) {
      if i == j {
        assert SlotHolds(buf', j, None);
      } else {
        PutOther(buf, j, EMPTY, EMPTY, EMPTY, EMPTY, i, AfterRead(r, k, i));
      }
    }
  }

  lemma ReadDone(buf: seq<nat>, r: Ring<Sample>)
    requires |buf| == WORDS && ValidRing(r) && DrainedTo(buf, r, |Printed(r)|)
    ensures Holds(buf, Drained(r))
  {
    hide Printed, ReadStart, Drained, SlotAt, SlotHolds;
    forall j: nat | j < SLOTS ensures SlotHolds(buf, j, SlotAt(Drained(r), j)) {
      DrainSlots(r, j);
      assert SlotHolds(buf, j, AfterRead(r, |Printed(r)|, j));
    }
  }

  /** The scan stops at the first occupied slot. */
  lemma ScanStops(buf: seq<nat>, r: Ring<Sample>, index: nat)
    requires |buf| == WORDS && ValidRing(r) && Holds(buf, r) && index <= 4 * ReadStart(r)
    ensures 0 <= ReadStart(r) <= SLOTS
    ensures index < 48000 && buf[index] != EMPTY ==> index == 4 * ReadStart(r)
    ensures index == 4 * ReadStart(r) && index < 48000 ==> buf[index] != EMPTY
  {
    DrainSlots(r, 0);
    if index < 48000 {
      var j := index / 4;
      DrainSlots(r, j);
      assert SlotHolds(buf, j, SlotAt(r, j));
      assert index == 4 * j || index == 4 * j + 1 || index == 4 * j + 2 || index == 4 * j + 3;
    }
  }

  lemma FreshHolds(buf: seq<nat>)
    requires |buf| == WORDS && forall i :: 0 <= i < WORDS ==> buf[i] == EMPTY
    ensures Holds(buf, Ring(0, [], []))
  {}

  class ProfilerModule {
    var gbuffer: array<nat>
    var indx: nat
    /** Registered pids, in order. */
    var reg: seq<int>
    /** The kernel's processes. */
    var procs: seq<Proc>
    ghost var written: seq<Sample>
    ghost var history: History

    ghost predicate Valid()
      reads this, gbuffer
    {
      && gbuffer.Length == WORDS
      && HistoryOk(history) && history.count == |written| && RingInRange(history.ring, |written|)
      && indx == 4 * history.ring.w
      && Holds(gbuffer[..], Samples(history.ring, written))
    }

    /** allocatebuffer: every word is -1. */
    constructor ()
      ensures Valid() && fresh(gbuffer) && history == FRESH && written == [] && reg == [] && procs == []
    {
      gbuffer := new nat[WORDS](_ => EMPTY);
      indx := 0;
      reg, procs := [], [];
      written, history := [], FRESH;
      new;
      FreshHolds(gbuffer[..]);
      EveryRunOk([]);
      assert Samples(FRESH.ring, []) == Ring(0, [], []);
    }

    /** One word at the index, which then wraps at 48000. */
    method PutWord(word: nat)
      requires gbuffer.Length == WORDS && indx < 48000
      modifies gbuffer, this`indx
      ensures gbuffer[..] == old(gbuffer[..])[old(indx) := word] && indx == (old(indx) + 1) % 48000
    {
      gbuffer[indx] := word;
      indx := indx + 1;
      indx := indx % 48000;
    }

    method PutWords(x: Sample, ghost w: nat)
      requires gbuffer.Length == WORDS && w < SLOTS && indx == 4 * w
      modifies gbuffer, this`indx
      ensures gbuffer[..] == PutSlot(old(gbuffer[..]), w, x.time, x.minflt, x.majflt, x.cpu)
      ensures indx == 4 * ((w + 1) % SLOTS)
    {
      IndexWraps(w);
      PutWord(x.time);
      assert indx == 4 * w + 1;
      PutWord(x.minflt);
      assert indx == 4 * w + 2;
      PutWord(x.majflt);
      assert indx == 4 * w + 3;
      PutWord(x.cpu);
      assert indx == (4 * w + 4) % 48000;
    }

    /** Write one sample of four words. */
    method WriteSample(x: Sample)
      requires Valid() && x.time != EMPTY
      modifies gbuffer, this`indx, this`written, this`history
      ensures Valid() && history == WriteHistory(old(history)) && written == old(written) + [x]
    {
      hide Holds, HistoryOk, WriteHistory, PutSlot, Write, Samples, RingInRange;
      ghost var before, r := gbuffer[..], Samples(history.ring, written);
      RingFacts(history, written);
      WriteHolds(before, r, x);
      WriteSamples(history.ring, written, x);
      WriteKeeps(history);
      WriteView(history);
      PutWords(x, history.ring.w);
      written := written + [x];
      history := WriteHistory(history);
    }

    /** get_cpu_use: read a live process's counters and reset them. */
    method GetCpuUse(pid: int) returns (found: bool, c: Counters)
      modifies this`procs
      ensures found <==> FindProc(old(procs), pid).Some?
      ensures found ==> c == old(procs)[FindProc(old(procs), pid).value].cnt
      ensures found ==> var i := FindProc(old(procs), pid).value;
                        procs == old(procs)[i := old(procs)[i].(cnt := ZERO)]
      ensures !found ==> procs == old(procs)
    {
      var i := FindProc(procs, pid);
      if i.None? { return false, ZERO; }
      c := procs[i.value].cnt;
      procs := procs[i.value := procs[i.value].(cnt := ZERO)];
      return true, c;
    }

    /** workhandler's loop: sum the registered processes' counters, dropping dead pids. */
    method SumUp(pids: seq<int>) returns (minfault: nat, majfault: nat, cpu: nat, empty: bool, kept: seq<int>)
      modifies this`procs
      ensures var r := Collect(old(procs), pids);
              procs == r.procs && kept == r.kept && empty == !r.found && Sums(r, minfault, majfault, cpu)
    {
      minfault, majfault, cpu, empty, kept := 0, 0, 0, true, [];
      var i := 0;
      assert pids[..0] == [];
      SumsStart(procs);
      hide Collect, Sums;
      while i < |pids|
        invariant 0 <= i <= |pids|
        invariant procs == Collect(old(procs), pids[..i]).procs && kept == Collect(old(procs), pids[..i]).kept
        invariant empty == !Collect(old(procs), pids[..i]).found
        invariant Sums(Collect(old(procs), pids[..i]), minfault, majfault, cpu)
      {
        ghost var r := Collect(old(procs), pids[..i]);
        CollectNext(old(procs), pids, i);
        var found, c := GetCpuUse(pids[i]);
        if found {
          SumsNext(r, Collect(old(procs), pids[..i + 1]), c, minfault, majfault, cpu);
          empty := false;
          minfault := (minfault + c.minflt) % TWO64;
          majfault := (majfault + c.majflt) % TWO64;
          cpu := (cpu + (c.utime + c.stime)) % TWO64;
          kept := kept + [pids[i]];
        }
        i := i + 1;
      }
      assert pids[..i] == pids;
    }

    /** workhandler: one sampling step; a sample is written when any process was found. */
    method WorkHandler(jiffies: nat)
      requires Valid() && jiffies != EMPTY
      modifies this, gbuffer
      ensures Valid() && gbuffer == old(gbuffer)
      ensures var r := Collect(old(procs), old(reg));
              && reg == r.kept && procs == r.procs
              && written == (if r.found then old(written) + [MakeSample(jiffies, r.totals)] else old(written))
              && history == (if r.found then WriteHistory(old(history)) else old(history))
      ensures reg == Living(old(procs), old(reg)) && |procs| == |old(procs)|
      ensures forall i: nat :: i < |procs| ==>
                procs[i] == if Reads(old(procs), old(reg), i) then old(procs)[i].(cnt := ZERO) else old(procs)[i]
      ensures reg == [] ==> written == old(written)
      ensures reg != [] ==> |written| == |old(written)| + 1 && old(written) <= written
                            && SampleOf(written[|old(written)|], jiffies, old(procs), old(reg))
    {
      hide Holds, HistoryOk, WriteHistory, Collect, Samples, RingInRange, SampleOf, Living, Reads;
      CollectKeepsLiving(procs, reg);
      MadeSampleOf(jiffies, procs, reg);
      forall i: nat | i < |procs|
        ensures Collect(procs, reg).procs[i] == if Reads(procs, reg, i) then procs[i].(cnt := ZERO) else procs[i]
      {
        CollectResets(procs, reg, i);
      }
      var minfault, majfault, cpu, empty, kept := SumUp(reg);
      reg := kept;
      if !empty { WriteSample(Sample(jiffies, minfault, majfault, cpu)); }
    }

    /** taskregister: append a positive pid not yet in the list. */
    method TaskRegister(pid: int) returns (ok: bool)
      modifies this`reg
      ensures reg == RegisterPid(old(reg), pid) && (ok <==> pid > 0)
    {
      if pid <= 0 { return false; }
      var i := 0;
      while i < |reg|
        invariant 0 <= i <= |reg| && reg == old(reg)
        invariant pid !in reg[..i]
      {
        if reg[i] == pid { return true; }
        i := i + 1;
      }
      assert reg[..i] == reg;
      reg := reg + [pid];
      return true;
    }

    /** deregister: unlink the first entry with this pid. */
    method Deregister(pid: int) returns (ok: bool)
      modifies this`reg
      ensures reg == UnregisterPid(old(reg), pid) && (ok <==> pid in old(reg))
    {
      var i := 0;
      while i < |reg|
        invariant 0 <= i <= |reg| && reg == old(reg)
        invariant pid !in reg[..i]
        invariant UnregisterPid(reg, pid) == reg[..i] + UnregisterPid(reg[i..], pid)
      {
        if reg[i] == pid {
          reg := reg[..i] + reg[i + 1..];
          return true;
        }
        assert reg[..i] + [reg[i]] == reg[..i + 1] && reg[i..][1..] == reg[i + 1..];
        i := i + 1;
      }
      assert reg[..i] == reg;
      return false;
    }

    /** monitor's scan for the first occupied word. */
    method Scan(ghost r: Ring<Sample>) returns (index: int)
      requires gbuffer.Length == WORDS && ValidRing(r) && Holds(gbuffer[..], r)
      ensures 0 <= index <= 48000 && index == 4 * ReadStart(r)
    {
      DrainSlots(r, 0);
      hide Holds, Printed, ReadStart, SlotAt, SlotHolds;
      index := 0;
      while index < 48000 && gbuffer[index] == EMPTY
        invariant 0 <= index <= 48000 && index <= 4 * ReadStart(r)
      {
        ScanStops(gbuffer[..], r, index);
        index := index + 1;
      }
      ScanStops(gbuffer[..], r, index);
    }

    /** monitor's main: from the first occupied word on, print and clear groups of
        four until an empty one. */
    method PrintRun(ghost r: Ring<Sample>) returns (out: seq<Sample>)
      requires gbuffer.Length == WORDS && ValidRing(r) && Holds(gbuffer[..], r)
      modifies gbuffer
      ensures out == Printed(r) && Holds(gbuffer[..], Drained(r))
    {
      DrainSlots(r, 0);
      hide Holds, DrainedTo, Printed, ReadStart, SlotAt, SlotHolds, Drained;
      var index := Scan(r);
      out := [];
      NothingRead(gbuffer[..], r);
      while gbuffer[index] != EMPTY
        invariant 0 <= index <= 48000 && |out| <= |Printed(r)| && index == ReadIndex(r, |out|)
        invariant out == Printed(r)[..|out|]
        invariant DrainedTo(gbuffer[..], r, |out|)
        decreases |Printed(r)| - |out|
      {
        ReadTest(gbuffer[..], r, |out|);
        index, out := ReadGroup(index, out, r);
      }
      ReadTest(gbuffer[..], r, |out|);
      assert out == Printed(r);
      ReadDone(gbuffer[..], r);
    }

    /** One complete monitor run over the shared buffer. */
    method Monitor() returns (out: seq<Sample>)
      requires Valid()
      modifies gbuffer, this`history
      ensures Valid() && history == DrainHistory(old(history))
      ensures InRange(Printed(old(history).ring), |written|) && out == Pick(Printed(old(history).ring), written)
    {
      hide HistoryOk, DrainHistory, Holds, Printed, Drained, Samples;
      RingFacts(history, written);
      DrainSamples(history.ring, written);
      DrainKeeps(history);
      DrainView(history);
      out := PrintRun(Samples(history.ring, written));
      history := DrainHistory(history);
    }

    /** Print and clear one group of four words. */
    method ReadGroup(start: int, sofar: seq<Sample>, ghost r: Ring<Sample>) returns (index: int, out: seq<Sample>)
      requires gbuffer.Length == WORDS && ValidRing(r) && |sofar| < |Printed(r)| && sofar == Printed(r)[..|sofar|]
      requires 0 <= ReadStart(r) && ReadStart(r) + |sofar| < SLOTS && start == ReadIndex(r, |sofar|)
      requires DrainedTo(gbuffer[..], r, |sofar|)
      requires SlotHolds(gbuffer[..], ReadStart(r) + |sofar|, Some(Printed(r)[|sofar|]))
      modifies gbuffer
      ensures |out| == |sofar| + 1 && out == Printed(r)[..|out|]
      ensures 0 <= index <= 48000 && index == ReadIndex(r, |out|)
      ensures DrainedTo(gbuffer[..], r, |out|)
    {
      hide DrainedTo, Printed, ReadStart, SlotAt;
      ghost var before, j := gbuffer[..], ReadStart(r) + |sofar|;
      ReadNext(before, r, |sofar|);
      index := start;
      var a := gbuffer[index];
      gbuffer[index] := EMPTY;
      index := if index + 1 >= 48000 then 0 else index + 1;
      var b := gbuffer[index];
      gbuffer[index] := EMPTY;
      index := if index + 1 >= 48000 then 0 else index + 1;
      var c := gbuffer[index];
      gbuffer[index] := EMPTY;
      index := if index + 1 >= 48000 then 0 else index + 1;
      var d := gbuffer[index];
      gbuffer[index] := EMPTY;
      index := if index + 1 >= 48000 then 0 else index + 1;
      assert gbuffer[..] == PutSlot(before, j, EMPTY, EMPTY, EMPTY, EMPTY);
      assert Sample(a, b, c, d) == Printed(r)[|sofar|];
      out := sofar + [Sample(a, b, c, d)];
    }
  }

  lemma RingFacts(h: History, written: seq<Sample>)
    requires HistoryOk(h) && RingInRange(h.ring, |written|)
    ensures ValidRing(h.ring) && ValidRing(Samples(h.ring, written)) && Samples(h.ring, written).w == h.ring.w
  {}

  lemma IndexWraps(w: nat)
    requires w < SLOTS
    ensures (4 * w + 1) % 48000 == 4 * w + 1 && (4 * w + 2) % 48000 == 4 * w + 2 && (4 * w + 3) % 48000 == 4 * w + 3
    ensures (4 * w + 4) % 48000 == 4 * ((w + 1) % SLOTS)
  {}

  lemma WriteView(h: History)
    ensures WriteHistory(h).ring == Write<nat>(h.ring, h.count) && WriteHistory(h).count == h.count + 1
    ensures ValidRing(h.ring) ==> Write(h.ring, h.count).w == (h.ring.w + 1) % SLOTS
  {}

  lemma DrainView(h: History)
    ensures DrainHistory(h).ring == Drained(h.ring) && DrainHistory(h).count == h.count
    ensures Drained(h.ring).w == h.ring.w
  {}

  lemma NothingRead(buf: seq<nat>, r: Ring<Sample>)
    requires |buf| == WORDS && Holds(buf, r)
    ensures DrainedTo(buf, r, 0)
  {
    hide SlotAt, SlotHolds;
    forall j: nat | j < SLOTS ensures SlotHolds(buf, j, AfterRead(r, 0, j)) { assert SlotHolds(buf, j, SlotAt(r, j)); }
  }
}
