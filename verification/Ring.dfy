/** The profiler's sample buffer as the writer (mp3.c) and the reader (monitor.c)
    use it together: 12000 slots of four words, written round and round, and
    emptied by reader runs that start at the lowest occupied slot. */
module Ring {
  import opened Options

  const SLOTS: nat := 12000

  /** Occupied slots: `lower` just below the next slot w, `upper` at the top end. */
  datatype Ring<+T> = Ring(w: nat, lower: seq<T>, upper: seq<T>)

  ghost predicate ValidRing<T>(r: Ring<T>) {
    r.w < SLOTS && |r.lower| <= r.w <= SLOTS - |r.upper|
  }

  /** First slot of the lower and of the upper piece. */
  function LowStart<T>(r: Ring<T>): int { r.w - |r.lower| }

  function UpStart<T>(r: Ring<T>): int { SLOTS - |r.upper| }

  /** What slot j holds. */
  ghost function SlotAt<T>(r: Ring<T>, j: nat): Option<T> {
    if LowStart(r) <= j < r.w then Some(r.lower[j - LowStart(r)])
    else if UpStart(r) <= j < SLOTS then Some(r.upper[j - UpStart(r)])
    else None
  }

  /** The write is about to overwrite the oldest sample. */
  predicate Overwrites<T>(r: Ring<T>) { r.upper != [] && r.w == UpStart(r) }

  function Write<T>(r: Ring<T>, x: T): Ring<T> {
    var upper := if Overwrites(r) then r.upper[1..] else r.upper;
    if r.w + 1 == SLOTS then Ring(0, [], r.lower + [x]) else Ring(r.w + 1, r.lower + [x], upper)
  }

  /** A slot-wise account of a write: slot w gets the sample, no other slot changes. */
  lemma WriteSlots<T>(r: Ring<T>, x: T, j: nat)
    requires ValidRing(r) && j < SLOTS
    ensures ValidRing(Write(r, x))
    ensures SlotAt(Write(r, x), j) == if j == r.w then Some(x) else SlotAt(r, j)
    ensures Write(r, x).w == (r.w + 1) % SLOTS
  {}

  /** The two pieces touch, so that a reader run in the lower one goes on into the upper one. */
  predicate Joined<T>(r: Ring<T>) { r.lower != [] && Overwrites(r) }

  /** First slot a reader run visits; SLOTS when the buffer is empty. */
  function ReadStart<T>(r: Ring<T>): int {
    if r.lower != [] then LowStart(r) else UpStart(r)
  }

  /** What a reader run prints, in order. */
  function Printed<T>(r: Ring<T>): seq<T> {
    if r.lower == [] then r.upper else if Joined(r) then r.lower + r.upper else r.lower
  }

  /** What it leaves behind. */
  function Drained<T>(r: Ring<T>): Ring<T> {
    if r.lower == [] || Joined(r) then Ring(r.w, [], []) else Ring(r.w, [], r.upper)
  }

  /** A reader run empties the unbroken run of occupied slots from the lowest one on, and no other slot. */
  lemma DrainSlots<T>(r: Ring<T>, j: nat)
    requires ValidRing(r) && j < SLOTS
    ensures ValidRing(Drained(r)) && 0 <= ReadStart(r) && ReadStart(r) + |Printed(r)| <= SLOTS
    ensures ReadStart(r) <= j < ReadStart(r) + |Printed(r)| ==> SlotAt(r, j) == Some(Printed(r)[j - ReadStart(r)])
    ensures j < ReadStart(r) ==> SlotAt(r, j).None?
    ensures j == ReadStart(r) + |Printed(r)| ==> SlotAt(r, j).None?
    ensures SlotAt(Drained(r), j) ==
            if ReadStart(r) <= j < ReadStart(r) + |Printed(r)| then None else SlotAt(r, j)
  {}

  /** Two reader runs with no sample between them empty the buffer. */
  lemma TwoDrainsEmpty<T>(r: Ring<T>)
    requires ValidRing(r)
    ensures Drained(Drained(r)) == Ring(r.w, [], [])
    ensures forall j: nat :: j < SLOTS ==> SlotAt(Drained(Drained(r)), j).None?
  {}

  /* ---- histories ---- */

  /** The buffer with its past: samples are numbered as written; `printed` and
      `lost` list the numbers printed so far and overwritten unread. */
  datatype History = History(ring: Ring<nat>, count: nat, printed: seq<nat>, lost: seq<nat>)

  const FRESH := History(Ring(0, [], []), 0, [], [])

  function WriteHistory(h: History): History {
    History(Write(h.ring, h.count), h.count + 1, h.printed,
            if Overwrites(h.ring) then h.lost + [h.ring.upper[0]] else h.lost)
  }

  function DrainHistory(h: History): History {
    h.(ring := Drained(h.ring), printed := h.printed + Printed(h.ring))
  }

  /** Number of places where sample n is to be found. */
  ghost function Places(h: History, n: nat): nat {
    multiset(h.ring.lower)[n] + multiset(h.ring.upper)[n] + multiset(h.printed)[n] + multiset(h.lost)[n]
  }

  /** Each piece holds consecutive samples; the lower one ends with the last sample
      written, and the upper one with the last sample before the index wrapped. */
  ghost predicate Chronological(h: History) {
    && h.ring.w == h.count % SLOTS
    && (forall i :: 0 <= i < |h.ring.lower| ==> h.ring.lower[i] == h.count - |h.ring.lower| + i)
    && (h.ring.upper != [] ==> h.ring.w + |h.ring.upper| <= h.count)
    && (forall i :: 0 <= i < |h.ring.upper| ==> h.ring.upper[i] == h.count - h.ring.w - |h.ring.upper| + i)
  }

  /** Only samples more than a whole lap old have been overwritten. */
  ghost predicate LostAreOld(h: History) {
    forall n :: n in h.lost ==> n + SLOTS < h.count
  }

  ghost predicate Conserved(h: History) {
    forall n: nat :: Places(h, n) == if n < h.count then 1 else 0
  }

  ghost predicate HistoryOk(h: History) {
    ValidRing(h.ring) && Chronological(h) && Conserved(h) && LostAreOld(h)
  }

  lemma WriteKeeps(h: History)
    requires HistoryOk(h)
    ensures HistoryOk(WriteHistory(h))
  {
    WriteSlots(h.ring, h.count, 0);
    WriteKeepsOrder(h);
    WriteLosesOld(h);
    var h' := WriteHistory(h);
    hide WriteHistory, Places, Chronological, Write, LostAreOld;
    assert h'.count == h.count + 1 by { WriteCounts(h); }
    forall n: nat ensures Places(h', n) == if n < h'.count then 1 else 0 {
      assert Places(h, n) == if n < h.count then 1 else 0;
      WritePlaces(h, n);
    }
  }

  lemma WriteCounts(h: History)
    ensures WriteHistory(h).count == h.count + 1
  {}

  lemma NextIndex(count: nat)
    ensures (count + 1) % SLOTS == if count % SLOTS + 1 == SLOTS then 0 else count % SLOTS + 1
  {}

  lemma WriteKeepsOrder(h: History)
    requires ValidRing(h.ring) && Chronological(h)
    ensures Chronological(WriteHistory(h))
  {
    hide Chronological, WriteHistory;
    if h.ring.w + 1 == SLOTS {
      WrapKeepsOrder(h);
    } else {
      AdvanceKeepsOrder(h);
    }
  }

  /** The last slot is written: the lower piece becomes the upper one. */
  lemma WrapKeepsOrder(h: History)
    requires ValidRing(h.ring) && Chronological(h) && h.ring.w + 1 == SLOTS
    ensures Chronological(WriteHistory(h))
  {
    NextIndex(h.count);
    var lower, h' := h.ring.lower, WriteHistory(h);
    assert h'.ring == Ring(0, [], lower + [h.count]);
    forall i | 0 <= i < |lower| + 1 ensures h'.ring.upper[i] == h'.count - (|lower| + 1) + i {
      if i < |lower| { assert h'.ring.upper[i] == lower[i]; }
    }
  }

  /** Any other slot: the lower piece grows, and may take the first slot of the upper one. */
  lemma AdvanceKeepsOrder(h: History)
    requires ValidRing(h.ring) && Chronological(h) && h.ring.w + 1 < SLOTS
    ensures Chronological(WriteHistory(h))
  {
    NextIndex(h.count);
    var r, h' := h.ring, WriteHistory(h);
    var r' := h'.ring;
    assert r'.w == r.w + 1 && r'.lower == r.lower + [h.count];
    forall i | 0 <= i < |r'.lower| ensures r'.lower[i] == h'.count - |r'.lower| + i {
      if i < |r.lower| { assert r'.lower[i] == r.lower[i]; }
    }
    var gone := if Overwrites(r) then 1 else 0;
    assert |r'.upper| == |r.upper| - gone;
    forall i | 0 <= i < |r'.upper| ensures r'.upper[i] == h'.count - r'.w - |r'.upper| + i {
      assert r'.upper[i] == r.upper[i + gone];
    }
  }

  /** The sample overwritten by number n + 12000 is number n. */
  lemma WriteLosesOld(h: History)
    requires ValidRing(h.ring) && Chronological(h) && LostAreOld(h)
    ensures LostAreOld(WriteHistory(h))
    ensures Overwrites(h.ring) ==> h.ring.upper[0] + SLOTS == h.count
  {}

  lemma TopSlotLast<T>(r: Ring<T>)
    requires ValidRing(r) && r.w + 1 == SLOTS
    ensures if Overwrites(r) then |r.upper| == 1 else r.upper == []
  {}

  lemma WritePlaces(h: History, n: nat)
    requires ValidRing(h.ring)
    ensures Places(WriteHistory(h), n) == Places(h, n) + if n == h.count then 1 else 0
  {
    var h' := WriteHistory(h);
    var r := h.ring;
    assert multiset(r.lower + [h.count])[n] == multiset(r.lower)[n] + if n == h.count then 1 else 0;
    if r.w + 1 == SLOTS { TopSlotLast(r); }
    if Overwrites(r) { FirstLeaves(r.upper, h.lost, n); }
  }

  /** Moving the first number of one list to the end of another. */
  lemma FirstLeaves(a: seq<nat>, b: seq<nat>, n: nat)
    requires a != []
    ensures multiset(a[1..])[n] + multiset(b + [a[0]])[n] == multiset(a)[n] + multiset(b)[n]
  {
    assert a == [a[0]] + a[1..];
    assert multiset(a)[n] == multiset([a[0]])[n] + multiset(a[1..])[n];
  }

  lemma DrainKeeps(h: History)
    requires HistoryOk(h)
    ensures HistoryOk(DrainHistory(h))
  {
    var h' := DrainHistory(h);
    DrainSlots(h.ring, 0);
    forall n: nat ensures Places(h', n) == if n < h'.count then 1 else 0 {
      assert Places(h, n) == if n < h.count then 1 else 0;
      DrainPlaces(h, n);
    }
  }

  lemma DrainPlaces(h: History, n: nat)
    ensures Places(DrainHistory(h), n) == Places(h, n)
  {
    var r := h.ring;
    assert multiset(h.printed + Printed(r))[n] == multiset(h.printed)[n] + multiset(Printed(r))[n];
    if Joined(r) {
      assert multiset(Printed(r))[n] == multiset(r.lower)[n] + multiset(r.upper)[n];
    }
  }

  datatype Event = SampleTaken | MonitorRun

  function Replay(events: seq<Event>): History {
    if events == [] then FRESH
    else
      var h := Replay(events[..|events| - 1]);
      match events[|events| - 1] case SampleTaken => WriteHistory(h) case MonitorRun => DrainHistory(h)
  }

  /** Over every interleaving of samples and complete reader runs: the shape, the
      order, and that each sample is in the buffer, printed once, or overwritten. */
  lemma {:induction false} EveryRunOk(events: seq<Event>)
    ensures HistoryOk(Replay(events))
    decreases |events|
  {
    if events != [] {
      var init := events[..|events| - 1];
      EveryRunOk(init);
      hide HistoryOk;
      WriteKeeps(Replay(init));
      DrainKeeps(Replay(init));
    }
  }

  predicate Ascending(s: seq<nat>) {
    forall i, j :: 0 <= i < j < |s| ==> s[i] < s[j]
  }

  /** Which samples a run loses: exactly those not printed before a whole lap of
      newer ones was written. All others not yet printed are in the buffer. */
  lemma LostUnlessPrinted(events: seq<Event>, n: nat)
    ensures var h := Replay(events);
            && (n in h.lost <==> n + SLOTS < h.count && n !in h.printed)
            && (n in h.ring.lower || n in h.ring.upper <==> n < h.count <= n + SLOTS && n !in h.printed)
  {
    EveryRunOk(events);
    var h := Replay(events);
    hide Replay;
    assert Places(h, n) == if n < h.count then 1 else 0;
  }

  /** A reader run prints in the order of sampling exactly when the two pieces do
      not touch; when they do, the newer piece comes out first. */
  lemma PrintedInOrder(h: History)
    requires HistoryOk(h)
    ensures Ascending(Printed(h.ring)) <==> !Joined(h.ring)
  {
    var r := h.ring;
    if Joined(r) {
      assert Printed(r)[0] == r.lower[0] && Printed(r)[|r.lower|] == r.upper[0];
    }
  }

  /* ---- a run that prints out of order ---- */

  function SamplesOnly(n: nat): (events: seq<Event>)
    ensures |events| == n && forall i :: 0 <= i < n ==> events[i] == SampleTaken
  {
    seq(n, _ => SampleTaken)
  }

  lemma NextSample(n: nat)
    ensures Replay(SamplesOnly(n + 1)) == WriteHistory(Replay(SamplesOnly(n)))
  {
    hide WriteHistory, DrainHistory;
    assert SamplesOnly(n + 1)[..n] == SamplesOnly(n);
  }

  lemma {:induction false} FirstLap(n: nat)
    requires n < SLOTS
    ensures var h := Replay(SamplesOnly(n)); h.ring.w == |h.ring.lower| == h.count == n && h.ring.upper == []
  {
    if n == 0 {
      assert SamplesOnly(0) == [];
    } else {
      FirstLap(n - 1);
      NextSample(n - 1);
      hide Replay;
    }
  }

  /** After 12001 samples and no reader run the pieces touch, and the next reader run
      prints the newest sample first. */
  lemma LapPrintsOutOfOrder()
    ensures var h := Replay(SamplesOnly(SLOTS + 1)); Joined(h.ring) && !Ascending(Printed(h.ring))
  {
    FirstLap(SLOTS - 1);
    NextSample(SLOTS - 1);
    NextSample(SLOTS);
    EveryRunOk(SamplesOnly(SLOTS + 1));
    PrintedInOrder(Replay(SamplesOnly(SLOTS + 1)));
    hide Replay, Printed;
  }
}
