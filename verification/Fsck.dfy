/** The consistency checker (myfsck.c): one pass over the inode table that fills
    four tables, a bitmap pass, and a reference pass with the ".." chain walk.
    Every error exit is a `Fail`. */
module Fsck {
  import opened Layout
  import opened FsImage
  import opened Cards
  import opened Report

  /* ---- what the tables hold once the entries in P have been scanned ---- */

  ghost predicate CountsOk(img: Image, P: set<Pos>, cnt: seq<int>)
    requires WellFormed(img) && forall p :: p in P ==> IsPos(img, p)
  {
    |cnt| == img.ninodes + 1
    && forall n: nat :: n < img.ninodes ==> cnt[n] == |Referrers(img, P, n)|
  }

  ghost predicate DotDotsOk(img: Image, P: set<Pos>, dd: seq<int>)
    requires WellFormed(img) && forall p :: p in P ==> IsPos(img, p)
  {
    |dd| == img.ninodes + 1
    && forall n: nat :: n <= img.ninodes ==>
      (if DotDots(img, P, n) == {} then dd[n] == -1
       else exists p :: p in DotDots(img, P, n) && Entry(img, p).inum == dd[n])
  }

  ghost predicate ParentsOk(img: Image, P: set<Pos>, pe: seq<int>)
    requires WellFormed(img) && forall p :: p in P ==> IsPos(img, p)
  {
    |pe| == img.ninodes + 1
    && forall n: nat :: IsDir(img, n) ==>
      (if forall p :: p in P ==> !Names(img, p, n) then pe[n] == -1
       else exists p :: p in P && Names(img, p, n) && p.ino == pe[n])
  }

  ghost predicate DotsSelf(img: Image, P: set<Pos>)
    requires WellFormed(img) && forall p :: p in P ==> IsPos(img, p)
  {
    forall p :: p in P && DotEntry(Entry(img, p)) ==> Entry(img, p).inum == p.ino
  }

  ghost predicate TablesOk(img: Image, P: set<Pos>, cnt: seq<int>, dd: seq<int>, pe: seq<int>)
    requires WellFormed(img) && forall p :: p in P ==> IsPos(img, p)
  {
    CountsOk(img, P, cnt) && DotDotsOk(img, P, dd) && ParentsOk(img, P, pe) && DotsSelf(img, P)
  }

  lemma ReferrersStep(img: Image, P: set<Pos>, p: Pos, n: nat)
    requires WellFormed(img) && IsPos(img, p) && p !in P
    requires forall q :: q in P ==> IsPos(img, q)
    ensures |Referrers(img, P + {p}, n)| == |Referrers(img, P, n)| + if Refers(img, p, n) then 1 else 0
  {
    if Refers(img, p, n) {
      assert Referrers(img, P + {p}, n) == Referrers(img, P, n) + {p};
    } else {
      assert Referrers(img, P + {p}, n) == Referrers(img, P, n);
    }
  }

  lemma DotsStep(img: Image, P: set<Pos>, p: Pos)
    requires WellFormed(img) && IsPos(img, p) && p !in P
    requires forall q :: q in P ==> IsPos(img, q)
    ensures |Dots(img, P + {p}, p.ino)| == |Dots(img, P, p.ino)| + if DotEntry(Entry(img, p)) then 1 else 0
  {
    if DotEntry(Entry(img, p)) {
      assert Dots(img, P + {p}, p.ino) == Dots(img, P, p.ino) + {p};
    } else {
      assert Dots(img, P + {p}, p.ino) == Dots(img, P, p.ino);
    }
  }

  lemma DotDotCountStep(img: Image, P: set<Pos>, p: Pos)
    requires WellFormed(img) && IsPos(img, p) && p !in P
    requires forall q :: q in P ==> IsPos(img, q)
    ensures |DotDots(img, P + {p}, p.ino)| == |DotDots(img, P, p.ino)| + if DotDotEntry(Entry(img, p)) then 1 else 0
  {
    if DotDotEntry(Entry(img, p)) {
      assert DotDots(img, P + {p}, p.ino) == DotDots(img, P, p.ino) + {p};
    } else {
      assert DotDots(img, P + {p}, p.ino) == DotDots(img, P, p.ino);
    }
  }

  /** The three tables after scanning entry d of directory i. */
  function NextCounts(i: nat, d: Dirent, cnt: seq<int>): seq<int>
    requires i < |cnt| && d.inum < |cnt|
  {
    if OrdinaryEntry(d) then cnt[d.inum := cnt[d.inum] + 1]
    else if DotEntry(d) && i == ROOTINO then cnt[i := cnt[i] + 1]
    else cnt
  }

  function NextDotDots(i: nat, d: Dirent, dd: seq<int>): seq<int>
    requires i < |dd|
  {
    if DotDotEntry(d) then dd[i := d.inum] else dd
  }

  function NextParents(img: Image, i: nat, d: Dirent, pe: seq<int>): seq<int>
    requires WellFormed(img) && d.inum < img.ninodes < |pe|
  {
    if OrdinaryEntry(d) && img.inodes[d.inum].kind == T_DIR then pe[d.inum := i] else pe
  }

  lemma CountsStep(img: Image, P: set<Pos>, p: Pos, cnt: seq<int>)
    requires WellFormed(img) && IsPos(img, p) && p !in P && Entry(img, p).inum < img.ninodes
    requires forall q :: q in P ==> IsPos(img, q)
    requires CountsOk(img, P, cnt)
    ensures CountsOk(img, P + {p}, NextCounts(p.ino, Entry(img, p), cnt))
  {
    var cnt' := NextCounts(p.ino, Entry(img, p), cnt);
    forall n: nat | n < img.ninodes ensures cnt'[n] == |Referrers(img, P + {p}, n)| {
      ReferrersStep(img, P, p, n);
    }
  }

  lemma DotDotsStep(img: Image, P: set<Pos>, p: Pos, dd: seq<int>)
    requires WellFormed(img) && IsPos(img, p)
    requires forall q :: q in P ==> IsPos(img, q)
    requires DotDotsOk(img, P, dd)
    ensures DotDotsOk(img, P + {p}, NextDotDots(p.ino, Entry(img, p), dd))
  {
    var Q := P + {p};
    var dd' := NextDotDots(p.ino, Entry(img, p), dd);
    forall n: nat | n <= img.ninodes
      ensures if DotDots(img, Q, n) == {} then dd'[n] == -1
              else exists q :: q in DotDots(img, Q, n) && Entry(img, q).inum == dd'[n]
    {
      if DotDotEntry(Entry(img, p)) && p.ino == n {
        assert p in DotDots(img, Q, n);
      } else {
        assert DotDots(img, Q, n) == DotDots(img, P, n);
      }
    }
  }

  lemma ParentsStep(img: Image, P: set<Pos>, p: Pos, pe: seq<int>)
    requires WellFormed(img) && IsPos(img, p) && Entry(img, p).inum < img.ninodes
    requires forall q :: q in P ==> IsPos(img, q)
    requires ParentsOk(img, P, pe)
    ensures ParentsOk(img, P + {p}, NextParents(img, p.ino, Entry(img, p), pe))
  {
    var Q := P + {p};
    var pe' := NextParents(img, p.ino, Entry(img, p), pe);
    forall n: nat | IsDir(img, n)
      ensures if forall q :: q in Q ==> !Names(img, q, n) then pe'[n] == -1
              else exists q :: q in Q && Names(img, q, n) && q.ino == pe'[n]
    {
      if Names(img, p, n) {
        assert p in Q;
      } else if q :| q in P && Names(img, q, n) && q.ino == pe[n] {
        assert q in Q;
      }
    }
  }

  /** Scanning one more entry, not a "." that names another inode, keeps the tables right. */
  lemma TablesStep(img: Image, P: set<Pos>, p: Pos, cnt: seq<int>, dd: seq<int>, pe: seq<int>)
    requires WellFormed(img) && IsPos(img, p) && p !in P && Entry(img, p).inum < img.ninodes
    requires forall q :: q in P ==> IsPos(img, q)
    requires TablesOk(img, P, cnt, dd, pe)
    requires DotEntry(Entry(img, p)) ==> Entry(img, p).inum == p.ino
    ensures TablesOk(img, P + {p}, NextCounts(p.ino, Entry(img, p), cnt),
                     NextDotDots(p.ino, Entry(img, p), dd), NextParents(img, p.ino, Entry(img, p), pe))
  {
    CountsStep(img, P, p, cnt);
    DotDotsStep(img, P, p, dd);
    ParentsStep(img, P, p, pe);
  }

  /* ---- scanning one directory block ---- */

  lemma BlockPosAll(img: Image, i: nat, k: nat)
    requires WellFormed(img) && k < 141
    ensures IsDirSlot(img, i, k) ==> PosTo(img, i, k) + BlockPos(i, k, 32) == PosTo(img, i, k + 1)
    ensures !IsDirSlot(img, i, k) ==> PosTo(img, i, k) == PosTo(img, i, k + 1)
  {
    if IsDirSlot(img, i, k) {
      assert forall p :: p in PosTo(img, i, k + 1) <==> p in PosTo(img, i, k) || p in BlockPos(i, k, 32);
    } else {
      assert forall p :: p in PosTo(img, i, k + 1) <==> p in PosTo(img, i, k);
    }
  }

  /** One entry d of directory i; `ok` is false on a "." that names another inode. */
  method ScanEntry(img: Image, d: Dirent, i: nat, curcnt: int, parcnt: int,
                   inodeindirent: array<int>, parentdotdot: array<int>, parententry: array<int>)
    returns (ok: bool, cur: int, par: int)
    requires WellFormed(img) && i < img.ninodes && d.inum < img.ninodes
    requires inodeindirent.Length == parentdotdot.Length == parententry.Length == img.ninodes + 1
    requires inodeindirent != parentdotdot && inodeindirent != parententry && parentdotdot != parententry
    modifies inodeindirent, parentdotdot, parententry
    ensures ok <==> (DotEntry(d) ==> d.inum == i)
    ensures ok ==> inodeindirent[..] == NextCounts(i, d, old(inodeindirent[..]))
    ensures ok ==> parentdotdot[..] == NextDotDots(i, d, old(parentdotdot[..]))
    ensures ok ==> parententry[..] == NextParents(img, i, d, old(parententry[..]))
    ensures ok ==> cur == curcnt + (if DotEntry(d) then 1 else 0)
    ensures ok ==> par == parcnt + (if DotDotEntry(d) then 1 else 0)
  {
    cur, par := curcnt, parcnt;
    if d.inum != 0 {
      if CStr(d.name) == DOT {
        if d.inum != i { return false, cur, par; }
        if i == ROOTINO { inodeindirent[ROOTINO] := inodeindirent[ROOTINO] + 1; }
        cur := cur + 1;
      } else if CStr(d.name) == DOTDOT {
        parentdotdot[i] := d.inum;
        par := par + 1;
      } else {
        inodeindirent[d.inum] := inodeindirent[d.inum] + 1;
        if img.inodes[d.inum].kind == T_DIR { parententry[d.inum] := i; }
      }
    }
    return true, cur, par;
  }

  ghost predicate ScanState(img: Image, P: set<Pos>, i: nat, cnt: seq<int>, dd: seq<int>, pe: seq<int>,
                            cur: int, par: int)
    requires WellFormed(img) && forall p :: p in P ==> IsPos(img, p)
  {
    TablesOk(img, P, cnt, dd, pe) && cur == |Dots(img, P, i)| && par == |DotDots(img, P, i)|
  }

  lemma ScanStep(img: Image, P: set<Pos>, p: Pos, cnt: seq<int>, dd: seq<int>, pe: seq<int>, cur: int, par: int)
    requires WellFormed(img) && IsPos(img, p) && p !in P && Entry(img, p).inum < img.ninodes
    requires forall q :: q in P ==> IsPos(img, q)
    requires ScanState(img, P, p.ino, cnt, dd, pe, cur, par)
    requires DotEntry(Entry(img, p)) ==> Entry(img, p).inum == p.ino
    ensures ScanState(img, P + {p}, p.ino, NextCounts(p.ino, Entry(img, p), cnt),
                      NextDotDots(p.ino, Entry(img, p), dd), NextParents(img, p.ino, Entry(img, p), pe),
                      cur + (if DotEntry(Entry(img, p)) then 1 else 0),
                      par + (if DotDotEntry(Entry(img, p)) then 1 else 0))
  {
    TablesStep(img, P, p, cnt, dd, pe);
    DotsStep(img, P, p);
    DotDotCountStep(img, P, p);
  }

  lemma EntryTest(img: Image, p: Pos)
    requires WellFormed(img) && IsPos(img, p) && ClearTo(img, Time(1, p.ino, p.k + 1, p.e + 3))
    ensures DotEntry(Entry(img, p)) && Entry(img, p).inum != p.ino ==> Reports(img, BadDirectoryFormat)
    ensures (DotEntry(Entry(img, p)) ==> Entry(img, p).inum == p.ino) ==>
      ClearTo(img, Time(1, p.ino, p.k + 1, p.e + 4))
  {
    var t := ForeignDot(p.ino, p.k, p.e);
    assert Fault(img, t) <==> DotEntry(Entry(img, p)) && Entry(img, p).inum != p.ino;
    hide ClearTo, Reports, Fault;
    if Fault(img, t) {
      Found(img, t);
    } else {
      Advance(img, t, Time(1, p.ino, p.k + 1, p.e + 4));
    }
  }

  method TraverseDirent(img: Image, blknum: nat, i: nat, ghost k: nat, curcnt: int, parcnt: int,
                        inodeindirent: array<int>, parentdotdot: array<int>, parententry: array<int>)
    returns (v: Verdict, cur: int, par: int)
    requires Checkable(img) && IsDirSlot(img, i, k) && Ref(img, i, k) == blknum
    requires inodeindirent.Length == parentdotdot.Length == parententry.Length == img.ninodes + 1
    requires inodeindirent != parentdotdot && inodeindirent != parententry && parentdotdot != parententry
    requires ScanState(img, PosTo(img, i, k), i, inodeindirent[..], parentdotdot[..], parententry[..], curcnt, parcnt)
    requires ClearTo(img, Time(1, i, k + 1, 3))
    modifies inodeindirent, parentdotdot, parententry
    ensures v.Pass? ==> ClearTo(img, Time(1, i, k + 2, 0))
    ensures v.Pass? ==> ScanState(img, PosTo(img, i, k + 1), i,
                                  inodeindirent[..], parentdotdot[..], parententry[..], cur, par)
    ensures v.Fail? ==> Reports(img, v.error)
  {
    hide ScanState, ClearTo, Reports;
    cur, par := curcnt, parcnt;
    ghost var base := PosTo(img, i, k);
    assert base + BlockPos(i, k, 0) == base;
    var e := 0;
    while e < 32
      invariant 0 <= e <= 32
      invariant ScanState(img, base + BlockPos(i, k, e), i,
                          inodeindirent[..], parentdotdot[..], parententry[..], cur, par)
      invariant ClearTo(img, Time(1, i, k + 1, 3 + e))
    {
      ghost var p := Pos(i, k, e);
      ghost var P := base + BlockPos(i, k, e);
      ghost var cnt, dd, pe, c, r := inodeindirent[..], parentdotdot[..], parententry[..], cur, par;
      assert IsPos(img, p);
      var ok;
      ok, cur, par := ScanEntry(img, img.dirents[blknum][e], i, cur, par, inodeindirent, parentdotdot, parententry);
      EntryTest(img, p);
      if !ok { return Fail(BadDirectoryFormat), cur, par; }
      ScanStep(img, P, p, cnt, dd, pe, c, r);
      assert base + BlockPos(i, k, e + 1) == P + {p};
      e := e + 1;
    }
    BlockPosAll(img, i, k);
    SlotDone(img, i, k, 35);
    return Pass, cur, par;
  }

  /* ---- claiming block slots ---- */

  /** `visited` marks exactly the blocks held by the slots before (i, k), all of them well placed. */
  ghost predicate VisitState(img: Image, i: nat, k: nat, visited: seq<bool>)
    requires WellFormed(img)
  {
    && |visited| == img.size + 1
    && SlotsGood(img, SlotsTo(img, i, k))
    && (forall b: nat :: b <= img.size ==> (visited[b] <==> Holds(img, SlotsTo(img, i, k), b)))
  }

  lemma VisitLength(img: Image, i: nat, k: nat, visited: seq<bool>)
    requires WellFormed(img) && VisitState(img, i, k, visited)
    ensures |visited| == img.size + 1
  {}

  lemma SlotsToNext(img: Image, i: nat, k: nat)
    requires WellFormed(img) && InUse(img, i) && k < 141
    ensures SlotsTo(img, i, k + 1) == SlotsTo(img, i, k) + {Slot(i, k)}
  {
    assert forall s :: s in SlotsTo(img, i, k + 1) <==> s in SlotsTo(img, i, k) || s == Slot(i, k);
  }

  lemma SkipSlot(img: Image, i: nat, k: nat, visited: seq<bool>)
    requires WellFormed(img) && InUse(img, i) && k < 141 && Ref(img, i, k) == 0
    requires VisitState(img, i, k, visited)
    ensures VisitState(img, i, k + 1, visited)
    ensures PosTo(img, i, k + 1) == PosTo(img, i, k)
  {
    SlotsToNext(img, i, k);
    BlockPosAll(img, i, k);
    assert SRef(img, Slot(i, k)) == 0;
    forall b: nat | b <= img.size ensures visited[b] <==> Holds(img, SlotsTo(img, i, k + 1), b) {
      assert Holds(img, SlotsTo(img, i, k + 1), b) <==> Holds(img, SlotsTo(img, i, k), b);
    }
  }

  lemma SkipSlots(img: Image, i: nat, k: nat, hi: nat, visited: seq<bool>)
    requires WellFormed(img) && InUse(img, i) && k <= hi <= 141
    requires forall l :: k <= l < hi ==> Ref(img, i, l) == 0
    requires VisitState(img, i, k, visited)
    ensures VisitState(img, i, hi, visited)
    ensures PosTo(img, i, hi) == PosTo(img, i, k)
    decreases hi - k
  {
    if k < hi {
      SkipSlot(img, i, k, visited);
      SkipSlots(img, i, k + 1, hi, visited);
    }
  }

  lemma ClaimSlot(img: Image, i: nat, k: nat, visited: seq<bool>)
    requires WellFormed(img) && InUse(img, i) && k < 141
    requires VisitState(img, i, k, visited)
    requires InData(img, Ref(img, i, k)) && !visited[Ref(img, i, k)] && img.bitmap[Ref(img, i, k)]
    ensures VisitState(img, i, k + 1, visited[Ref(img, i, k) := true])
  {
    var b := Ref(img, i, k);
    var S, S', v' := SlotsTo(img, i, k), SlotsTo(img, i, k + 1), visited[b := true];
    SlotsToNext(img, i, k);
    assert SRef(img, Slot(i, k)) == b;
    assert !Holds(img, S, b);
    assert forall s :: s in S ==> SRef(img, s) != b;
    forall c: nat | c <= img.size ensures v'[c] <==> Holds(img, S', c) {
      if c == b {
        assert Slot(i, k) in S';
      } else {
        assert Holds(img, S', c) <==> Holds(img, S, c);
      }
    }
  }

  /** The tests on slot (i, k), when it is not empty. */
  lemma SlotTests(img: Image, i: nat, k: nat, visited: seq<bool>)
    requires WellFormed(img) && InUse(img, i) && k < 141 && VisitState(img, i, k, visited) && Ref(img, i, k) != 0
    requires ClearTo(img, Time(1, i, k + 1, 0))
    ensures !InData(img, Ref(img, i, k)) ==> Reports(img, ErrorOf(OutOfRange(i, k)))
    ensures InData(img, Ref(img, i, k)) ==>
      if visited[Ref(img, i, k)] then Reports(img, ErrorOf(Twice(i, k)))
      else if !img.bitmap[Ref(img, i, k)] then Reports(img, BadUsedAddress)
      else ClearTo(img, Time(1, i, k + 1, 3))
  {
    var b, r, t, u := Ref(img, i, k), OutOfRange(i, k), Twice(i, k), Unmarked(i, k);
    assert Fault(img, r) <==> !InData(img, b);
    assert InData(img, b) ==> (Fault(img, u) <==> !img.bitmap[b]);
    TwiceIfVisited(img, i, k, visited);
    hide ClearTo, Reports, Fault, VisitState, Ref, InData;
    if Fault(img, r) {
      Found(img, r);
    } else {
      Advance(img, r, Time(1, i, k + 1, 1));
      if Fault(img, t) {
        Found(img, t);
      } else {
        Advance(img, t, Time(1, i, k + 1, 2));
        if Fault(img, u) { Found(img, u); } else { Advance(img, u, Time(1, i, k + 1, 3)); }
      }
    }
  }

  /** A block found visited is held by an earlier slot as well. */
  lemma TwiceIfVisited(img: Image, i: nat, k: nat, visited: seq<bool>)
    requires WellFormed(img) && InUse(img, i) && k < 141 && VisitState(img, i, k, visited) && Ref(img, i, k) != 0
    ensures InData(img, Ref(img, i, k)) ==> (Fault(img, Twice(i, k)) <==> visited[Ref(img, i, k)])
  {
    hide Ref, SlotsGood;
    var b, S := Ref(img, i, k), SlotsTo(img, i, k);
    if InData(img, b) {
      assert visited[b] <==> Holds(img, S, b);
      if visited[b] {
        var s :| s in S && SRef(img, s) == b;
        assert Shared(img, Slot(i, k), s);
      }
    }
  }

  lemma DataSlotsStep(img: Image, i: nat, lo: nat, k: nat)
    requires WellFormed(img) && i < img.ninodes && lo <= k < 141 && k != 12
    ensures |DataSlots(img, i, lo, k + 1)| == |DataSlots(img, i, lo, k)| + if Ref(img, i, k) != 0 then 1 else 0
  {
    hide Ref;
    if Ref(img, i, k) != 0 {
      assert DataSlots(img, i, lo, k + 1) == DataSlots(img, i, lo, k) + {k};
    } else {
      assert DataSlots(img, i, lo, k + 1) == DataSlots(img, i, lo, k);
    }
  }

  method CheckDirectAddress(img: Image, i: nat, st: nat, ed: nat, visited: array<bool>, curcnt: int, parcnt: int,
                            inodeindirent: array<int>, parentdotdot: array<int>, parententry: array<int>)
    returns (v: Verdict, blkcnt: nat, cur: int, par: int)
    requires Checkable(img) && InUse(img, i) && st == Start(img) && ed == img.size
    requires visited.Length == img.size + 1
    requires inodeindirent.Length == parentdotdot.Length == parententry.Length == img.ninodes + 1
    requires inodeindirent != parentdotdot && inodeindirent != parententry && parentdotdot != parententry
    requires VisitState(img, i, 0, visited[..]) && ClearTo(img, Time(1, i, 1, 0))
    requires ScanState(img, PosTo(img, i, 0), i, inodeindirent[..], parentdotdot[..], parententry[..], curcnt, parcnt)
    modifies visited, inodeindirent, parentdotdot, parententry
    ensures v.Pass? ==> VisitState(img, i, 12, visited[..]) && ClearTo(img, Time(1, i, 13, 0))
    ensures v.Pass? ==> ScanState(img, PosTo(img, i, 12), i,
                                  inodeindirent[..], parentdotdot[..], parententry[..], cur, par)
    ensures v.Pass? ==> blkcnt == |DataSlots(img, i, 0, 12)|
    ensures v.Fail? ==> Reports(img, v.error)
  {
    hide VisitState, ScanState, ClearTo, Reports;
    blkcnt, cur, par := 0, curcnt, parcnt;
    assert DataSlots(img, i, 0, 0) == {};
    var k := 0;
    while k < 12
      invariant 0 <= k <= 12
      invariant VisitState(img, i, k, visited[..]) && ClearTo(img, Time(1, i, k + 1, 0))
      invariant ScanState(img, PosTo(img, i, k), i,
                          inodeindirent[..], parentdotdot[..], parententry[..], cur, par)
      invariant blkcnt == |DataSlots(img, i, 0, k)|
    {
      var b := img.inodes[i].addrs[k];
      ghost var vis := visited[..];
      VisitLength(img, i, k, vis);
      if b != 0 { SlotTests(img, i, k, vis); }
      if b != 0 && (b < st || b >= ed) { return Fail(BadDirectAddress), blkcnt, cur, par; }
      if b != 0 && visited[b] { return Fail(DirectAddressOnce), blkcnt, cur, par; }
      DataSlotsStep(img, i, 0, k);
      if b != 0 {
        if !img.bitmap[b] { return Fail(BadUsedAddress), blkcnt, cur, par; }
        visited[b] := true;
        ClaimSlot(img, i, k, vis);
        assert visited[..] == vis[b := true];
        blkcnt := blkcnt + 1;
        if img.inodes[i].kind == T_DIR {
          v, cur, par := TraverseDirent(img, b, i, k, cur, par, inodeindirent, parentdotdot, parententry);
          if v.Fail? { return; }
        } else {
          BlockPosAll(img, i, k);
          SlotDone(img, i, k, 3);
        }
      } else {
        SkipSlot(img, i, k, vis);
        SlotEmpty(img, i, k);
      }
      k := k + 1;
    }
    return Pass, blkcnt, cur, par;
  }

  method CheckIndirectAddress(img: Image, i: nat, st: nat, ed: nat, visited: array<bool>, curcnt: int, parcnt: int,
                              inodeindirent: array<int>, parentdotdot: array<int>, parententry: array<int>)
    returns (v: Verdict, blkcnt: nat, cur: int, par: int)
    requires Checkable(img) && InUse(img, i) && st == Start(img) && ed == img.size
    requires visited.Length == img.size + 1
    requires inodeindirent.Length == parentdotdot.Length == parententry.Length == img.ninodes + 1
    requires inodeindirent != parentdotdot && inodeindirent != parententry && parentdotdot != parententry
    requires VisitState(img, i, 12, visited[..]) && ClearTo(img, Time(1, i, 13, 0))
    requires ScanState(img, PosTo(img, i, 12), i, inodeindirent[..], parentdotdot[..], parententry[..], curcnt, parcnt)
    modifies visited, inodeindirent, parentdotdot, parententry
    ensures v.Pass? ==> VisitState(img, i, 141, visited[..]) && ClearTo(img, Time(1, i, 142, 0))
    ensures v.Pass? ==> ScanState(img, PosTo(img, i, 141), i,
                                  inodeindirent[..], parentdotdot[..], parententry[..], cur, par)
    ensures v.Pass? ==> blkcnt == |DataSlots(img, i, 13, 141)|
    ensures v.Fail? ==> Reports(img, v.error)
  {
    hide VisitState, ScanState, ClearTo, Reports;
    blkcnt, cur, par := 0, curcnt, parcnt;
    var ind := img.inodes[i].addrs[12];
    ghost var vis := visited[..];
    if ind == 0 {
      SkipSlots(img, i, 12, 141, vis);
      SlotsEmpty(img, i, 12, 141);
      assert DataSlots(img, i, 13, 141) == {};
      return Pass, blkcnt, cur, par;
    }
    VisitLength(img, i, 12, vis);
    SlotTests(img, i, 12, vis);
    if !(ind >= st && ind < ed) { return Fail(BadIndirectAddress), blkcnt, cur, par; }
    if visited[ind] { return Fail(IndirectAddressOnce), blkcnt, cur, par; }
    if !img.bitmap[ind] { return Fail(BadUsedAddress), blkcnt, cur, par; }
    visited[ind] := true;
    ClaimSlot(img, i, 12, vis);
    assert visited[..] == vis[ind := true];
    BlockPosAll(img, i, 12);
    SlotDone(img, i, 12, 3);
    assert DataSlots(img, i, 13, 13) == {};
    var w := 0;
    while w < 128
      invariant 0 <= w <= 128
      invariant VisitState(img, i, 13 + w, visited[..]) && ClearTo(img, Time(1, i, 14 + w, 0))
      invariant ScanState(img, PosTo(img, i, 13 + w), i,
                          inodeindirent[..], parentdotdot[..], parententry[..], cur, par)
      invariant blkcnt == |DataSlots(img, i, 13, 13 + w)|
    {
      var b := img.words[ind][w];
      vis := visited[..];
      assert b == Ref(img, i, 13 + w);
      VisitLength(img, i, 13 + w, vis);
      if b != 0 { SlotTests(img, i, 13 + w, vis); }
      if b != 0 && (b < st || b >= ed) { return Fail(BadIndirectAddress), blkcnt, cur, par; }
      if b != 0 && visited[b] { return Fail(IndirectAddressOnce), blkcnt, cur, par; }
      DataSlotsStep(img, i, 13, 13 + w);
      if b != 0 {
        if !img.bitmap[b] { return Fail(BadUsedAddress), blkcnt, cur, par; }
        visited[b] := true;
        ClaimSlot(img, i, 13 + w, vis);
        assert visited[..] == vis[b := true];
        blkcnt := blkcnt + 1;
        if img.inodes[i].kind == T_DIR {
          v, cur, par := TraverseDirent(img, b, i, 13 + w, cur, par, inodeindirent, parentdotdot, parententry);
          if v.Fail? { return; }
        } else {
          BlockPosAll(img, i, 13 + w);
          SlotDone(img, i, 13 + w, 3);
        }
      } else {
        SkipSlot(img, i, 13 + w, vis);
        SlotEmpty(img, i, 13 + w);
      }
      w := w + 1;
    }
    return Pass, blkcnt, cur, par;
  }

  /* ---- the ".." chain walk ---- */

  /** Once the chain repeats, every iterate is one of those already seen. */
  lemma {:induction false} ChainLoops(par: seq<int>, i: int, j: nat, m: nat, n: nat)
    requires j < m && Ancestor(par, i, j) == Ancestor(par, i, m)
    ensures exists l: nat :: l < m && Ancestor(par, i, n) == Ancestor(par, i, l)
    decreases n
  {
    if n >= m {
      AncestorAdd(par, i, m, n - m);
      AncestorAdd(par, i, j, n - m);
      ChainLoops(par, i, j, m, j + (n - m));
    }
  }

  /** -1 is absorbing: a chain that has left the table never returns. */
  lemma ChainEnds(par: seq<int>, i: int, m: nat, n: nat)
    requires Ancestor(par, i, m) == -1 && m <= n
    ensures Ancestor(par, i, n) == -1
    decreases n
  {
    if m < n { ChainEnds(par, i, m, n - 1); }
  }

  ghost predicate SeenTo(par: seq<int>, i: int, m: nat, seen: seq<bool>) {
    forall x :: 0 <= x < |seen| ==> (seen[x] <==> exists l: nat :: l < m && Ancestor(par, i, l) == x)
  }

  lemma SeenStep(par: seq<int>, i: int, m: nat, seen: seq<bool>)
    requires SeenTo(par, i, m, seen) && 0 <= Ancestor(par, i, m) < |seen|
    ensures SeenTo(par, i, m + 1, seen[Ancestor(par, i, m) := true])
  {
    hide Ancestor;
  }

  ghost function UnseenSet(seen: seq<bool>): set<int> {
    set x | 0 <= x < |seen| && !seen[x]
  }

  lemma UnseenShrinks(seen: seq<bool>, x: int)
    requires 0 <= x < |seen| && !seen[x]
    ensures |UnseenSet(seen[x := true])| == |UnseenSet(seen)| - 1
  {
    assert UnseenSet(seen[x := true]) == UnseenSet(seen) - {x};
  }

  lemma UnseenAll(seen: seq<bool>)
    requires forall x :: 0 <= x < |seen| ==> !seen[x]
    ensures |UnseenSet(seen)| == |seen|
  {
    assert UnseenSet(seen) == Range(0, |seen|);
  }

  /** Follow ".." from i until the root, a repeat, or a missing parent. The table has
      one entry more than there are inodes; the walk takes at most one step per inode. */
  method WalkToRoot(par: array<int>, i: nat) returns (ok: bool, steps: nat)
    requires i < par.Length
    requires forall x :: 0 <= x < par.Length ==> -1 <= par[x] < par.Length
    ensures ok <==> ReachesRoot(par[..], i)
    ensures steps <= par.Length && (par.Length > ROOTINO ==> steps < par.Length)
    ensures ok ==> Ancestor(par[..], i, steps) == ROOTINO
  {
    var seen := new bool[par.Length](_ => false);
    ghost var t := par[..];
    var cur: int := i;
    steps := 0;
    UnseenAll(seen[..]);
    while cur != ROOTINO
      invariant par[..] == t
      invariant 0 <= cur < par.Length && cur == Ancestor(t, i, steps)
      invariant SeenTo(t, i, steps, seen[..])
      invariant forall l: nat :: l < steps ==> Ancestor(t, i, l) != ROOTINO
      invariant steps + |UnseenSet(seen[..])| == par.Length
      invariant par.Length > ROOTINO ==> ROOTINO in UnseenSet(seen[..])
      decreases |UnseenSet(seen[..])|
    {
      if seen[cur] {
        assert seen[..][cur];
        ghost var j: nat :| j < steps && Ancestor(t, i, j) == cur;
        forall n: nat ensures Ancestor(t, i, n) != ROOTINO { ChainLoops(t, i, j, steps, n); }
        return false, steps;
      }
      UnseenShrinks(seen[..], cur);
      SeenStep(t, i, steps, seen[..]);
      ghost var before := seen[..];
      seen[cur] := true;
      assert seen[..] == before[cur := true];
      cur := par[cur];
      steps := steps + 1;
      assert cur == Ancestor(t, i, steps);
      assert par.Length > ROOTINO ==> ROOTINO in UnseenSet(seen[..]) && |UnseenSet(seen[..])| > 0;
      if cur == -1 {
        forall n: nat ensures Ancestor(t, i, n) != ROOTINO {
          if n >= steps { ChainEnds(t, i, steps, n); }
        }
        return false, steps;
      }
    }
    ok := true;
  }

  /* ---- the whole check ---- */

  /** check_size: the data region's bounds in 32-bit arithmetic. */
  method CheckSize(img: Image) returns (v: Verdict, st: nat, ed: nat)
    requires img.size <= 0x80_0000 && img.ninodes <= 0x1_0000
    ensures v.Pass? <==> SuperblockOk(img)
    ensures v.Fail? ==> v.error == BadSuperblock
    ensures v.Pass? ==> st == Start(img) && ed == img.size
  {
    var inodesize, bitmapsize := img.ninodes / 8 + 1, img.size / 4096 + 1;
    st := inodesize + bitmapsize + 2;
    ed := (img.nblocks + st) % 0x1_0000_0000;
    v := if img.size != ed then Fail(BadSuperblock) else Pass;
  }

  lemma NextInode(img: Image, i: nat)
    requires WellFormed(img) && i < img.ninodes
    ensures SlotsTo(img, i + 1, 0) == SlotsTo(img, i, if InUse(img, i) then 141 else 0)
    ensures PosTo(img, i + 1, 0) == PosTo(img, i, if InUse(img, i) then 141 else 0)
    ensures Dots(img, PosTo(img, i + 1, 0), i + 1) == {}
    ensures DotDots(img, PosTo(img, i + 1, 0), i + 1) == {}
  {
    var k := if InUse(img, i) then 141 else 0;
    assert forall s :: s in SlotsTo(img, i + 1, 0) <==> s in SlotsTo(img, i, k);
    assert forall p :: p in PosTo(img, i + 1, 0) <==> p in PosTo(img, i, k);
  }

  /** All of i's own entries have been scanned once slot 141 is reached. */
  lemma FormatDecided(img: Image, i: nat)
    requires WellFormed(img) && IsDir(img, i)
    requires DotsSelf(img, PosTo(img, i, 141))
    ensures DirFormatOk(img, i) <==>
            |Dots(img, PosTo(img, i, 141), i)| == 1 && |DotDots(img, PosTo(img, i, 141), i)| == 1
  {
    assert Dots(img, PosTo(img, i, 141), i) == Dots(img, AllPos(img), i);
    assert DotDots(img, PosTo(img, i, 141), i) == DotDots(img, AllPos(img), i);
  }

  lemma SizeDecided(img: Image, i: nat)
    requires WellFormed(img) && i < img.ninodes
    ensures DataBlocks(img, i) == |DataSlots(img, i, 0, 12)| + |DataSlots(img, i, 13, 141)|
  {
    assert DataSlots(img, i, 0, 141) == DataSlots(img, i, 0, 12) + DataSlots(img, i, 13, 141);
  }

  /** The two tests that close an inode. */
  lemma ClosingTests(img: Image, i: nat)
    requires WellFormed(img) && InUse(img, i) && ClearTo(img, Time(1, i, 142, 0))
    ensures if IsDir(img, i) && !DirFormatOk(img, i) then Reports(img, BadDirectoryFormat)
            else if !SizeOk(img, i) then Reports(img, BadFileSize)
            else ClearTo(img, Time(1, i + 1, 0, 0))
  {
    hide ClearTo, Reports, DirFormatOk, SizeOk;
    var f, z := Format(i), Size(i);
    if Fault(img, f) {
      Found(img, f);
    } else {
      Advance(img, f, Time(1, i, 142, 1));
      if Fault(img, z) {
        Found(img, z);
      } else {
        Advance(img, z, Time(1, i, 142, 2));
        InodeDone(img, i);
      }
    }
  }

  /** The first pass's work on one in-use inode. */
  method CheckInode(img: Image, i: nat, st: nat, ed: nat, visited: array<bool>,
                    inodeindirent: array<int>, parentdotdot: array<int>, parententry: array<int>)
    returns (v: Verdict)
    requires Checkable(img) && InUse(img, i) && KindOk(img, i) && st == Start(img) && ed == img.size
    requires visited.Length == img.size + 1
    requires inodeindirent.Length == parentdotdot.Length == parententry.Length == img.ninodes + 1
    requires inodeindirent != parentdotdot && inodeindirent != parententry && parentdotdot != parententry
    requires VisitState(img, i, 0, visited[..]) && ClearTo(img, Time(1, i, 1, 0))
    requires ScanState(img, PosTo(img, i, 0), i, inodeindirent[..], parentdotdot[..], parententry[..], 0, 0)
    modifies visited, inodeindirent, parentdotdot, parententry
    ensures v.Pass? ==> VisitState(img, i, 141, visited[..])
    ensures v.Pass? ==> TablesOk(img, PosTo(img, i, 141), inodeindirent[..], parentdotdot[..], parententry[..])
    ensures v.Pass? ==> InodeOk(img, i) && ClearTo(img, Time(1, i + 1, 0, 0))
    ensures v.Fail? ==> Reports(img, v.error)
  {
    hide VisitState, CountsOk, DotDotsOk, ParentsOk, DataBlocks, DataSlots, Dots, DotDots, DirFormatOk;
    hide ClearTo, Reports;
    var dircnt, indircnt, cur, par;
    v, dircnt, cur, par :=
      CheckDirectAddress(img, i, st, ed, visited, 0, 0, inodeindirent, parentdotdot, parententry);
    if v.Fail? { return; }
    v, indircnt, cur, par :=
      CheckIndirectAddress(img, i, st, ed, visited, cur, par, inodeindirent, parentdotdot, parententry);
    if v.Fail? { return; }
    var sum := dircnt + indircnt;
    SizeDecided(img, i);
    ClosingTests(img, i);
    if img.inodes[i].kind == T_DIR {
      FormatDecided(img, i);
      if cur != 1 || par != 1 { return Fail(BadDirectoryFormat); }
    }
    if sum == 0 {
      if img.inodes[i].size != 0 { return Fail(BadFileSize); }
    } else {
      if img.inodes[i].size <= (sum - 1) * 512 || img.inodes[i].size > sum * 512 { return Fail(BadFileSize); }
    }
  }

  lemma EmptyTables(img: Image, cnt: seq<int>, dd: seq<int>, pe: seq<int>, visited: seq<bool>)
    requires WellFormed(img)
    requires |cnt| == |dd| == |pe| == img.ninodes + 1 && |visited| == img.size + 1
    requires forall n :: 0 <= n <= img.ninodes ==> cnt[n] == 0 && dd[n] == -1 && pe[n] == -1
    requires forall b :: 0 <= b <= img.size ==> !visited[b]
    ensures TablesOk(img, PosTo(img, 0, 0), cnt, dd, pe)
    ensures VisitState(img, 0, 0, visited)
    ensures Dots(img, PosTo(img, 0, 0), 0) == {} && DotDots(img, PosTo(img, 0, 0), 0) == {}
  {
    assert PosTo(img, 0, 0) == {} && SlotsTo(img, 0, 0) == {};
    forall n: nat | n < img.ninodes ensures |Referrers(img, {}, n)| == 0 {
      assert Referrers(img, {}, n) == {};
    }
    forall n: nat | n <= img.ninodes ensures DotDots(img, {}, n) == {} {}
  }

  lemma KindTest(img: Image, i: nat)
    requires WellFormed(img) && i < img.ninodes && ClearTo(img, Time(1, i, 0, 0))
    ensures !KindOk(img, i) ==> Reports(img, BadInode)
    ensures KindOk(img, i) ==> ClearTo(img, Time(1, i, 1, 0))
    ensures KindOk(img, i) && !InUse(img, i) ==> ClearTo(img, Time(1, i + 1, 0, 0))
  {
    hide ClearTo, Reports;
    if KindOk(img, i) {
      Advance(img, Kind(i), Time(1, i, 0, 1));
      KindDone(img, i);
    } else {
      Found(img, Kind(i));
    }
  }

  method FirstPass(img: Image, st: nat, ed: nat, visited: array<bool>, usedinode: array<bool>,
                   inodeindirent: array<int>, parentdotdot: array<int>, parententry: array<int>)
    returns (v: Verdict)
    requires Checkable(img) && st == Start(img) && ed == img.size
    requires visited != usedinode && visited.Length == img.size + 1 && usedinode.Length == img.ninodes + 1
    requires inodeindirent.Length == parentdotdot.Length == parententry.Length == img.ninodes + 1
    requires inodeindirent != parentdotdot && inodeindirent != parententry && parentdotdot != parententry
    requires VisitState(img, 0, 0, visited[..])
    requires ScanState(img, PosTo(img, 0, 0), 0, inodeindirent[..], parentdotdot[..], parententry[..], 0, 0)
    requires forall j: nat :: j <= img.ninodes ==> !usedinode[j]
    requires ClearTo(img, Time(1, 0, 0, 0))
    modifies visited, usedinode, inodeindirent, parentdotdot, parententry
    ensures v.Pass? ==> VisitState(img, img.ninodes, 0, visited[..]) && ClearTo(img, Time(1, img.ninodes, 0, 0))
    ensures v.Pass? ==> TablesOk(img, AllPos(img), inodeindirent[..], parentdotdot[..], parententry[..])
    ensures v.Pass? ==> forall j: nat :: j < img.ninodes ==> InodeOk(img, j) && (usedinode[j] <==> InUse(img, j))
    ensures v.Fail? ==> Reports(img, v.error)
  {
    hide VisitState, TablesOk, SizeOk, DirFormatOk, ClearTo, Reports;
    var i := 0;
    while i < img.ninodes
      invariant 0 <= i <= img.ninodes
      invariant VisitState(img, i, 0, visited[..]) && ClearTo(img, Time(1, i, 0, 0))
      invariant ScanState(img, PosTo(img, i, 0), i, inodeindirent[..], parentdotdot[..], parententry[..], 0, 0)
      invariant forall j: nat :: j < i ==> InodeOk(img, j)
      invariant forall j: nat :: j <= img.ninodes ==> (usedinode[j] <==> j < i && InUse(img, j))
    {
      var kind := img.inodes[i].kind;
      KindTest(img, i);
      if kind != 0 && kind != 1 && kind != 2 && kind != 3 { return Fail(BadInode); }
      NextInode(img, i);
      if i != 0 && kind != 0 {
        v := CheckInode(img, i, st, ed, visited, inodeindirent, parentdotdot, parententry);
        if v.Fail? { return; }
        usedinode[i] := true;
      }
      VisitNext(img, i, visited[..]);
      i := i + 1;
    }
    return Pass;
  }

  lemma VisitNext(img: Image, i: nat, visited: seq<bool>)
    requires WellFormed(img) && i < img.ninodes
    requires VisitState(img, i, if InUse(img, i) then 141 else 0, visited)
    ensures VisitState(img, i + 1, 0, visited)
  {
    NextInode(img, i);
  }

  /** Every allocated data block was visited. */
  method BitmapPass(img: Image, st: nat, ed: nat, visited: array<bool>) returns (v: Verdict)
    requires WellFormed(img) && st == Start(img) && ed == img.size
    requires visited.Length == img.size + 1
    requires VisitState(img, img.ninodes, 0, visited[..]) && ClearTo(img, Time(2, st, 0, 0))
    ensures v.Pass? <==> forall b: nat :: InData(img, b) ==> BitmapOk(img, b)
    ensures v.Pass? ==> ClearTo(img, Time(3, 1, 0, 0))
    ensures v.Fail? ==> v.error == BitmapMarkedUsed && Reports(img, v.error)
  {
    hide ClearTo, Reports;
    assert AllSlots(img) == SlotsTo(img, img.ninodes, 0);
    var b := st;
    while b < ed
      invariant st <= b && (st <= ed ==> b <= ed) && ClearTo(img, Time(2, b, 0, 0))
      invariant forall c: nat :: st <= c < b && c < ed ==> BitmapOk(img, c)
    {
      assert visited[..][b] <==> Holds(img, AllSlots(img), b);
      if img.bitmap[b] && !visited[b] {
        assert !BitmapOk(img, b);
        Found(img, Marked(b));
        return Fail(BitmapMarkedUsed);
      }
      BlockDone(img, b);
      b := b + 1;
    }
    PassDone(img);
    return Pass;
  }

  /** With one ".." per directory, the recorded table is the image's parent table. */
  lemma TableIsParentTable(img: Image, dd: seq<int>)
    requires WellFormed(img) && DotDotsOk(img, AllPos(img), dd)
    requires forall i: nat :: IsDir(img, i) ==> |DotDots(img, AllPos(img), i)| == 1
    ensures dd == ParentTable(img)
  {
    hide Entry, DotDotEntry;
    forall n: nat | n <= img.ninodes ensures dd[n] == DotDot(img, n) {
      assert DotDots(img, AllPos(img), n) != {} ==> IsDir(img, n);
      OneDotDot(img, dd, n);
    }
  }

  lemma OneDotDot(img: Image, dd: seq<int>, n: nat)
    requires WellFormed(img) && DotDotsOk(img, AllPos(img), dd) && n <= img.ninodes
    requires DotDots(img, AllPos(img), n) != {} ==> |DotDots(img, AllPos(img), n)| == 1
    ensures dd[n] == DotDot(img, n)
  {
    hide Entry;
    var D := DotDots(img, AllPos(img), n);
    if D != {} {
      var p :| p in D && Entry(img, p).inum == dd[n];
      SingletonIs(D, p);
    }
  }

  /** A non-root directory with one link is held by exactly one ordinary entry. */
  lemma ParentDecided(img: Image, i: nat, dd: seq<int>, pe: seq<int>)
    requires WellFormed(img) && IsDir(img, i) && i != ROOTINO && Links(img, i) == 1
    requires ParentsOk(img, AllPos(img), pe) && dd == ParentTable(img)
    ensures ParentOk(img, i) <==> pe[i] != -1 && dd[i] == pe[i]
  {
    hide Links, Names, DotDot;
    if p :| p in AllPos(img) && Names(img, p, i) && p.ino == pe[i] {
      forall q | q in AllPos(img) && Names(img, q, i) ensures q == p { OneNamer(img, i, p, q); }
    }
  }

  lemma OneNamer(img: Image, i: nat, p: Pos, q: Pos)
    requires WellFormed(img) && Links(img, i) == 1 && p in AllPos(img) && q in AllPos(img)
    requires Names(img, p, i) && Names(img, q, i)
    ensures p == q
  {
    hide Names;
    var R := Referrers(img, AllPos(img), i);
    assert p in R && q in R;
    SingletonIs(R, p);
  }

  /** What the reference pass needs of the tables. */
  ghost predicate FinalTables(img: Image, cnt: seq<int>, dd: seq<int>, pe: seq<int>)
    requires WellFormed(img)
  {
    && |cnt| == |dd| == |pe| == img.ninodes + 1
    && (forall n: nat :: n < img.ninodes ==> cnt[n] == Links(img, n))
    && dd == ParentTable(img)
    && (forall x :: 0 <= x < |dd| ==> -1 <= dd[x] < |dd|)
    && ParentsOk(img, AllPos(img), pe)
  }

  lemma TablesFinal(img: Image, cnt: seq<int>, dd: seq<int>, pe: seq<int>)
    requires Checkable(img)
    requires TablesOk(img, AllPos(img), cnt, dd, pe)
    requires forall j: nat :: j < img.ninodes ==> InodeOk(img, j)
    ensures FinalTables(img, cnt, dd, pe)
  {
    assert |pe| == img.ninodes + 1;
    hide ParentsOk;
    forall j: nat | IsDir(img, j) ensures |DotDots(img, AllPos(img), j)| == 1 { assert InodeOk(img, j); }
    TableIsParentTable(img, dd);
    forall x | 0 <= x < |dd| ensures -1 <= dd[x] < |dd| { TableInRange(img, x); }
  }

  /** What inode i's reference tests report, the first that fails deciding. */
  lemma ReferenceTestsInOrder(img: Image, i: nat)
    requires WellFormed(img) && 1 <= i < img.ninodes && ClearTo(img, Time(3, i, 0, 0))
    ensures var links, kind := Links(img, i), img.inodes[i].kind;
            if InUse(img, i) && links == 0 then Reports(img, UsedInodeNotFound)
            else if !InUse(img, i) && links > 0 then Reports(img, InodeReferredFree)
            else if kind == T_FILE && img.inodes[i].nlink != links then Reports(img, BadReferenceCount)
            else if kind == T_DIR && links != 1 then Reports(img, DirectoryOnce)
            else if kind == T_DIR && !ParentOk(img, i) then Reports(img, ParentMismatch)
            else if kind == T_DIR && !ReachesRoot(ParentTable(img), i) then Reports(img, InaccessibleDirectory)
            else ClearTo(img, Time(3, i + 1, 0, 0))
  {
    hide Links, ParentOk, ReachesRoot, ParentTable, ClearTo, Reports;
    if Fault(img, Orphan(i)) {
      Found(img, Orphan(i));
    } else if Fault(img, Referred(i)) {
      ReferenceDone(img, i, 1);
      Found(img, Referred(i));
    } else if Fault(img, FileLinks(i)) {
      ReferenceDone(img, i, 2);
      Found(img, FileLinks(i));
    } else if Fault(img, DirLinks(i)) {
      ReferenceDone(img, i, 3);
      Found(img, DirLinks(i));
    } else if Fault(img, Parent(i)) {
      ReferenceDone(img, i, 4);
      Found(img, Parent(i));
    } else if Fault(img, Chain(i)) {
      ReferenceDone(img, i, 5);
      Found(img, Chain(i));
    } else {
      ReferenceDone(img, i, 6);
    }
  }

  /** The reference pass's tests on one inode. */
  method CheckReference(img: Image, i: nat, used: bool, inodeindirent: array<int>,
                        parentdotdot: array<int>, parententry: array<int>)
    returns (v: Verdict)
    requires WellFormed(img) && 1 <= i < img.ninodes && (used <==> InUse(img, i))
    requires FinalTables(img, inodeindirent[..], parentdotdot[..], parententry[..])
    requires ClearTo(img, Time(3, i, 0, 0))
    ensures v.Pass? <==> ReferenceOk(img, i)
    ensures v.Pass? ==> ClearTo(img, Time(3, i + 1, 0, 0))
    ensures v.Fail? ==> Reports(img, v.error)
  {
    hide Links, ParentOk, ReachesRoot, ParentTable, ParentsOk, ClearTo, Reports;
    ReferenceTestsInOrder(img, i);
    var kind := img.inodes[i].kind;
    assert inodeindirent[..][i] == Links(img, i);
    if used && inodeindirent[i] == 0 { return Fail(UsedInodeNotFound); }
    if !used && inodeindirent[i] != 0 { return Fail(InodeReferredFree); }
    if kind == T_FILE && img.inodes[i].nlink != inodeindirent[i] { return Fail(BadReferenceCount); }
    if kind == T_DIR && inodeindirent[i] != 1 { return Fail(DirectoryOnce); }
    if kind == T_DIR {
      assert -1 <= parentdotdot[..][i];
      assert forall x :: 0 <= x < parentdotdot.Length ==> parentdotdot[x] == parentdotdot[..][x];
      if i == ROOTINO {
        RootParentDecided(img, parentdotdot[..]);
        if parentdotdot[i] != ROOTINO { return Fail(ParentMismatch); }
      } else {
        ParentDecided(img, i, parentdotdot[..], parententry[..]);
        if parententry[i] == -1 || parentdotdot[i] != parententry[i] { return Fail(ParentMismatch); }
      }
      var ok, steps := WalkToRoot(parentdotdot, i);
      if !ok { return Fail(InaccessibleDirectory); }
    }
    return Pass;
  }

  method ReferencePass(img: Image, usedinode: array<bool>, inodeindirent: array<int>,
                       parentdotdot: array<int>, parententry: array<int>)
    returns (v: Verdict)
    requires WellFormed(img) && usedinode.Length == img.ninodes + 1
    requires FinalTables(img, inodeindirent[..], parentdotdot[..], parententry[..])
    requires forall j: nat :: j < img.ninodes ==> (usedinode[j] <==> InUse(img, j))
    requires ClearTo(img, Time(3, 1, 0, 0))
    ensures v.Pass? <==> forall i: nat :: 1 <= i < img.ninodes ==> ReferenceOk(img, i)
    ensures v.Fail? ==> Reports(img, v.error)
  {
    hide FinalTables, ReferenceOk, ClearTo, Reports;
    var i := 1;
    while i < img.ninodes
      invariant 1 <= i && ClearTo(img, Time(3, i, 0, 0))
      invariant forall j: nat :: 1 <= j < i && j < img.ninodes ==> ReferenceOk(img, j)
    {
      v := CheckReference(img, i, usedinode[i], inodeindirent, parentdotdot, parententry);
      if v.Fail? { return; }
      i := i + 1;
    }
    return Pass;
  }

  lemma RootParentDecided(img: Image, dd: seq<int>)
    requires WellFormed(img) && 1 < |dd| && dd == ParentTable(img)
    ensures ParentOk(img, ROOTINO) <==> dd[ROOTINO] == ROOTINO
  {}

  lemma TableInRange(img: Image, x: nat)
    requires Checkable(img)
    ensures -1 <= DotDot(img, x) <= img.ninodes
  {}

  /** The checker as a whole. It passes an image exactly when the image is consistent.
      Otherwise it reports the first fault in the order of its tests. */
  method CheckImage(img: Image) returns (v: Verdict)
    requires Checkable(img)
    ensures v.Pass? <==> Consistent(img)
    ensures v.Fail? ==> Reports(img, v.error) && Violates(img, v.error)
  {
    hide Reports, Violates, ClearTo, Consistent;
    var st, ed;
    v, st, ed := CheckSize(img);
    StartTest(img);
    if v.Pass? { v := Helper(img, st, ed); }
    if v.Fail? {
      ReportViolates(img, v.error);
      ViolationRefutes(img, v.error);
    }
  }

  lemma StartTest(img: Image)
    requires WellFormed(img)
    ensures if SuperblockOk(img) then ClearTo(img, Time(1, 0, 0, 0)) else Reports(img, BadSuperblock)
  {
    PassDone(img);
    if !SuperblockOk(img) {
      assert ClearTo(img, Time(0, 0, 0, 0));
      Found(img, Superblock);
    }
  }

  /** What the three passes establish together. */
  lemma PassesDecide(img: Image, visited: seq<bool>)
    requires WellFormed(img) && SuperblockOk(img)
    requires VisitState(img, img.ninodes, 0, visited)
    requires forall j: nat :: j < img.ninodes ==> InodeOk(img, j)
    requires forall b: nat :: InData(img, b) ==> BitmapOk(img, b)
    requires forall i: nat :: 1 <= i < img.ninodes ==> ReferenceOk(img, i)
    ensures Consistent(img)
  {
    hide SizeOk, DirFormatOk, BitmapOk, LinksOk, ParentOk, ReachesRoot, SlotsGood, ParentTable;
    assert AllSlots(img) == SlotsTo(img, img.ninodes, 0);
    forall i: nat | i < img.ninodes
      ensures KindOk(img, i) && (InUse(img, i) ==> SizeOk(img, i)) && (IsDir(img, i) ==> DirFormatOk(img, i))
    {
      assert InodeOk(img, i);
    }
    forall i: nat | 1 <= i < img.ninodes
      ensures LinksOk(img, i) && (IsDir(img, i) ==> ParentOk(img, i) && ReachesRoot(ParentTable(img), i))
    {
      assert ReferenceOk(img, i);
    }
  }

  method Helper(img: Image, st: nat, ed: nat) returns (v: Verdict)
    requires Checkable(img) && SuperblockOk(img) && st == Start(img) && ed == img.size
    requires ClearTo(img, Time(1, 0, 0, 0))
    ensures v.Pass? ==> Consistent(img)
    ensures v.Fail? ==> Reports(img, v.error)
  {
    var blkvisited := new bool[img.size + 1](_ => false);
    var usedinode := new bool[img.ninodes + 1](_ => false);
    var inodeindirent := new int[img.ninodes + 1](_ => 0);
    var parentdotdot := new int[img.ninodes + 1](_ => -1);
    var parententry := new int[img.ninodes + 1](_ => -1);
    EmptyTables(img, inodeindirent[..], parentdotdot[..], parententry[..], blkvisited[..]);
    hide TablesOk, VisitState, InodeOk, BitmapOk, ReferenceOk, FinalTables, Reports, ClearTo, Consistent;
    PassDone(img);
    v := FirstPass(img, st, ed, blkvisited, usedinode, inodeindirent, parentdotdot, parententry);
    if v.Fail? { return; }
    v := BitmapPass(img, st, ed, blkvisited);
    if v.Fail? { return; }
    TablesFinal(img, inodeindirent[..], parentdotdot[..], parententry[..]);
    v := ReferencePass(img, usedinode, inodeindirent, parentdotdot, parententry);
    if v.Pass? { PassesDecide(img, blkvisited[..]); }
  }
}
