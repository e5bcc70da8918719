/** The recursive lister (lsfs.c). It has no cycle guard; on an accepted image
    the tree theorem gives the measure that makes it terminate. */
module Lister {
  import opened Layout
  import opened FsImage
  import opened Tree
  import opened Cards
  import opened Preorder

  /** One printed line: a directory header, or a file or device entry. */
  datatype Line = DirLine(inum: nat) | FileLine(inum: nat) | DevLine(inum: nat)

  /** Ordinary entries at or below directory d. */
  ghost function Below(img: Image, d: nat): (r: set<Pos>)
    requires WellFormed(img) && Consistent(img) && IsDir(img, d)
    ensures forall q :: q in r ==> IsPos(img, q)
  {
    set q | q in AllPos(img) && OrdinaryEntry(Entry(img, q)) && TPath(img, d) <= TPath(img, q.ino)
  }

  /** The entry of d itself through which q is reached from d. */
  ghost function Branch(img: Image, d: nat, q: Pos): Pos
    requires WellFormed(img) && Consistent(img) && IsDir(img, d) && q in Below(img, d)
  {
    if TPath(img, q.ino) == TPath(img, d) then q else TPath(img, q.ino)[|TPath(img, d)|]
  }

  ghost function Through(img: Image, d: nat, B: set<Pos>): (r: set<Pos>)
    requires WellFormed(img) && Consistent(img) && IsDir(img, d)
    ensures forall q :: q in r ==> IsPos(img, q)
  {
    set q | q in Below(img, d) && Branch(img, d, q) in B
  }

  lemma BranchIsEntry(img: Image, d: nat, q: Pos)
    requires WellFormed(img) && Consistent(img) && IsDir(img, d) && q in Below(img, d)
    ensures var p := Branch(img, d, q);
            && IsPos(img, p) && p.ino == d && OrdinaryEntry(Entry(img, p))
            && (q != p ==> IsDir(img, Entry(img, p).inum) && q in Below(img, Entry(img, p).inum))
  {
    hide Consistent;
    if TPath(img, q.ino) == TPath(img, d) {
      SamePath(img, q.ino, d, TPath(img, d));
    } else {
      PathStep(img, d, q.ino, |TPath(img, d)|);
    }
  }

  /** A child's entries are below the parent, through the child's own entry. */
  lemma BelowChild(img: Image, p: Pos, q: Pos)
    requires WellFormed(img) && Consistent(img) && IsPos(img, p) && OrdinaryEntry(Entry(img, p))
    requires IsDir(img, Entry(img, p).inum) && q in Below(img, Entry(img, p).inum)
    ensures q != p && q in Below(img, p.ino) && Branch(img, p.ino, q) == p
  {
    hide Consistent;
    ChildTPath(img, p);
    assert TPath(img, p.ino) <= TPath(img, q.ino);
    assert TPath(img, q.ino)[|TPath(img, p.ino)|] == p;
  }

  lemma BelowShrinks(img: Image, p: Pos)
    requires WellFormed(img) && Consistent(img) && IsPos(img, p) && OrdinaryEntry(Entry(img, p))
    requires IsDir(img, Entry(img, p).inum)
    ensures |Below(img, Entry(img, p).inum)| < |Below(img, p.ino)|
  {
    hide Consistent;
    var C, D := Below(img, Entry(img, p).inum), Below(img, p.ino);
    forall q | q in C ensures q in D && q != p { BelowChild(img, p, q); }
    assert p in D;
    ProperSubsetCard(C, D, p);
  }

  /** What is reached through one entry of d: the entry itself and, for a directory, all below it. */
  lemma ThroughEntry(img: Image, p: Pos)
    requires WellFormed(img) && Consistent(img) && IsPos(img, p)
    ensures Through(img, p.ino, {p}) ==
            (if !OrdinaryEntry(Entry(img, p)) then {}
             else if IsDir(img, Entry(img, p).inum) then {p} + Below(img, Entry(img, p).inum)
             else {p})
    ensures OrdinaryEntry(Entry(img, p)) && IsDir(img, Entry(img, p).inum) ==>
            p !in Below(img, Entry(img, p).inum)
  {
    hide Consistent;
    var d, c := p.ino, Entry(img, p).inum;
    var T := Through(img, d, {p});
    forall q | q in T ensures OrdinaryEntry(Entry(img, p)) && (q == p || (IsDir(img, c) && q in Below(img, c))) {
      BranchIsEntry(img, d, q);
    }
    if OrdinaryEntry(Entry(img, p)) {
      assert p in T;
      if IsDir(img, c) {
        forall q | q in Below(img, c) ensures q in T && q != p { BelowChild(img, p, q); }
      }
    }
  }

  /* ---- tallies ---- */

  ghost function KindOf(img: Image, n: nat): int
    requires WellFormed(img)
  {
    if 1 <= n < img.ninodes then img.inodes[n].kind else T_FREE
  }

  function LineKind(l: Line): int {
    match l case DirLine(_) => T_DIR case FileLine(_) => T_FILE case DevLine(_) => T_DEV
  }

  ghost function Expected(img: Image, Q: set<Pos>, l: Line): nat
    requires WellFormed(img) && forall q :: q in Q ==> IsPos(img, q)
  {
    if KindOf(img, l.inum) == LineKind(l) then |Namers(img, Q, l.inum)| else 0
  }

  /** `out` has one line for every entry of Q, each of the right kind. */
  ghost predicate Tally(img: Image, out: seq<Line>, Q: set<Pos>)
    requires WellFormed(img) && forall q :: q in Q ==> IsPos(img, q)
  {
    forall l :: multiset(out)[l] == Expected(img, Q, l)
  }

  lemma TallyAdd(img: Image, a: seq<Line>, A: set<Pos>, b: seq<Line>, B: set<Pos>)
    requires WellFormed(img) && A !! B
    requires forall q :: q in A + B ==> IsPos(img, q)
    requires Tally(img, a, A) && Tally(img, b, B)
    ensures Tally(img, a + b, A + B)
  {
    forall l: Line ensures multiset(a + b)[l] == Expected(img, A + B, l) {
      assert multiset(a + b)[l] == multiset(a)[l] + multiset(b)[l];
      assert Namers(img, A + B, l.inum) == Namers(img, A, l.inum) + Namers(img, B, l.inum);
    }
  }

  lemma TallyEmpty(img: Image)
    requires WellFormed(img)
    ensures Tally(img, [], {})
  {
    forall l: Line ensures Expected(img, {}, l) == 0 { assert Namers(img, {}, l.inum) == {}; }
  }

  function LineOf(kind: int, n: nat): Line {
    if kind == T_DIR then DirLine(n) else if kind == T_FILE then FileLine(n) else DevLine(n)
  }

  lemma TallyOne(img: Image, p: Pos)
    requires WellFormed(img) && IsPos(img, p) && OrdinaryEntry(Entry(img, p))
    requires InUse(img, Entry(img, p).inum) && KindOk(img, Entry(img, p).inum)
    ensures Tally(img, [LineOf(img.inodes[Entry(img, p).inum].kind, Entry(img, p).inum)], {p})
  {
    var c := Entry(img, p).inum;
    var line := LineOf(img.inodes[c].kind, c);
    forall l: Line ensures multiset([line])[l] == Expected(img, {p}, l) {
      assert Namers(img, {p}, l.inum) == if l.inum == c then {p} else {};
    }
  }

  /** An ordinary entry of an accepted image names an in-use inode. */
  lemma NamedInUse(img: Image, p: Pos)
    requires Checkable(img) && Consistent(img) && IsPos(img, p) && OrdinaryEntry(Entry(img, p))
    ensures InUse(img, Entry(img, p).inum) && KindOk(img, Entry(img, p).inum)
  {
    hide SlotsGood, SizeOk, DirFormatOk, BitmapOk, ParentOk, ReachesRoot;
    var c := Entry(img, p).inum;
    assert p in Referrers(img, AllPos(img), c);
    assert LinksOk(img, c);
  }

  /** Positions of directory d in slots below k. */
  ghost function DirPos(img: Image, d: nat, k: nat): (r: set<Pos>)
    requires WellFormed(img)
    ensures forall p :: p in r <==> IsPos(img, p) && p.ino == d && p.k < k
  {
    set p | p in AllPos(img) && p.ino == d && p.k < k
  }

  lemma DirPosStep(img: Image, d: nat, k: nat)
    requires WellFormed(img) && k < 141
    ensures DirPos(img, d, k + 1) == if IsDirSlot(img, d, k) then DirPos(img, d, k) + BlockPos(d, k, 32)
                                     else DirPos(img, d, k)
  {
    assert forall p :: p in DirPos(img, d, k + 1) <==>
             p in DirPos(img, d, k) || (IsDirSlot(img, d, k) && p in BlockPos(d, k, 32));
  }

  lemma DirSlots(img: Image, d: nat, k: nat)
    requires WellFormed(img) && Consistent(img) && IsDir(img, d) && k < 141
    ensures Ref(img, d, k) != 0 ==> InData(img, Ref(img, d, k))
  {
    assert Slot(d, k) in AllSlots(img);
    assert SlotOk(img, Slot(d, k));
  }

  lemma ThroughAll(img: Image, d: nat)
    requires WellFormed(img) && Consistent(img) && IsDir(img, d)
    ensures Through(img, d, DirPos(img, d, 141)) == Below(img, d)
  {
    hide Consistent;
    forall q | q in Below(img, d) ensures Branch(img, d, q) in DirPos(img, d, 141) { BranchIsEntry(img, d, q); }
  }

  /* ---- the order of the lines ---- */

  /** The entries from the root down to q. */
  ghost function FullPath(img: Image, q: Pos): seq<Pos>
    requires WellFormed(img) && Consistent(img) && IsPos(img, q)
  {
    TPath(img, q.ino) + [q]
  }

  /** q comes after p in the depth-first order. */
  ghost predicate Precedes(img: Image, p: Pos, q: Pos)
    requires WellFormed(img) && Consistent(img) && IsPos(img, p) && IsPos(img, q)
  {
    PathBefore(FullPath(img, p), FullPath(img, q))
  }

  /** Through an earlier entry of directory d, earlier. */
  lemma SiblingOrder(img: Image, d: nat, x: Pos, y: Pos)
    requires WellFormed(img) && Consistent(img) && IsDir(img, d) && x in Below(img, d) && y in Below(img, d)
    requires EntryBefore(Branch(img, d, x), Branch(img, d, y))
    ensures Precedes(img, x, y)
  {
    hide Consistent;
    var t, a, b := TPath(img, d), FullPath(img, x), FullPath(img, y);
    assert a[..|t|] == t && b[..|t|] == t;
    assert a[|t|] == Branch(img, d, x) && b[|t|] == Branch(img, d, y);
    assert PartAt(a, b, |t|);
  }

  /** A directory's own entry comes before all below it. */
  lemma HeaderOrder(img: Image, p: Pos, y: Pos)
    requires WellFormed(img) && Consistent(img) && IsPos(img, p) && OrdinaryEntry(Entry(img, p))
    requires IsDir(img, Entry(img, p).inum) && y in Below(img, Entry(img, p).inum)
    ensures Precedes(img, p, y)
  {
    hide Consistent;
    ChildTPath(img, p);
    var a, b := FullPath(img, p), FullPath(img, y);
    assert a == TPath(img, Entry(img, p).inum) && b[..|a|] == a;
    assert PartAt(a, b, |a|);
  }

  /** The line that stands for entry q. */
  ghost function LineAt(img: Image, q: Pos): Line
    requires WellFormed(img) && IsPos(img, q)
  {
    var n := Entry(img, q).inum;
    LineOf(KindOf(img, n), n)
  }

  /** Line n of `out` stands for entry at[n]; together they stand for the entries of Q, in depth-first order. */
  ghost predicate Labelled(img: Image, out: seq<Line>, at: seq<Pos>, Q: set<Pos>)
    requires WellFormed(img) && Consistent(img) && forall q :: q in Q ==> IsPos(img, q)
  {
    && |at| == |out|
    && (forall n :: 0 <= n < |at| ==> at[n] in Q && out[n] == LineAt(img, at[n]))
    && (forall q :: q in Q ==> q in at)
    && (forall n, m :: 0 <= n < m < |at| ==> at[n] in Q && at[m] in Q && Precedes(img, at[n], at[m]))
  }

  /** `out` has the lines of Q, counted and in order. */
  ghost predicate Lists(img: Image, out: seq<Line>, at: seq<Pos>, Q: set<Pos>)
    requires WellFormed(img) && Consistent(img) && forall q :: q in Q ==> IsPos(img, q)
  {
    Tally(img, out, Q) && Labelled(img, out, at, Q)
  }

  lemma LabelledAdd(img: Image, a: seq<Line>, la: seq<Pos>, A: set<Pos>, b: seq<Line>, lb: seq<Pos>, B: set<Pos>)
    requires WellFormed(img) && Consistent(img) && forall q :: q in A + B ==> IsPos(img, q)
    requires Labelled(img, a, la, A) && Labelled(img, b, lb, B)
    requires forall x, y :: x in A && y in B ==> Precedes(img, x, y)
    ensures Labelled(img, a + b, la + lb, A + B)
  {
    hide Consistent, Precedes, LineAt;
    var at, out, Q := la + lb, a + b, A + B;
    forall q | q in Q ensures q in at { assert q in la || q in lb; }
    forall n | 0 <= n < |at| ensures at[n] in Q && out[n] == LineAt(img, at[n]) {
      if n < |la| { assert la[n] in A; } else { assert lb[n - |la|] in B; }
    }
    hide WellFormed, IsPos;
    forall n, m | 0 <= n < m < |at| ensures at[n] in Q && at[m] in Q && Precedes(img, at[n], at[m]) {
      if m < |la| {
        assert Precedes(img, la[n], la[m]);
      } else if n >= |la| {
        assert Precedes(img, lb[n - |la|], lb[m - |la|]);
      } else {
        assert la[n] in A && lb[m - |la|] in B;
      }
    }
  }

  lemma ListsNone(img: Image)
    requires WellFormed(img) && Consistent(img)
    ensures Lists(img, [], [], {})
  {
    TallyEmpty(img);
    hide Consistent;
  }

  /** Lines through later entries of directory d follow lines through earlier ones. */
  lemma ListsMore(img: Image, d: nat, a: seq<Line>, la: seq<Pos>, A: set<Pos>, b: seq<Line>, lb: seq<Pos>, B: set<Pos>)
    requires WellFormed(img) && Consistent(img) && IsDir(img, d)
    requires Lists(img, a, la, Through(img, d, A)) && Lists(img, b, lb, Through(img, d, B))
    requires forall p, q :: p in A && q in B ==> EntryBefore(p, q)
    ensures Lists(img, a + b, la + lb, Through(img, d, A + B))
  {
    ThroughUnion(img, d, A, B);
    hide Consistent, Tally, Labelled, Precedes, Below, Branch;
    var TA, TB := Through(img, d, A), Through(img, d, B);
    forall x, y | x in TA && y in TB ensures Precedes(img, x, y) { SiblingOrder(img, d, x, y); }
    LabelledAdd(img, a, la, TA, b, lb, TB);
    TallyAdd(img, a, TA, b, TB);
  }

  lemma ThroughUnion(img: Image, d: nat, A: set<Pos>, B: set<Pos>)
    requires WellFormed(img) && Consistent(img) && IsDir(img, d)
    requires forall p, q :: p in A && q in B ==> EntryBefore(p, q)
    ensures Through(img, d, A + B) == Through(img, d, A) + Through(img, d, B)
    ensures Through(img, d, A) !! Through(img, d, B)
  {
    hide Consistent, Below, Branch;
    assert forall p :: p in A ==> p !in B;
    assert forall q :: q in Through(img, d, A + B) <==> q in Through(img, d, A) || q in Through(img, d, B);
  }

  lemma OrderOfLabels(img: Image, out: seq<Line>, at: seq<Pos>, Q: set<Pos>, n: nat, m: nat)
    requires WellFormed(img) && Consistent(img) && forall x :: x in Q ==> IsPos(img, x)
    requires Labelled(img, out, at, Q) && n < |at| && m < |at| && Precedes(img, at[n], at[m])
    ensures n < m
  {
    hide Consistent, PathBefore, TPath;
    PathOrder(FullPath(img, at[n]), FullPath(img, at[m]));
    assert !Precedes(img, at[m], at[n]) && at[n] != at[m];
  }

  /** Lines through an earlier entry of a directory come before lines through a later one. */
  lemma EntriesInOrder(img: Image, out: seq<Line>, at: seq<Pos>, Q: set<Pos>, d: nat, p: Pos, q: Pos, n: nat, m: nat)
    requires WellFormed(img) && Consistent(img) && IsDir(img, d) && forall x :: x in Q ==> IsPos(img, x)
    requires Labelled(img, out, at, Q) && n < |at| && m < |at|
    requires p.k < q.k || (p.k == q.k && p.e < q.e)
    requires at[n] in Through(img, d, {p}) && at[m] in Through(img, d, {q})
    ensures n < m
  {
    hide Consistent, Below, Branch;
    SiblingOrder(img, d, at[n], at[m]);
    OrderOfLabels(img, out, at, Q, n, m);
  }

  /** A directory's header comes before every line below it. */
  lemma HeaderFirst(img: Image, out: seq<Line>, at: seq<Pos>, Q: set<Pos>, n: nat, m: nat)
    requires WellFormed(img) && Consistent(img) && forall x :: x in Q ==> IsPos(img, x)
    requires Labelled(img, out, at, Q) && n < |at| && m < |at| && OrdinaryEntry(Entry(img, at[n]))
    requires IsDir(img, Entry(img, at[n]).inum) && at[m] in Below(img, Entry(img, at[n]).inum)
    ensures n < m
  {
    hide Consistent, Below;
    HeaderOrder(img, at[n], at[m]);
    OrderOfLabels(img, out, at, Q, n, m);
  }

  ghost function Paths(img: Image, at: seq<Pos>): (r: seq<seq<Pos>>)
    requires WellFormed(img) && Consistent(img) && forall n :: 0 <= n < |at| ==> IsPos(img, at[n])
    ensures |r| == |at| && forall n :: 0 <= n < |at| ==> r[n] == FullPath(img, at[n])
  {
    seq(|at|, n requires 0 <= n < |at| => FullPath(img, at[n]))
  }

  /** So the listing of a set of entries is determined, line by line. */
  lemma OneListing(img: Image, a: seq<Line>, la: seq<Pos>, b: seq<Line>, lb: seq<Pos>, Q: set<Pos>)
    requires WellFormed(img) && Consistent(img) && forall q :: q in Q ==> IsPos(img, q)
    requires Labelled(img, a, la, Q) && Labelled(img, b, lb, Q)
    ensures a == b
  {
    hide Consistent, Labelled, Ascending;
    LabelledPaths(img, a, la, Q);
    LabelledPaths(img, b, lb, Q);
    OneOrder(Paths(img, la), Paths(img, lb));
    PathsTell(img, la, lb);
    LabelledLines(img, a, la, b, Q);
  }

  /** The paths of labelled lines are those of Q, in order. */
  lemma LabelledPaths(img: Image, out: seq<Line>, at: seq<Pos>, Q: set<Pos>)
    requires WellFormed(img) && Consistent(img) && (forall q :: q in Q ==> IsPos(img, q)) && Labelled(img, out, at, Q)
    ensures forall n :: 0 <= n < |at| ==> IsPos(img, at[n])
    ensures Ascending(Paths(img, at))
    ensures forall x :: x in Paths(img, at) <==> exists q :: q in Q && FullPath(img, q) == x
  {
    hide Consistent, PathBefore, LineAt, FullPath;
    var paths := Paths(img, at);
    forall n, m | 0 <= n < m < |paths| ensures PathBefore(paths[n], paths[m]) { assert Precedes(img, at[n], at[m]); }
    forall q | q in Q ensures FullPath(img, q) in paths {
      var n :| 0 <= n < |at| && at[n] == q;
      assert paths[n] == FullPath(img, q);
    }
    forall x | x in paths ensures exists q :: q in Q && FullPath(img, q) == x {
      var n :| 0 <= n < |paths| && paths[n] == x;
      assert at[n] in Q;
    }
  }

  lemma PathsTell(img: Image, la: seq<Pos>, lb: seq<Pos>)
    requires WellFormed(img) && Consistent(img)
    requires forall n :: 0 <= n < |la| ==> IsPos(img, la[n])
    requires forall n :: 0 <= n < |lb| ==> IsPos(img, lb[n])
    requires Paths(img, la) == Paths(img, lb)
    ensures la == lb
  {
    hide Consistent, TPath;
    var pa, pb := Paths(img, la), Paths(img, lb);
    forall n | 0 <= n < |la| ensures la[n] == lb[n] {
      assert pa[n][|pa[n]| - 1] == la[n] && pb[n][|pb[n]| - 1] == lb[n];
    }
  }

  lemma LabelledLines(img: Image, a: seq<Line>, at: seq<Pos>, b: seq<Line>, Q: set<Pos>)
    requires WellFormed(img) && Consistent(img) && forall q :: q in Q ==> IsPos(img, q)
    requires Labelled(img, a, at, Q) && Labelled(img, b, at, Q)
    ensures a == b
  {
    hide Consistent, Precedes, LineAt;
  }

  /* ---- the lister ---- */

  /** One entry; its subtree when it is a directory. */
  method WalkEntry(img: Image, d: nat, ghost k: nat, ghost e: nat, ent: Dirent)
    returns (out: seq<Line>, ghost at: seq<Pos>)
    requires Checkable(img) && Consistent(img) && IsPos(img, Pos(d, k, e)) && ent == Entry(img, Pos(d, k, e))
    ensures Lists(img, out, at, Through(img, d, {Pos(d, k, e)}))
    decreases |Below(img, d)|, 0
  {
    hide Consistent, Lists, Through, Below;
    ghost var p := Pos(d, k, e);
    if ent.inum == 0 || CStr(ent.name) == DOT || CStr(ent.name) == DOTDOT {
      SkippedEntry(img, p);
      return [], [];
    }
    NamedInUse(img, p);
    var kind := img.inodes[ent.inum].kind;
    if kind == T_DIR {
      BelowShrinks(img, p);
      ghost var below;
      out, below := LsDir(img, ent.inum);
      at := [p] + below;
      DirEntry(img, p, out, below);
    } else {
      out := [if kind == T_FILE then FileLine(ent.inum) else DevLine(ent.inum)];
      at := [p];
      LeafEntry(img, p);
    }
  }

  lemma SkippedEntry(img: Image, p: Pos)
    requires WellFormed(img) && Consistent(img) && IsPos(img, p) && !OrdinaryEntry(Entry(img, p))
    ensures Lists(img, [], [], Through(img, p.ino, {p}))
  {
    hide Consistent, Through, Below, Lists;
    ThroughEntry(img, p);
    ListsNone(img);
  }

  lemma OneLine(img: Image, p: Pos)
    requires WellFormed(img) && Consistent(img) && IsPos(img, p) && OrdinaryEntry(Entry(img, p))
    requires InUse(img, Entry(img, p).inum) && KindOk(img, Entry(img, p).inum)
    ensures Lists(img, [LineAt(img, p)], [p], {p})
  {
    hide Consistent;
    TallyOne(img, p);
    hide Tally;
  }

  lemma LeafEntry(img: Image, p: Pos)
    requires WellFormed(img) && Consistent(img) && IsPos(img, p) && OrdinaryEntry(Entry(img, p))
    requires InUse(img, Entry(img, p).inum) && !IsDir(img, Entry(img, p).inum) && KindOk(img, Entry(img, p).inum)
    ensures var n := Entry(img, p).inum;
            Lists(img, [LineOf(img.inodes[n].kind, n)], [p], Through(img, p.ino, {p}))
  {
    hide Consistent, Lists, Through, Below;
    ThroughEntry(img, p);
    OneLine(img, p);
  }

  /** A directory's header line stands for its own entry. */
  lemma DirEntry(img: Image, p: Pos, out: seq<Line>, below: seq<Pos>)
    requires WellFormed(img) && Consistent(img) && IsPos(img, p) && OrdinaryEntry(Entry(img, p))
    requires IsDir(img, Entry(img, p).inum) && |out| > 0 && out[0] == DirLine(Entry(img, p).inum)
    requires Lists(img, out[1..], below, Below(img, Entry(img, p).inum))
    ensures Lists(img, out, [p] + below, Through(img, p.ino, {p}))
  {
    hide Consistent, Tally, Labelled, Through, Below, Precedes;
    var c := Entry(img, p).inum;
    ThroughEntry(img, p);
    OneLine(img, p);
    assert LineAt(img, p) == DirLine(c);
    forall x, y | x in {p} && y in Below(img, c) ensures Precedes(img, x, y) { HeaderOrder(img, p, y); }
    LabelledAdd(img, [DirLine(c)], [p], {p}, out[1..], below, Below(img, c));
    TallyAdd(img, [DirLine(c)], {p}, out[1..], Below(img, c));
    assert out == [DirLine(c)] + out[1..];
  }

  method WalkDirblock(img: Image, blkno: nat, d: nat, ghost k: nat) returns (out: seq<Line>, ghost at: seq<Pos>)
    requires Checkable(img) && Consistent(img) && IsDirSlot(img, d, k) && Ref(img, d, k) == blkno
    ensures Lists(img, out, at, Through(img, d, BlockPos(d, k, 32)))
    decreases |Below(img, d)|, 1
  {
    hide Consistent, Lists;
    out, at := [], [];
    ListsNone(img);
    assert Through(img, d, BlockPos(d, k, 0)) == {};
    hide Through;
    var e := 0;
    while e < 32
      invariant 0 <= e <= 32
      invariant Lists(img, out, at, Through(img, d, BlockPos(d, k, e)))
    {
      ghost var B, p := BlockPos(d, k, e), Pos(d, k, e);
      ghost var la;
      var lines;
      lines, la := WalkEntry(img, d, k, e, img.dirents[blkno][e]);
      assert BlockPos(d, k, e + 1) == B + {p};
      ListsMore(img, d, out, at, B, lines, la, {p});
      out, at := out + lines, at + la;
      e := e + 1;
    }
  }

  /** One slot of a directory, after the slots before it: nothing when it is empty, else the block it holds. */
  method ListSlot(img: Image, d: nat, k: nat, blkno: nat, sofar: seq<Line>, ghost before: seq<Pos>)
    returns (out: seq<Line>, ghost at: seq<Pos>)
    requires Checkable(img) && Consistent(img) && IsDir(img, d) && k < 141 && k != 12 && Ref(img, d, k) == blkno
    requires Lists(img, sofar, before, Through(img, d, DirPos(img, d, k)))
    ensures Lists(img, out, at, Through(img, d, DirPos(img, d, k + 1)))
    decreases |Below(img, d)|, 2
  {
    hide Consistent, Lists, Through;
    DirSlots(img, d, k);
    DirPosStep(img, d, k);
    if blkno == 0 { return sofar, before; }
    var lines;
    ghost var la;
    lines, la := WalkDirblock(img, blkno, d, k);
    ListsMore(img, d, sofar, before, DirPos(img, d, k), lines, la, BlockPos(d, k, 32));
    out, at := sofar + lines, before + la;
  }

  method LsDir(img: Image, d: nat) returns (out: seq<Line>, ghost at: seq<Pos>)
    requires Checkable(img) && Consistent(img) && d < img.ninodes
    ensures !IsDir(img, d) ==> out == []
    ensures IsDir(img, d) ==> |out| > 0 && out[0] == DirLine(d) && Lists(img, out[1..], at, Below(img, d))
    decreases if IsDir(img, d) then |Below(img, d)| else 0, 3
  {
    hide Consistent, Lists, Through, Below;
    at := [];
    if d == 0 || img.inodes[d].kind != T_DIR { return [], []; }
    var body: seq<Line> := [];
    ListsNone(img);
    ThroughNone(img, d);
    var k := 0;
    while k < 12
      invariant 0 <= k <= 12
      invariant Lists(img, body, at, Through(img, d, DirPos(img, d, k)))
    {
      body, at := ListSlot(img, d, k, img.inodes[d].addrs[k], body, at);
      k := k + 1;
    }
    DirPosStep(img, d, 12);
    var ind := img.inodes[d].addrs[12];
    if ind != 0 {
      DirSlots(img, d, 12);
      k := 0;
      while k < 128
        invariant 0 <= k <= 128
        invariant Lists(img, body, at, Through(img, d, DirPos(img, d, 13 + k)))
      {
        body, at := ListSlot(img, d, 13 + k, img.words[ind][k], body, at);
        k := k + 1;
      }
    } else {
      NoIndirect(img, d);
    }
    ThroughAll(img, d);
    out := [DirLine(d)] + body;
    assert out[1..] == body;
  }

  lemma ThroughNone(img: Image, d: nat)
    requires WellFormed(img) && Consistent(img) && IsDir(img, d)
    ensures Through(img, d, DirPos(img, d, 0)) == {}
  {}

  lemma NoIndirect(img: Image, d: nat)
    requires WellFormed(img) && IsDir(img, d) && img.inodes[d].addrs[12] == 0
    ensures DirPos(img, d, 141) == DirPos(img, d, 13)
  {
    assert forall p :: p in DirPos(img, d, 141) <==> p in DirPos(img, d, 13);
  }

  /** The lister reads inode 1 whether or not the superblock counts it. When it is not
      counted, yet reads as a directory, the checker never saw it. */
  predicate UncheckedRoot(img: Image)
    requires WellFormed(img)
  {
    img.ninodes <= ROOTINO && img.inodes[ROOTINO].kind == T_DIR
  }

  /** What the listing of a checked image should be: every directory once, every file
      as often as it has links, and nothing else. */
  ghost predicate ListsAll(img: Image, out: seq<Line>)
    requires WellFormed(img)
  {
    && (forall i: nat :: IsDir(img, i) ==> multiset(out)[DirLine(i)] == 1)
    && (forall i: nat :: KindOf(img, i) == T_FILE ==> multiset(out)[FileLine(i)] == img.inodes[i].nlink)
    && (forall i: nat :: KindOf(img, i) == T_DEV ==> multiset(out)[DevLine(i)] == Links(img, i))
    && (forall l :: l in out ==> InUse(img, l.inum) && l == LineOf(img.inodes[l.inum].kind, l.inum))
  }

  /** The root's header comes first, then a line for every entry below it, in depth-first order. */
  ghost predicate InPreorder(img: Image, out: seq<Line>)
    requires WellFormed(img) && Consistent(img) && IsDir(img, ROOTINO)
  {
    |out| > 0 && out[0] == DirLine(ROOTINO)
    && exists at :: Labelled(img, out[1..], at, Below(img, ROOTINO))
  }

  /** main: on an accepted image the listing terminates and is right, in depth-first order,
      except from an unchecked root, whose header is printed before its addresses are followed. */
  method Lsfs(img: Image) returns (out: seq<Line>, done: bool)
    requires Checkable(img) && Consistent(img)
    ensures done <==> !UncheckedRoot(img)
    ensures done ==> ListsAll(img, out)
    ensures done ==> if IsDir(img, ROOTINO) then InPreorder(img, out) else out == []
    ensures !done ==> out == [DirLine(ROOTINO)] && forall rest :: !ListsAll(img, out + rest)
  {
    hide Consistent, ListsAll, Tally, Labelled, Below;
    if img.inodes[ROOTINO].kind != T_DIR {
      EmptyListed(img);
      return [], true;
    }
    if img.ninodes <= ROOTINO {
      out := [DirLine(ROOTINO)];
      forall rest ensures !ListsAll(img, out + rest) { UncheckedListed(img, out + rest); }
      return out, false;
    }
    ghost var at;
    out, at := LsDir(img, ROOTINO);
    done := true;
    RootListed(img, out);
  }

  lemma UncheckedListed(img: Image, out: seq<Line>)
    requires WellFormed(img) && img.ninodes <= ROOTINO && DirLine(ROOTINO) in out
    ensures !ListsAll(img, out)
  {}

  lemma EmptyListed(img: Image)
    requires WellFormed(img) && Consistent(img) && !IsDir(img, ROOTINO)
    ensures ListsAll(img, [])
  {
    hide Consistent, Links;
    NoRootNoTree(img);
  }

  lemma RootListed(img: Image, out: seq<Line>)
    requires Checkable(img) && Consistent(img) && IsDir(img, ROOTINO)
    requires |out| > 0 && out[0] == DirLine(ROOTINO) && Tally(img, out[1..], Below(img, ROOTINO))
    ensures ListsAll(img, out)
  {
    hide Consistent, Links, Tally, Below;
    RootTally(img, out[1..]);
    forall l: Line ensures multiset(out)[l] == multiset(out[1..])[l] + if l == DirLine(ROOTINO) then 1 else 0 {
      HeadCount(out, l);
    }
    forall l | l in out ensures InUse(img, l.inum) && l == LineOf(img.inodes[l.inum].kind, l.inum) {
      if l !in out[1..] { assert l == out[0]; }
    }
  }

  lemma HeadCount(out: seq<Line>, l: Line)
    requires |out| > 0
    ensures multiset(out)[l] == multiset(out[1..])[l] + if l == out[0] then 1 else 0
  {
    assert out == [out[0]] + out[1..];
  }

  lemma NoRootNoTree(img: Image)
    requires WellFormed(img) && Consistent(img) && !IsDir(img, ROOTINO)
    ensures forall i: nat :: KindOf(img, i) == T_FREE
    ensures forall i: nat :: !IsDir(img, i)
  {
    hide Consistent;
    ConsistentIsRootedTree(img);
    assert forall i: nat :: KindOf(img, i) != T_FREE ==> InUse(img, i);
    assert forall i: nat :: IsDir(img, i) ==> InUse(img, i);
  }

  lemma RootTally(img: Image, out: seq<Line>)
    requires Checkable(img) && Consistent(img) && IsDir(img, ROOTINO)
    requires Tally(img, out, Below(img, ROOTINO))
    ensures forall i: nat :: IsDir(img, i) ==> multiset(out)[DirLine(i)] == if i == ROOTINO then 0 else 1
    ensures forall i: nat :: KindOf(img, i) == T_FILE ==> multiset(out)[FileLine(i)] == img.inodes[i].nlink
    ensures forall i: nat :: KindOf(img, i) == T_DEV ==> multiset(out)[DevLine(i)] == Links(img, i)
    ensures forall l :: l in out ==> InUse(img, l.inum) && l == LineOf(img.inodes[l.inum].kind, l.inum)
  {
    hide Consistent, Below, Links, Namers;
    forall l: Line ensures multiset(out)[l] == RootCount(img, l) {
      RootNamers(img, l.inum);
    }
    forall i: nat | KindOf(img, i) != T_FREE ensures LinksOk(img, i) { InUseLinks(img, i); }
    assert forall i: nat :: IsDir(img, i) ==> KindOf(img, i) == T_DIR;
    assert forall l: Line :: l in out ==> multiset(out)[l] > 0;
  }

  /** Lines below the root's own header. */
  ghost function RootCount(img: Image, l: Line): nat
    requires WellFormed(img)
  {
    if KindOf(img, l.inum) != LineKind(l) || l.inum == ROOTINO then 0 else Links(img, l.inum)
  }

  lemma InUseLinks(img: Image, i: nat)
    requires WellFormed(img) && Consistent(img) && InUse(img, i)
    ensures LinksOk(img, i)
  {
    hide SlotsGood, SizeOk, DirFormatOk, BitmapOk, ParentOk, ReachesRoot, LinksOk;
  }

  lemma RootNamers(img: Image, i: nat)
    requires WellFormed(img) && Consistent(img) && IsDir(img, ROOTINO)
    ensures |Namers(img, Below(img, ROOTINO), i)| == if i == ROOTINO then 0 else Links(img, i)
  {
    hide Consistent;
    var N := Namers(img, Below(img, ROOTINO), i);
    RootTPath(img);
    if i == ROOTINO {
      forall q | q in AllPos(img) ensures !Names(img, q, i) { RootUnnamed(img, q); }
      assert N == {};
    } else {
      assert N == Referrers(img, AllPos(img), i);
    }
  }

  /* ---- an accepted image whose listing is wrong ---- */

  /** Five blocks and one inode that counts; inode 1, in the same block, reads as a directory. */
  function StrayImage(): Image {
    var inode := Dinode(T_FREE, 0, 0, 0, 0, seq(13, _ => 0));
    Image(5, 1, 1, seq(8, i => if i == ROOTINO then inode.(kind := T_DIR) else inode),
          seq(5, _ => seq(128, _ => 0)), seq(5, _ => seq(32, _ => Dirent(0, []))), seq(5, _ => false))
  }

  /** The checker passes it, and the lister takes it for a tree. */
  lemma StrayAccepted()
    ensures Checkable(StrayImage()) && Consistent(StrayImage()) && UncheckedRoot(StrayImage())
  {
    var img := StrayImage();
    assert WellFormed(img) && Start(img) == 4;
    assert forall i: nat :: !InUse(img, i) && !IsDir(img, i);
    assert AllSlots(img) == {};
    assert KindOk(img, 0);
    assert forall b: nat :: InData(img, b) ==> BitmapOk(img, b);
  }
}
