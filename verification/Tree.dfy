/** Every image the checker accepts is a rooted tree. */
module Tree {
  import opened Layout
  import opened FsImage
  import opened Cards

  /** A chain of ordinary entries from the root directory down to inode i. */
  ghost predicate IsPath(img: Image, path: seq<Pos>, i: nat)
    requires WellFormed(img)
    decreases |path|
  {
    if path == [] then i == ROOTINO
    else
      var p := path[|path| - 1];
      IsPos(img, p) && Names(img, p, i) && IsPath(img, path[..|path| - 1], p.ino)
  }

  /** The entry that holds a directory other than the root, one step up its chain. */
  lemma ParentEntry(img: Image, d: nat) returns (p: Pos)
    requires WellFormed(img) && Consistent(img) && IsDir(img, d) && d != ROOTINO
    ensures IsPos(img, p) && IsDir(img, p.ino) && Names(img, p, d) && p.ino == Ancestor(ParentTable(img), d, 1)
  {
    hide SlotsGood, SizeOk, DirFormatOk, BitmapOk, LinksOk, DotDot, ReachesRoot;
    assert ParentOk(img, d);
    p :| p in AllPos(img) && Names(img, p, d) && p.ino == DotDot(img, d);
    assert Ancestor(ParentTable(img), d, 0) == d;
  }

  /** A directory whose ".." chain reaches the root in m steps has a path, and the root is a directory. */
  lemma {:induction false} PathFromChain(img: Image, d: nat, m: nat) returns (path: seq<Pos>)
    requires WellFormed(img) && Consistent(img)
    requires IsDir(img, d) && Ancestor(ParentTable(img), d, m) == ROOTINO
    ensures IsPath(img, path, d) && IsDir(img, ROOTINO)
    decreases m
  {
    hide Consistent, WellFormed, ParentTable, IsPos, Names, Ancestor, IsPath;
    ChainStart(ParentTable(img), d);
    if d == ROOTINO {
      path := [];
      RootPath(img);
    } else {
      var p := ParentEntry(img, d);
      AncestorAdd(ParentTable(img), d, 1, m - 1);
      var up := PathFromChain(img, p.ino, m - 1);
      path := up + [p];
      PathExtends(img, up, p, d);
    }
  }

  lemma ChainStart(par: seq<int>, i: int)
    ensures Ancestor(par, i, 0) == i
  {}

  lemma RootPath(img: Image)
    requires WellFormed(img)
    ensures IsPath(img, [], ROOTINO)
  {}

  lemma PathExtends(img: Image, up: seq<Pos>, p: Pos, d: nat)
    requires WellFormed(img) && IsPath(img, up, p.ino) && IsPos(img, p) && Names(img, p, d)
    ensures IsPath(img, up + [p], d)
  {
    hide WellFormed, IsPos, Names;
    assert (up + [p])[..|up|] == up;
  }

  lemma DirPath(img: Image, d: nat) returns (path: seq<Pos>)
    requires WellFormed(img) && Consistent(img) && IsDir(img, d)
    ensures IsPath(img, path, d) && IsDir(img, ROOTINO)
  {
    assert ReachesRoot(ParentTable(img), d);
    var m: nat :| Ancestor(ParentTable(img), d, m) == ROOTINO;
    path := PathFromChain(img, d, m);
  }

  /** Some entry refers to every in-use inode. */
  lemma InUsePath(img: Image, i: nat) returns (path: seq<Pos>)
    requires WellFormed(img) && Consistent(img) && InUse(img, i)
    ensures IsPath(img, path, i) && IsDir(img, ROOTINO)
  {
    hide SlotsGood, SizeOk, DirFormatOk, BitmapOk, ParentOk, ReachesRoot;
    assert LinksOk(img, i);
    var R := Referrers(img, AllPos(img), i);
    assert R != {};
    var p :| p in R;
    var up := DirPath(img, p.ino);
    if Names(img, p, i) {
      path := up + [p];
      assert path[..|path| - 1] == up;
    } else {
      path := [];
    }
  }

  /** No ordinary entry names the root: its one reference is its own ".". */
  lemma RootUnnamed(img: Image, p: Pos)
    requires WellFormed(img) && Consistent(img) && IsDir(img, ROOTINO)
    requires IsPos(img, p)
    ensures !Names(img, p, ROOTINO)
  {
    hide SlotsGood, SizeOk, BitmapOk, ParentOk, ReachesRoot;
    assert LinksOk(img, ROOTINO) && DirFormatOk(img, ROOTINO);
    var R := Referrers(img, AllPos(img), ROOTINO);
    var D := Dots(img, AllPos(img), ROOTINO);
    assert D != {};
    var q :| q in D;
    assert q in R;
    SingletonIs(R, q);
    assert Names(img, p, ROOTINO) ==> p in R;
  }

  /** A directory is named by at most one ordinary entry. */
  lemma NamedOnce(img: Image, i: nat, p: Pos, q: Pos)
    requires WellFormed(img) && Consistent(img) && IsDir(img, i)
    requires IsPos(img, p) && IsPos(img, q) && Names(img, p, i) && Names(img, q, i)
    ensures p == q
  {
    hide SlotsGood, SizeOk, DirFormatOk, BitmapOk, ParentOk, ReachesRoot;
    assert LinksOk(img, i);
    var R := Referrers(img, AllPos(img), i);
    assert p in R && q in R;
    SingletonIs(R, p);
  }

  lemma {:induction false} UniquePath(img: Image, i: nat, a: seq<Pos>, b: seq<Pos>)
    requires WellFormed(img) && Consistent(img) && IsDir(img, i) && IsDir(img, ROOTINO)
    requires IsPath(img, a, i) && IsPath(img, b, i)
    ensures a == b
    decreases |a|
  {
    hide Consistent;
    if i == ROOTINO {
      if a != [] { RootUnnamed(img, a[|a| - 1]); }
      if b != [] { RootUnnamed(img, b[|b| - 1]); }
    } else {
      var p, q := a[|a| - 1], b[|b| - 1];
      NamedOnce(img, i, p, q);
      UniquePath(img, p.ino, a[..|a| - 1], b[..|b| - 1]);
      assert a == a[..|a| - 1] + [p] && b == b[..|b| - 1] + [q];
    }
  }

  /** Either every inode from 1 up is free, or inode 1 is a directory, every
      in-use inode hangs below it, and every directory by exactly one path. */
  ghost predicate RootedTree(img: Image)
    requires WellFormed(img)
  {
    || (forall i: nat :: !InUse(img, i))
    || (&& IsDir(img, ROOTINO)
        && (forall i: nat :: InUse(img, i) ==> exists path :: IsPath(img, path, i))
        && (forall i: nat, a, b :: IsDir(img, i) && IsPath(img, a, i) && IsPath(img, b, i) ==> a == b))
  }

  lemma ConsistentIsRootedTree(img: Image)
    requires WellFormed(img) && Consistent(img)
    ensures RootedTree(img)
  {
    hide Consistent;
    if i: nat :| InUse(img, i) {
      var _ := InUsePath(img, i);
      forall j: nat | InUse(img, j) ensures exists path :: IsPath(img, path, j) {
        var path := InUsePath(img, j);
      }
      forall j: nat, a, b | IsDir(img, j) && IsPath(img, a, j) && IsPath(img, b, j) ensures a == b {
        UniquePath(img, j, a, b);
      }
    }
  }

  /* ---- the tree below a directory ---- */

  /** The path of directory d. */
  ghost function TPath(img: Image, d: nat): (path: seq<Pos>)
    requires WellFormed(img) && Consistent(img) && IsDir(img, d)
    ensures IsPath(img, path, d)
  {
    DirPathExists(img, d);
    var path :| IsPath(img, path, d);
    path
  }

  lemma DirPathExists(img: Image, d: nat)
    requires WellFormed(img) && Consistent(img) && IsDir(img, d)
    ensures exists path :: IsPath(img, path, d)
  {
    var path := DirPath(img, d);
  }

  lemma TPathIs(img: Image, d: nat, path: seq<Pos>)
    requires WellFormed(img) && Consistent(img) && IsDir(img, d) && IsPath(img, path, d)
    ensures path == TPath(img, d)
  {
    var _ := DirPath(img, d);
    UniquePath(img, d, path, TPath(img, d));
  }

  lemma RootTPath(img: Image)
    requires WellFormed(img) && Consistent(img) && IsDir(img, ROOTINO)
    ensures TPath(img, ROOTINO) == []
  {
    TPathIs(img, ROOTINO, []);
  }

  /** A child directory's path extends its parent's by the entry that names it. */
  lemma ChildTPath(img: Image, p: Pos)
    requires WellFormed(img) && Consistent(img) && IsPos(img, p) && OrdinaryEntry(Entry(img, p))
    requires IsDir(img, Entry(img, p).inum)
    ensures TPath(img, Entry(img, p).inum) == TPath(img, p.ino) + [p]
  {
    hide Consistent;
    var path := TPath(img, p.ino) + [p];
    assert path[..|path| - 1] == TPath(img, p.ino);
    TPathIs(img, Entry(img, p).inum, path);
  }

  /** A proper step of a path leaves the directory it stands in. */
  lemma {:induction false} PathStep(img: Image, d: nat, x: nat, n: nat)
    requires WellFormed(img) && Consistent(img) && IsDir(img, d) && IsDir(img, x)
    requires n == |TPath(img, d)| && TPath(img, d) <= TPath(img, x) && TPath(img, d) != TPath(img, x)
    ensures n < |TPath(img, x)|
    ensures var p := TPath(img, x)[n];
            IsPos(img, p) && p.ino == d && OrdinaryEntry(Entry(img, p))
            && (var c := Entry(img, p).inum; IsDir(img, c) && TPath(img, c) <= TPath(img, x))
    decreases |TPath(img, x)|
  {
    hide Consistent;
    var tx := TPath(img, x);
    var q, up := tx[|tx| - 1], tx[..|tx| - 1];
    TPathIs(img, q.ino, up);
    if |up| == n {
      assert up == TPath(img, d);
      SamePath(img, d, q.ino, up);
    } else {
      PathStep(img, d, q.ino, n);
      assert tx[n] == up[n];
    }
  }

  lemma SamePath(img: Image, a: nat, b: nat, path: seq<Pos>)
    requires WellFormed(img) && IsPath(img, path, a) && IsPath(img, path, b)
    ensures a == b
  {}
}
