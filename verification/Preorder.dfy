/** The depth-first order of a directory tree: entries by slot and place in their
    block, and a directory's own entry before all that lies below it. */
module Preorder {
  import opened FsImage

  /** p stands before q in the directory that holds both. */
  predicate EntryBefore(p: Pos, q: Pos) { p.k < q.k || (p.k == q.k && p.e < q.e) }

  /** The paths agree on n entries; then a ends, or goes on with an earlier entry than b. */
  predicate PartAt(a: seq<Pos>, b: seq<Pos>, n: nat) {
    n <= |a| && n < |b| && a[..n] == b[..n] && (n == |a| || EntryBefore(a[n], b[n]))
  }

  ghost predicate PathBefore(a: seq<Pos>, b: seq<Pos>) {
    exists n: nat :: PartAt(a, b, n)
  }

  /** Paths part in one place only. */
  lemma PathOrder(a: seq<Pos>, b: seq<Pos>)
    ensures PathBefore(a, b) ==> a != b && !PathBefore(b, a)
  {
    if n: nat :| PartAt(a, b, n) {
      forall m: nat ensures !PartAt(b, a, m) { OnePart(a, b, n, m); }
    }
  }

  lemma OnePart(a: seq<Pos>, b: seq<Pos>, n: nat, m: nat)
    requires PartAt(a, b, n)
    ensures !PartAt(b, a, m)
  {
    SameEntry(a, b, n, m);
    SameEntry(b, a, m, n);
  }

  lemma SameEntry(a: seq<Pos>, b: seq<Pos>, n: nat, m: nat)
    ensures m < n <= |a| && n <= |b| && a[..n] == b[..n] ==> a[m] == b[m]
  {
    if m < n <= |a| && n <= |b| && a[..n] == b[..n] { assert a[..n][m] == b[..n][m]; }
  }

  /** Listed in strictly increasing order. */
  ghost predicate Ascending(paths: seq<seq<Pos>>) {
    forall i, j :: 0 <= i < j < |paths| ==> PathBefore(paths[i], paths[j])
  }

  /** There is only one way to list the same paths in order. */
  lemma {:induction false} OneOrder(a: seq<seq<Pos>>, b: seq<seq<Pos>>)
    requires Ascending(a) && Ascending(b)
    requires forall x :: x in a <==> x in b
    ensures a == b
    decreases |a|
  {
    if a == [] {
      HasFirst(b);
    } else {
      assert a[0] in b;
      SameFirst(a, b);
      forall x ensures x in a[1..] <==> x in b[1..] {
        RestIs(a, x);
        RestIs(b, x);
      }
      OneOrder(a[1..], b[1..]);
      assert a == [a[0]] + a[1..] && b == [b[0]] + b[1..];
    }
  }

  lemma HasFirst(b: seq<seq<Pos>>)
    ensures b != [] ==> exists x :: x in b
  {
    if b != [] { assert b[0] in b; }
  }

  lemma SameFirst(a: seq<seq<Pos>>, b: seq<seq<Pos>>)
    requires Ascending(a) && Ascending(b) && a != [] && b != []
    requires forall x :: x in a <==> x in b
    ensures a[0] == b[0]
  {
    hide PathBefore;
    assert a[0] in b && b[0] in a;
    var i :| 0 <= i < |b| && b[i] == a[0];
    var j :| 0 <= j < |a| && a[j] == b[0];
    PathOrder(a[0], b[0]);
  }

  lemma RestIs(a: seq<seq<Pos>>, x: seq<Pos>)
    requires Ascending(a) && a != []
    ensures x in a[1..] <==> x in a && x != a[0]
  {
    hide PathBefore;
    if x in a[1..] {
      var i :| 0 <= i < |a[1..]| && a[1..][i] == x;
      assert a[i + 1] == x;
      PathOrder(a[0], x);
    }
    if x in a && x != a[0] {
      var i :| 0 <= i < |a| && a[i] == x;
      assert a[1..][i - 1] == x;
    }
  }
}
