/** Block accounting on accepted images. */
module Conservation {
  import opened FsImage
  import opened Cards

  /** Allocated blocks of the data region, as the bitmap has them. */
  ghost function MarkedBlocks(img: Image): set<nat>
    requires WellFormed(img)
  {
    set b: nat | Start(img) <= b < img.size && img.bitmap[b]
  }

  function CeilBlocks(size: nat): nat { (size + 511) / 512 }

  /** Blocks that the sizes of inodes 1..n-1 account for, indirect blocks included. */
  ghost function AccountedBlocks(img: Image, n: nat): nat
    requires WellFormed(img) && n <= img.ninodes
  {
    if n == 0 then 0
    else
      var i := n - 1;
      AccountedBlocks(img, i) +
      if InUse(img, i) then CeilBlocks(img.inodes[i].size) + (if img.inodes[i].addrs[12] != 0 then 1 else 0) else 0
  }

  /** Slots of inodes below n that hold a block. */
  ghost function FilledSlots(img: Image, n: nat): set<Slot>
    requires WellFormed(img)
  {
    set s | s in SlotsTo(img, n, 0) && SRef(img, s) != 0
  }

  lemma MarkedAreHeld(img: Image)
    requires WellFormed(img) && Consistent(img)
    ensures |MarkedBlocks(img)| == |FilledSlots(img, img.ninodes)|
  {
    hide SizeOk, DirFormatOk, LinksOk, ParentOk, ReachesRoot;
    var F := FilledSlots(img, img.ninodes);
    var m := map s | s in F :: SRef(img, s);
    forall s, t | s in m && t in m && m[s] == m[t] ensures s == t { assert !Shared(img, s, t); }
    InjectiveCard(m);
    forall b | b in MarkedBlocks(img) ensures b in m.Values {
      assert BitmapOk(img, b);
      var s :| s in AllSlots(img) && SRef(img, s) == b;
      assert s in m;
    }
    forall b | b in m.Values ensures b in MarkedBlocks(img) {
      var s :| s in m && m[s] == b;
      assert SlotOk(img, s);
    }
    assert m.Values == MarkedBlocks(img);
    assert m.Keys == F;
  }

  /** Filled slots of one inode. */
  ghost function OwnSlots(img: Image, i: nat): set<Slot>
    requires WellFormed(img) && InUse(img, i)
  {
    set s | s in AllSlots(img) && s.ino == i && SRef(img, s) != 0
  }

  lemma OwnSlotsCount(img: Image, i: nat)
    requires WellFormed(img) && InUse(img, i)
    ensures |OwnSlots(img, i)| == DataBlocks(img, i) + if img.inodes[i].addrs[12] != 0 then 1 else 0
  {
    var D := DataSlots(img, i, 0, 141);
    var m := map k | k in D :: Slot(i, k);
    InjectiveCard(m);
    assert m.Keys == D;
    forall k | k in D ensures Slot(i, k) in m.Values { assert k in m && m[k] == Slot(i, k); }
    forall s | s in m.Values ensures s.ino == i && s.k in D { var k :| k in m && m[k] == s; }
    if img.inodes[i].addrs[12] != 0 {
      assert forall s :: s in OwnSlots(img, i) <==> s in m.Values || s == Slot(i, 12);
      assert OwnSlots(img, i) == m.Values + {Slot(i, 12)};
    } else {
      assert forall s :: s in OwnSlots(img, i) <==> s in m.Values;
      assert OwnSlots(img, i) == m.Values;
    }
  }

  lemma SizeGivesBlocks(img: Image, i: nat)
    requires WellFormed(img) && i < img.ninodes && SizeOk(img, i)
    ensures DataBlocks(img, i) == CeilBlocks(img.inodes[i].size)
  {}

  /** What inode i adds to the filled slots. */
  lemma FilledStep(img: Image, i: nat)
    requires WellFormed(img) && i < img.ninodes && (InUse(img, i) ==> SizeOk(img, i))
    ensures |FilledSlots(img, i + 1)| + AccountedBlocks(img, i) == |FilledSlots(img, i)| + AccountedBlocks(img, i + 1)
  {
    hide SizeOk, DataBlocks;
    if InUse(img, i) {
      OwnSlotsCount(img, i);
      SizeGivesBlocks(img, i);
      FilledSplit(img, i);
    } else {
      assert FilledSlots(img, i + 1) == FilledSlots(img, i);
    }
  }

  lemma FilledSplit(img: Image, i: nat)
    requires WellFormed(img) && InUse(img, i)
    ensures |FilledSlots(img, i + 1)| == |FilledSlots(img, i)| + |OwnSlots(img, i)|
  {
    hide SRef;
    assert FilledSlots(img, i + 1) == FilledSlots(img, i) + OwnSlots(img, i);
  }

  lemma {:induction false} FilledAreAccounted(img: Image, n: nat)
    requires WellFormed(img) && n <= img.ninodes && forall i :: InUse(img, i) ==> SizeOk(img, i)
    ensures |FilledSlots(img, n)| == AccountedBlocks(img, n)
    decreases n
  {
    hide SizeOk, InUse;
    if n == 0 {
      assert FilledSlots(img, 0) == {};
    } else {
      hide FilledSlots, AccountedBlocks;
      FilledAreAccounted(img, n - 1);
      FilledStep(img, n - 1);
    }
  }

  /** On acceptance the bitmap marks exactly as many data blocks as the in-use
      inodes' sizes, rounded up, and their indirect blocks account for. */
  lemma BlocksConserved(img: Image)
    requires WellFormed(img) && Consistent(img)
    ensures |MarkedBlocks(img)| == AccountedBlocks(img, img.ninodes)
  {
    MarkedAreHeld(img);
    FilledAreAccounted(img, img.ninodes);
  }
}
