/** A file system image as the checker and the lister read it, and the
    order-free consistency predicate that the checker is proved to decide. */
module FsImage {
  import opened Layout

  datatype Dinode = Dinode(kind: int, major: int, minor: int, nlink: int, size: nat, addrs: seq<nat>)

  datatype Dirent = Dirent(inum: nat, name: seq<byte>)

  /** The superblock's numbers, the inode blocks, and every block of the image
      read both as 128 words and as 32 directory entries; `bitmap[b]` is the
      allocation bit of block b. The last inode block has room past `ninodes`. */
  datatype Image = Image(size: nat, nblocks: nat, ninodes: nat, inodes: seq<Dinode>,
                         words: seq<seq<nat>>, dirents: seq<seq<Dirent>>, bitmap: seq<bool>)

  ghost predicate WellFormed(img: Image) {
    && |img.inodes| == 8 * (img.ninodes / 8 + 1)
    && (forall i :: 0 <= i < |img.inodes| ==> |img.inodes[i].addrs| == 13)
    && |img.words| == |img.dirents| == |img.bitmap| == img.size
    && (forall b :: 0 <= b < img.size ==> |img.words[b]| == 128)
    && (forall b :: 0 <= b < img.size ==> |img.dirents[b]| == 32)
  }

  function Start(img: Image): nat { DataStart(img.size, img.ninodes) }

  predicate InData(img: Image, b: nat) { Start(img) <= b < img.size }

  predicate InUse(img: Image, i: nat)
    requires WellFormed(img)
  {
    1 <= i < img.ninodes && img.inodes[i].kind != T_FREE
  }

  predicate IsDir(img: Image, i: nat)
    requires WellFormed(img)
  {
    1 <= i < img.ninodes && img.inodes[i].kind == T_DIR
  }

  /* ---- block slots ---- */

  /** Slot k of an inode: 0..11 direct, 12 the indirect pointer, 13.. the words of the indirect block. */
  datatype Slot = Slot(ino: nat, k: nat)

  /** Block number in slot k of inode i; 0 when the slot is empty. */
  function Ref(img: Image, i: nat, k: nat): nat
    requires WellFormed(img) && i < img.ninodes && k < 141
  {
    if k <= 12 then img.inodes[i].addrs[k]
    else if InData(img, img.inodes[i].addrs[12]) then img.words[img.inodes[i].addrs[12]][k - 13]
    else 0
  }

  ghost predicate IsSlot(img: Image, s: Slot)
    requires WellFormed(img)
  {
    InUse(img, s.ino) && s.k < 141
  }

  ghost function SRef(img: Image, s: Slot): nat
    requires WellFormed(img) && IsSlot(img, s)
  {
    Ref(img, s.ino, s.k)
  }

  /** Slots of in-use inodes that come before (i, k). */
  ghost function SlotsTo(img: Image, i: nat, k: nat): (r: set<Slot>)
    requires WellFormed(img)
    ensures forall s :: s in r <==> IsSlot(img, s) && (s.ino < i || (s.ino == i && s.k < k))
  {
    set j, l | 0 <= j < img.ninodes && 0 <= l < 141 && InUse(img, j) && (j < i || (j == i && l < k)) :: Slot(j, l)
  }

  ghost function AllSlots(img: Image): (r: set<Slot>)
    requires WellFormed(img)
    ensures forall s :: s in r <==> IsSlot(img, s)
  {
    SlotsTo(img, img.ninodes, 0)
  }

  /** A slot is empty, or names a data block that the bitmap marks used. */
  ghost predicate SlotOk(img: Image, s: Slot)
    requires WellFormed(img) && IsSlot(img, s)
  {
    SRef(img, s) != 0 ==> InData(img, SRef(img, s)) && img.bitmap[SRef(img, s)]
  }

  /** Two different slots of S hold the same block. */
  ghost predicate Shared(img: Image, s: Slot, t: Slot)
    requires WellFormed(img)
  {
    IsSlot(img, s) && IsSlot(img, t) && s != t && SRef(img, s) != 0 && SRef(img, s) == SRef(img, t)
  }

  ghost predicate SlotsGood(img: Image, S: set<Slot>)
    requires WellFormed(img) && forall s :: s in S ==> IsSlot(img, s)
  {
    && (forall s :: s in S ==> SlotOk(img, s))
    && (forall s, t :: s in S && t in S ==> !Shared(img, s, t))
  }

  ghost predicate Holds(img: Image, S: set<Slot>, b: nat)
    requires WellFormed(img) && forall s :: s in S ==> IsSlot(img, s)
  {
    b != 0 && exists s :: s in S && SRef(img, s) == b
  }

  /** Data slots of inode i in [lo, hi) that hold a block. */
  ghost function DataSlots(img: Image, i: nat, lo: nat, hi: nat): set<nat>
    requires WellFormed(img) && i < img.ninodes && hi <= 141
  {
    set k: nat | lo <= k < hi && k != 12 && Ref(img, i, k) != 0
  }

  ghost function DataBlocks(img: Image, i: nat): nat
    requires WellFormed(img) && i < img.ninodes
  {
    |DataSlots(img, i, 0, 141)|
  }

  ghost predicate SizeOk(img: Image, i: nat)
    requires WellFormed(img) && i < img.ninodes
  {
    var n := DataBlocks(img, i);
    if n == 0 then img.inodes[i].size == 0
    else (n - 1) * 512 < img.inodes[i].size <= n * 512
  }

  /* ---- directory entries ---- */

  /** Entry e of the directory block in slot k of directory ino. */
  datatype Pos = Pos(ino: nat, k: nat, e: nat)

  /** Slot k of directory i holds a directory block. */
  ghost predicate IsDirSlot(img: Image, i: nat, k: nat)
    requires WellFormed(img)
  {
    IsDir(img, i) && k < 141 && k != 12 && InData(img, Ref(img, i, k))
  }

  ghost predicate IsPos(img: Image, p: Pos)
    requires WellFormed(img)
  {
    IsDirSlot(img, p.ino, p.k) && p.e < 32
  }

  ghost function Entry(img: Image, p: Pos): Dirent
    requires WellFormed(img) && IsPos(img, p)
  {
    img.dirents[Ref(img, p.ino, p.k)][p.e]
  }

  predicate DotEntry(d: Dirent) { d.inum != 0 && CStr(d.name) == DOT }

  predicate DotDotEntry(d: Dirent) { d.inum != 0 && CStr(d.name) == DOTDOT }

  /** An ordinary entry: neither free, nor ".", nor "..". */
  predicate OrdinaryEntry(d: Dirent) { d.inum != 0 && CStr(d.name) != DOT && CStr(d.name) != DOTDOT }

  /** The first e entries of the block in slot k of directory i. */
  ghost function BlockPos(i: nat, k: nat, e: nat): (r: set<Pos>)
    ensures forall p :: p in r <==> p.ino == i && p.k == k && p.e < e
  {
    set x | 0 <= x < e :: Pos(i, k, x)
  }

  /** Positions before slot k of inode i. */
  ghost function PosTo(img: Image, i: nat, k: nat): (r: set<Pos>)
    requires WellFormed(img)
    ensures forall p :: p in r <==> IsPos(img, p) && (p.ino < i || (p.ino == i && p.k < k))
  {
    set j, l, e | 0 <= j < img.ninodes && 0 <= l < 141 && 0 <= e < 32 && IsDirSlot(img, j, l)
                  && (j < i || (j == i && l < k)) :: Pos(j, l, e)
  }

  ghost function AllPos(img: Image): (r: set<Pos>)
    requires WellFormed(img)
    ensures forall p :: p in r <==> IsPos(img, p)
  {
    PosTo(img, img.ninodes, 0)
  }

  /** p is an ordinary entry that names n. */
  ghost predicate Names(img: Image, p: Pos, n: nat)
    requires WellFormed(img) && IsPos(img, p)
  {
    OrdinaryEntry(Entry(img, p)) && Entry(img, p).inum == n
  }

  /** Entry p is a reference to inode n: an ordinary entry naming n, or the root's own ".". */
  ghost predicate Refers(img: Image, p: Pos, n: nat)
    requires WellFormed(img) && IsPos(img, p)
  {
    Names(img, p, n) || (DotEntry(Entry(img, p)) && p.ino == ROOTINO && n == ROOTINO)
  }

  /** The ordinary entries among P that name n. */
  ghost function Namers(img: Image, P: set<Pos>, n: nat): set<Pos>
    requires WellFormed(img) && forall p :: p in P ==> IsPos(img, p)
  {
    set p | p in P && Names(img, p, n)
  }

  ghost function Referrers(img: Image, P: set<Pos>, n: nat): set<Pos>
    requires WellFormed(img) && forall p :: p in P ==> IsPos(img, p)
  {
    set p | p in P && Refers(img, p, n)
  }

  ghost function Dots(img: Image, P: set<Pos>, i: nat): set<Pos>
    requires WellFormed(img) && forall p :: p in P ==> IsPos(img, p)
  {
    set p | p in P && p.ino == i && DotEntry(Entry(img, p))
  }

  ghost function DotDots(img: Image, P: set<Pos>, i: nat): set<Pos>
    requires WellFormed(img) && forall p :: p in P ==> IsPos(img, p)
  {
    set p | p in P && p.ino == i && DotDotEntry(Entry(img, p))
  }

  /** Number of directory references to inode n. */
  ghost function Links(img: Image, n: nat): nat
    requires WellFormed(img)
  {
    |Referrers(img, AllPos(img), n)|
  }

  /** Exactly one ".", which names the directory itself, and exactly one "..". */
  ghost predicate DirFormatOk(img: Image, i: nat)
    requires WellFormed(img)
  {
    && |Dots(img, AllPos(img), i)| == 1
    && (forall p :: p in Dots(img, AllPos(img), i) ==> Entry(img, p).inum == i)
    && |DotDots(img, AllPos(img), i)| == 1
  }

  /** The inode that i's ".." names, or -1 when i has no "..". */
  ghost function DotDot(img: Image, i: nat): int
    requires WellFormed(img)
  {
    if DotDots(img, AllPos(img), i) == {} then -1
    else var p :| p in DotDots(img, AllPos(img), i); Entry(img, p).inum
  }

  /** The root is its own parent; any other directory is held by an entry of its "..". */
  ghost predicate ParentOk(img: Image, i: nat)
    requires WellFormed(img)
  {
    if i == ROOTINO then DotDot(img, i) == ROOTINO
    else exists p :: p in AllPos(img) && Names(img, p, i) && p.ino == DotDot(img, i)
  }

  /* ---- the ".." chain ---- */

  /** m steps up the parent table from i; -1 once the chain has left the table. */
  ghost function Ancestor(par: seq<int>, i: int, m: nat): int {
    if m == 0 then i
    else
      var a := Ancestor(par, i, m - 1);
      if 0 <= a < |par| then par[a] else -1
  }

  lemma {:induction false} AncestorAdd(par: seq<int>, i: int, m: nat, n: nat)
    ensures Ancestor(par, i, m + n) == Ancestor(par, Ancestor(par, i, m), n)
  {
    if n > 0 { AncestorAdd(par, i, m, n - 1); }
  }

  ghost predicate ReachesRoot(par: seq<int>, i: int) {
    exists m: nat :: Ancestor(par, i, m) == ROOTINO
  }

  ghost function ParentTable(img: Image): (t: seq<int>)
    requires WellFormed(img)
    ensures |t| == img.ninodes + 1
    ensures forall i :: 0 <= i <= img.ninodes ==> t[i] == DotDot(img, i)
  {
    seq(img.ninodes + 1, i requires 0 <= i => DotDot(img, i))
  }

  /* ---- consistency ---- */

  predicate SuperblockOk(img: Image) {
    img.size == (img.nblocks + Start(img)) % 0x1_0000_0000
  }

  predicate KindOk(img: Image, i: nat)
    requires WellFormed(img) && i < img.ninodes
  {
    img.inodes[i].kind == T_FREE || img.inodes[i].kind == T_DIR
    || img.inodes[i].kind == T_FILE || img.inodes[i].kind == T_DEV
  }

  ghost predicate BitmapOk(img: Image, b: nat)
    requires WellFormed(img) && InData(img, b)
  {
    img.bitmap[b] ==> Holds(img, AllSlots(img), b)
  }

  ghost predicate LinksOk(img: Image, i: nat)
    requires WellFormed(img) && 1 <= i < img.ninodes
  {
    && (InUse(img, i) <==> Links(img, i) > 0)
    && (img.inodes[i].kind == T_FILE ==> img.inodes[i].nlink == Links(img, i))
    && (img.inodes[i].kind == T_DIR ==> Links(img, i) == 1)
  }

  /** Every consistency rule but the one on sizes. */
  ghost predicate ConsistentButSizes(img: Image)
    requires WellFormed(img)
  {
    && SuperblockOk(img)
    && (forall i :: 0 <= i < img.ninodes ==> KindOk(img, i))
    && SlotsGood(img, AllSlots(img))
    && (forall i :: IsDir(img, i) ==> DirFormatOk(img, i))
    && (forall b :: InData(img, b) ==> BitmapOk(img, b))
    && (forall i :: 1 <= i < img.ninodes ==> LinksOk(img, i))
    && (forall i :: IsDir(img, i) ==> ParentOk(img, i))
    && (forall i: nat :: IsDir(img, i) ==> ReachesRoot(ParentTable(img), i))
  }

  ghost predicate Consistent(img: Image)
    requires WellFormed(img)
  {
    ConsistentButSizes(img) && forall i :: InUse(img, i) ==> SizeOk(img, i)
  }

  /** What the checker relies on without testing it: its tables are indexed by
      the inode numbers found in directory blocks, inode numbers travel as
      16-bit values, and byte offsets into the image are 32-bit products. */
  ghost predicate Checkable(img: Image) {
    && WellFormed(img)
    && img.ninodes <= 0x1_0000
    && img.size <= 0x80_0000
    && (forall p :: IsPos(img, p) ==> Entry(img, p).inum < img.ninodes)
  }
}
