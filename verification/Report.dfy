/** What the checker reports: the error messages of myfsck.c, the places where it
    looks for a fault, and the order in which it looks. */
module Report {
  import opened Layout
  import opened FsImage

  datatype FsckError =
    | BadSuperblock | BadInode | BadDirectoryFormat
    | BadDirectAddress | DirectAddressOnce
    | BadIndirectAddress | IndirectAddressOnce | BadUsedAddress
    | BadFileSize | BitmapMarkedUsed
    | UsedInodeNotFound | InodeReferredFree | BadReferenceCount | DirectoryOnce
    | ParentMismatch | InaccessibleDirectory

  datatype Verdict = Pass | Fail(error: FsckError)

  ghost predicate BadRange(img: Image, s: Slot)
    requires WellFormed(img)
  {
    IsSlot(img, s) && SRef(img, s) != 0 && !InData(img, SRef(img, s))
  }

  /** The clause of `Consistent` that each error message reports broken. */
  ghost predicate Violates(img: Image, e: FsckError)
    requires WellFormed(img)
  {
    match e
    case BadSuperblock => !SuperblockOk(img)
    case BadInode => exists i: nat :: i < img.ninodes && !KindOk(img, i)
    case BadDirectoryFormat => exists i: nat :: IsDir(img, i) && !DirFormatOk(img, i)
    case BadDirectAddress => exists s: Slot :: s.k < 12 && BadRange(img, s)
    case DirectAddressOnce => exists s: Slot, t: Slot :: s.k < 12 && Shared(img, s, t)
    case BadIndirectAddress => exists s: Slot :: s.k >= 12 && BadRange(img, s)
    case IndirectAddressOnce => exists s: Slot, t: Slot :: s.k >= 12 && Shared(img, s, t)
    case BadUsedAddress => exists s :: IsSlot(img, s) && InData(img, SRef(img, s)) && !SlotOk(img, s)
    case BadFileSize => exists i: nat :: InUse(img, i) && !SizeOk(img, i)
    case BitmapMarkedUsed => exists b: nat :: InData(img, b) && !BitmapOk(img, b)
    case UsedInodeNotFound => exists i: nat :: InUse(img, i) && Links(img, i) == 0
    case InodeReferredFree => exists i: nat :: 1 <= i < img.ninodes && !InUse(img, i) && Links(img, i) > 0
    case BadReferenceCount =>
      exists i: nat :: 1 <= i < img.ninodes && img.inodes[i].kind == T_FILE && img.inodes[i].nlink != Links(img, i)
    case DirectoryOnce => exists i: nat :: IsDir(img, i) && Links(img, i) != 1
    case ParentMismatch => exists i: nat :: IsDir(img, i) && !ParentOk(img, i)
    case InaccessibleDirectory => exists i: nat :: IsDir(img, i) && !ReachesRoot(ParentTable(img), i)
  }

  /** A reported error is a real inconsistency. */
  lemma ViolationRefutes(img: Image, e: FsckError)
    requires WellFormed(img) && Violates(img, e)
    ensures !Consistent(img)
    ensures e != BadFileSize ==> !ConsistentButSizes(img)
  {
    match e
    case BadDirectAddress =>
      var s: Slot :| s.k < 12 && BadRange(img, s);
      assert s in AllSlots(img) && !SlotOk(img, s);
    case BadIndirectAddress =>
      var s: Slot :| s.k >= 12 && BadRange(img, s);
      assert s in AllSlots(img) && !SlotOk(img, s);
    case DirectAddressOnce =>
      var s: Slot, t: Slot :| s.k < 12 && Shared(img, s, t);
      assert s in AllSlots(img) && t in AllSlots(img);
    case IndirectAddressOnce =>
      var s: Slot, t: Slot :| s.k >= 12 && Shared(img, s, t);
      assert s in AllSlots(img) && t in AllSlots(img);
    case BadUsedAddress =>
      var s :| IsSlot(img, s) && InData(img, SRef(img, s)) && !SlotOk(img, s);
      assert s in AllSlots(img);
    case UsedInodeNotFound =>
      var i: nat :| InUse(img, i) && Links(img, i) == 0;
      assert !LinksOk(img, i);
    case InodeReferredFree =>
      var i: nat :| 1 <= i < img.ninodes && !InUse(img, i) && Links(img, i) > 0;
      assert !LinksOk(img, i);
    case BadReferenceCount =>
      var i: nat :| 1 <= i < img.ninodes && img.inodes[i].kind == T_FILE && img.inodes[i].nlink != Links(img, i);
      assert !LinksOk(img, i);
    case DirectoryOnce =>
      var i: nat :| IsDir(img, i) && Links(img, i) != 1;
      assert !LinksOk(img, i);
    case _ =>
  }

  /* ---- faults and their order ---- */

  /** One test of the checker, with the inode i, slot k, entry e or block b it is made on. */
  datatype Test =
    | Superblock
    | Kind(i: nat) | OutOfRange(i: nat, k: nat) | Twice(i: nat, k: nat) | Unmarked(i: nat, k: nat)
    | ForeignDot(i: nat, k: nat, e: nat) | Format(i: nat) | Size(i: nat)
    | Marked(b: nat)
    | Orphan(i: nat) | Referred(i: nat) | FileLinks(i: nat) | DirLinks(i: nat) | Parent(i: nat) | Chain(i: nat)

  /** The test finds a fault in the image. */
  ghost predicate Fault(img: Image, t: Test)
    requires WellFormed(img)
  {
    match t
    case Superblock => !SuperblockOk(img)
    case Kind(i) => i < img.ninodes && !KindOk(img, i)
    case OutOfRange(i, k) => BadRange(img, Slot(i, k))
    case Twice(i, k) => exists s :: s in SlotsTo(img, i, k) && Shared(img, Slot(i, k), s)
    case Unmarked(i, k) =>
      IsSlot(img, Slot(i, k)) && InData(img, Ref(img, i, k)) && !img.bitmap[Ref(img, i, k)]
    case ForeignDot(i, k, e) =>
      IsPos(img, Pos(i, k, e)) && DotEntry(Entry(img, Pos(i, k, e))) && Entry(img, Pos(i, k, e)).inum != i
    case Format(i) => IsDir(img, i) && !DirFormatOk(img, i)
    case Size(i) => InUse(img, i) && !SizeOk(img, i)
    case Marked(b) => InData(img, b) && !BitmapOk(img, b)
    case Orphan(i) => InUse(img, i) && Links(img, i) == 0
    case Referred(i) => 1 <= i < img.ninodes && !InUse(img, i) && Links(img, i) > 0
    case FileLinks(i) =>
      1 <= i < img.ninodes && img.inodes[i].kind == T_FILE && img.inodes[i].nlink != Links(img, i)
    case DirLinks(i) => IsDir(img, i) && Links(img, i) != 1
    case Parent(i) => IsDir(img, i) && !ParentOk(img, i)
    case Chain(i) => IsDir(img, i) && !ReachesRoot(ParentTable(img), i)
  }

  function ErrorOf(t: Test): FsckError {
    match t
    case Superblock => BadSuperblock
    case Kind(_) => BadInode
    case OutOfRange(_, k) => if k < 12 then BadDirectAddress else BadIndirectAddress
    case Twice(_, k) => if k < 12 then DirectAddressOnce else IndirectAddressOnce
    case Unmarked(_, _) => BadUsedAddress
    case ForeignDot(_, _, _) => BadDirectoryFormat
    case Format(_) => BadDirectoryFormat
    case Size(_) => BadFileSize
    case Marked(_) => BitmapMarkedUsed
    case Orphan(_) => UsedInodeNotFound
    case Referred(_) => InodeReferredFree
    case FileLinks(_) => BadReferenceCount
    case DirLinks(_) => DirectoryOnce
    case Parent(_) => ParentMismatch
    case Chain(_) => InaccessibleDirectory
  }

  /** When a test is made: pass, then inode or block, then slot, then step. */
  datatype Time = Time(pass: nat, i: nat, k: nat, step: nat)

  predicate Earlier(a: Time, b: Time) {
    a.pass < b.pass || (a.pass == b.pass &&
    (a.i < b.i || (a.i == b.i && (a.k < b.k || (a.k == b.k && a.step < b.step)))))
  }

  /** The superblock comes first. The first pass takes each inode's type, then each slot
      (range, sharing, bitmap, then the entries of a directory block), then format and
      size. Then come the bitmap and the references. */
  function TimeOf(t: Test): Time {
    match t
    case Superblock => Time(0, 0, 0, 0)
    case Kind(i) => Time(1, i, 0, 0)
    case OutOfRange(i, k) => Time(1, i, k + 1, 0)
    case Twice(i, k) => Time(1, i, k + 1, 1)
    case Unmarked(i, k) => Time(1, i, k + 1, 2)
    case ForeignDot(i, k, e) => Time(1, i, k + 1, e + 3)
    case Format(i) => Time(1, i, 142, 0)
    case Size(i) => Time(1, i, 142, 1)
    case Marked(b) => Time(2, b, 0, 0)
    case Orphan(i) => Time(3, i, 0, 0)
    case Referred(i) => Time(3, i, 1, 0)
    case FileLinks(i) => Time(3, i, 2, 0)
    case DirLinks(i) => Time(3, i, 3, 0)
    case Parent(i) => Time(3, i, 4, 0)
    case Chain(i) => Time(3, i, 5, 0)
  }

  /** No test made before time `at` finds a fault. */
  ghost predicate ClearTo(img: Image, at: Time)
    requires WellFormed(img)
  {
    forall t :: Fault(img, t) ==> !Earlier(TimeOf(t), at)
  }

  /** Test t finds a fault, and no earlier test does. */
  ghost predicate FirstFault(img: Image, t: Test)
    requires WellFormed(img)
  {
    Fault(img, t) && ClearTo(img, TimeOf(t))
  }

  /** e is the message for the first fault. */
  ghost predicate Reports(img: Image, e: FsckError)
    requires WellFormed(img)
  {
    exists t :: FirstFault(img, t) && ErrorOf(t) == e
  }

  ghost predicate IsTest(t: Test) {
    match t
    case OutOfRange(_, k) => k < 141
    case Twice(_, k) => k < 141
    case Unmarked(_, k) => k < 141
    case ForeignDot(_, k, _) => k < 141
    case _ => true
  }

  lemma FaultIsTest(img: Image, t: Test)
    requires WellFormed(img) && Fault(img, t)
    ensures IsTest(t)
  {
    hide KindOk, DirFormatOk, SizeOk, BitmapOk, Links, ParentOk, ReachesRoot, ParentTable;
  }

  lemma TimesDiffer(a: Test, b: Test)
    requires IsTest(a) && IsTest(b)
    ensures a != b ==> Earlier(TimeOf(a), TimeOf(b)) || Earlier(TimeOf(b), TimeOf(a))
    ensures !(Earlier(TimeOf(a), TimeOf(b)) && Earlier(TimeOf(b), TimeOf(a)))
  {}

  /** There is only one first fault, so the message is determined by the image. */
  lemma FirstFaultUnique(img: Image, a: Test, b: Test)
    requires WellFormed(img) && FirstFault(img, a) && FirstFault(img, b)
    ensures a == b
  {
    hide Fault, TimeOf, Earlier;
    FaultIsTest(img, a);
    FaultIsTest(img, b);
    TimesDiffer(a, b);
  }

  /** The next test finds nothing. */
  lemma Advance(img: Image, t: Test, at: Time)
    requires WellFormed(img) && ClearTo(img, TimeOf(t)) && !Fault(img, t) && IsTest(t)
    requires at == TimeOf(t).(step := TimeOf(t).step + 1)
    ensures ClearTo(img, at)
  {
    forall u | Fault(img, u) ensures !Earlier(TimeOf(u), at) {
      hide Fault;
      FaultIsTest(img, u);
      TimesDiffer(u, t);
      hide TimeOf;
    }
  }

  /** No test between two times finds anything. */
  lemma Skip(img: Image, from: Time, to: Time)
    requires WellFormed(img) && ClearTo(img, from)
    requires forall t :: Fault(img, t) ==> Earlier(TimeOf(t), from) || !Earlier(TimeOf(t), to)
    ensures ClearTo(img, to)
  {}

  /** A fault is a broken clause of consistency. */
  lemma FaultViolates(img: Image, t: Test)
    requires WellFormed(img) && Fault(img, t)
    ensures Violates(img, ErrorOf(t))
  {
    hide KindOk, DirFormatOk, SizeOk, BitmapOk, Links, ParentOk, ReachesRoot, ParentTable, Ref, SuperblockOk;
    match t
    case ForeignDot(i, k, e) => ForeignDotViolates(img, Pos(i, k, e));
    case Unmarked(i, k) => assert !SlotOk(img, Slot(i, k));
    case OutOfRange(i, k) => assert BadRange(img, Slot(i, k));
    case _ => hide BadRange, SlotOk;
  }

  lemma ForeignDotViolates(img: Image, p: Pos)
    requires WellFormed(img) && IsPos(img, p) && DotEntry(Entry(img, p)) && Entry(img, p).inum != p.ino
    ensures IsDir(img, p.ino) && !DirFormatOk(img, p.ino)
  {
    assert p in Dots(img, AllPos(img), p.ino);
  }

  lemma ReportViolates(img: Image, e: FsckError)
    requires WellFormed(img) && Reports(img, e)
    ensures Violates(img, e)
  {
    hide Violates, Fault, ClearTo;
    var t :| FirstFault(img, t) && ErrorOf(t) == e;
    FaultViolates(img, t);
  }

  /** Inode i passed every test of the first pass. */
  ghost predicate InodeOk(img: Image, i: nat)
    requires WellFormed(img) && i < img.ninodes
  {
    && KindOk(img, i)
    && (InUse(img, i) ==> SizeOk(img, i))
    && (IsDir(img, i) ==> DirFormatOk(img, i))
  }

  ghost predicate ReferenceOk(img: Image, i: nat)
    requires WellFormed(img) && 1 <= i < img.ninodes
  {
    && LinksOk(img, i)
    && (IsDir(img, i) ==> ParentOk(img, i) && ReachesRoot(ParentTable(img), i))
  }

  /* ---- moving on through the tests ---- */

  lemma Found(img: Image, t: Test)
    requires WellFormed(img) && Fault(img, t) && ClearTo(img, TimeOf(t))
    ensures Reports(img, ErrorOf(t))
  {
    assert FirstFault(img, t);
  }

  /** The tests on one slot, when it is empty. */
  lemma SlotEmpty(img: Image, i: nat, k: nat)
    requires WellFormed(img) && i < img.ninodes && k < 141 && Ref(img, i, k) == 0
    requires ClearTo(img, Time(1, i, k + 1, 0))
    ensures ClearTo(img, Time(1, i, k + 2, 0))
  {
    NothingAt(img, i, k);
    hide KindOk, DirFormatOk, SizeOk, BitmapOk, Links, ParentOk, ReachesRoot, ParentTable, SuperblockOk, Ref;
  }

  lemma NothingAt(img: Image, i: nat, k: nat)
    requires WellFormed(img) && i < img.ninodes && k < 141 && Ref(img, i, k) == 0
    ensures !Fault(img, OutOfRange(i, k)) && !Fault(img, Twice(i, k)) && !Fault(img, Unmarked(i, k))
    ensures forall e :: !Fault(img, ForeignDot(i, k, e))
  {
    hide Ref;
  }

  lemma {:induction false} SlotsEmpty(img: Image, i: nat, k: nat, hi: nat)
    requires WellFormed(img) && i < img.ninodes && k <= hi <= 141
    requires forall l :: k <= l < hi ==> Ref(img, i, l) == 0
    requires ClearTo(img, Time(1, i, k + 1, 0))
    ensures ClearTo(img, Time(1, i, hi + 1, 0))
    decreases hi - k
  {
    hide ClearTo;
    if k < hi {
      SlotEmpty(img, i, k);
      SlotsEmpty(img, i, k + 1, hi);
    }
  }

  /** A slot without directory entries, or with all of them scanned. */
  lemma SlotDone(img: Image, i: nat, k: nat, step: nat)
    requires WellFormed(img) && k < 141 && ClearTo(img, Time(1, i, k + 1, step))
    requires (step == 3 && !IsDirSlot(img, i, k)) || step == 35
    ensures ClearTo(img, Time(1, i, k + 2, 0))
  {
    hide KindOk, DirFormatOk, SizeOk, BitmapOk, Links, ParentOk, ReachesRoot, ParentTable, SuperblockOk, Ref, BadRange;
  }

  /** Past the type test of inode i; none of its other tests applies when it is not in use. */
  lemma KindDone(img: Image, i: nat)
    requires WellFormed(img) && ClearTo(img, Time(1, i, 0, 1))
    ensures ClearTo(img, Time(1, i, 1, 0))
    ensures !InUse(img, i) ==> ClearTo(img, Time(1, i + 1, 0, 0))
  {
    hide KindOk, DirFormatOk, SizeOk, BitmapOk, Links, ParentOk, ReachesRoot, ParentTable, SuperblockOk, Ref;
  }

  /** Past the size test of inode i. */
  lemma InodeDone(img: Image, i: nat)
    requires WellFormed(img) && ClearTo(img, Time(1, i, 142, 2))
    ensures ClearTo(img, Time(1, i + 1, 0, 0))
  {
    hide KindOk, DirFormatOk, SizeOk, BitmapOk, Links, ParentOk, ReachesRoot, ParentTable, SuperblockOk, Ref;
  }

  /** From one pass to the next. */
  lemma PassDone(img: Image)
    requires WellFormed(img)
    ensures SuperblockOk(img) ==> ClearTo(img, Time(1, 0, 0, 0))
    ensures ClearTo(img, Time(1, img.ninodes, 0, 0)) ==> ClearTo(img, Time(2, Start(img), 0, 0))
    ensures forall b :: img.size <= b && ClearTo(img, Time(2, b, 0, 0)) ==> ClearTo(img, Time(3, 1, 0, 0))
  {
    hide KindOk, DirFormatOk, SizeOk, BitmapOk, Links, ParentOk, ReachesRoot, ParentTable, SuperblockOk, Ref, Start;
  }

  lemma BlockDone(img: Image, b: nat)
    requires WellFormed(img) && ClearTo(img, Time(2, b, 0, 0)) && (InData(img, b) ==> BitmapOk(img, b))
    ensures ClearTo(img, Time(2, b + 1, 0, 0))
  {
    hide KindOk, DirFormatOk, SizeOk, BitmapOk, Links, ParentOk, ReachesRoot, ParentTable, SuperblockOk, Ref, Start;
  }

  /** The tests on inode i's references, up to the first that fails. */
  lemma ReferenceDone(img: Image, i: nat, k: nat)
    requires WellFormed(img) && k <= 6 && ClearTo(img, Time(3, i, 0, 0))
    requires k > 0 ==> !Fault(img, Orphan(i))
    requires k > 1 ==> !Fault(img, Referred(i))
    requires k > 2 ==> !Fault(img, FileLinks(i))
    requires k > 3 ==> !Fault(img, DirLinks(i))
    requires k > 4 ==> !Fault(img, Parent(i))
    requires k > 5 ==> !Fault(img, Chain(i))
    ensures ClearTo(img, Time(3, i, k, 0))
    ensures k == 6 ==> ClearTo(img, Time(3, i + 1, 0, 0))
  {
    hide Fault;
  }

  /* ---- what each message says about the image ---- */

  /** An image with no fault is a consistent one. */
  lemma FaultFree(img: Image)
    requires WellFormed(img)
    ensures Consistent(img) <==> forall t :: !Fault(img, t)
  {
    if Consistent(img) {
      forall t ensures !Fault(img, t) {
        if Fault(img, t) {
          FaultViolates(img, t);
          ViolationRefutes(img, ErrorOf(t));
        }
      }
    }
    if forall t :: !Fault(img, t) { FaultFreeClauses(img); }
  }

  lemma FaultFreeClauses(img: Image)
    requires WellFormed(img) && forall t :: !Fault(img, t)
    ensures Consistent(img)
  {
    FaultFreeSlots(img);
    assert SuperblockOk(img) by { assert !Fault(img, Superblock); }
    hide SlotsGood;
    forall i: nat ensures Tested(img, i) { FaultFreeInode(img, i); }
    hide Fault, DirFormatOk, SizeOk, BitmapOk, LinksOk, ParentOk, ReachesRoot, ParentTable, SuperblockOk, KindOk;
    forall i: nat | i < img.ninodes ensures KindOk(img, i) { assert Tested(img, i); }
    forall i: nat | IsDir(img, i)
      ensures DirFormatOk(img, i) && ParentOk(img, i) && ReachesRoot(ParentTable(img), i)
    {
      assert Tested(img, i);
    }
    forall i: nat | InUse(img, i) ensures SizeOk(img, i) { assert Tested(img, i); }
    forall i: nat | InData(img, i) ensures BitmapOk(img, i) { assert Tested(img, i); }
    forall i: nat | 1 <= i < img.ninodes ensures LinksOk(img, i) { assert Tested(img, i); }
  }

  /** Inode i, and block i, pass every test but those on slots and entries. */
  ghost predicate Tested(img: Image, i: nat)
    requires WellFormed(img)
  {
    && (i < img.ninodes ==> InodeOk(img, i))
    && (InData(img, i) ==> BitmapOk(img, i))
    && (1 <= i < img.ninodes ==> ReferenceOk(img, i))
  }

  lemma FaultFreeInode(img: Image, i: nat)
    requires WellFormed(img) && forall t :: !Fault(img, t)
    ensures Tested(img, i)
  {
    hide Fault, InodeOk, BitmapOk, ReferenceOk, InData;
    assert !Fault(img, Kind(i)) && !Fault(img, Format(i)) && !Fault(img, Size(i)) && !Fault(img, Marked(i));
    assert !Fault(img, Orphan(i)) && !Fault(img, Referred(i)) && !Fault(img, FileLinks(i));
    assert !Fault(img, DirLinks(i)) && !Fault(img, Parent(i)) && !Fault(img, Chain(i));
    FirstPassTests(img, i);
    ReferenceTests(img, i);
  }

  lemma FirstPassTests(img: Image, i: nat)
    requires WellFormed(img)
    ensures InData(img, i) && !Fault(img, Marked(i)) ==> BitmapOk(img, i)
    ensures i < img.ninodes ==>
      (InodeOk(img, i) <==> !Fault(img, Kind(i)) && !Fault(img, Format(i)) && !Fault(img, Size(i)))
  {
    hide DirFormatOk, SizeOk, BitmapOk, KindOk, InData;
  }

  lemma ReferenceTests(img: Image, i: nat)
    requires WellFormed(img)
    ensures 1 <= i < img.ninodes ==>
      (ReferenceOk(img, i) <==>
       && !Fault(img, Orphan(i)) && !Fault(img, Referred(i)) && !Fault(img, FileLinks(i))
       && !Fault(img, DirLinks(i)) && !Fault(img, Parent(i)) && !Fault(img, Chain(i)))
  {
    hide Links, ParentOk, ReachesRoot, ParentTable;
  }

  lemma FaultFreeSlots(img: Image)
    requires WellFormed(img) && forall t :: !Fault(img, t)
    ensures SlotsGood(img, AllSlots(img))
  {
    hide Ref;
    SlotsGoodTo(img, img.ninodes, 0);
  }

  /** The slots before (i, k) are good when their tests find nothing. */
  lemma SlotsGoodTo(img: Image, i: nat, k: nat)
    requires WellFormed(img) && ClearTo(img, Time(1, i, k + 1, 0))
    ensures SlotsGood(img, SlotsTo(img, i, k))
  {
    hide Ref;
    var S := SlotsTo(img, i, k);
    forall s | s in S ensures SlotOk(img, s) {
      assert Earlier(TimeOf(OutOfRange(s.ino, s.k)), Time(1, i, k + 1, 0));
      assert Earlier(TimeOf(Unmarked(s.ino, s.k)), Time(1, i, k + 1, 0));
      assert !Fault(img, OutOfRange(s.ino, s.k)) && !Fault(img, Unmarked(s.ino, s.k));
    }
    forall s, t | s in S && t in S ensures !Shared(img, s, t) {
      assert Earlier(TimeOf(Twice(s.ino, s.k)), Time(1, i, k + 1, 0));
      assert Earlier(TimeOf(Twice(t.ino, t.k)), Time(1, i, k + 1, 0));
      SharedIsFault(img, s, t);
    }
  }

  /** Of two slots with one block, the later one is at fault. */
  lemma SharedIsFault(img: Image, s: Slot, t: Slot)
    requires WellFormed(img)
    ensures Shared(img, s, t) ==> Fault(img, Twice(s.ino, s.k)) || Fault(img, Twice(t.ino, t.k))
  {
    hide Ref;
    if Shared(img, s, t) {
      assert Shared(img, Slot(s.ino, s.k), t) && Shared(img, Slot(t.ino, t.k), s);
      assert s in SlotsTo(img, t.ino, t.k) || t in SlotsTo(img, s.ino, s.k);
    }
  }

  /** Everything up to and including the bitmap is in order. */
  ghost predicate FirstPassesOk(img: Image)
    requires WellFormed(img)
  {
    && SuperblockOk(img)
    && (forall j: nat :: j < img.ninodes ==> InodeOk(img, j))
    && SlotsGood(img, AllSlots(img))
    && (forall b: nat :: InData(img, b) ==> BitmapOk(img, b))
  }

  lemma ClearEarlier(img: Image, at: Time, sooner: Time)
    requires WellFormed(img) && ClearTo(img, at) && (sooner == at || Earlier(sooner, at))
    ensures ClearTo(img, sooner)
  {
    hide Fault, TimeOf;
  }

  lemma NotAt(img: Image, at: Time, t: Test)
    requires WellFormed(img) && ClearTo(img, at) && Earlier(TimeOf(t), at)
    ensures !Fault(img, t)
  {
    hide Fault, TimeOf;
  }

  /** Every inode has passed the first pass. */
  lemma InodesPassed(img: Image, at: Time)
    requires WellFormed(img) && ClearTo(img, at) && at.pass > 1
    ensures SuperblockOk(img) && SlotsGood(img, AllSlots(img))
    ensures forall j: nat :: j < img.ninodes ==> InodeOk(img, j)
  {
    assert SuperblockOk(img) by { NotAt(img, at, Superblock); }
    hide Fault, ClearTo, SuperblockOk, InodeOk, SlotsGood;
    ClearEarlier(img, at, Time(1, img.ninodes, 1, 0));
    SlotsGoodTo(img, img.ninodes, 0);
    forall j: nat | j < img.ninodes ensures InodeOk(img, j) {
      NotAt(img, at, Kind(j));
      NotAt(img, at, Format(j));
      NotAt(img, at, Size(j));
      FirstPassTests(img, j);
    }
  }

  /** Every block before `at` has passed the bitmap pass. */
  lemma BlocksPassed(img: Image, at: Time, b: nat)
    requires WellFormed(img) && ClearTo(img, at) && InData(img, b)
    requires at.pass > 2 || (at.pass == 2 && b < at.i)
    ensures BitmapOk(img, b)
  {
    NotAt(img, at, Marked(b));
    hide BitmapOk;
  }

  /** Every inode before `at` has passed the reference pass. */
  lemma ReferencesPassed(img: Image, at: Time, j: nat)
    requires WellFormed(img) && ClearTo(img, at) && at.pass == 3 && 1 <= j < at.i && j < img.ninodes
    ensures ReferenceOk(img, j)
  {
    hide Fault, ClearTo, ReferenceOk;
    NotAt(img, at, Orphan(j));
    NotAt(img, at, Referred(j));
    NotAt(img, at, FileLinks(j));
    NotAt(img, at, DirLinks(j));
    NotAt(img, at, Parent(j));
    NotAt(img, at, Chain(j));
    ReferenceTests(img, j);
  }

  /** All the reference errors: they concern the least inode with a broken reference
      rule, and come up only when the superblock, the first pass and the bitmap have
      nothing to report. Its links decide first, then its parent, then its chain. */
  lemma ReferenceErrors(img: Image, t: Test)
    requires WellFormed(img) && FirstFault(img, t) && TimeOf(t).pass == 3
    ensures FirstPassesOk(img)
    ensures var i := TimeOf(t).i;
            && 1 <= i < img.ninodes && !ReferenceOk(img, i)
            && (forall j: nat :: 1 <= j < i ==> ReferenceOk(img, j))
            && ReferenceMessage(img, i, ErrorOf(t))
  {
    var at := TimeOf(t);
    ReferenceFault(img, t);
    hide Fault, ClearTo, ReferenceOk, InodeOk, BitmapOk, SlotsGood, SuperblockOk, ReferenceMessage;
    InodesPassed(img, at);
    forall b: nat | InData(img, b) ensures BitmapOk(img, b) { BlocksPassed(img, at, b); }
    forall j: nat | 1 <= j < at.i ensures ReferenceOk(img, j) { ReferencesPassed(img, at, j); }
  }

  /** Which message inode i, the first with a broken reference rule, calls for. */
  ghost predicate ReferenceMessage(img: Image, i: nat, e: FsckError)
    requires WellFormed(img) && 1 <= i < img.ninodes
  {
    && (e == UsedInodeNotFound <==> InUse(img, i) && Links(img, i) == 0)
    && (e == InodeReferredFree <==> !InUse(img, i))
    && (e == BadReferenceCount <==> img.inodes[i].kind == T_FILE && Links(img, i) > 0)
    && (e == DirectoryOnce <==> IsDir(img, i) && Links(img, i) > 1)
    && (e == ParentMismatch <==> IsDir(img, i) && Links(img, i) == 1 && !ParentOk(img, i))
    && (e == InaccessibleDirectory <==> IsDir(img, i) && Links(img, i) == 1 && ParentOk(img, i))
  }

  lemma ReferenceFaults(img: Image, i: nat)
    requires WellFormed(img)
    ensures Fault(img, Orphan(i)) <==> InUse(img, i) && Links(img, i) == 0
    ensures Fault(img, Referred(i)) ==> 1 <= i < img.ninodes && !InUse(img, i) && Links(img, i) > 0
    ensures Fault(img, FileLinks(i)) <==>
            InUse(img, i) && img.inodes[i].kind == T_FILE && img.inodes[i].nlink != Links(img, i)
    ensures Fault(img, DirLinks(i)) <==> IsDir(img, i) && Links(img, i) != 1
    ensures Fault(img, Parent(i)) <==> IsDir(img, i) && !ParentOk(img, i)
    ensures Fault(img, Chain(i)) ==> IsDir(img, i)
  {
    hide Links, ParentOk, ReachesRoot, ParentTable;
  }

  lemma ReferenceFault(img: Image, t: Test)
    requires WellFormed(img) && FirstFault(img, t) && TimeOf(t).pass == 3
    ensures 1 <= TimeOf(t).i < img.ninodes && !ReferenceOk(img, TimeOf(t).i)
    ensures ReferenceMessage(img, TimeOf(t).i, ErrorOf(t))
  {
    hide Fault, Links, ParentOk;
    var at := TimeOf(t);
    var i := at.i;
    ReferenceFaults(img, i);
    assert at.k > 0 ==> !Fault(img, Orphan(i));
    assert at.k > 3 ==> !Fault(img, DirLinks(i));
    assert at.k > 4 ==> !Fault(img, Parent(i));
    hide ClearTo;
    assert 1 <= i < img.ninodes;
    ReferenceTests(img, i);
    hide ReferenceOk;
    assert t in {Orphan(i), Referred(i), FileLinks(i), DirLinks(i), Parent(i), Chain(i)};
  }

  /** All the errors of the first pass: they concern the least inode at fault there, and
      in it the first bad slot; the slots before it are all good. A slot's range decides
      first, then sharing, then its bitmap bit. Format comes after the slots, and size last. */
  lemma FirstPassErrors(img: Image, t: Test)
    requires WellFormed(img) && FirstFault(img, t) && TimeOf(t).pass == 1
    ensures SuperblockOk(img)
    ensures var i, e := TimeOf(t).i, ErrorOf(t);
            && i < img.ninodes
            && (forall j: nat :: j < i ==> InodeOk(img, j))
            && SlotsGood(img, SlotsTo(img, i, 0))
            && (e == BadInode <==> !KindOk(img, i))
            && (e == BadFileSize ==> InUse(img, i) && SlotsGood(img, SlotsTo(img, i, 141))
                                     && (IsDir(img, i) ==> DirFormatOk(img, i)) && !SizeOk(img, i))
            && (e == BadDirectoryFormat ==> IsDir(img, i) && !DirFormatOk(img, i))
            && (e in {BadDirectAddress, DirectAddressOnce, BadIndirectAddress, IndirectAddressOnce, BadUsedAddress} ==>
                  exists k: nat :: FirstBadSlot(img, i, k, e))
  {
    var i := TimeOf(t).i;
    FaultIsTest(img, t);
    hide SizeOk, DirFormatOk, Ref, Links, ParentOk, ReachesRoot, ParentTable, BitmapOk;
    assert i < img.ninodes && !t.Superblock?;
    BeforeInode(img, i, TimeOf(t));
    assert t.ForeignDot? ==> !DirFormatOk(img, i) by {
      if t.ForeignDot? { ForeignDotViolates(img, Pos(t.i, t.k, t.e)); }
    }
    assert t != Kind(i) ==> KindOk(img, i) by {
      if t != Kind(i) { assert !Fault(img, Kind(i)); }
    }
    if t.OutOfRange? || t.Twice? || t.Unmarked? {
      SlotFaultFirst(img, t);
      assert FirstBadSlot(img, i, t.k, ErrorOf(t));
    }
    if t.Size? {
      assert !Fault(img, Format(i));
      SlotsGoodTo(img, i, 141);
    }
  }

  /** Slot (i, k) is bad in the way e says, and not in a way tested before; the slots before it are good. */
  ghost predicate FirstBadSlot(img: Image, i: nat, k: nat, e: FsckError)
    requires WellFormed(img)
  {
    && IsSlot(img, Slot(i, k)) && SlotsGood(img, SlotsTo(img, i, k))
    && (if !InData(img, Ref(img, i, k)) then
          Ref(img, i, k) != 0 && e == (if k < 12 then BadDirectAddress else BadIndirectAddress)
        else if Holds(img, SlotsTo(img, i, k), Ref(img, i, k)) then
          e == (if k < 12 then DirectAddressOnce else IndirectAddressOnce)
        else !img.bitmap[Ref(img, i, k)] && e == BadUsedAddress)
  }

  lemma SlotFaultFirst(img: Image, t: Test)
    requires WellFormed(img) && FirstFault(img, t) && (t.OutOfRange? || t.Twice? || t.Unmarked?)
    ensures FirstBadSlot(img, t.i, t.k, ErrorOf(t))
  {
    hide Ref;
    var i, k := t.i, t.k;
    assert ClearTo(img, Time(1, i, k + 1, 0));
    SlotsGoodTo(img, i, k);
    hide SlotsGood;
    assert t.Twice? || t.Unmarked? ==> !Fault(img, OutOfRange(i, k)) by {
      if t.Twice? || t.Unmarked? { assert Earlier(TimeOf(OutOfRange(i, k)), TimeOf(t)); }
    }
    assert t.Unmarked? ==> !Fault(img, Twice(i, k)) by {
      if t.Unmarked? { assert Earlier(TimeOf(Twice(i, k)), TimeOf(t)); }
    }
    HeldIsTwice(img, i, k);
  }

  lemma HeldIsTwice(img: Image, i: nat, k: nat)
    requires WellFormed(img) && IsSlot(img, Slot(i, k))
    ensures Fault(img, Twice(i, k)) <==> Holds(img, SlotsTo(img, i, k), Ref(img, i, k))
  {
    hide Ref;
    assert SRef(img, Slot(i, k)) == Ref(img, i, k);
    if s :| s in SlotsTo(img, i, k) && SRef(img, s) == Ref(img, i, k) != 0 {
      assert Shared(img, Slot(i, k), s);
    }
  }

  lemma BeforeInode(img: Image, i: nat, at: Time)
    requires WellFormed(img) && i < img.ninodes && ClearTo(img, at) && at.pass == 1 && at.i == i
    ensures SuperblockOk(img) && SlotsGood(img, SlotsTo(img, i, 0))
    ensures forall j: nat :: j < i ==> InodeOk(img, j)
  {
    assert SuperblockOk(img) by { NotAt(img, at, Superblock); }
    hide Fault, SuperblockOk, InodeOk, SlotsGood;
    SlotsGoodBelow(img, i, at);
    hide ClearTo;
    forall j: nat | j < i ensures InodeOk(img, j) {
      NotAt(img, at, Kind(j));
      NotAt(img, at, Format(j));
      NotAt(img, at, Size(j));
      FirstPassTests(img, j);
    }
  }

  lemma SlotsGoodBelow(img: Image, i: nat, at: Time)
    requires WellFormed(img) && ClearTo(img, at) && at.pass == 1 && at.i == i
    ensures SlotsGood(img, SlotsTo(img, i, 0))
  {
    if i == 0 {
      assert SlotsTo(img, i, 0) == {};
    } else {
      hide Fault, SlotsGood;
      assert ClearTo(img, Time(1, i - 1, 142, 0));
      SlotsGoodTo(img, i - 1, 141);
      assert forall s :: s in SlotsTo(img, i, 0) ==> s in SlotsTo(img, i - 1, 141);
      FewerSlots(img, SlotsTo(img, i, 0), SlotsTo(img, i - 1, 141));
    }
  }

  lemma FewerSlots(img: Image, S: set<Slot>, T: set<Slot>)
    requires WellFormed(img) && S <= T && (forall s :: s in T ==> IsSlot(img, s)) && SlotsGood(img, T)
    ensures SlotsGood(img, S)
  {}

  /** A bitmap error comes up only after a clean first pass, and for the least block. */
  lemma BitmapErrors(img: Image, t: Test)
    requires WellFormed(img) && FirstFault(img, t) && TimeOf(t).pass == 2
    ensures SuperblockOk(img) && SlotsGood(img, AllSlots(img))
    ensures forall j: nat :: j < img.ninodes ==> InodeOk(img, j)
    ensures InData(img, TimeOf(t).i) && !BitmapOk(img, TimeOf(t).i)
    ensures forall b: nat :: b < TimeOf(t).i && InData(img, b) ==> BitmapOk(img, b)
  {
    assert t.Marked?;
    hide InodeOk, BitmapOk, SuperblockOk, ClearTo, SlotsGood;
    InodesPassed(img, TimeOf(t));
    forall b: nat | b < TimeOf(t).i && InData(img, b) ensures BitmapOk(img, b) { BlocksPassed(img, TimeOf(t), b); }
  }
}
