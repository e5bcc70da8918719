/** What mkfs builds, seen through myfsck's eyes. */
module Acceptance {
  import opened Layout
  import opened FsImage
  import opened Bytes
  import opened Volume
  import opened Nodes
  import opened HostTree
  import opened Cards
  import opened Mkfs

  /** A finished tree: no entry is owed but the root's, which no entry names. */
  ghost predicate Finished(nodes: seq<Node>) {
    TreeOk(nodes, {ROOTINO}) && IsDirNode(nodes, ROOTINO) && nodes[ROOTINO].closed
  }

  /** A finished volume: all directories closed, the bitmap marking the blocks below fb. */
  ghost predicate Built(disk: Disk, nodes: seq<Node>, fb: nat, owner: seq<Slot>) {
    && SuperOk(disk) && VolOk(TableOf(disk), disk, nodes, fb, owner)
    && Finished(nodes)
    && forall b: nat :: b < SIZE ==> (BitmapBit(disk, NINODES, b) <==> b < fb)
  }

  /* ---- the decoded image, inode by inode ---- */

  /** The image's geometry. */
  ghost predicate Geometry(img: Image) {
    WellFormed(img) && img.size == SIZE && img.nblocks == NBLOCKS && img.ninodes == NINODES
  }

  ghost predicate SeesNode(img: Image, nodes: seq<Node>, i: nat)
    requires Geometry(img) && i < NINODES
  {
    if 1 <= i < |nodes| then
      && img.inodes[i].kind == nodes[i].kind && img.inodes[i].nlink == nodes[i].nlink
      && img.inodes[i].size == NodeSize(nodes[i])
    else img.inodes[i].kind == T_FREE
  }

  /** Slots are filled exactly as the lengths say, each with its own block below fb. */
  ghost predicate SeesSlots(img: Image, nodes: seq<Node>, fb: nat)
    requires Geometry(img)
  {
    forall i: nat, k: nat :: i < NINODES && k < 141 ==>
      && (Ref(img, i, k) != 0 <==> 1 <= i < |nodes| && Needed(k, |nodes[i].data|))
      && (Ref(img, i, k) != 0 ==> START <= Ref(img, i, k) < fb)
  }

  ghost predicate SlotsApart(img: Image)
    requires Geometry(img)
  {
    forall i: nat, k: nat, j: nat, l: nat ::
      (i < NINODES && k < 141 && j < NINODES && l < 141 && Ref(img, i, k) == Ref(img, j, l) != 0) ==> i == j && k == l
  }

  ghost predicate HeldBlock(img: Image, b: nat)
    requires Geometry(img)
  {
    exists i: nat, k: nat :: i < NINODES && k < 141 && Ref(img, i, k) == b
  }

  ghost predicate BlocksHeld(img: Image, fb: nat)
    requires Geometry(img)
  {
    forall b: nat :: START <= b < fb ==> HeldBlock(img, b)
  }

  /** Entry x of a directory; past the last one, the zeros of its last block. */
  ghost function NodeEntry(nd: Node, x: nat): Dirent {
    if x < ECount(nd) then EntryAt(nd, x) else ZeroDirent()
  }

  ghost predicate SeesEntries(img: Image, nodes: seq<Node>)
    requires Geometry(img)
  {
    forall i: nat, f: nat, e: nat ::
      (IsDirNode(nodes, i) && i < NINODES && f < 140 && e < 32 && Needed(SlotOf(f), |nodes[i].data|)) ==>
      Ref(img, i, SlotOf(f)) < SIZE && img.dirents[Ref(img, i, SlotOf(f))][e] == NodeEntry(nodes[i], 32 * f + e)
  }

  lemma SuperDecodes(disk: Disk)
    requires SuperOk(disk)
    ensures Decodable(disk) && Geometry(Decode(disk))
  {
    Le32Inverse(SIZE);
    Le32Inverse(NBLOCKS);
    Le32Inverse(NINODES);
  }

  lemma RefIsVRef(disk: Disk, i: nat, k: nat)
    requires SuperOk(disk) && Decodable(disk) && Geometry(Decode(disk)) && i < NINODES && k < 141
    ensures Ref(Decode(disk), i, k) == VRef(TableOf(disk), disk, i, k)
  {
    hide DecodeInode, Words;
  }

  /** Bytes of the f-th block read as entries. */
  lemma BlockEntries(nd: Node, f: nat, e: nat)
    requires |nd.data| % 16 == 0 && e < 32
    ensures Dirents(BlockOf(nd.data, f))[e] == NodeEntry(nd, 32 * f + e)
  {
    var s, x := BlockOf(nd.data, f), 32 * f + e;
    var part := s[16 * e..16 * e + 16];
    forall j | 0 <= j < 16 ensures part[j] == if 16 * x + j < |nd.data| then nd.data[16 * x + j] else 0 {
      assert 512 * f + (16 * e + j) == 16 * x + j;
    }
    if x < ECount(nd) {
      assert part == nd.data[16 * x..16 * x + 16];
    } else {
      assert forall j :: 0 <= j < 16 ==> part[j] == 0;
      ZeroEntry(part);
    }
  }

  lemma ZeroEntry(b: seq<byte>)
    requires |b| == 16 && forall j :: 0 <= j < 16 ==> b[j] == 0
    ensures DecodeDirent(b) == ZeroDirent()
  {
    assert b[2..16] == seq(14, _ => 0);
  }

  ghost predicate RefsAre(img: Image, T: Table, blk: Disk)
    requires Geometry(img) && TableOk(T) && |blk| == SIZE
  {
    forall i: nat, k: nat :: i < NINODES && k < 141 ==> Ref(img, i, k) == VRef(T, blk, i, k)
  }

  lemma SlotsSeen(img: Image, T: Table, blk: Disk, nodes: seq<Node>, fb: nat, owner: seq<Slot>)
    requires Geometry(img) && VolOk(T, blk, nodes, fb, owner) && TableOk(T) && RefsAre(img, T, blk)
    ensures SeesSlots(img, nodes, fb)
  {
    hide VRef, Ref, InodeMatches, DataOk, OwnersOk;
  }

  lemma SlotsSeenApart(img: Image, T: Table, blk: Disk, n: nat, fb: nat, owner: seq<Slot>)
    requires Geometry(img) && OwnOk(T, blk, n, fb, owner) && RefsAre(img, T, blk)
    ensures SlotsApart(img)
  {
    hide VRef, Ref, OwnersOk;
  }

  lemma BlocksSeenHeld(img: Image, T: Table, blk: Disk, n: nat, fb: nat, owner: seq<Slot>)
    requires Geometry(img) && OwnOk(T, blk, n, fb, owner) && RefsAre(img, T, blk)
    ensures BlocksHeld(img, fb)
  {
    hide VRef, Ref, HeldOk;
    forall b: nat | START <= b < fb ensures HeldBlock(img, b) {
      var s := owner[b - START];
      assert Ref(img, s.ino, s.k) == b;
    }
  }

  lemma EntriesSeen(disk: Disk, img: Image, nodes: seq<Node>, fb: nat, owner: seq<Slot>)
    requires SuperOk(disk) && Decodable(disk) && img == Decode(disk) && Geometry(img)
    requires VolOk(TableOf(disk), disk, nodes, fb, owner) && RefsAre(img, TableOf(disk), disk)
    requires forall j: nat :: IsDirNode(nodes, j) ==> |nodes[j].data| % 16 == 0
    ensures SeesEntries(img, nodes)
  {
    var T := TableOf(disk);
    assert forall b :: 0 <= b < SIZE ==> img.dirents[b] == Dirents(disk[b]);
    hide Decode, VRef, Ref, InodeMatches, OwnOk, ShapeOk, Dirents, BlockOf, EntryAt;
    forall i: nat, f: nat, e: nat |
      IsDirNode(nodes, i) && i < NINODES && f < 140 && e < 32 && Needed(SlotOf(f), |nodes[i].data|)
      ensures Ref(img, i, SlotOf(f)) < SIZE && img.dirents[Ref(img, i, SlotOf(f))][e] == NodeEntry(nodes[i], 32 * f + e)
    {
      BlockEntries(nodes[i], f, e);
    }
  }

  /** Everything the checker's tests can see of a built volume. */
  ghost predicate Seen(img: Image, nodes: seq<Node>, fb: nat) {
    && Geometry(img) && |nodes| <= NINODES && START <= fb <= SIZE
    && (forall i: nat :: i < NINODES ==> SeesNode(img, nodes, i))
    && SeesSlots(img, nodes, fb) && SlotsApart(img) && BlocksHeld(img, fb) && SeesEntries(img, nodes)
    && (forall b: nat :: b < SIZE ==> (img.bitmap[b] <==> b < fb))
    && (forall i: nat :: 1 <= i < |nodes| ==> |nodes[i].data| <= 71680)
  }

  lemma BuiltIsSeen(disk: Disk, nodes: seq<Node>, fb: nat, owner: seq<Slot>)
    requires Built(disk, nodes, fb, owner)
    ensures Decodable(disk) && Seen(Decode(disk), nodes, fb)
  {
    var T := TableOf(disk);
    SuperDecodes(disk);
    var img := Decode(disk);
    assert forall i: nat :: i < NINODES ==> img.inodes[i] == T[i];
    assert forall b: nat :: b < SIZE ==> img.bitmap[b] == BitmapBit(disk, NINODES, b);
    hide DecodeInode, BitmapBit, OwnOk, ShapeOk, DataOk, ZeroFrom, ParentsAgree, CountOk, EntryAt;
    forall i: nat, k: nat | i < NINODES && k < 141 ensures Ref(img, i, k) == VRef(T, disk, i, k) {
      RefIsVRef(disk, i, k);
    }
    hide Ref, VRef, Decode;
    assert RefsAre(img, T, disk);
    SlotsSeen(img, T, disk, nodes, fb, owner);
    SlotsSeenApart(img, T, disk, |nodes|, fb, owner);
    BlocksSeenHeld(img, T, disk, |nodes|, fb, owner);
    forall j: nat | IsDirNode(nodes, j) ensures |nodes[j].data| % 16 == 0 { assert NodeOk(nodes, {ROOTINO}, j); }
    EntriesSeen(disk, img, nodes, fb, owner);
    FreeInRange(T, disk, nodes, fb, owner);
    forall i: nat | i < NINODES ensures SeesNode(img, nodes, i) {
      if 1 <= i < |nodes| { assert InodeMatches(T[i], nodes[i]); }
    }
    forall i: nat | 1 <= i < |nodes| ensures |nodes[i].data| <= 71680 { assert InodeMatches(T[i], nodes[i]); }
  }

  /* ---- the checker's tests, one by one ---- */

  lemma DirFinished(nodes: seq<Node>, j: nat)
    requires Finished(nodes) && IsDirNode(nodes, j)
    ensures Formatted(nodes, j) && nodes[j].closed && nodes[j].data != []
    ensures |Namings(nodes, j)| == if j == ROOTINO then 0 else 1
  {
    hide Formatted, Namings;
    assert NodeOk(nodes, {ROOTINO}, j);
  }

  /** Position of the f-th block's slot among the data blocks. */
  function BlockIndex(k: nat): nat { if k < 12 then k else if k == 12 then 0 else k - 1 }

  function EntryIndex(p: Pos): nat { 32 * BlockIndex(p.k) + p.e }

  function ToPos(q: EPos): Pos { Pos(q.dir, SlotOf(q.e / 32), q.e % 32) }

  function FromPos(p: Pos): EPos { EPos(p.ino, EntryIndex(p)) }

  lemma UseSeen(img: Image, nodes: seq<Node>, fb: nat, i: nat)
    requires Seen(img, nodes, fb)
    ensures InUse(img, i) <==> 1 <= i < |nodes| && nodes[i].kind != T_FREE
    ensures IsDir(img, i) <==> IsDirNode(nodes, i)
    ensures Start(img) == START
  {
    hide SeesSlots, SlotsApart, BlocksHeld, SeesEntries;
    if i < NINODES { assert SeesNode(img, nodes, i); }
  }

  /** Every position of the image is an entry of a directory node. */
  lemma PosEntry(img: Image, nodes: seq<Node>, fb: nat, p: Pos)
    requires Seen(img, nodes, fb) && IsPos(img, p)
    ensures IsDirNode(nodes, p.ino) && p.ino < NINODES && Entry(img, p) == NodeEntry(nodes[p.ino], EntryIndex(p))
  {
    hide SlotsApart, BlocksHeld, NodeEntry;
    UseSeen(img, nodes, fb, p.ino);
    assert Ref(img, p.ino, p.k) != 0;
    assert SlotOf(BlockIndex(p.k)) == p.k;
  }

  lemma EntryPos(img: Image, nodes: seq<Node>, fb: nat, j: nat, x: nat)
    requires Seen(img, nodes, fb) && IsDirNode(nodes, j) && x < ECount(nodes[j])
    ensures var p := ToPos(EPos(j, x)); IsPos(img, p) && EntryIndex(p) == x && Entry(img, p) == EntryAt(nodes[j], x)
  {
    hide SlotsApart, BlocksHeld, EntryAt;
    UseSeen(img, nodes, fb, j);
    var p := ToPos(EPos(j, x));
    assert Needed(p.k, |nodes[j].data|);
    assert Ref(img, j, p.k) != 0;
    PosEntry(img, nodes, fb, p);
  }

  lemma EntryKinds(nodes: seq<Node>, j: nat, x: nat)
    requires Finished(nodes) && IsDirNode(nodes, j)
    ensures DotEntry(NodeEntry(nodes[j], x)) <==> x == 0
    ensures DotDotEntry(NodeEntry(nodes[j], x)) <==> x == 1
    ensures OrdinaryEntry(NodeEntry(nodes[j], x)) <==> 2 <= x < ECount(nodes[j])
    ensures NodeEntry(nodes[j], 0).inum == j
    ensures NodeEntry(nodes[j], x).inum < |nodes|
  {
    hide EntryAt;
    DirFinished(nodes, j);
    PadNameReads(DOT);
    PadNameReads(DOTDOT);
    assert DOT != DOTDOT;
    hide PadName, CStr;
    if 2 <= x < ECount(nodes[j]) { assert OrdinaryAt(nodes, j, x); }
  }

  lemma FormatSeen(img: Image, nodes: seq<Node>, fb: nat, j: nat)
    requires Seen(img, nodes, fb) && Finished(nodes) && IsDirNode(nodes, j)
    ensures Dots(img, AllPos(img), j) == {Pos(j, 0, 0)} && DotDots(img, AllPos(img), j) == {Pos(j, 0, 1)}
    ensures DirFormatOk(img, j) && ECount(nodes[j]) >= 2 && DotDot(img, j) == ParentOf(nodes, j)
  {
    DirFinished(nodes, j);
    EntryPos(img, nodes, fb, j, 0);
    EntryPos(img, nodes, fb, j, 1);
    EntryKinds(nodes, j, 0);
    EntryKinds(nodes, j, 1);
    hide Seen, Finished, EntryAt, Entry, DotEntry, DotDotEntry, Formatted;
    forall p | IsPos(img, p) && p.ino == j
      ensures DotEntry(Entry(img, p)) <==> p == Pos(j, 0, 0)
      ensures DotDotEntry(Entry(img, p)) <==> p == Pos(j, 0, 1)
    {
      PosEntry(img, nodes, fb, p);
      EntryKinds(nodes, j, EntryIndex(p));
      assert p.k != 12;
    }
    assert Dots(img, AllPos(img), j) == {Pos(j, 0, 0)};
    assert DotDots(img, AllPos(img), j) == {Pos(j, 0, 1)};
  }

  /** Ordinary entries of the image and naming entries of the nodes correspond. */
  lemma NamesSeen(img: Image, nodes: seq<Node>, fb: nat, p: Pos, t: nat)
    requires Seen(img, nodes, fb) && Finished(nodes) && IsPos(img, p)
    ensures Names(img, p, t) <==> NamesNode(nodes, FromPos(p), t)
    ensures ToPos(FromPos(p)) == p
  {
    hide EntryAt, Seen, OrdinaryEntry;
    PosEntry(img, nodes, fb, p);
    EntryKinds(nodes, p.ino, EntryIndex(p));
    assert p.k != 12 && p.e < 32;
  }

  lemma NamersSeen(img: Image, nodes: seq<Node>, fb: nat, t: nat)
    requires Geometry(img) && Seen(img, nodes, fb) && Finished(nodes)
    ensures |Namers(img, AllPos(img), t)| == |Namings(nodes, t)|
  {
    hide Seen, EntryAt, Finished, Names, NamesNode, IsPos, ToPos, FromPos, Namings;
    var P, N := Namers(img, AllPos(img), t), Namings(nodes, t);
    forall q | q in N ensures ToPos(q) in P && FromPos(ToPos(q)) == q { NamingIsPos(img, nodes, fb, q, t); }
    forall p | p in P ensures FromPos(p) in N && ToPos(FromPos(p)) == p { NamesSeen(img, nodes, fb, p, t); }
    var there, back := (map q | q in N :: ToPos(q)), (map p | p in P :: FromPos(p));
    BijectionCard(there, back);
    assert there.Keys == N && back.Keys == P;
  }

  lemma NamingIsPos(img: Image, nodes: seq<Node>, fb: nat, q: EPos, t: nat)
    requires Seen(img, nodes, fb) && Finished(nodes) && NamesNode(nodes, q, t)
    ensures IsPos(img, ToPos(q)) && Names(img, ToPos(q), t) && FromPos(ToPos(q)) == q
  {
    hide Seen, EntryAt, Finished;
    EntryPos(img, nodes, fb, q.dir, q.e);
    NamesSeen(img, nodes, fb, ToPos(q), t);
  }

  lemma LinksSeen(img: Image, nodes: seq<Node>, fb: nat, t: nat)
    requires Seen(img, nodes, fb) && Finished(nodes)
    ensures Links(img, t) == if t == ROOTINO then 1 else |Namings(nodes, t)|
  {
    assert Geometry(img);
    hide Seen, Finished, EntryAt, Entry, Names;
    NamersSeen(img, nodes, fb, t);
    var P := Namers(img, AllPos(img), t);
    var R := Referrers(img, AllPos(img), t);
    if t == ROOTINO {
      RootIsDir(nodes);
      FormatSeen(img, nodes, fb, ROOTINO);
      DirFinished(nodes, ROOTINO);
      assert P == {};
      forall p | p in R ensures p in Dots(img, AllPos(img), ROOTINO) { assert p !in P; }
      assert Pos(ROOTINO, 0, 0) in Dots(img, AllPos(img), ROOTINO);
      assert R == {Pos(ROOTINO, 0, 0)};
    } else {
      assert R == P;
    }
  }

  lemma RootIsDir(nodes: seq<Node>)
    requires Finished(nodes)
    ensures IsDirNode(nodes, ROOTINO)
  {}

  lemma LinksAccepted(img: Image, nodes: seq<Node>, fb: nat, t: nat)
    requires Seen(img, nodes, fb) && Finished(nodes) && 1 <= t < NINODES
    ensures LinksOk(img, t)
  {
    assert SeesNode(img, nodes, t);
    hide SeesSlots, SlotsApart, BlocksHeld, SeesEntries, Links, Namings, Formatted, ParentsAgree;
    LinksSeen(img, nodes, fb, t);
    UseSeen(img, nodes, fb, t);
    if t < |nodes| {
      assert NodeOk(nodes, {ROOTINO}, t);
    } else {
      NoNamings(nodes, t);
    }
  }

  lemma NoNamings(nodes: seq<Node>, t: nat)
    requires Finished(nodes) && |nodes| <= t
    ensures Namings(nodes, t) == {}
  {
    hide EntryAt;
    forall p | NamesNode(nodes, p, t) ensures false {
      EntryKinds(nodes, p.dir, p.e);
    }
    assert forall p :: p !in Namings(nodes, t);
  }

  lemma ParentAccepted(img: Image, nodes: seq<Node>, fb: nat, j: nat)
    requires Seen(img, nodes, fb) && Finished(nodes) && IsDirNode(nodes, j)
    ensures ParentOk(img, j)
  {
    FormatSeen(img, nodes, fb, j);
    DirFinished(nodes, j);
    hide Seen, EntryAt, Entry, NodeOk, DotDot;
    if j != ROOTINO {
      var N := Namings(nodes, j);
      assert N != {};
      var q :| q in N;
      NamingIsPos(img, nodes, fb, q, j);
      assert ToPos(q) in AllPos(img) && ToPos(q).ino == ParentOf(nodes, j);
    }
  }

  lemma {:induction false} ChainAccepted(img: Image, nodes: seq<Node>, fb: nat, j: nat)
    requires Seen(img, nodes, fb) && Finished(nodes) && IsDirNode(nodes, j) && j < NINODES && Geometry(img)
    ensures ReachesRoot(ParentTable(img), j)
    decreases j
  {
    var par := ParentTable(img);
    if j == ROOTINO {
      assert Ancestor(par, j, 0) == ROOTINO;
    } else {
      FormatSeen(img, nodes, fb, j);
      DirFinished(nodes, j);
      var up := ParentOf(nodes, j);
      hide Seen, Finished, EntryAt, DotDot;
      ChainAccepted(img, nodes, fb, up);
      var m: nat :| Ancestor(par, up, m) == ROOTINO;
      assert Ancestor(par, j, 0) == j;
      assert Ancestor(par, j, 1) == up;
      AncestorAdd(par, j, 1, m);
    }
  }

  lemma SlotsAccepted(img: Image, nodes: seq<Node>, fb: nat)
    requires Seen(img, nodes, fb)
    requires forall t: nat :: 1 <= t < |nodes| ==> nodes[t].kind != T_FREE
    ensures SlotsGood(img, AllSlots(img))
    ensures forall b: nat :: InData(img, b) ==> BitmapOk(img, b)
  {
    UseSeen(img, nodes, fb, 0);
    hide SeesEntries, SeesNode, Ref;
    forall b: nat | InData(img, b) && img.bitmap[b] ensures Holds(img, AllSlots(img), b) {
      assert HeldBlock(img, b);
      var i: nat, k: nat :| i < NINODES && k < 141 && Ref(img, i, k) == b;
      assert Ref(img, i, k) != 0;
      BlockOwner(img, nodes, fb, i, k);
      assert Slot(i, k) in AllSlots(img) && SRef(img, Slot(i, k)) == b;
    }
  }

  lemma BlockOwner(img: Image, nodes: seq<Node>, fb: nat, i: nat, k: nat)
    requires Seen(img, nodes, fb) && i < NINODES && k < 141 && Ref(img, i, k) != 0
    requires forall t: nat :: 1 <= t < |nodes| ==> nodes[t].kind != T_FREE
    ensures InUse(img, i)
  {
    UseSeen(img, nodes, fb, i);
  }

  lemma SlotCount(D: set<nat>, len: nat)
    requires len <= 71680 && forall k :: k in D <==> k < 141 && k != 12 && Needed(k, len)
    ensures |D| == (len + 511) / 512
  {
    var R := Range(0, (len + 511) / 512);
    var there, back := (map f | f in R :: SlotOf(f)), (map k | k in D :: BlockIndex(k) as int);
    BijectionCard(there, back);
    assert there.Keys == R && back.Keys == D;
  }

  /** A file of len bytes has as many data slots as blocks. */
  lemma DataSlotCount(img: Image, nodes: seq<Node>, fb: nat, i: nat)
    requires Seen(img, nodes, fb) && 1 <= i < |nodes|
    ensures DataBlocks(img, i) == (|nodes[i].data| + 511) / 512
  {
    hide SlotsApart, BlocksHeld, SeesEntries, SeesNode, Ref;
    var D := DataSlots(img, i, 0, 141);
    assert forall k: nat :: k in D <==> k < 141 && k != 12 && Needed(k, |nodes[i].data|);
    SlotCount(D, |nodes[i].data|);
  }

  /** The size test passes for every file, and for a directory exactly when its last block is not full. */
  lemma SizeDecided(img: Image, nodes: seq<Node>, fb: nat, i: nat)
    requires Seen(img, nodes, fb) && Finished(nodes) && 1 <= i < |nodes|
    ensures SizeOk(img, i) <==> (IsDirNode(nodes, i) ==> ECount(nodes[i]) % 32 != 0)
  {
    assert SeesNode(img, nodes, i);
    hide Seen, Finished, DataBlocks;
    DataSlotCount(img, nodes, fb, i);
    ClosedKinds(nodes, i);
    if nodes[i].data != [] { RoundedSize(|nodes[i].data|); }
  }

  /** Directories are closed and not empty; files are not closed. */
  lemma ClosedKinds(nodes: seq<Node>, i: nat)
    requires Finished(nodes) && 1 <= i < |nodes|
    ensures if IsDirNode(nodes, i) then nodes[i].closed && nodes[i].data != [] && |nodes[i].data| % 16 == 0
            else !nodes[i].closed
  {
    hide ParentsAgree, CountOk, EntryAt;
    assert NodeOk(nodes, {ROOTINO}, i);
    if IsDirNode(nodes, i) { DirFinished(nodes, i); }
  }

  /** Rounding up past a length gives its last block's end exactly when the length is no multiple of 512. */
  lemma RoundedSize(len: nat)
    requires len > 0
    ensures ((len + 511) / 512 - 1) * 512 < len <= (len + 511) / 512 * 512
    ensures (len / 512 + 1) * 512 <= (len + 511) / 512 * 512 <==> len % 512 != 0
  {}

  lemma ImageCheckable(img: Image, nodes: seq<Node>, fb: nat)
    requires Seen(img, nodes, fb) && Finished(nodes)
    ensures Checkable(img)
  {
    assert Geometry(img) && |nodes| <= NINODES;
    hide Seen, Finished, Entry, EntryAt;
    forall p | IsPos(img, p) ensures Entry(img, p).inum < img.ninodes {
      PosEntry(img, nodes, fb, p);
      EntryKinds(nodes, p.ino, EntryIndex(p));
    }
  }

  lemma KindsAccepted(img: Image, nodes: seq<Node>, fb: nat, i: nat)
    requires Seen(img, nodes, fb) && Finished(nodes) && i < NINODES
    ensures KindOk(img, i)
  {
    hide SeesSlots, SlotsApart, BlocksHeld, SeesEntries, Formatted, CountOk, ParentsAgree;
    assert SeesNode(img, nodes, i);
    if 1 <= i < |nodes| { assert NodeOk(nodes, {ROOTINO}, i); }
  }

  /** Every clause of consistency but the sizes always holds. */
  lemma AllButSizes(img: Image, nodes: seq<Node>, fb: nat)
    requires Geometry(img) && Seen(img, nodes, fb) && Finished(nodes)
    ensures ConsistentButSizes(img)
  {
    KindsInUse(nodes);
    hide Seen, Finished, SlotsGood, SizeOk, DirFormatOk, BitmapOk, LinksOk, ParentOk, ReachesRoot, KindOk;
    SlotsAccepted(img, nodes, fb);
    forall i: nat | i < img.ninodes ensures KindOk(img, i) { KindsAccepted(img, nodes, fb, i); }
    forall i: nat | IsDir(img, i)
      ensures DirFormatOk(img, i) && ParentOk(img, i) && ReachesRoot(ParentTable(img), i)
    {
      UseSeen(img, nodes, fb, i);
      FormatSeen(img, nodes, fb, i);
      ParentAccepted(img, nodes, fb, i);
      ChainAccepted(img, nodes, fb, i);
    }
    forall i: nat | 1 <= i < img.ninodes ensures LinksOk(img, i) { LinksAccepted(img, nodes, fb, i); }
  }

  lemma KindsInUse(nodes: seq<Node>)
    requires Finished(nodes)
    ensures forall t: nat :: 1 <= t < |nodes| ==> nodes[t].kind != T_FREE
  {
    forall t: nat | 1 <= t < |nodes| ensures nodes[t].kind != T_FREE { assert NodeOk(nodes, {ROOTINO}, t); }
  }

  /** The checker accepts a built image exactly when no directory's entry count is a multiple of 32. */
  lemma AcceptedUnlessFull(disk: Disk, nodes: seq<Node>, fb: nat, owner: seq<Slot>)
    requires Built(disk, nodes, fb, owner)
    ensures Decodable(disk) && Checkable(Decode(disk)) && ConsistentButSizes(Decode(disk))
    ensures Consistent(Decode(disk)) <==> NotFullFrom(nodes, 1)
  {
    BuiltIsSeen(disk, nodes, fb, owner);
    var img := Decode(disk);
    assert Finished(nodes) && Geometry(img);
    hide Built, Seen, Finished, Decode, ConsistentButSizes, SizeOk;
    ImageCheckable(img, nodes, fb);
    AllButSizes(img, nodes, fb);
    KindsInUse(nodes);
    forall i: nat | InUse(img, i) ensures 1 <= i < |nodes| {
      UseSeen(img, nodes, fb, i);
    }
    forall i: nat | 1 <= i < |nodes|
      ensures InUse(img, i) && (SizeOk(img, i) <==> (IsDirNode(nodes, i) ==> ECount(nodes[i]) % 32 != 0))
    {
      UseSeen(img, nodes, fb, i);
      SizeDecided(img, nodes, fb, i);
    }
  }
}
