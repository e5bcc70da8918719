/** mkfs against myfsck: build an image from a host tree, read it back, and check it. */
module EndToEnd {
  import opened Layout
  import opened FsImage
  import opened Bytes
  import opened Volume
  import opened Nodes
  import opened HostTree
  import opened Mkfs
  import opened Acceptance
  import opened Fsck
  import opened Report
  import opened Options
  import opened Cards

  /* ---- reading a tree back from the raw disk ---- */

  /** Byte o of inode i, through its direct and indirect slots. */
  ghost function ReadByte(disk: Disk, i: nat, o: nat): byte
    requires |disk| == SIZE && i < NINODES
  {
    var T := TableOf(disk);
    if o / 512 < 140 && VRef(T, disk, i, SlotOf(o / 512)) < SIZE then disk[VRef(T, disk, i, SlotOf(o / 512))][o % 512]
    else 0
  }

  ghost function ReadBytes(disk: Disk, i: nat): seq<byte>
    requires |disk| == SIZE && i < NINODES
  {
    seq(TableOf(disk)[i].size, o requires 0 <= o => ReadByte(disk, i, o))
  }

  /** Entry x of directory i. */
  ghost function ReadDirent(disk: Disk, i: nat, x: nat): Dirent
    requires |disk| == SIZE && i < NINODES
  {
    var T := TableOf(disk);
    if x / 32 < 140 && 0 < VRef(T, disk, i, SlotOf(x / 32)) < SIZE then
      Dirents(disk[VRef(T, disk, i, SlotOf(x / 32))])[x % 32]
    else ZeroDirent()
  }

  /** Type and size of inode i; the device numbers are zero. */
  ghost predicate DiskInode(disk: Disk, i: nat, kind: int, size: nat)
    requires |disk| == SIZE && i < NINODES
  {
    var d := TableOf(disk)[i];
    d.kind == kind && d.size == size && d.major == 0 && d.minor == 0
  }

  /** Directory `dir` of the disk, below `parent`, holds the host directory: "." and ".."
      first, then each kept entry in its place, under its name, leading to its contents,
      and nothing after; two links and one for each subdirectory; the size of its entries,
      taken up to the next multiple of 512. */
  ghost predicate DiskDir(disk: Disk, dir: nat, parent: nat, items: seq<Item>, host: Host)
    requires |disk| == SIZE
    decreases items
  {
    && dir < NINODES && DiskInode(disk, dir, T_DIR, (DirLen(items) / 512 + 1) * 512)
    && TableOf(disk)[dir].nlink == 2 + Subdirs(items)
    && ReadDirent(disk, dir, 0) == Dirent(dir, PadName(DOT))
    && ReadDirent(disk, dir, 1) == Dirent(parent, PadName(DOTDOT))
    && (forall n :: 0 <= n < |items| && Kept(items[n]) ==>
          DiskItem(disk, dir, ReadDirent(disk, dir, 2 + KeptCount(items[..n])), items[n], host))
    && (forall x: nat :: 2 + KeptCount(items) <= x ==> ReadDirent(disk, dir, x).inum == 0)
  }

  /** Entry d of directory `dir` names the item and leads to it. */
  ghost predicate DiskItem(disk: Disk, dir: nat, d: Dirent, it: Item, host: Host)
    requires |disk| == SIZE
    decreases it
  {
    && d.name == PadName(it.name) && 1 <= d.inum < NINODES
    && match it
       case DirItem(_, children) => DiskDir(disk, d.inum, dir, children, host)
       case FileItem(_, h) => DiskInode(disk, d.inum, T_FILE, |host(h)|) && ReadBytes(disk, d.inum) == host(h)
  }

  lemma DirentReads(disk: Disk, nodes: seq<Node>, fb: nat, owner: seq<Slot>, j: nat, x: nat)
    requires |disk| == SIZE && VolOk(TableOf(disk), disk, nodes, fb, owner)
    requires IsDirNode(nodes, j) && |nodes[j].data| % 16 == 0
    ensures ReadDirent(disk, j, x) == NodeEntry(nodes[j], x)
  {
    hide ReadDirent, NodeEntry, LayoutOk, ZeroInode;
    assert InodeMatches(TableOf(disk)[j], nodes[j]);
    EntryReads(disk, Datas(nodes), Lens(nodes), fb, owner, nodes[j], j, x);
  }

  lemma EntryReads(disk: Disk, datas: seq<seq<byte>>, lens: seq<nat>, fb: nat, owner: seq<Slot>,
                   nd: Node, j: nat, x: nat)
    requires |disk| == SIZE && LayoutOk(TableOf(disk), disk, datas, lens, fb, owner) && 1 <= j < |lens| <= NINODES
    requires |datas| == |lens| && datas[j] == nd.data && lens[j] == |nd.data| <= 71680 && |nd.data| % 16 == 0
    ensures ReadDirent(disk, j, x) == NodeEntry(nd, x)
  {
    hide VRef, Dirents, BlockOf, EntryAt, LayoutOk, ZeroDirent, Needed, SlotOf, ECount, TableOk, TableOf;
    PastTheEnd(nd, x);
    var T, f := TableOf(disk), x / 32;
    if f < 140 {
      BlockEntries(nd, f, x % 32);
      ShapeOf(T, disk, datas, lens, fb, owner, j, SlotOf(f));
      if Needed(SlotOf(f), |nd.data|) { DataAt(T, disk, datas, lens, fb, owner, j, f); }
    }
  }

  lemma PastTheEnd(nd: Node, x: nat)
    requires |nd.data| % 16 == 0 && |nd.data| <= 71680
    ensures 32 * (x / 32) + x % 32 == x && SlotOf(x / 32) < 141 <==> x / 32 < 140
    ensures x / 32 >= 140 || !Needed(SlotOf(x / 32), |nd.data|) ==> x >= ECount(nd)
  {}

  lemma ByteReads(disk: Disk, nodes: seq<Node>, fb: nat, owner: seq<Slot>, i: nat, o: nat)
    requires |disk| == SIZE && VolOk(TableOf(disk), disk, nodes, fb, owner)
    requires 1 <= i < |nodes| && o < |nodes[i].data|
    ensures ReadByte(disk, i, o) == nodes[i].data[o]
  {
    hide VRef, LayoutOk, ZeroInode, BlockOf, TableOf;
    assert InodeMatches(TableOf(disk)[i], nodes[i]);
    BlockByte(nodes[i].data, o);
    ByteBlock(o, |nodes[i].data|);
    DataAt(TableOf(disk), disk, Datas(nodes), Lens(nodes), fb, owner, i, o / 512);
  }

  lemma BlockByte(data: seq<byte>, o: nat)
    requires o < |data|
    ensures BlockOf(data, o / 512)[o % 512] == data[o]
  {
    assert 512 * (o / 512) + o % 512 == o;
  }

  /** Byte o of a file of len bytes lies in one of its blocks. */
  lemma ByteBlock(o: nat, len: nat)
    requires o < len <= 71680
    ensures o / 512 < 140 && Needed(SlotOf(o / 512), len)
  {}

  lemma BytesRead(disk: Disk, nodes: seq<Node>, fb: nat, owner: seq<Slot>, i: nat)
    requires |disk| == SIZE && VolOk(TableOf(disk), disk, nodes, fb, owner)
    requires 1 <= i < |nodes| && !nodes[i].closed
    ensures ReadBytes(disk, i) == nodes[i].data
  {
    hide LayoutOk, ReadByte, ZeroInode;
    assert InodeMatches(TableOf(disk)[i], nodes[i]);
    forall o | 0 <= o < |nodes[i].data| ensures ReadBytes(disk, i)[o] == nodes[i].data[o] {
      ByteReads(disk, nodes, fb, owner, i, o);
    }
  }

  /** What the nodes hold, the disk holds. */
  lemma {:induction false} TreeOnDisk(disk: Disk, nodes: seq<Node>, fb: nat, owner: seq<Slot>,
                                      dir: nat, items: seq<Item>, host: Host)
    requires |disk| == SIZE && VolOk(TableOf(disk), disk, nodes, fb, owner) && Finished(nodes)
    requires Represents(nodes, dir, items, host)
    ensures ECount(nodes[dir]) >= 2 && DiskDir(disk, dir, ParentOf(nodes, dir), items, host)
    decreases items
  {
    hide VolOk, Finished, ReadDirent, EntryAt, ItemHeld, DiskItem, TableOf;
    NodeFacts(disk, nodes, fb, owner, dir);
    DirFacts(nodes, dir);
    forall x: nat ensures ReadDirent(disk, dir, x) == NodeEntry(nodes[dir], x) {
      DirentReads(disk, nodes, fb, owner, dir, x);
    }
    forall n | 0 <= n < |items| && Kept(items[n])
      ensures DiskItem(disk, dir, ReadDirent(disk, dir, 2 + KeptCount(items[..n])), items[n], host)
    {
      ItemOnDisk(disk, nodes, fb, owner, EPos(dir, 2 + KeptCount(items[..n])), items[n], host);
    }
  }

  lemma {:induction false} ItemOnDisk(disk: Disk, nodes: seq<Node>, fb: nat, owner: seq<Slot>,
                                      p: EPos, it: Item, host: Host)
    requires |disk| == SIZE && VolOk(TableOf(disk), disk, nodes, fb, owner) && Finished(nodes)
    requires IsEPos(nodes, p) && ItemHeld(nodes, EntryAt(nodes[p.dir], p.e), it, host)
    ensures DiskItem(disk, p.dir, EntryAt(nodes[p.dir], p.e), it, host)
    decreases it
  {
    hide VolOk, Finished, EntryAt, ReadBytes, Represents, DiskDir, TableOf;
    var d := EntryAt(nodes[p.dir], p.e);
    NodeFacts(disk, nodes, fb, owner, d.inum);
    if it.DirItem? {
      TreeOnDisk(disk, nodes, fb, owner, d.inum, it.children, host);
      HeldParent(nodes, p, it, host);
    } else {
      BytesRead(disk, nodes, fb, owner, d.inum);
    }
  }

  lemma NodeFacts(disk: Disk, nodes: seq<Node>, fb: nat, owner: seq<Slot>, i: nat)
    requires |disk| == SIZE && VolOk(TableOf(disk), disk, nodes, fb, owner) && Finished(nodes) && 1 <= i < |nodes|
    ensures |nodes| <= NINODES && DiskInode(disk, i, nodes[i].kind, NodeSize(nodes[i]))
    ensures TableOf(disk)[i].nlink == nodes[i].nlink
    ensures nodes[i].kind == T_DIR ==> |nodes[i].data| % 16 == 0 && nodes[i].closed
    ensures nodes[i].kind == T_FILE ==> !nodes[i].closed
  {
    hide LayoutOk, CountOk, ParentsAgree;
    assert InodeMatches(TableOf(disk)[i], nodes[i]);
    assert NodeOk(nodes, {ROOTINO}, i);
    if nodes[i].kind == T_DIR { DirFinished(nodes, i); }
  }

  lemma DirFacts(nodes: seq<Node>, dir: nat)
    requires Finished(nodes) && IsDirNode(nodes, dir)
    ensures ECount(nodes[dir]) >= 2 && EntryAt(nodes[dir], 0) == Dirent(dir, PadName(DOT))
    ensures EntryAt(nodes[dir], 1) == Dirent(ParentOf(nodes, dir), PadName(DOTDOT))
    ensures dir == ROOTINO ==> ParentOf(nodes, dir) == ROOTINO
  {
    hide Finished, EntryAt;
    DirFinished(nodes, dir);
  }

  /** The ".." of a directory names the directory that holds it. */
  lemma HeldParent(nodes: seq<Node>, p: EPos, it: Item, host: Host)
    requires Finished(nodes) && IsEPos(nodes, p) && it.DirItem?
    requires ItemHeld(nodes, EntryAt(nodes[p.dir], p.e), it, host)
    ensures var c := EntryAt(nodes[p.dir], p.e).inum;
            c < |nodes| && ECount(nodes[c]) >= 2 && ParentOf(nodes, c) == p.dir
  {
    hide EntryAt, NodeOk;
    var c := EntryAt(nodes[p.dir], p.e).inum;
    assert NamesNode(nodes, p, c) && IsDirNode(nodes, c);
  }

  /** Writing the bitmap block disturbs nothing else. */
  lemma BitmapKeeps(disk: Disk, disk': Disk, nodes: seq<Node>, fb: nat, owner: seq<Slot>)
    requires SuperOk(disk) && VolOk(TableOf(disk), disk, nodes, fb, owner)
    requires |disk'| == SIZE && forall b :: 0 <= b < SIZE && b != 28 ==> disk'[b] == disk[b]
    ensures SuperOk(disk') && VolOk(TableOf(disk'), disk', nodes, fb, owner)
  {
    var T := TableOf(disk);
    forall i | 0 <= i < NINODES ensures TableOf(disk')[i] == T[i] { assert InodeBlock(i) < 28; }
    assert TableOf(disk') == T;
    hide LayoutOk, InodeMatches, ZeroInode;
    SameLayout(T, disk, T, disk', Datas(nodes), Lens(nodes), fb, owner);
  }

  /* ---- the two programs ---- */

  /** The tree fits the volume even if no hard link is ever found. */
  predicate Fits(items: seq<Item>, host: Host) {
    2 + InodesOf(items) <= NINODES && SizesOk(items, host) && DirBlocks(items, host) <= NBLOCKS
  }

  /** The tree fits the volume when each file is stored once, under all its names. */
  ghost predicate FitsShared(items: seq<Item>, host: Host) {
    && 2 + DirCount(items) + |Hosts(items)| <= NINODES && SizesOk(items, host)
    && OwnBlocks(items) + HostBlocks(Hosts(items), host) <= NBLOCKS
  }

  /** Without hard links the two are the same. */
  lemma FitsEither(items: seq<Item>, host: Host)
    ensures Fits(items, host) ==> FitsShared(items, host)
    ensures Unshared(items) ==> (Fits(items, host) <==> FitsShared(items, host))
  {
    hide SizesOk, BlocksFor, Hosts, HostBlocks, Unshared;
    SharingCosts(items, host);
  }

  /** mkfs's main on a source tree. It succeeds on every tree that fits, and fails on every
      tree that would not fit even with each file stored once; without hard links that
      leaves no tree open. Whenever it succeeds, the disk holds the tree, and is consistent
      exactly when no directory has a multiple of 32 entries. */
  method MakeImage(items: seq<Item>, host: Host) returns (ok: bool, disk: Disk)
    requires NamesOk(items)
    ensures Fits(items, host) ==> ok
    ensures ok ==> FitsShared(items, host)
    ensures Unshared(items) ==> (ok <==> Fits(items, host))
    ensures ok ==> |disk| == SIZE && DiskDir(disk, ROOTINO, ROOTINO, items, host)
    ensures ok ==> disk[1][..12] == [0, 4, 0, 0, 227, 3, 0, 0, 200, 0, 0, 0]
    ensures ok ==> forall b: nat :: b < START ==> BitmapBit(disk, NINODES, b)
    ensures ok ==> Decodable(disk) && Checkable(Decode(disk)) && ConsistentButSizes(Decode(disk))
    ensures ok ==> (Consistent(Decode(disk)) <==> NoFullBlock(items))
  {
    var b := new Builder(host);
    hide VolOk, Growing, Represents, DiskDir, Checkable, Consistent, ConsistentButSizes, Decodable, Decode, NotFullFrom;
    hide Spent, SpentBlocks, FitsShared, Unshared;
    FitsEither(items, host);
    StartGrowing(b.nodes, host);
    var root;
    ok, root := b.Ialloc(T_DIR, 0);
    RootCanBegin(b.nodes, host);
    StartSpent(b.nodes, b.freeblock, host);
    ok := b.AddDir(items, ROOTINO, ROOTINO, {ROOTINO});
    disk := b.disk;
    if !ok { return; }
    ghost var nodes, fb, owner := b.nodes, b.freeblock, b.owner;
    FreeInRange(TableOf(disk), disk, nodes, fb, owner);
    CopiedFits(TableOf(disk), disk, nodes, fb, owner, items, host);
    GrownIsFinished(nodes, host);
    b.Balloc(b.usedblocks);
    BitmapKeeps(disk, b.disk, nodes, fb, owner);
    disk := b.disk;
    TreeOnDisk(disk, nodes, fb, owner, ROOTINO, items, host);
    DirFacts(nodes, ROOTINO);
    SuperBytes(disk);
    AcceptedUnlessFull(disk, nodes, fb, owner);
    RootSplit(nodes);
  }

  /** What a copied tree has taken up. */
  lemma CopiedFits(T: Table, blk: Disk, nodes: seq<Node>, fb: nat, owner: seq<Slot>, items: seq<Item>, host: Host)
    requires VolOk(T, blk, nodes, fb, owner) && Represents(nodes, ROOTINO, items, host)
    requires Spent(nodes) >= 2 + DirCount(items) && SpentBlocks(nodes, fb, host) >= START + OwnBlocks(items)
    ensures FitsShared(items, host)
  {
    VolTable(T, blk, nodes, fb, owner);
    FreeInRange(T, blk, nodes, fb, owner);
    hide LayoutOk, ZeroInode, Represents, DirCount, OwnBlocks, SizesOk, Hosts, HostBlocks, FileHosts;
    forall t | 1 <= t < |nodes| ensures |nodes[t].data| <= 71680 { assert InodeMatches(T[t], nodes[t]); }
    SizesHeld(nodes, ROOTINO, items, host);
    HostsHeld(nodes, ROOTINO, items, host);
    SubsetCard(Hosts(items), FileHosts(nodes));
    HostBlocksUnion(Hosts(items), FileHosts(nodes), host);
    assert Hosts(items) + FileHosts(nodes) == FileHosts(nodes);
  }

  /** The superblock's bytes: 1024 blocks, 995 of them for data, and 200 inodes. */
  lemma SuperBytes(disk: Disk)
    requires SuperOk(disk)
    ensures disk[1][..12] == [0, 4, 0, 0, 227, 3, 0, 0, 200, 0, 0, 0]
  {
    var s := disk[1];
    assert s[..12] == s[0..4] + s[4..8] + s[8..12];
  }

  lemma StartSpent(nodes: seq<Node>, fb: nat, host: Host)
    requires nodes == [Node(T_FREE, [], 0, false, 0), Node(T_DIR, [], 2, false, 0)]
    ensures Spent(nodes) == 2 && SpentBlocks(nodes, fb, host) == fb
  {
    assert FileHosts(nodes) == {};
  }

  lemma StartGrowing(nodes: seq<Node>, host: Host)
    requires nodes == [Node(T_FREE, [], 0, false, 0)]
    ensures Growing(nodes + [Node(T_DIR, [], 2, false, 0)], {ROOTINO}, host)
  {
    assert TreeOk(nodes, {});
    AllocDirGrows(nodes, {}, host, Node(T_DIR, [], 2, false, 0));
    assert {} + {|nodes|} == {ROOTINO};
  }

  lemma RootCanBegin(nodes: seq<Node>, host: Host)
    requires nodes == [Node(T_FREE, [], 0, false, 0), Node(T_DIR, [], 2, false, 0)]
    ensures CanBegin(nodes, {ROOTINO}, ROOTINO, ROOTINO)
  {}

  lemma GrownIsFinished(nodes: seq<Node>, host: Host)
    requires Growing(nodes, {ROOTINO}, host) && IsDirNode(nodes, ROOTINO) && nodes[ROOTINO].closed
    ensures Finished(nodes)
  {}

  lemma RootSplit(nodes: seq<Node>)
    requires IsDirNode(nodes, ROOTINO)
    ensures NotFullFrom(nodes, 1) <==> ECount(nodes[ROOTINO]) % 32 != 0 && NotFullFrom(nodes, 2)
  {}

  /** mkfs, then myfsck: on every tree that mkfs can copy, the verdict depends on the
      tree's directory sizes alone, and the only complaint there can be is about a size. */
  method MakeAndCheck(items: seq<Item>, host: Host) returns (v: Option<Verdict>)
    requires NamesOk(items)
    ensures Fits(items, host) ==> v.Some?
    ensures v.Some? ==> FitsShared(items, host)
    ensures v.Some? ==> (v.value.Pass? <==> NoFullBlock(items))
    ensures v.Some? && v.value.Fail? ==> v.value.error == BadFileSize
  {
    hide Consistent, ConsistentButSizes, Checkable, Decodable, Decode, DiskDir, Violates, Fits, FitsShared;
    var ok, disk := MakeImage(items, host);
    if !ok { return None; }
    var verdict := CheckImage(Decode(disk));
    if verdict.Fail? { ViolationRefutes(Decode(disk), verdict.error); }
    v := Some(verdict);
  }

  /* ---- a tree whose image is refused ---- */

  /** A directory of n empty files with one-byte names. */
  function EmptyFiles(n: nat): (items: seq<Item>)
    requires n <= 30
    ensures |items| == n && forall i :: 0 <= i < n ==> items[i] == FileItem([65 + i], i)
  {
    seq(n, i requires 0 <= i < n => FileItem([65 + i], i))
  }

  lemma {:induction false} EmptyFilesCost(n: nat, host: Host)
    requires n <= 30 && forall h :: host(h) == []
    ensures var items := EmptyFiles(n);
            KeptCount(items) == n && InodesOf(items) == n && ChildBlocks(items, host) == 0
  {
    if n > 0 {
      EmptyFilesCost(n - 1, host);
      assert EmptyFiles(n)[..n - 1] == EmptyFiles(n - 1);
    }
  }

  /** 30 empty files are a tree that fits, with a root of 32 entries. */
  lemma ThirtyFilesFit(host: Host)
    requires forall h :: host(h) == []
    ensures NamesOk(EmptyFiles(30)) && Fits(EmptyFiles(30), host) && !NoFullBlock(EmptyFiles(30))
  {
    EmptyFilesCost(30, host);
  }

  /** So mkfs copies them, and myfsck refuses the image. */
  method ThirtyFilesRefused() returns (v: Option<Verdict>)
    ensures v == Some(Fail(BadFileSize))
  {
    var host: Host := _ => [];
    ThirtyFilesFit(host);
    v := MakeAndCheck(EmptyFiles(30), host);
  }

  /* ---- the bytes of the smallest image ---- */

  lemma ShortBytes(b: seq<byte>)
    requires |b| == 2 && 0 <= Short(b) < 256
    ensures b == [Short(b), 0]
  {}

  lemma WordIs512(b: seq<byte>)
    requires |b| == 4 && FromLe32(b) == 512
    ensures b == [0, 2, 0, 0]
  {}

  lemma DirentBytes(b: seq<byte>, name: seq<byte>)
    requires |b| == 16 && |name| == 14 && DecodeDirent(b) == Dirent(1, name)
    ensures b == [1, 0] + name
  {
    assert b[0..2] == [1, 0];
    assert b == b[0..2] + b[2..16];
  }

  lemma RootBytes(b: seq<byte>)
    requires |b| == 64
    requires var d := DecodeInode(b); d.kind == T_DIR && d.major == 0 && d.minor == 0 && d.nlink == 2 && d.size == 512
    ensures b[..12] == [1, 0, 0, 0, 0, 0, 2, 0, 0, 2, 0, 0]
  {
    ShortBytes(b[0..2]);
    ShortBytes(b[2..4]);
    ShortBytes(b[4..6]);
    ShortBytes(b[6..8]);
    WordIs512(b[8..12]);
    hide Short, FromLe32;
    assert b[..12] == b[0..2] + b[2..4] + b[4..6] + b[6..8] + b[8..12];
  }

  /** The block of the root's two entries. */
  lemma DotBlock(disk: Disk)
    requires |disk| == SIZE
    requires ReadDirent(disk, ROOTINO, 0) == Dirent(1, PadName(DOT))
    requires ReadDirent(disk, ROOTINO, 1) == Dirent(1, PadName(DOTDOT))
    ensures var b := TableOf(disk)[ROOTINO].addrs[0];
            && 0 < b < SIZE
            && disk[b][..16] == [1, 0, 46, 0, 0, 0, 0, 0, 0, 0, 0, 0, 0, 0, 0, 0]
            && disk[b][16..32] == [1, 0, 46, 46, 0, 0, 0, 0, 0, 0, 0, 0, 0, 0, 0, 0]
  {
    hide DecodeDirent, TableOf;
    var b := TableOf(disk)[ROOTINO].addrs[0];
    assert VRef(TableOf(disk), disk, ROOTINO, SlotOf(0)) == b;
    var s := disk[b];
    assert Dirents(s)[0] == DecodeDirent(s[0..16]) && Dirents(s)[1] == DecodeDirent(s[16..32]);
    DirentBytes(s[0..16], PadName(DOT));
    DirentBytes(s[16..32], PadName(DOTDOT));
    assert s[..16] == s[0..16];
    assert PadName(DOT) == [46, 0, 0, 0, 0, 0, 0, 0, 0, 0, 0, 0, 0, 0];
    assert PadName(DOTDOT) == [46, 46, 0, 0, 0, 0, 0, 0, 0, 0, 0, 0, 0, 0];
  }

  /** An empty source directory gives a root of 512 bytes and two links, with "." and ".." in its block. */
  method EmptyTreeBytes() returns (disk: Disk)
    ensures |disk| == SIZE && InodeBytes(disk, ROOTINO)[..12] == [1, 0, 0, 0, 0, 0, 2, 0, 0, 2, 0, 0]
    ensures var b := TableOf(disk)[ROOTINO].addrs[0];
            && 0 < b < SIZE
            && disk[b][..16] == [1, 0, 46, 0, 0, 0, 0, 0, 0, 0, 0, 0, 0, 0, 0, 0]
            && disk[b][16..32] == [1, 0, 46, 46, 0, 0, 0, 0, 0, 0, 0, 0, 0, 0, 0, 0]
  {
    var host: Host := _ => [];
    var ok;
    assert Fits([], host);
    hide Consistent, ConsistentButSizes, Checkable, Decodable, Decode, Fits, FitsShared, DiskDir, TableOf;
    ok, disk := MakeImage([], host);
    EmptyRoot(disk, host);
    DotBlock(disk);
  }

  lemma EmptyRoot(disk: Disk, host: Host)
    requires |disk| == SIZE && DiskDir(disk, ROOTINO, ROOTINO, [], host)
    ensures InodeBytes(disk, ROOTINO)[..12] == [1, 0, 0, 0, 0, 0, 2, 0, 0, 2, 0, 0]
    ensures ReadDirent(disk, ROOTINO, 0) == Dirent(1, PadName(DOT))
    ensures ReadDirent(disk, ROOTINO, 1) == Dirent(1, PadName(DOTDOT))
  {
    hide ReadDirent, DecodeInode, PadName;
    assert TableOf(disk)[ROOTINO] == DecodeInode(InodeBytes(disk, ROOTINO));
    RootBytes(InodeBytes(disk, ROOTINO));
  }
}
