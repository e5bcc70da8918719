/** The image builder (mkfs.c). The disk, the allocation counters and the
    hard-link table are updated in place; `nodes` says what each inode holds. */
module Mkfs {
  import opened Layout
  import opened FsImage
  import opened Bytes
  import opened Volume
  import opened Nodes
  import opened HostTree
  import opened Cards

  function Datas(nodes: seq<Node>): (r: seq<seq<byte>>)
    ensures |r| == |nodes| && forall i :: 0 <= i < |nodes| ==> r[i] == nodes[i].data
  {
    seq(|nodes|, i requires 0 <= i < |nodes| => nodes[i].data)
  }

  function Lens(nodes: seq<Node>): (r: seq<nat>)
    ensures |r| == |nodes| && forall i :: 0 <= i < |nodes| ==> r[i] == |nodes[i].data|
  {
    seq(|nodes|, i requires 0 <= i < |nodes| => |nodes[i].data|)
  }

  ghost predicate InodeMatches(d: Dinode, nd: Node) {
    && d.kind == nd.kind && d.nlink == nd.nlink && d.major == 0 && d.minor == 0
    && d.size == NodeSize(nd)
    && |nd.data| <= 71680
    && (nd.kind == T_DIR || nd.kind == T_FILE)
    && -32768 <= nd.nlink < 32768
  }

  /** The inode table T and the blocks hold exactly `nodes`; nodes[0] stands for the unused inode 0. */
  ghost predicate VolOk(T: Table, blk: Disk, nodes: seq<Node>, fb: nat, owner: seq<Slot>) {
    && 1 <= |nodes| <= NINODES
    && LayoutOk(T, blk, Datas(nodes), Lens(nodes), fb, owner)
    && (forall i :: 1 <= i < |nodes| ==> InodeMatches(T[i], nodes[i]))
    && (forall i :: 0 <= i < NINODES && (i == 0 || |nodes| <= i) ==> T[i] == ZeroInode())
  }

  /** Block 1 holds the superblock of this volume. */
  ghost predicate SuperOk(disk: Disk) {
    && |disk| == SIZE
    && disk[1][0..4] == Le32(SIZE) && disk[1][4..8] == Le32(NBLOCKS) && disk[1][8..12] == Le32(NINODES)
  }

  /** Disks that agree outside the inode blocks. */
  ghost predicate OnlyInodes(disk: Disk, disk': Disk) {
    |disk| == |disk'| == SIZE
    && forall b :: 0 <= b < SIZE && !(2 <= b < 28) ==> disk'[b] == disk[b]
  }

  lemma TableFrame(disk: Disk, disk': Disk)
    requires |disk| == |disk'| == SIZE && forall b :: 0 <= b < START ==> disk'[b] == disk[b]
    ensures TableOf(disk') == TableOf(disk)
  {
    forall i | 0 <= i < NINODES ensures TableOf(disk')[i] == TableOf(disk)[i] {
      assert InodeBlock(i) < START;
    }
  }

  /** Inode i written back with new metadata but the same addresses. */
  lemma UpdateNode(T: Table, blk: Disk, T': Table, blk': Disk, nodes: seq<Node>, fb: nat, owner: seq<Slot>,
                   i: nat, nd: Node)
    requires VolOk(T, blk, nodes, fb, owner) && 1 <= i < |nodes|
    requires nd.data == nodes[i].data && OnlyInodes(blk, blk')
    requires |T'| == |T| && T' == T[i := T'[i]] && T'[i].addrs == T[i].addrs && InodeMatches(T'[i], nd)
    ensures VolOk(T', blk', nodes[i := nd], fb, owner)
  {
    hide LayoutOk, InodeMatches;
    assert Datas(nodes[i := nd]) == Datas(nodes) && Lens(nodes[i := nd]) == Lens(nodes);
    assert TableOk(T) by { LayoutTable(T, blk, Datas(nodes), Lens(nodes), fb, owner); }
    SameLayout(T, blk, T', blk', Datas(nodes), Lens(nodes), fb, owner);
  }

  lemma LayoutTable(T: Table, blk: Disk, datas: seq<seq<byte>>, lens: seq<nat>, fb: nat, owner: seq<Slot>)
    requires LayoutOk(T, blk, datas, lens, fb, owner)
    ensures TableOk(T) && |blk| == SIZE && START <= fb <= SIZE
    ensures forall i: nat, k: nat :: i < NINODES && k < 13 ==> T[i].addrs[k] < SIZE
  {
    forall i: nat, k: nat | i < NINODES && k < 13 ensures T[i].addrs[k] < SIZE {
      HeldInData(T, blk, |lens|, fb, owner, i, k);
      assert VRef(T, blk, i, k) == T[i].addrs[k];
    }
  }

  /** An inode with its place's addresses and nd's numbers can be written back. */
  lemma Writable(T: Table, blk: Disk, datas: seq<seq<byte>>, lens: seq<nat>, fb: nat, owner: seq<Slot>,
                 i: nat, d: Dinode, nd: Node)
    requires LayoutOk(T, blk, datas, lens, fb, owner)
    requires i < |T| == NINODES && d.addrs == T[i].addrs && InodeMatches(d, nd)
    ensures ValidInode(d)
  {
    hide LayoutOk;
    LayoutTable(T, blk, datas, lens, fb, owner);
    forall k: nat | k < 13 ensures d.addrs[k] < SIZE { assert T[i].addrs[k] < SIZE; }
  }

  /** Inode d, with addresses grown for nd's bytes, written back with their length: the volume holds nd. */
  lemma GrownNode(T: Table, blk: Disk, blk': Disk, nodes: seq<Node>, fb: nat, owner: seq<Slot>,
                  i: nat, d: Dinode, nd: Node)
    requires TableOk(T) && 1 <= i < |nodes| <= NINODES
    requires LayoutOk(T[i := d], blk, Datas(nodes)[i := nd.data], Lens(nodes)[i := |nd.data|], fb, owner)
    requires forall j :: 1 <= j < |nodes| && j != i ==> InodeMatches(T[j], nodes[j])
    requires forall j :: 0 <= j < NINODES && (j == 0 || |nodes| <= j) ==> T[j] == ZeroInode()
    requires InodeMatches(d.(size := |nd.data|), nd) && |d.addrs| == 13 && OnlyInodes(blk, blk')
    ensures VolOk(T[i := d.(size := |nd.data|)], blk', nodes[i := nd], fb, owner)
  {
    hide LayoutOk, InodeMatches, ZeroInode;
    var nodes' := nodes[i := nd];
    assert Datas(nodes') == Datas(nodes)[i := nd.data] && Lens(nodes') == Lens(nodes)[i := |nd.data|];
    SameLayout(T[i := d], blk, T[i := d.(size := |nd.data|)], blk', Datas(nodes'), Lens(nodes'), fb, owner);
  }

  lemma NewNode(T: Table, blk: Disk, T': Table, blk': Disk, nodes: seq<Node>, fb: nat, owner: seq<Slot>, nd: Node)
    requires VolOk(T, blk, nodes, fb, owner) && |nodes| < NINODES
    requires nd.data == [] && OnlyInodes(blk, blk')
    requires |T'| == |T| && T' == T[|nodes| := T'[|nodes|]] && T'[|nodes|].addrs == ZeroInode().addrs
    requires InodeMatches(T'[|nodes|], nd)
    ensures VolOk(T', blk', nodes + [nd], fb, owner)
  {
    hide LayoutOk, InodeMatches;
    assert Datas(nodes + [nd]) == Datas(nodes) + [[]] && Lens(nodes + [nd]) == Lens(nodes) + [0];
    AllocLayout(T, blk, Datas(nodes), Lens(nodes), fb, owner);
    LayoutTable(T, blk, Datas(nodes), Lens(nodes), fb, owner);
    SameLayout(T, blk, T', blk', Datas(nodes) + [[]], Lens(nodes) + [0], fb, owner);
  }

  /** The lengths once the slots for the byte after the last have been claimed. */
  function Claimed(lens: seq<nat>, i: nat): seq<nat>
    requires i < |lens|
  {
    if lens[i] % 512 == 0 then lens[i := lens[i] + 1] else lens
  }

  /** Which slots the byte at the end of inode i finds filled. */
  lemma ShapeAt(T: Table, blk: Disk, datas: seq<seq<byte>>, lens: seq<nat>, fb: nat, owner: seq<Slot>, i: nat, f: nat)
    requires LayoutOk(T, blk, datas, lens, fb, owner) && 1 <= i < |lens| && f == lens[i] / 512 && f < 140
    ensures VRef(T, blk, i, SlotOf(f)) != 0 <==> lens[i] % 512 != 0
    ensures VRef(T, blk, i, SlotOf(f)) < SIZE
    ensures VRef(T, blk, i, 12) == T[i].addrs[12]
    ensures T[i].addrs[12] != 0 <==> lens[i] > 6144
    ensures T[i].addrs[12] != 0 ==> START <= T[i].addrs[12] < SIZE
  {
    hide Words, HeldOk, OwnersOk, DataOk;
    HeldInData(T, blk, |lens|, fb, owner, i, SlotOf(f));
    HeldInData(T, blk, |lens|, fb, owner, i, 12);
    assert VRef(T, blk, i, 12) != 0 <==> Needed(12, lens[i]);
    assert VRef(T, blk, i, SlotOf(f)) != 0 <==> Needed(SlotOf(f), lens[i]);
  }

  /** An indirect block rewritten with one word changed. */
  lemma PatchedWords(T: Table, blk: Disk, datas: seq<seq<byte>>, lens: seq<nat>, fb: nat, owner: seq<Slot>,
                     i: nat, w: nat, b: nat)
    requires LayoutOk(T, blk, datas, lens, fb, owner) && i < NINODES && START <= T[i].addrs[12] < SIZE
    requires w < 128 && b < 0x1_0000_0000
    ensures Words(EncodeWords(Words(blk[T[i].addrs[12]])[w := b])) == Words(blk[T[i].addrs[12]])[w := b]
  {
    var ws := Words(blk[T[i].addrs[12]]);
    forall k | 0 <= k < 128 ensures ws[k] < 0x1_0000_0000 {
      HeldInData(T, blk, |lens|, fb, owner, i, 13 + k);
      assert VRef(T, blk, i, 13 + k) == ws[k];
    }
    WordsInverse(ws[w := b]);
  }

  lemma FreeIsZero(T: Table, blk: Disk, datas: seq<seq<byte>>, lens: seq<nat>, fb: nat, owner: seq<Slot>)
    requires LayoutOk(T, blk, datas, lens, fb, owner)
    ensures fb < SIZE ==> blk[fb] == ZeroSector()
  {}

  lemma PatchedZero(s: Sector, b: nat)
    requires s == ZeroSector() && b < 0x1_0000_0000
    ensures Words(EncodeWords(Words(s)[0 := b])) == Words(s)[0 := b]
  {
    ZeroWords(s);
    WordsInverse(Words(s)[0 := b]);
  }

  /** Room for n more bytes: in the file, and on the disk. */
  predicate AppendFits(fb: nat, len: nat, n: nat) {
    len + n <= 71680 && fb + BlocksFor(len + n) - BlocksFor(len) <= SIZE
  }

  lemma MoreBlocks(a: nat, b: nat)
    ensures a < b ==> BlocksFor(a + 1) <= BlocksFor(b)
  {}

  /** Bytes in the same block cost nothing after the first. */
  lemma SameBlocks(off: nat, n: nat)
    requires n > 0 && off + n <= 512 * (off / 512 + 1)
    ensures BlocksFor(off + n) == BlocksFor(off + 1)
  {}

  lemma SlotInData(T: Table, blk: Disk, datas: seq<seq<byte>>, lens: seq<nat>, fb: nat, owner: seq<Slot>,
                   i: nat, k: nat)
    requires LayoutOk(T, blk, datas, lens, fb, owner) && 1 <= i < |lens| && k < 141 && Needed(k, lens[i])
    ensures START <= VRef(T, blk, i, k) < fb
  {
    hide VRef, OwnersOk, DataOk;
    assert VRef(T, blk, i, k) != 0;
  }

  /** Place of an entry on the disk, counted in entries. */
  ghost function EntryPlace(T: Table, blk: Disk, p: EPos): nat
    requires TableOk(T) && |blk| == SIZE && p.dir < NINODES && p.e / 32 < 140
  {
    32 * VRef(T, blk, p.dir, SlotOf(p.e / 32)) + p.e % 32
  }

  lemma PlacesApart(T: Table, blk: Disk, nodes: seq<Node>, fb: nat, owner: seq<Slot>, p: EPos, q: EPos)
    requires VolOk(T, blk, nodes, fb, owner) && TableOk(T) && IsEPos(nodes, p) && IsEPos(nodes, q)
    ensures p.e / 32 < 140 && q.e / 32 < 140 && |nodes| <= NINODES
    ensures 32 * START <= EntryPlace(T, blk, p) < 32 * SIZE
    ensures EntryPlace(T, blk, p) == EntryPlace(T, blk, q) ==> p == q
  {
    hide LayoutOk, VRef, InodeMatches, ZeroInode, TableOk, EntryAt;
    EntryBlock(T, blk, nodes, fb, owner, p.dir, p.e);
    EntryBlock(T, blk, nodes, fb, owner, q.dir, q.e);
    if EntryPlace(T, blk, p) == EntryPlace(T, blk, q) {
      SlotUnique(T, blk, Datas(nodes), Lens(nodes), fb, owner, p.dir, SlotOf(p.e / 32), q.dir, SlotOf(q.e / 32));
    }
  }

  /** Distinct entries lie at distinct places of the data region, so an inode has at most 995 * 32 names. */
  lemma NamingsBound(T: Table, blk: Disk, nodes: seq<Node>, fb: nat, owner: seq<Slot>, t: nat)
    requires VolOk(T, blk, nodes, fb, owner) && TableOk(T)
    ensures |Namings(nodes, t)| <= 31840
  {
    hide VolOk, EntryPlace, EntryAt, ECount, TableOk, Namings, NamesNode;
    var N := Namings(nodes, t);
    VolTable(T, blk, nodes, fb, owner);
    forall p, q | p in N && q in N
      ensures p.dir < NINODES && p.e / 32 < 140 && q.dir < NINODES && q.e / 32 < 140
      ensures 32 * START <= EntryPlace(T, blk, p) < 32 * SIZE
      ensures EntryPlace(T, blk, p) == EntryPlace(T, blk, q) ==> p == q
    {
      NamingIsPlace(nodes, p, t);
      NamingIsPlace(nodes, q, t);
      PlacesApart(T, blk, nodes, fb, owner, p, q);
    }
    assert forall p :: p in N ==> p.dir < NINODES && p.e / 32 < 140;
    PlacesBound(map p | p in N :: EntryPlace(T, blk, p), 32 * START, 32 * SIZE);
    assert (map p | p in N :: EntryPlace(T, blk, p)).Keys == N;
  }

  lemma NamingIsPlace(nodes: seq<Node>, p: EPos, t: nat)
    requires NamesNode(nodes, p, t)
    ensures IsEPos(nodes, p) && p.dir < |nodes|
  {}

  /** An injective map into [lo, hi) has at most hi - lo keys. */
  lemma PlacesBound(m: map<EPos, nat>, lo: nat, hi: nat)
    requires lo <= hi && forall p :: p in m ==> lo <= m[p] < hi
    requires forall p, q :: p in m && q in m && m[p] == m[q] ==> p == q
    ensures |m.Keys| <= hi - lo
  {
    InjectiveCard(m);
    var R := Range(lo, hi);
    forall v | v in m.Values ensures v in R { var p :| p in m && m[p] == v; }
    SubsetCard(m.Values, R);
  }

  lemma VolTable(T: Table, blk: Disk, nodes: seq<Node>, fb: nat, owner: seq<Slot>)
    requires VolOk(T, blk, nodes, fb, owner)
    ensures TableOk(T) && |blk| == SIZE && |nodes| <= NINODES
  {}

  lemma EntryBlock(T: Table, blk: Disk, nodes: seq<Node>, fb: nat, owner: seq<Slot>, j: nat, e: nat)
    requires VolOk(T, blk, nodes, fb, owner) && 1 <= j < |nodes| && e < ECount(nodes[j])
    ensures TableOk(T) && |blk| == SIZE && e / 32 < 140
    ensures START <= VRef(T, blk, j, SlotOf(e / 32)) < fb <= SIZE
  {
    hide VRef, DataOk, OwnersOk, HeldOk, ShapeOk;
    assert InodeMatches(T[j], nodes[j]);
    SlotInData(T, blk, Datas(nodes), Lens(nodes), fb, owner, j, SlotOf(e / 32));
  }

  lemma SlotUnique(T: Table, blk: Disk, datas: seq<seq<byte>>, lens: seq<nat>, fb: nat, owner: seq<Slot>,
                   i: nat, k: nat, j: nat, l: nat)
    requires LayoutOk(T, blk, datas, lens, fb, owner) && i < NINODES && j < NINODES && k < 141 && l < 141
    requires VRef(T, blk, i, k) == VRef(T, blk, j, l) != 0
    ensures i == j && k == l
  {
    hide VRef, DataOk, OwnersOk, ShapeOk;
  }

  /** A finished file's link count is far from overflowing. */
  lemma LinkRoom(T: Table, blk: Disk, nodes: seq<Node>, fb: nat, owner: seq<Slot>, owed: set<nat>, t: nat)
    requires VolOk(T, blk, nodes, fb, owner) && TreeOk(nodes, owed)
    requires 1 <= t < |nodes| && nodes[t].kind == T_FILE
    ensures nodes[t].nlink <= 31841
  {
    hide VolOk;
    VolTable(T, blk, nodes, fb, owner);
    NamingsBound(T, blk, nodes, fb, owner, t);
    assert NodeOk(nodes, owed, t);
  }

  lemma FreeInRange(T: Table, blk: Disk, nodes: seq<Node>, fb: nat, owner: seq<Slot>)
    requires VolOk(T, blk, nodes, fb, owner)
    ensures START <= fb <= SIZE && 1 <= |nodes| <= NINODES
  {}

  lemma AgreeChain(a: seq<Node>, b: seq<Node>, c: seq<Node>, cur: nat, child: nat)
    requires |a| < |b| && b[..|a|] == a && child == |a| && Agree(b, c, child) && cur < |a|
    requires LinksKept(b, c, child, cur)
    ensures Agree(a, c, cur) && c[cur] == a[cur].(nlink := c[cur].nlink) && LinksKept(a, c, cur, cur)
  {
    assert forall j :: 0 <= j < |a| ==> b[j] == a[j];
  }

  lemma AgreeFile(a: seq<Node>, b: seq<Node>, cur: nat)
    requires Agree(a, b, |a|) && cur < |a|
    requires forall j :: 0 <= j < |a| && b[j].kind == T_DIR ==> b[j] == a[j]
    ensures Agree(a, b, cur) && b[cur] == a[cur].(nlink := b[cur].nlink) && LinksKept(a, b, cur, cur)
  {}

  function SuperSector(): Sector {
    Le32(SIZE) + Le32(NBLOCKS) + Le32(NINODES) + seq(500, _ => 0)
  }

  method ZeroSectors() returns (sectors: Disk)
    ensures |sectors| == SIZE && forall b :: 0 <= b < SIZE ==> sectors[b] == ZeroSector()
  {
    sectors := [];
    for i := 0 to SIZE
      invariant |sectors| == i && forall b :: 0 <= b < i ==> sectors[b] == ZeroSector()
    {
      sectors := sectors + [ZeroSector()];
    }
  }

  lemma EmptyVolume(disk: Disk)
    requires |disk| == SIZE && disk[1] == SuperSector()
    requires forall b :: 0 <= b < SIZE && b != 1 ==> disk[b] == ZeroSector()
    ensures SuperOk(disk) && VolOk(TableOf(disk), disk, [Node(T_FREE, [], 0, false, 0)], START, [])
  {
    var T := TableOf(disk);
    forall i | 0 <= i < NINODES ensures T[i] == ZeroInode() {
      assert disk[InodeBlock(i)] == ZeroSector();
      ZeroBytesDecode(InodeBytes(disk, i));
    }
    hide Words, ZeroSector, SuperSector, Le32;
    assert forall i: nat, k: nat :: i < NINODES && k < 141 ==> VRef(T, disk, i, k) == 0;
    SuperReads(disk);
  }

  lemma SuperReads(disk: Disk)
    requires |disk| == SIZE && disk[1] == SuperSector()
    ensures SuperOk(disk)
  {
    var s := disk[1];
    assert s[0..4] == Le32(SIZE) && s[4..8] == Le32(NBLOCKS) && s[8..12] == Le32(NINODES);
  }

  /** How many of bitmap byte j's bits are among the first i bits. */
  function Ones(i: nat, j: nat): (r: nat)
    ensures r <= 8
  {
    if i <= 8 * j then 0 else if i >= 8 * j + 8 then 8 else i - 8 * j
  }

  class Builder {
    var disk: Disk
    var freeblock: nat
    var usedblocks: nat
    var freeinode: nat
    /** The hard-link table: host inode to the file inode made for it. */
    var links: map<nat, nat>
    /** Contents of the host's files, by host inode. */
    const hostFile: Host
    ghost var nodes: seq<Node>
    ghost var owner: seq<Slot>

    ghost predicate Valid()
      reads this
    {
      && SuperOk(disk)
      && freeblock == usedblocks && freeinode == |nodes|
      && VolOk(TableOf(disk), disk, nodes, freeblock, owner)
      && (forall h :: h in links ==>
            1 <= links[h] < |nodes| && nodes[links[h]].kind == T_FILE && nodes[links[h]].host == h)
    }

    /** mkfs: every sector zero, the superblock in block 1, nothing allocated. */
    constructor (host: Host)
      ensures Valid() && hostFile == host && links == map[]
      ensures nodes == [Node(T_FREE, [], 0, false, 0)] && freeblock == START
    {
      hostFile := host;
      freeinode := 1;
      links := map[];
      var bitblocks := SIZE / 4096 + 1;
      usedblocks := NINODES / 8 + 3 + bitblocks;
      freeblock := NINODES / 8 + 3 + bitblocks;
      var sectors := ZeroSectors();
      disk := sectors[1 := SuperSector()];
      nodes := [Node(T_FREE, [], 0, false, 0)];
      owner := [];
      new;
      EmptyVolume(disk);
    }

    method Rinode(i: nat) returns (d: Dinode)
      requires |disk| == SIZE && i < NINODES
      ensures d == TableOf(disk)[i]
    {
      var buf := disk[InodeBlock(i)];
      d := DecodeInode(buf[i % 8 * 64..i % 8 * 64 + 64]);
    }

    method Winode(i: nat, d: Dinode)
      requires |disk| == SIZE && i < NINODES && ValidInode(d)
      modifies this`disk
      ensures OnlyInodes(old(disk), disk)
      ensures TableOf(disk) == old(TableOf(disk))[i := d]
    {
      ghost var before := disk;
      var bn := InodeBlock(i);
      var buf := disk[bn];
      disk := disk[bn := PatchInode(buf, i, d)];
      forall j | 0 <= j < NINODES ensures TableOf(disk)[j] == TableOf(before)[i := d][j] {
        WriteReadInode(before, i, d, j);
      }
    }

    /** ialloc. `ok` is false when the volume has no inode left. */
    method Ialloc(kind: int, ghost host: nat) returns (ok: bool, inum: nat)
      requires Valid() && (kind == T_DIR || kind == T_FILE)
      modifies this`disk, this`freeinode, this`nodes
      ensures ok <==> old(|nodes|) < NINODES
      ensures ok ==> Valid() && inum == old(|nodes|)
      ensures ok ==> nodes == old(nodes) + [Node(kind, [], if kind == T_DIR then 2 else 1, false, host)]
    {
      hide LayoutOk;
      inum := freeinode;
      freeinode := freeinode + 1;
      if inum >= NINODES { return false, inum; }
      var din := Dinode(kind, 0, 0, if kind == T_DIR then 2 else 1, 0, seq(13, _ => 0));
      ghost var nd := Node(kind, [], if kind == T_DIR then 2 else 1, false, host);
      ghost var before := disk;
      Winode(inum, din);
      NewNode(TableOf(before), before, TableOf(disk), disk, nodes, freeblock, owner, nd);
      nodes := nodes + [nd];
      ok := true;
    }

    /** Overwrite inode i's link count and size; addresses and contents stay. */
    method UpdateInode(i: nat, din: Dinode, ghost nd: Node)
      requires Valid() && 1 <= i < |nodes| && din.addrs == TableOf(disk)[i].addrs
      requires InodeMatches(din, nd) && nd.data == nodes[i].data && nd.kind == nodes[i].kind && nd.host == nodes[i].host
      modifies this`disk, this`nodes
      ensures Valid() && nodes == old(nodes)[i := nd]
    {
      hide LayoutOk, ValidInode, InodeMatches, ZeroInode;
      ghost var before := disk;
      Writable(TableOf(disk), disk, Datas(nodes), Lens(nodes), freeblock, owner, i, din, nd);
      Winode(i, din);
      UpdateNode(TableOf(before), before, TableOf(disk), disk, nodes, freeblock, owner, i, nd);
      nodes := nodes[i := nd];
    }

    /** Add one to inode i's link count. */
    method AddLink(i: nat)
      requires Valid() && 1 <= i < |nodes| && nodes[i].nlink < 32767
      modifies this`disk, this`nodes
      ensures Valid() && nodes == old(nodes)[i := old(nodes)[i].(nlink := old(nodes)[i].nlink + 1)]
    {
      hide LayoutOk;
      var din := Rinode(i);
      UpdateInode(i, din.(nlink := din.nlink + 1), nodes[i].(nlink := nodes[i].nlink + 1));
    }

    /** The size fix at the end of a directory. */
    method RoundSize(i: nat)
      requires Valid() && 1 <= i < |nodes| && !nodes[i].closed
      modifies this`disk, this`nodes
      ensures Valid() && nodes == old(nodes)[i := old(nodes)[i].(closed := true)]
    {
      hide LayoutOk;
      var din := Rinode(i);
      UpdateInode(i, din.(size := (din.size / 512 + 1) * 512), nodes[i].(closed := true));
    }

    /** The indirect case: the indirect block and its word, each claimed if new. */
    method BmapIndirect(ghost i: nat, din: Dinode, off: nat, ghost datas: seq<seq<byte>>, ghost lens: seq<nat>)
      returns (ok: bool, din': Dinode, x: nat)
      requires |disk| == SIZE && freeblock == usedblocks && 6144 <= off < 71680
      requires 1 <= i < |lens| <= NINODES && |din.addrs| == 13
      requires LayoutOk(TableOf(disk)[i := din], disk, datas, lens, freeblock, owner)
      requires lens[i] == |datas[i]| == off
      modifies this`disk, this`freeblock, this`usedblocks, this`owner
      ensures ok <==> old(freeblock) + BlocksFor(off + 1) - BlocksFor(off) <= SIZE
      ensures ok ==> |disk| == SIZE && forall b :: 0 <= b < START ==> disk[b] == old(disk)[b]
      ensures ok ==> freeblock == usedblocks == old(freeblock) + BlocksFor(off + 1) - BlocksFor(off)
      ensures ok ==> din' == din.(addrs := din'.addrs) && |din'.addrs| == 13
      ensures ok ==> LayoutOk(TableOf(disk)[i := din'], disk, datas, Claimed(lens, i), freeblock, owner)
      ensures ok ==> x < SIZE && x == VRef(TableOf(disk)[i := din'], disk, i, SlotOf(off / 512))
    {
      hide LayoutOk, ZeroSector, Words, EncodeWords;
      ghost var T, before, fb := TableOf(disk)[i := din], disk, freeblock;
      din' := din;
      var fbn := off / 512;
      ShapeAt(T, disk, datas, lens, freeblock, owner, i, fbn);
      LayoutTable(T, disk, datas, lens, freeblock, owner);
      if din.addrs[12] == 0 {
        din' := SetAddr(din, 12, freeblock);
        freeblock, usedblocks := freeblock + 1, usedblocks + 1;
        if din'.addrs[12] >= |disk| { return false, din', 0; }
        FreeIsZero(T, disk, datas, lens, fb, owner);
        ZeroWords(disk[fb]);
      }
      var ind := din'.addrs[12];
      var indirect := Words(disk[ind]);
      if indirect[fbn - 12] == 0 {
        indirect := indirect[fbn - 12 := freeblock];
        freeblock, usedblocks := freeblock + 1, usedblocks + 1;
        disk := disk[ind := EncodeWords(indirect)];
        if indirect[fbn - 12] >= |disk| { return false, din', 0; }
        TableFrame(before, disk);
        if din.addrs[12] == 0 {
          PatchedZero(before[fb], fb + 1);
          GrowIndirect(T, before, datas, lens, fb, owner, i, disk[ind]);
          assert TableOf(disk)[i := din'] == T[i := SetAddr(T[i], 12, fb)];
          owner := owner + [Slot(i, 12)] + [Slot(i, 13)];
        } else {
          PatchedWords(T, before, datas, lens, fb, owner, i, fbn - 12, fb);
          GrowWord(T, before, datas, lens, fb, owner, i, fbn, disk[ind]);
          owner := owner + [Slot(i, fbn + 1)];
        }
      }
      x := indirect[fbn - 12];
      ok := true;
    }

    /** The block for byte `off` of the inode being appended to, claimed if it is
        new. `ok` is false when a sector that must be read next is past the end of the disk. */
    method Bmap(ghost i: nat, din: Dinode, off: nat, ghost datas: seq<seq<byte>>, ghost lens: seq<nat>)
      returns (ok: bool, din': Dinode, x: nat)
      requires |disk| == SIZE && freeblock == usedblocks && off < 71680
      requires 1 <= i < |lens| <= NINODES && |din.addrs| == 13
      requires LayoutOk(TableOf(disk)[i := din], disk, datas, lens, freeblock, owner)
      requires lens[i] == |datas[i]| == off
      modifies this`disk, this`freeblock, this`usedblocks, this`owner
      ensures ok <==> old(freeblock) + BlocksFor(off + 1) - BlocksFor(off) <= SIZE
      ensures ok ==> |disk| == SIZE && forall b :: 0 <= b < START ==> disk[b] == old(disk)[b]
      ensures ok ==> freeblock == usedblocks == old(freeblock) + BlocksFor(off + 1) - BlocksFor(off)
      ensures ok ==> din' == din.(addrs := din'.addrs) && |din'.addrs| == 13
      ensures ok ==> LayoutOk(TableOf(disk)[i := din'], disk, datas, Claimed(lens, i), freeblock, owner)
      ensures ok ==> x < SIZE && x == VRef(TableOf(disk)[i := din'], disk, i, SlotOf(off / 512))
    {
      hide LayoutOk, ZeroSector, Words;
      ghost var T := TableOf(disk)[i := din];
      din' := din;
      var fbn := off / 512;
      ShapeAt(T, disk, datas, lens, freeblock, owner, i, fbn);
      LayoutTable(T, disk, datas, lens, freeblock, owner);
      if fbn < 12 {
        if din.addrs[fbn] == 0 {
          ghost var fb := freeblock;
          din' := SetAddr(din, fbn, freeblock);
          freeblock, usedblocks := freeblock + 1, usedblocks + 1;
          if din'.addrs[fbn] >= |disk| { return false, din', 0; }
          GrowDirect(T, disk, datas, lens, fb, owner, i, fbn);
          assert TableOf(disk)[i := din'] == T[i := SetAddr(T[i], fbn, fb)];
          owner := owner + [Slot(i, fbn)];
        }
        x := din'.addrs[fbn];
        ok := true;
      } else {
        ok, din', x := BmapIndirect(i, din, off, datas, lens);
      }
    }

    /** iappend's loop: copy `bytes` in at the end of the inode, block by block. */
    method AppendBlocks(ghost i: nat, din: Dinode, bytes: seq<byte>, ghost data: seq<byte>,
                        ghost T: Table, ghost datas: seq<seq<byte>>, ghost lens: seq<nat>)
      returns (ok: bool, din': Dinode, off: nat)
      requires |disk| == SIZE && TableOf(disk) == T && freeblock == usedblocks
      requires 1 <= i < |lens| == |datas| <= NINODES && |din.addrs| == 13 && T[i := din] == T
      requires data == datas[i] && din.size == lens[i] == |data| <= 71680
      requires LayoutOk(T, disk, datas, lens, freeblock, owner)
      modifies this`disk, this`freeblock, this`usedblocks, this`owner
      ensures ok <==> AppendFits(old(freeblock), |data|, |bytes|)
      ensures ok ==> |disk| == SIZE && TableOf(disk) == T && freeblock == usedblocks && off == |data| + |bytes|
      ensures ok ==> forall b :: 0 <= b < START ==> disk[b] == old(disk)[b]
      ensures ok ==> din' == din.(addrs := din'.addrs) && |din'.addrs| == 13
      ensures ok ==> freeblock + BlocksFor(|data|) == old(freeblock) + BlocksFor(off)
      ensures ok ==> LayoutOk(T[i := din'], disk, datas[i := data + bytes], lens[i := off], freeblock, owner)
    {
      hide LayoutOk, BlockOf, ZeroSector, Words, BlocksFor, VRef;
      din' := din;
      off := din.size;
      var p := 0;
      LayoutTable(T, disk, datas, lens, freeblock, owner);
      assert data + bytes[..0] == data;
      assert datas[i := data + bytes[..0]] == datas && lens[i := off] == lens;
      while p < |bytes|
        invariant 0 <= p <= |bytes| && off == |data| + p <= 71680 && |disk| == SIZE
        invariant TableOf(disk) == T && freeblock == usedblocks && freeblock <= SIZE
        invariant forall b :: 0 <= b < START ==> disk[b] == old(disk)[b]
        invariant din' == din.(addrs := din'.addrs) && |din'.addrs| == 13
        invariant LayoutOk(T[i := din'], disk, datas[i := data + bytes[..p]], lens[i := off], freeblock, owner)
        invariant freeblock + BlocksFor(|data|) == old(freeblock) + BlocksFor(off)
      {
        var fbn := off / 512;
        MoreBlocks(off, |data| + |bytes|);
        if fbn >= 140 { return false, din', off; }
        var x;
        ghost var ds, ls, before := datas[i := data + bytes[..p]], lens[i := off], disk;
        ok, din', x := Bmap(i, din', off, ds, ls);
        if !ok { return; }
        TableFrame(before, disk);
        var left, room := |bytes| - p, (fbn + 1) * 512 - off;
        var n1 := if left < room then left else room;
        CopyChunk(i, din', fbn, off, x, bytes[p..p + n1], data + bytes[..p], T, ds, Claimed(ls, i));
        SameBlocks(off, n1);
        assert data + bytes[..p] + bytes[p..p + n1] == data + bytes[..p + n1];
        assert ds[i := data + bytes[..p + n1]] == datas[i := data + bytes[..p + n1]];
        assert Claimed(ls, i)[i := off + n1] == lens[i := off + n1];
        p := p + n1;
        off := off + n1;
      }
      assert bytes[..p] == bytes;
      ok := true;
    }

    /** Read block x, patch it from `off`, and write it back. */
    method CopyChunk(ghost i: nat, ghost din: Dinode, fbn: nat, off: nat, x: nat, chunk: seq<byte>,
                     ghost data: seq<byte>, ghost T: Table, ghost datas: seq<seq<byte>>, ghost lens: seq<nat>)
      requires |disk| == SIZE && TableOf(disk) == T && |din.addrs| == 13 && fbn < 140
      requires 1 <= i < |lens| == |datas| <= NINODES && datas[i] == data && |data| == off
      requires 512 * fbn <= off && off + |chunk| <= 512 * (fbn + 1) && |chunk| > 0
      requires lens[i] == off || (lens[i] == off + 1 && off == 512 * fbn)
      requires Needed(SlotOf(fbn), lens[i])
      requires LayoutOk(T[i := din], disk, datas, lens, freeblock, owner)
      requires x == VRef(T[i := din], disk, i, SlotOf(fbn)) && x < SIZE
      modifies this`disk
      ensures |disk| == SIZE && TableOf(disk) == T
      ensures forall b :: 0 <= b < START ==> disk[b] == old(disk)[b]
      ensures LayoutOk(T[i := din], disk, datas[i := data + chunk], lens[i := off + |chunk|], freeblock, owner)
    {
      hide LayoutOk, BlockOf, ZeroSector, Words;
      ghost var before := disk;
      WriteChunk(T[i := din], disk, datas, lens, freeblock, owner, i, fbn, chunk);
      SlotInData(T[i := din], disk, datas, lens, freeblock, owner, i, SlotOf(fbn));
      var buf := disk[x];
      ChunkSector(data, chunk, fbn, buf);
      disk := disk[x := buf[..off - fbn * 512] + chunk + buf[off + |chunk| - fbn * 512..]];
      TableFrame(before, disk);
    }

    /** iappend: what inode i reads back to grows by `bytes`, nothing else changes,
        and exactly the blocks the new length needs are taken. It fails exactly when
        the file would pass 140 blocks or the disk would run out. */
    method Iappend(i: nat, bytes: seq<byte>) returns (ok: bool)
      requires Valid() && 1 <= i < |nodes| && !nodes[i].closed
      modifies this`disk, this`freeblock, this`usedblocks, this`owner, this`nodes
      ensures ok <==> AppendFits(old(freeblock), |old(nodes)[i].data|, |bytes|)
      ensures ok ==> Valid() && nodes == old(nodes)[i := old(nodes)[i].(data := old(nodes)[i].data + bytes)]
      ensures ok ==> freeblock == old(freeblock) + BlocksFor(|nodes[i].data|) - BlocksFor(|old(nodes)[i].data|)
      ensures ok ==> forall j :: 0 <= j < NINODES && j != i ==> TableOf(disk)[j] == old(TableOf(disk))[j]
    {
      hide LayoutOk, ZeroInode, ValidInode;
      ghost var T, datas, lens, data := TableOf(disk), Datas(nodes), Lens(nodes), nodes[i].data;
      var din := Rinode(i);
      var din', off;
      ok, din', off := AppendBlocks(i, din, bytes, data, T, datas, lens);
      if !ok { return; }
      ghost var nd := nodes[i].(data := data + bytes);
      ghost var before := disk;
      assert InodeMatches(din'.(size := off), nd);
      Writable(T[i := din'], disk, datas[i := nd.data], lens[i := off], freeblock, owner, i, din'.(size := off), nd);
      Winode(i, din'.(size := off));
      GrownNode(T, before, disk, nodes, freeblock, owner, i, din', nd);
      nodes := nodes[i := nd];
    }

    /** The hard-link lookup: either the file already made for this host inode, or a
        new file inode. The lookup may miss a host inode it has seen before. Only a
        miss needs a free inode. */
    method FetchHardLink(host: nat) returns (ok: bool, inum: nat)
      requires Valid()
      modifies this`disk, this`freeinode, this`nodes, this`links
      ensures !ok ==> old(|nodes|) == NINODES
      ensures ok ==> Valid()
      ensures ok && inum == old(|nodes|) ==> nodes == old(nodes) + [Node(T_FILE, [], 1, false, host)]
      ensures ok && inum != old(|nodes|) ==>
        nodes == old(nodes) && 1 <= inum < |nodes| && nodes[inum].kind == T_FILE && nodes[inum].host == host
    {
      hide VolOk;
      FreeInRange(TableOf(disk), disk, nodes, freeblock, owner);
      var found: bool := *;
      if found && host in links {
        return true, links[host];
      }
      ok, inum := Ialloc(T_FILE, host);
      if !ok { return; }
      links := links[host := inum];
    }

    /** Copy a file's bytes in reads of at most one block. */
    method CopyFile(child: nat, content: seq<byte>) returns (ok: bool)
      requires Valid() && 1 <= child < |nodes| && !nodes[child].closed && nodes[child].data == []
      modifies this`disk, this`freeblock, this`usedblocks, this`owner, this`nodes
      ensures ok <==> AppendFits(old(freeblock), 0, |content|)
      ensures ok ==> Valid() && nodes == old(nodes)[child := old(nodes)[child].(data := content)]
      ensures ok ==> freeblock == old(freeblock) + BlocksFor(|content|)
    {
      hide VolOk;
      var pos := 0;
      ok := true;
      FreeInRange(TableOf(disk), disk, nodes, freeblock, owner);
      assert nodes == old(nodes)[child := old(nodes)[child].(data := content[..0])];
      while pos < |content|
        invariant 0 <= pos <= |content| && Valid() && pos <= 71680 && freeblock <= SIZE
        invariant nodes == old(nodes)[child := old(nodes)[child].(data := content[..pos])]
        invariant freeblock == old(freeblock) + BlocksFor(pos)
      {
        var n := if |content| - pos < 512 then |content| - pos else 512;
        MoreBlocks(pos + n - 1, |content|);
        ok := Iappend(child, content[pos..pos + n]);
        if !ok { return; }
        assert content[..pos] + content[pos..pos + n] == content[..pos + n];
        pos := pos + n;
      }
      assert content[..pos] == content;
    }

    /** The file branch of add_dir, up to the directory entry: one more link to a
        file already copied, or a fresh copy. */
    method AddFile(host: nat, ghost owed: set<nat>) returns (ok: bool, child: nat)
      requires Valid() && Growing(nodes, owed, hostFile)
      modifies this
      ensures old(|nodes|) < NINODES && AppendFits(old(freeblock), 0, |hostFile(host)|) ==> ok
      ensures ok ==> Valid() && TreeOk(nodes, owed + {child}) && FilesOk(nodes, hostFile)
      ensures ok ==> |nodes| <= old(|nodes|) + 1 && Agree(old(nodes), nodes, old(|nodes|))
      ensures ok ==> 1 <= child < |nodes| && child !in owed && nodes[child].kind == T_FILE
      ensures ok ==> nodes[child].data == hostFile(host) && nodes[child].host == host
      ensures ok ==> Spent(nodes) >= Spent(old(nodes))
      ensures ok ==> SpentBlocks(nodes, freeblock, hostFile) >= SpentBlocks(old(nodes), old(freeblock), hostFile)
      ensures ok ==> forall j :: old(|nodes|) <= j < |nodes| ==> nodes[j].kind == T_FILE
      ensures ok ==> forall j :: 0 <= j < old(|nodes|) && nodes[j].kind == T_DIR ==> nodes[j] == old(nodes)[j]
      ensures ok ==> freeblock <= old(freeblock) + BlocksFor(|hostFile(host)|)
    {
      hide VolOk, Formatted, CountOk, ParentsAgree, FileHosts, HostBlocks;
      ghost var before, fb := nodes, freeblock;
      FreeInRange(TableOf(disk), disk, nodes, freeblock, owner);
      var newinum := freeinode;
      ok, child := FetchHardLink(host);
      if !ok { return; }
      if child != newinum {
        assert !IsDirNode(nodes, child) && child !in owed && NodeOk(nodes, owed, child);
        LinkRoom(TableOf(disk), disk, nodes, freeblock, owner, owed, child);
        MetaStep(nodes, owed, child, nodes[child].(nlink := nodes[child].nlink + 1), owed + {child});
        AddLink(child);
        SameFileHosts(before, nodes);
      } else {
        AllocStep(before, owed, nodes[child]);
        MetaStep(nodes, owed + {child}, child, nodes[child].(data := hostFile(host)), owed + {child});
        ok := CopyFile(child, hostFile(host));
        if !ok { return; }
        assert nodes[..|before|] == before;
        NewFileSpent(before, nodes, fb, host, hostFile);
      }
    }

    /** "." and ".." of a new directory, and the parent's extra link. */
    method BeginDir(cur: nat, parent: nat, ghost owed: set<nat>) returns (ok: bool)
      requires Valid() && Growing(nodes, owed, hostFile) && CanBegin(nodes, owed, cur, parent)
      modifies this`disk, this`freeblock, this`usedblocks, this`owner, this`nodes
      ensures ok <==> old(freeblock) + 1 <= SIZE
      ensures ok ==> Valid() && nodes == Begun(old(nodes), cur, parent) && freeblock == old(freeblock) + 1
    {
      hide VolOk, TreeOk, FilesOk, EncodeDirent, PadName;
      FreeInRange(TableOf(disk), disk, nodes, freeblock, owner);
      ok := Iappend(cur, DotBytes(cur));
      if !ok { return; }
      if cur != parent { AddLink(parent); }
      ok := Iappend(cur, DotDotBytes(parent));
      assert [] + DotBytes(cur) + DotDotBytes(parent) == DotBytes(cur) + DotDotBytes(parent);
    }

    /** The inode of one host entry of directory cur, made or found, and filled. */
    method AddChild(it: Item, cur: nat, ghost owed: set<nat>) returns (ok: bool, child: nat)
      requires Valid() && Growing(nodes, owed, hostFile) && IsDirNode(nodes, cur) && cur in owed
      requires nodes[cur].data != [] && !nodes[cur].closed && Kept(it) && ItemNamesOk(it)
      modifies this
      ensures old(|nodes|) + ItemInodes(it) <= NINODES && ItemSizeOk(it, hostFile)
              && old(freeblock) + ItemBlocks(it, hostFile) <= SIZE
              ==> ok
      ensures ok ==> Valid() && Filled(nodes, owed, cur, child, it, hostFile) && Agree(old(nodes), nodes, cur)
      ensures ok ==> nodes[cur] == old(nodes)[cur].(nlink := nodes[cur].nlink) && LinksKept(old(nodes), nodes, cur, cur)
      ensures ok ==> nodes[cur].nlink == old(nodes)[cur].nlink + if IsSubdir(it) then 1 else 0
      ensures ok ==> |nodes| <= old(|nodes|) + ItemInodes(it)
      ensures ok ==> (NotFullFrom(nodes, old(|nodes|)) <==> ItemNotFull(it))
      ensures ok ==> freeblock <= old(freeblock) + ItemBlocks(it, hostFile)
      ensures ok ==> Spent(nodes) >= Spent(old(nodes)) + ItemDirs(it)
      ensures ok ==> SpentBlocks(nodes, freeblock, hostFile) >=
                     SpentBlocks(old(nodes), old(freeblock), hostFile) + ItemOwn(it)
      decreases it, 0
    {
      hide VolOk, TreeOk, FilesOk, PadName, EntryAt, Represents, FileHosts, HostBlocks, DirCount, OwnBlocks;
      ghost var before := nodes;
      FreeInRange(TableOf(disk), disk, nodes, freeblock, owner);
      match it {
        case DirItem(name, children) =>
          AllocDirGrows(nodes, owed, hostFile, Node(T_DIR, [], 2, false, 0));
          ok, child := Ialloc(T_DIR, 0);
          if !ok { return; }
          ghost var mid := nodes;
          SameFileHosts(before, mid);
          ok := AddDir(children, child, cur, owed + {child});
          if !ok { return; }
          AgreeChain(before, mid, nodes, cur, child);
          NotFullChild(mid, nodes, child);
        case FileItem(name, host) =>
          ok, child := AddFile(host, owed);
          if !ok { return; }
          AgreeFile(before, nodes, cur);
      }
    }

    /** One host entry of directory cur: make or find its inode, fill it, then write the directory entry. */
    method AddItem(it: Item, cur: nat, ghost owed: set<nat>) returns (ok: bool)
      requires Valid() && Growing(nodes, owed, hostFile) && IsDirNode(nodes, cur) && cur in owed
      requires nodes[cur].data != [] && !nodes[cur].closed && Kept(it) && ItemNamesOk(it)
      modifies this
      ensures old(|nodes|) + ItemInodes(it) <= NINODES && ItemSizeOk(it, hostFile)
              && AppendFits(old(freeblock) + ItemBlocks(it, hostFile), |old(nodes)[cur].data|, 16)
              ==> ok
      ensures ok ==> Valid() && Growing(nodes, owed, hostFile) && Agree(old(nodes), nodes, cur)
      ensures ok ==> IsDirNode(nodes, cur) && !nodes[cur].closed && |nodes[cur].data| == |old(nodes)[cur].data| + 16
      ensures ok ==> GainedEntry(old(nodes), nodes, cur) && LinksKept(old(nodes), nodes, cur, cur)
      ensures ok ==> nodes[cur].nlink == old(nodes)[cur].nlink + if IsSubdir(it) then 1 else 0
      ensures ok ==> ItemHeld(nodes, EntryAt(nodes[cur], ECount(old(nodes)[cur])), it, hostFile)
      ensures ok ==> |nodes| <= old(|nodes|) + ItemInodes(it)
      ensures ok ==> (NotFullFrom(nodes, old(|nodes|)) <==> ItemNotFull(it))
      ensures ok ==> freeblock <= old(freeblock) + ItemBlocks(it, hostFile)
                                  + BlocksFor(|nodes[cur].data|) - BlocksFor(|nodes[cur].data| - 16)
      ensures ok ==> Spent(nodes) >= Spent(old(nodes)) + ItemDirs(it)
      ensures ok ==> SpentBlocks(nodes, freeblock, hostFile) >=
                     SpentBlocks(old(nodes), old(freeblock), hostFile) + ItemOwn(it)
                     + BlocksFor(|nodes[cur].data|) - BlocksFor(|nodes[cur].data| - 16)
      decreases it, 1
    {
      hide FileHosts, HostBlocks, ItemDirs, ItemOwn;
      hide VolOk, Growing, Filled, EncodeDirent, PadName, EntryAt, ItemHeld, ItemNamesOk, NotFullFrom, ItemNotFull;
      ghost var before := nodes;
      MoreBlocks(|nodes[cur].data|, |nodes[cur].data| + 16);
      var child;
      ok, child := AddChild(it, cur, owed);
      if !ok { return; }
      ghost var filled := nodes;
      ok := Iappend(cur, EncodeDirent(Dirent(child, PadName(it.name))));
      if !ok { return; }
      EntryGrows(filled, owed, cur, child, it, hostFile, nodes);
      GainedFrom(before, filled, nodes, cur);
      AgreeTrans(before, filled, nodes, cur);
      SameFileHosts(filled, nodes);
      NotFullSame(filled, nodes, cur, |before|);
    }

    /** add_dir: the whole subtree. It succeeds whenever the subtree fits, and then
        directory cur holds exactly the host directory. */
    method AddDir(items: seq<Item>, cur: nat, parent: nat, ghost owed: set<nat>) returns (ok: bool)
      requires Valid() && Growing(nodes, owed, hostFile) && CanBegin(nodes, owed, cur, parent)
      requires NamesOk(items)
      modifies this
      ensures old(|nodes|) + InodesOf(items) <= NINODES && SizesOk(items, hostFile)
              && old(freeblock) + DirBlocks(items, hostFile) <= SIZE
              ==> ok
      ensures ok ==> Valid() && Growing(nodes, owed, hostFile) && Agree(old(nodes), nodes, cur)
      ensures ok ==> IsDirNode(nodes, cur) && nodes[cur].closed
      ensures ok ==> ECount(nodes[cur]) >= 2 && ParentOf(nodes, cur) == parent
      ensures ok ==> Represents(nodes, cur, items, hostFile) && LinksKept(old(nodes), nodes, cur, parent)
      ensures ok && cur != parent ==> nodes[parent].nlink == old(nodes)[parent].nlink + 1
      ensures ok ==> |nodes| <= old(|nodes|) + InodesOf(items)
      ensures ok ==> (ECount(nodes[cur]) % 32 != 0 && NotFullFrom(nodes, old(|nodes|)) <==> NoFullBlock(items))
      ensures ok ==> freeblock <= old(freeblock) + DirBlocks(items, hostFile)
      ensures ok ==> Spent(nodes) >= Spent(old(nodes)) + DirCount(items)
      ensures ok ==> SpentBlocks(nodes, freeblock, hostFile) >=
                     SpentBlocks(old(nodes), old(freeblock), hostFile) + OwnBlocks(items)
      decreases items
    {
      hide VolOk, Growing, DirProgress, EntryAt, Represents, Begun, NotFullFrom, Agree, SizesOk;
      hide Spent, SpentBlocks, DirCount, OwnBlocks;
      ghost var before, fb := nodes, freeblock;
      ProgressStart(nodes, freeblock, owed, cur, parent, items, hostFile);
      ok := BeginDir(cur, parent, owed);
      if !ok { return; }
      var n := 0;
      while n < |items|
        invariant 0 <= n <= |items| && Valid()
        invariant DirProgress(before, fb, nodes, freeblock, owed, cur, parent, items, n, hostFile)
      {
        if items[n].name == DOT || items[n].name == DOTDOT {
          ProgressSkip(before, fb, nodes, freeblock, owed, cur, parent, items, n, hostFile);
        } else {
          ghost var mid, fbmid := nodes, freeblock;
          ProgressReady(before, fb, nodes, freeblock, owed, cur, parent, items, n, hostFile);
          ok := AddItem(items[n], cur, owed);
          if !ok { return; }
          ProgressNext(before, fb, mid, fbmid, nodes, freeblock, owed, cur, parent, items, n, hostFile);
        }
        n := n + 1;
      }
      ProgressReady(before, fb, nodes, freeblock, owed, cur, parent, items, n, hostFile);
      ProgressEnd(before, fb, nodes, freeblock, owed, cur, parent, items, hostFile,
                  nodes[cur := nodes[cur].(closed := true)]);
      RoundSize(cur);
      ok := true;
    }

    /** balloc: mark the first `used` blocks in the bitmap. */
    method Balloc(used: nat)
      requires SuperOk(disk) && used < 4096
      modifies this`disk
      ensures |disk| == SIZE && forall b :: 0 <= b < SIZE && b != 28 ==> disk[b] == old(disk)[b]
      ensures forall b: nat :: b < SIZE ==> (BitmapBit(disk, NINODES, b) <==> b < used)
    {
      var buf: Sector := ZeroSector();
      var i := 0;
      while i < used
        invariant 0 <= i <= used && disk == old(disk)
        invariant forall j :: 0 <= j < 512 ==> buf[j] == Pow2(Ones(i, j)) - 1
      {
        OnesStep(i % 8);
        buf := buf[i / 8 := SetBit(buf[i / 8], i % 8)];
        i := i + 1;
      }
      disk := disk[NINODES / 8 + 3 := buf];
      forall b: nat | b < SIZE ensures BitmapBit(disk, NINODES, b) <==> b < used {
        assert BitmapBlock(b, NINODES) == 28 && b % 4096 / 8 == b / 8 < 512;
        assert buf[b / 8] == Pow2(Ones(used, b / 8)) - 1;
        OnesBits(Ones(used, b / 8), b % 8);
      }
    }
  }
}
