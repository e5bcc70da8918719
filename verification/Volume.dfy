/** Block ownership and file contents of a volume under construction: what
    mkfs keeps true of the inode table and the data blocks at every step. */
module Volume {
  import opened Layout
  import opened FsImage
  import opened Bytes

  /** The volume that mkfs's main builds. */
  const NBLOCKS: nat := 995
  const NINODES: nat := 200
  const SIZE: nat := 1024
  /** First data block: 2 + 26 inode blocks + 1 bitmap block. */
  const START: nat := 29

  type Table = seq<Dinode>

  ghost predicate TableOk(T: Table) {
    |T| == NINODES && forall i :: 0 <= i < NINODES ==> |T[i].addrs| == 13
  }

  ghost function TableOf(disk: Disk): (T: Table)
    requires |disk| == SIZE
    ensures TableOk(T)
    ensures forall i :: 0 <= i < NINODES ==> T[i] == ReadInode(disk, i)
  {
    seq(NINODES, i requires 0 <= i < NINODES => ReadInode(disk, i))
  }

  /** Block number in slot k of inode i. */
  ghost function VRef(T: Table, blk: Disk, i: nat, k: nat): nat
    requires TableOk(T) && |blk| == SIZE && i < NINODES && k < 141
  {
    if k <= 12 then T[i].addrs[k]
    else if START <= T[i].addrs[12] < SIZE then Words(blk[T[i].addrs[12]])[k - 13]
    else 0
  }

  /** Slot of the f-th data block of an inode. */
  function SlotOf(f: nat): nat { if f < 12 then f else f + 1 }

  /** A file of len bytes uses slot k. */
  predicate Needed(k: nat, len: nat) {
    if k <= 12 then 512 * k < len else 512 * (k - 1) < len
  }

  /** Blocks used by a file of len bytes, the indirect block included. */
  function BlocksFor(len: nat): nat {
    (len + 511) / 512 + if len > 6144 then 1 else 0
  }

  /** The f-th block of a file: its bytes, then zeros. */
  function BlockOf(data: seq<byte>, f: nat): Sector {
    seq(512, o requires 0 <= o < 512 => if 512 * f + o < |data| then data[512 * f + o] else 0)
  }

  /** Every filled slot belongs to an inode below n and holds a block below fb, which lists it as its owner. */
  ghost predicate HeldOk(T: Table, blk: Disk, n: nat, fb: nat, owner: seq<Slot>)
    requires TableOk(T) && |blk| == SIZE && |owner| == fb - START
  {
    forall i: nat, k: nat :: i < NINODES && k < 141 && VRef(T, blk, i, k) != 0 ==>
      1 <= i < n && START <= VRef(T, blk, i, k) < fb && owner[VRef(T, blk, i, k) - START] == Slot(i, k)
  }

  /** The slot that owns a block holds it. */
  ghost predicate OwnersOk(T: Table, blk: Disk, owner: seq<Slot>)
    requires TableOk(T) && |blk| == SIZE
  {
    forall b: nat :: b < |owner| ==>
      owner[b].ino < NINODES && owner[b].k < 141 && VRef(T, blk, owner[b].ino, owner[b].k) == START + b
  }

  /** Slots of inodes below n and blocks in [START, fb) correspond one to one;
      `owner` lists the slot of each block in allocation order. */
  ghost predicate OwnOk(T: Table, blk: Disk, n: nat, fb: nat, owner: seq<Slot>) {
    && TableOk(T) && |blk| == SIZE && 1 <= n <= NINODES
    && START <= fb <= SIZE && |owner| == fb - START
    && HeldOk(T, blk, n, fb, owner)
    && OwnersOk(T, blk, owner)
  }

  ghost predicate ShapeOk(T: Table, blk: Disk, lens: seq<nat>)
    requires TableOk(T) && |blk| == SIZE && |lens| <= NINODES
  {
    forall i: nat, k: nat :: 1 <= i < |lens| && k < 141 ==> (VRef(T, blk, i, k) != 0 <==> Needed(k, lens[i]))
  }

  ghost predicate DataOk(T: Table, blk: Disk, datas: seq<seq<byte>>, lens: seq<nat>)
    requires TableOk(T) && |blk| == SIZE && |datas| == |lens| <= NINODES
  {
    forall i: nat, f: nat :: 1 <= i < |lens| && f < 140 && Needed(SlotOf(f), lens[i]) ==>
      VRef(T, blk, i, SlotOf(f)) < SIZE && blk[VRef(T, blk, i, SlotOf(f))] == BlockOf(datas[i], f)
  }

  ghost predicate ZeroFrom(blk: Disk, fb: nat) {
    forall b :: fb <= b < |blk| ==> blk[b] == ZeroSector()
  }

  /** datas[i] is what inode i's slots read back to; lens[i] is its length as far as slots are concerned. */
  ghost predicate LayoutOk(T: Table, blk: Disk, datas: seq<seq<byte>>, lens: seq<nat>, fb: nat, owner: seq<Slot>) {
    && 1 <= |lens| == |datas| <= NINODES
    && OwnOk(T, blk, |lens|, fb, owner)
    && ShapeOk(T, blk, lens)
    && DataOk(T, blk, datas, lens)
    && ZeroFrom(blk, fb)
  }

  /* ---- how a write changes the slots ---- */

  /** Slot (i, k) becomes b; every other slot is as before. */
  ghost predicate SlotSet(T: Table, blk: Disk, T': Table, blk': Disk, i: nat, k: nat, b: nat)
    requires TableOk(T) && TableOk(T') && |blk| == |blk'| == SIZE
  {
    forall j: nat, l: nat :: j < NINODES && l < 141 ==>
      VRef(T', blk', j, l) == if j == i && l == k then b else VRef(T, blk, j, l)
  }

  ghost predicate SlotsSame(T: Table, blk: Disk, T': Table, blk': Disk)
    requires TableOk(T) && TableOk(T') && |blk| == |blk'| == SIZE
  {
    forall j: nat, l: nat :: j < NINODES && l < 141 ==> VRef(T', blk', j, l) == VRef(T, blk, j, l)
  }

  function SetAddr(d: Dinode, k: nat, b: nat): Dinode
    requires k < |d.addrs|
  {
    d.(addrs := d.addrs[k := b])
  }

  lemma SetDirect(T: Table, blk: Disk, i: nat, k: nat, b: nat)
    requires TableOk(T) && |blk| == SIZE && i < NINODES && k < 12
    ensures TableOk(T[i := SetAddr(T[i], k, b)])
    ensures SlotSet(T, blk, T[i := SetAddr(T[i], k, b)], blk, i, k, b)
  {
    hide Words;
  }

  lemma SetIndirect(T: Table, blk: Disk, i: nat, b: nat)
    requires TableOk(T) && |blk| == SIZE && i < NINODES && T[i].addrs[12] == 0
    requires START <= b < SIZE && blk[b] == ZeroSector()
    ensures TableOk(T[i := SetAddr(T[i], 12, b)])
    ensures SlotSet(T, blk, T[i := SetAddr(T[i], 12, b)], blk, i, 12, b)
  {
    ZeroWords(blk[b]);
    hide Words;
  }

  /** No inode's indirect pointer is x, except possibly i's. */
  ghost predicate NotIndirect(T: Table, x: nat, i: nat)
    requires TableOk(T)
  {
    forall j: nat :: j < NINODES && j != i ==> T[j].addrs[12] != x
  }

  lemma SetWord(T: Table, blk: Disk, i: nat, w: nat, b: nat, s: Sector)
    requires TableOk(T) && |blk| == SIZE && i < NINODES && w < 128
    requires START <= T[i].addrs[12] < SIZE && NotIndirect(T, T[i].addrs[12], i)
    requires Words(s) == Words(blk[T[i].addrs[12]])[w := b]
    ensures SlotSet(T, blk, T, blk[T[i].addrs[12] := s], i, 13 + w, b)
  {
    hide Words;
  }

  lemma WriteData(T: Table, blk: Disk, x: nat, s: Sector)
    requires TableOk(T) && |blk| == SIZE && x < SIZE
    requires forall j: nat :: j < NINODES ==> T[j].addrs[12] != x
    ensures SlotsSame(T, blk, T, blk[x := s])
  {
    hide Words;
  }

  /** A block in some other slot is nobody's indirect block. */
  lemma DataNotIndirect(T: Table, blk: Disk, n: nat, fb: nat, owner: seq<Slot>, i: nat, k: nat)
    requires OwnOk(T, blk, n, fb, owner) && i < NINODES && k < 141 && k != 12 && VRef(T, blk, i, k) != 0
    ensures forall j: nat :: j < NINODES ==> T[j].addrs[12] != VRef(T, blk, i, k)
  {
    hide Words, OwnersOk;
    forall j: nat | j < NINODES ensures T[j].addrs[12] != VRef(T, blk, i, k) {
      assert VRef(T, blk, j, 12) == T[j].addrs[12];
    }
  }

  lemma IndirectUnshared(T: Table, blk: Disk, n: nat, fb: nat, owner: seq<Slot>, i: nat)
    requires OwnOk(T, blk, n, fb, owner) && i < NINODES && T[i].addrs[12] != 0
    ensures START <= T[i].addrs[12] < SIZE && NotIndirect(T, T[i].addrs[12], i)
  {
    hide Words, OwnersOk;
    assert VRef(T, blk, i, 12) == T[i].addrs[12];
    forall j: nat | j < NINODES && j != i ensures T[j].addrs[12] != T[i].addrs[12] {
      assert VRef(T, blk, j, 12) == T[j].addrs[12];
    }
  }

  lemma ClaimHeld(T: Table, blk: Disk, T': Table, blk': Disk, n: nat, fb: nat, owner: seq<Slot>, i: nat, k: nat)
    requires TableOk(T) && |blk| == SIZE && START <= fb && |owner| == fb - START && HeldOk(T, blk, n, fb, owner)
    requires 1 <= i < n <= NINODES && k < 141
    requires TableOk(T') && |blk'| == SIZE && SlotSet(T, blk, T', blk', i, k, fb)
    ensures HeldOk(T', blk', n, fb + 1, owner + [Slot(i, k)])
  {
    hide VRef;
  }

  lemma ClaimOwners(T: Table, blk: Disk, T': Table, blk': Disk, owner: seq<Slot>, i: nat, k: nat)
    requires TableOk(T) && |blk| == SIZE && OwnersOk(T, blk, owner)
    requires i < NINODES && k < 141 && VRef(T, blk, i, k) == 0
    requires TableOk(T') && |blk'| == SIZE && SlotSet(T, blk, T', blk', i, k, START + |owner|)
    ensures OwnersOk(T', blk', owner + [Slot(i, k)])
  {
    hide VRef;
    var owner' := owner + [Slot(i, k)];
    forall b: nat | b < |owner'|
      ensures owner'[b].ino < NINODES && owner'[b].k < 141 && VRef(T', blk', owner'[b].ino, owner'[b].k) == START + b
    {
      if b < |owner| {
        assert owner'[b] == owner[b];
      }
    }
  }

  /** Giving the next free block to an empty slot keeps the correspondence. */
  lemma ClaimOwn(T: Table, blk: Disk, T': Table, blk': Disk, n: nat, fb: nat, owner: seq<Slot>, i: nat, k: nat)
    requires OwnOk(T, blk, n, fb, owner) && fb < SIZE && 1 <= i < n && k < 141 && VRef(T, blk, i, k) == 0
    requires TableOk(T') && |blk'| == SIZE && SlotSet(T, blk, T', blk', i, k, fb)
    ensures OwnOk(T', blk', n, fb + 1, owner + [Slot(i, k)])
  {
    hide VRef, HeldOk, OwnersOk;
    ClaimHeld(T, blk, T', blk', n, fb, owner, i, k);
    ClaimOwners(T, blk, T', blk', owner, i, k);
  }

  /* ---- growing a file by one block ---- */

  /** Slot l is needed by a file of len + 1 bytes but not by one of len bytes. */
  predicate NewlyNeeded(l: nat, len: nat) { Needed(l, len + 1) && !Needed(l, len) }

  /** Inode i gains the slots it needs for byte number len, filled with blocks from fb on. */
  ghost predicate SlotsGrow(T: Table, blk: Disk, T': Table, blk': Disk, i: nat, len: nat, fb: nat)
    requires TableOk(T) && TableOk(T') && |blk| == |blk'| == SIZE
  {
    forall j: nat, l: nat :: j < NINODES && l < 141 ==>
      if j == i && NewlyNeeded(l, len) then VRef(T', blk', j, l) >= fb
      else VRef(T', blk', j, l) == VRef(T, blk, j, l)
  }

  lemma BlockBeyond(data: seq<byte>, f: nat)
    requires |data| <= 512 * f
    ensures BlockOf(data, f) == ZeroSector()
  {}

  lemma GrowShape(T: Table, blk: Disk, T': Table, blk': Disk, lens: seq<nat>, fb: nat, i: nat)
    requires TableOk(T) && TableOk(T') && |blk| == |blk'| == SIZE && 1 <= i < |lens| <= NINODES && fb > 0
    requires ShapeOk(T, blk, lens) && SlotsGrow(T, blk, T', blk', i, lens[i], fb)
    ensures ShapeOk(T', blk', lens[i := lens[i] + 1])
  {
    hide VRef;
  }

  lemma GrowData(T: Table, blk: Disk, T': Table, blk': Disk, datas: seq<seq<byte>>, lens: seq<nat>,
                 fb: nat, fb': nat, owner': seq<Slot>, i: nat)
    requires TableOk(T) && TableOk(T') && |blk| == |blk'| == SIZE && 1 <= i < |lens| == |datas| <= NINODES
    requires ShapeOk(T, blk, lens) && DataOk(T, blk, datas, lens) && ZeroFrom(blk, fb)
    requires lens[i] == |datas[i]| && START <= fb <= fb' <= SIZE && |owner'| == fb' - START
    requires SlotsGrow(T, blk, T', blk', i, lens[i], fb) && HeldOk(T', blk', |lens|, fb', owner')
    requires forall b: nat :: b < SIZE && b != VRef(T', blk', i, 12) ==> blk'[b] == blk[b]
    ensures DataOk(T', blk', datas, lens[i := lens[i] + 1])
  {
    hide VRef, BlockOf, ZeroSector;
    var lens' := lens[i := lens[i] + 1];
    forall j: nat, f: nat | 1 <= j < |lens'| && f < 140 && Needed(SlotOf(f), lens'[j])
      ensures VRef(T', blk', j, SlotOf(f)) < SIZE && blk'[VRef(T', blk', j, SlotOf(f))] == BlockOf(datas[j], f)
    {
      var k := SlotOf(f);
      var b := VRef(T', blk', j, k);
      if j == i && NewlyNeeded(k, lens[i]) {
        BlockBeyond(datas[i], f);
      } else {
        assert b == VRef(T, blk, j, k) && b != 0;
      }
      assert b != VRef(T', blk', i, 12);
    }
  }

  lemma GrowLayout(T: Table, blk: Disk, T': Table, blk': Disk, datas: seq<seq<byte>>, lens: seq<nat>,
                   fb: nat, fb': nat, owner: seq<Slot>, owner': seq<Slot>, i: nat)
    requires LayoutOk(T, blk, datas, lens, fb, owner) && 1 <= i < |lens| && lens[i] == |datas[i]|
    requires OwnOk(T', blk', |lens|, fb', owner') && fb <= fb'
    requires SlotsGrow(T, blk, T', blk', i, lens[i], fb)
    requires forall b: nat :: b < SIZE && b != VRef(T', blk', i, 12) ==> blk'[b] == blk[b]
    ensures LayoutOk(T', blk', datas, lens[i := lens[i] + 1], fb', owner')
  {
    hide VRef, OwnersOk, DataOk, ShapeOk, ZeroSector;
    GrowShape(T, blk, T', blk', lens, fb, i);
    GrowData(T, blk, T', blk', datas, lens, fb, fb', owner', i);
  }

  /** First byte of a direct block. */
  lemma GrowDirect(T: Table, blk: Disk, datas: seq<seq<byte>>, lens: seq<nat>, fb: nat, owner: seq<Slot>,
                   i: nat, f: nat)
    requires LayoutOk(T, blk, datas, lens, fb, owner) && 1 <= i < |lens| && lens[i] == |datas[i]| == 512 * f
    requires f < 12 && fb < SIZE
    ensures T[i].addrs[f] == 0
    ensures LayoutOk(T[i := SetAddr(T[i], f, fb)], blk, datas, lens[i := lens[i] + 1], fb + 1, owner + [Slot(i, f)])
  {
    hide DataOk, ZeroSector, Words, HeldOk, OwnersOk, ShapeOk;
    var T' := T[i := SetAddr(T[i], f, fb)];
    SetDirect(T, blk, i, f, fb);
    ShapeOf(T, blk, datas, lens, fb, owner, i, f);
    ClaimOwn(T, blk, T', blk, |lens|, fb, owner, i, f);
    GrowLayout(T, blk, T', blk, datas, lens, fb, fb + 1, owner, owner + [Slot(i, f)], i);
  }

  /** First byte of an indirect block other than the first. */
  lemma GrowWord(T: Table, blk: Disk, datas: seq<seq<byte>>, lens: seq<nat>, fb: nat, owner: seq<Slot>,
                 i: nat, f: nat, s: Sector)
    requires LayoutOk(T, blk, datas, lens, fb, owner) && 1 <= i < |lens| && lens[i] == |datas[i]| == 512 * f
    requires 12 < f < 140 && fb < SIZE && START <= T[i].addrs[12] < SIZE
    requires Words(s) == Words(blk[T[i].addrs[12]])[f - 12 := fb]
    ensures LayoutOk(T, blk[T[i].addrs[12] := s], datas, lens[i := lens[i] + 1], fb + 1, owner + [Slot(i, f + 1)])
  {
    hide DataOk, ZeroSector, Words, HeldOk, OwnersOk, ShapeOk;
    var blk' := blk[T[i].addrs[12] := s];
    IndirectUnshared(T, blk, |lens|, fb, owner, i);
    SetWord(T, blk, i, f - 12, fb, s);
    ShapeOf(T, blk, datas, lens, fb, owner, i, f + 1);
    ClaimOwn(T, blk, T, blk', |lens|, fb, owner, i, f + 1);
    GrowLayout(T, blk, T, blk', datas, lens, fb, fb + 1, owner, owner + [Slot(i, f + 1)], i);
  }

  /** First byte past the direct blocks: the indirect block and its first word. */
  lemma GrowIndirect(T: Table, blk: Disk, datas: seq<seq<byte>>, lens: seq<nat>, fb: nat, owner: seq<Slot>,
                     i: nat, s: Sector)
    requires LayoutOk(T, blk, datas, lens, fb, owner) && 1 <= i < |lens| && lens[i] == |datas[i]| == 6144
    requires fb + 1 < SIZE && Words(s) == Words(blk[fb])[0 := fb + 1]
    ensures T[i].addrs[12] == 0
    ensures LayoutOk(T[i := SetAddr(T[i], 12, fb)], blk[fb := s], datas, lens[i := lens[i] + 1], fb + 2,
                     owner + [Slot(i, 12)] + [Slot(i, 13)])
  {
    hide DataOk, ZeroSector, Words, HeldOk, OwnersOk, ShapeOk;
    var T' := T[i := SetAddr(T[i], 12, fb)];
    var blk' := blk[fb := s];
    ShapeOf(T, blk, datas, lens, fb, owner, i, 12);
    ShapeOf(T, blk, datas, lens, fb, owner, i, 13);
    SetIndirect(T, blk, i, fb);
    ClaimOwn(T, blk, T', blk, |lens|, fb, owner, i, 12);
    IndirectUnshared(T', blk, |lens|, fb + 1, owner + [Slot(i, 12)], i);
    SetWord(T', blk, i, 0, fb + 1, s);
    assert VRef(T', blk, i, 13) == 0;
    ClaimOwn(T', blk, T', blk', |lens|, fb + 1, owner + [Slot(i, 12)], i, 13);
    GrowLayout(T, blk, T', blk', datas, lens, fb, fb + 2, owner, owner + [Slot(i, 12)] + [Slot(i, 13)], i);
  }

  /* ---- writing bytes into the last block ---- */

  lemma ChunkSector(data: seq<byte>, chunk: seq<byte>, f: nat, s: Sector)
    requires s == BlockOf(data, f) && 512 * f <= |data| && |data| + |chunk| <= 512 * (f + 1)
    ensures BlockOf(data + chunk, f) == s[..|data| - 512 * f] + chunk + s[|data| + |chunk| - 512 * f..]
  {}

  lemma EarlierBlock(data: seq<byte>, chunk: seq<byte>, f: nat)
    requires 512 * (f + 1) <= |data|
    ensures BlockOf(data + chunk, f) == BlockOf(data, f)
  {}

  lemma WriteChunk(T: Table, blk: Disk, datas: seq<seq<byte>>, lens: seq<nat>, fb: nat, owner: seq<Slot>,
                   i: nat, f: nat, chunk: seq<byte>)
    requires LayoutOk(T, blk, datas, lens, fb, owner) && 1 <= i < |lens| && f < 140
    requires 512 * f <= |datas[i]| && |datas[i]| + |chunk| <= 512 * (f + 1) && |chunk| > 0
    requires lens[i] == |datas[i]| || (lens[i] == |datas[i]| + 1 && |datas[i]| == 512 * f)
    requires Needed(SlotOf(f), lens[i])
    ensures VRef(T, blk, i, SlotOf(f)) < SIZE
    ensures blk[VRef(T, blk, i, SlotOf(f))] == BlockOf(datas[i], f)
    ensures LayoutOk(T, blk[VRef(T, blk, i, SlotOf(f)) := BlockOf(datas[i] + chunk, f)],
                     datas[i := datas[i] + chunk], lens[i := |datas[i]| + |chunk|], fb, owner)
  {
    hide Words, BlockOf, ZeroSector, OwnersOk;
    var x := VRef(T, blk, i, SlotOf(f));
    var blk' := blk[x := BlockOf(datas[i] + chunk, f)];
    DataNotIndirect(T, blk, |lens|, fb, owner, i, SlotOf(f));
    WriteData(T, blk, x, BlockOf(datas[i] + chunk, f));
    SameOwn(T, blk, T, blk', |lens|, fb, owner);
    WriteKeepsData(T, blk, datas, lens, fb, owner, i, f, chunk);
  }

  lemma SameOwn(T: Table, blk: Disk, T': Table, blk': Disk, n: nat, fb: nat, owner: seq<Slot>)
    requires OwnOk(T, blk, n, fb, owner) && TableOk(T') && |blk'| == SIZE && SlotsSame(T, blk, T', blk')
    ensures OwnOk(T', blk', n, fb, owner)
  {
    hide VRef, HeldOk, OwnersOk, SlotsSame;
    SameHeld(T, blk, T', blk', n, fb, owner);
    SameOwners(T, blk, T', blk', owner);
  }

  lemma SameHeld(T: Table, blk: Disk, T': Table, blk': Disk, n: nat, fb: nat, owner: seq<Slot>)
    requires TableOk(T) && |blk| == SIZE && |owner| == fb - START && HeldOk(T, blk, n, fb, owner)
    requires TableOk(T') && |blk'| == SIZE && SlotsSame(T, blk, T', blk')
    ensures HeldOk(T', blk', n, fb, owner)
  {
    hide VRef;
    forall i: nat, k: nat | i < NINODES && k < 141 && VRef(T', blk', i, k) != 0
      ensures 1 <= i < n && START <= VRef(T', blk', i, k) < fb && owner[VRef(T', blk', i, k) - START] == Slot(i, k)
    {
      assert VRef(T', blk', i, k) == VRef(T, blk, i, k);
    }
  }

  lemma SameOwners(T: Table, blk: Disk, T': Table, blk': Disk, owner: seq<Slot>)
    requires TableOk(T) && |blk| == SIZE && OwnersOk(T, blk, owner)
    requires TableOk(T') && |blk'| == SIZE && SlotsSame(T, blk, T', blk')
    ensures OwnersOk(T', blk', owner)
  {
    hide VRef;
    forall b: nat | b < |owner|
      ensures owner[b].ino < NINODES && owner[b].k < 141 && VRef(T', blk', owner[b].ino, owner[b].k) == START + b
    {
      assert VRef(T', blk', owner[b].ino, owner[b].k) == VRef(T, blk, owner[b].ino, owner[b].k);
    }
  }

  lemma WriteKeepsData(T: Table, blk: Disk, datas: seq<seq<byte>>, lens: seq<nat>, fb: nat, owner: seq<Slot>,
                       i: nat, f: nat, chunk: seq<byte>)
    requires LayoutOk(T, blk, datas, lens, fb, owner) && 1 <= i < |lens| && f < 140
    requires 512 * f <= |datas[i]| && |datas[i]| + |chunk| <= 512 * (f + 1) && |chunk| > 0
    requires lens[i] == |datas[i]| || (lens[i] == |datas[i]| + 1 && |datas[i]| == 512 * f)
    requires Needed(SlotOf(f), lens[i])
    requires VRef(T, blk, i, SlotOf(f)) < SIZE
    requires SlotsSame(T, blk, T, blk[VRef(T, blk, i, SlotOf(f)) := BlockOf(datas[i] + chunk, f)])
    ensures ShapeOk(T, blk[VRef(T, blk, i, SlotOf(f)) := BlockOf(datas[i] + chunk, f)], lens[i := |datas[i]| + |chunk|])
    ensures DataOk(T, blk[VRef(T, blk, i, SlotOf(f)) := BlockOf(datas[i] + chunk, f)],
                   datas[i := datas[i] + chunk], lens[i := |datas[i]| + |chunk|])
    ensures ZeroFrom(blk[VRef(T, blk, i, SlotOf(f)) := BlockOf(datas[i] + chunk, f)], fb)
  {
    hide VRef, BlockOf, ZeroSector, OwnersOk;
    var x := VRef(T, blk, i, SlotOf(f));
    var blk', datas', lens' :=
      blk[x := BlockOf(datas[i] + chunk, f)], datas[i := datas[i] + chunk], lens[i := |datas[i]| + |chunk|];
    forall k: nat ensures Needed(k, lens'[i]) <==> Needed(k, lens[i]) {}
    forall j: nat, g: nat | 1 <= j < |lens'| && g < 140 && Needed(SlotOf(g), lens'[j])
      ensures VRef(T, blk', j, SlotOf(g)) < SIZE && blk'[VRef(T, blk', j, SlotOf(g))] == BlockOf(datas'[j], g)
    {
      var b := VRef(T, blk, j, SlotOf(g));
      assert VRef(T, blk', j, SlotOf(g)) == b && b != 0;
      if j == i && g == f {
      } else {
        assert b != x;
        if j == i { EarlierBlock(datas[i], chunk, g); }
      }
    }
  }

  /* ---- changes that leave every slot alone ---- */

  /** New contents of the inode table and of blocks below START, with the same addresses, change no layout. */
  lemma SameLayout(T: Table, blk: Disk, T': Table, blk': Disk, datas: seq<seq<byte>>, lens: seq<nat>,
                   fb: nat, owner: seq<Slot>)
    requires LayoutOk(T, blk, datas, lens, fb, owner) && TableOk(T') && |blk'| == SIZE
    requires forall i :: 0 <= i < NINODES ==> T'[i].addrs == T[i].addrs
    requires forall b :: START <= b < SIZE ==> blk'[b] == blk[b]
    ensures LayoutOk(T', blk', datas, lens, fb, owner)
  {
    assert SlotsSame(T, blk, T', blk') by { hide Words; }
    hide VRef, BlockOf;
    SameOwn(T, blk, T', blk', |lens|, fb, owner);
    hide OwnOk, HeldOk, OwnersOk;
    forall j: nat, g: nat | 1 <= j < |lens| && g < 140 && Needed(SlotOf(g), lens[j])
      ensures VRef(T', blk', j, SlotOf(g)) < SIZE && blk'[VRef(T', blk', j, SlotOf(g))] == BlockOf(datas[j], g)
    {
      HeldInData(T, blk, |lens|, fb, owner, j, SlotOf(g));
      assert VRef(T, blk, j, SlotOf(g)) != 0;
    }
  }

  lemma ShapeOf(T: Table, blk: Disk, datas: seq<seq<byte>>, lens: seq<nat>, fb: nat, owner: seq<Slot>, i: nat, k: nat)
    requires LayoutOk(T, blk, datas, lens, fb, owner) && 1 <= i < |lens| && k < 141
    ensures VRef(T, blk, i, k) != 0 <==> Needed(k, lens[i])
  {
    hide VRef, OwnOk, DataOk, ZeroFrom;
  }

  /** The f-th block of inode i is where its slot says. */
  lemma DataAt(T: Table, blk: Disk, datas: seq<seq<byte>>, lens: seq<nat>, fb: nat, owner: seq<Slot>, i: nat, f: nat)
    requires LayoutOk(T, blk, datas, lens, fb, owner) && 1 <= i < |lens| && f < 140 && Needed(SlotOf(f), lens[i])
    ensures VRef(T, blk, i, SlotOf(f)) < SIZE && blk[VRef(T, blk, i, SlotOf(f))] == BlockOf(datas[i], f)
  {
    hide VRef, BlockOf, OwnOk, ShapeOk;
  }

  lemma HeldInData(T: Table, blk: Disk, n: nat, fb: nat, owner: seq<Slot>, i: nat, k: nat)
    requires OwnOk(T, blk, n, fb, owner) && i < NINODES && k < 141
    ensures VRef(T, blk, i, k) != 0 ==> START <= VRef(T, blk, i, k) < fb
  {
    hide VRef, OwnersOk;
  }

  /** A new inode without blocks. */
  lemma AllocLayout(T: Table, blk: Disk, datas: seq<seq<byte>>, lens: seq<nat>, fb: nat, owner: seq<Slot>)
    requires LayoutOk(T, blk, datas, lens, fb, owner) && |lens| < NINODES
    ensures LayoutOk(T, blk, datas + [[]], lens + [0], fb, owner)
  {
    hide VRef, BlockOf, OwnersOk;
    var n := |lens|;
    forall k: nat | k < 141 ensures VRef(T, blk, n, k) == 0 {}
    forall j: nat, g: nat | 1 <= j < n && g < 140 && Needed(SlotOf(g), (lens + [0])[j])
      ensures VRef(T, blk, j, SlotOf(g)) < SIZE && blk[VRef(T, blk, j, SlotOf(g))] == BlockOf((datas + [[]])[j], g)
    {
      assert Needed(SlotOf(g), lens[j]);
    }
  }
}
