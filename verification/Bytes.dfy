/** Little-endian encodings of the on-disk structures, and the decoded view of a raw disk. */
module Bytes {
  import opened Layout
  import opened FsImage

  function Le16(x: int): (r: seq<byte>)
    ensures |r| == 2
  {
    [x % 256, x / 256 % 256]
  }

  function Le32(x: nat): (r: seq<byte>)
    ensures |r| == 4
  {
    [x % 256, x / 256 % 256, x / 65536 % 256, x / 16777216 % 256]
  }

  function FromLe16(b: seq<byte>): nat
    requires |b| == 2
  {
    (b[0] as int) + 256 * (b[1] as int)
  }

  function FromLe32(b: seq<byte>): nat
    requires |b| == 4
  {
    (b[0] as int) + 256 * (b[1] as int) + 65536 * (b[2] as int) + 16777216 * (b[3] as int)
  }

  /** A C `short` read from two bytes. */
  function Short(b: seq<byte>): int
    requires |b| == 2
  {
    var u := FromLe16(b);
    if u >= 32768 then u - 65536 else u
  }

  lemma Le16Inverse(x: int)
    ensures 0 <= x < 65536 ==> FromLe16(Le16(x)) == x
    ensures -32768 <= x < 32768 ==> Short(Le16(x)) == x
  {
    assert x % 65536 == x % 256 + 256 * (x / 256 % 256);
  }

  lemma Le32Inverse(x: nat)
    requires x < 0x1_0000_0000
    ensures FromLe32(Le32(x)) == x
  {
    var a := x / 256;
    var b := a / 256;
    var c := b / 256;
    assert x / 65536 == b && x / 16777216 == c;
    assert x == x % 256 + 256 * a && a == a % 256 + 256 * b && b == b % 256 + 256 * c;
  }

  /* ---- arrays of 32-bit words ---- */

  function EncodeWords(ws: seq<nat>): (r: seq<byte>)
    ensures |r| == 4 * |ws|
  {
    seq(4 * |ws|, j requires 0 <= j < 4 * |ws| => Le32(ws[j / 4])[j % 4])
  }

  function DecodeWords(b: seq<byte>, n: nat): (r: seq<nat>)
    requires |b| == 4 * n
    ensures |r| == n
  {
    seq(n, k requires 0 <= k < n => FromLe32(b[4 * k..4 * k + 4]))
  }

  lemma WordsInverse(ws: seq<nat>)
    requires forall k :: 0 <= k < |ws| ==> ws[k] < 0x1_0000_0000
    ensures DecodeWords(EncodeWords(ws), |ws|) == ws
  {
    hide Le32, FromLe32, EncodeWords;
    var b := EncodeWords(ws);
    forall k | 0 <= k < |ws| ensures DecodeWords(b, |ws|)[k] == ws[k] {
      WordBytes(ws, k);
      Le32Inverse(ws[k]);
    }
  }

  lemma WordBytes(ws: seq<nat>, k: nat)
    requires k < |ws|
    ensures EncodeWords(ws)[4 * k..4 * k + 4] == Le32(ws[k])
  {
    hide Le32;
    var b := EncodeWords(ws);
    forall j | 0 <= j < 4 ensures b[4 * k..4 * k + 4][j] == Le32(ws[k])[j] {
      assert (4 * k + j) / 4 == k && (4 * k + j) % 4 == j;
    }
  }

  /* ---- inodes ---- */

  function ZeroInode(): Dinode { Dinode(0, 0, 0, 0, 0, seq(13, _ => 0)) }

  ghost predicate ValidInode(d: Dinode) {
    && -32768 <= d.kind < 32768 && -32768 <= d.major < 32768
    && -32768 <= d.minor < 32768 && -32768 <= d.nlink < 32768
    && d.size < 0x1_0000_0000 && |d.addrs| == 13
    && forall k :: 0 <= k < 13 ==> d.addrs[k] < 0x1_0000_0000
  }

  function EncodeInode(d: Dinode): (r: seq<byte>)
    requires |d.addrs| == 13
    ensures |r| == 64
  {
    Le16(d.kind) + Le16(d.major) + Le16(d.minor) + Le16(d.nlink) + Le32(d.size) + EncodeWords(d.addrs)
  }

  function DecodeInode(b: seq<byte>): (d: Dinode)
    requires |b| == 64
    ensures |d.addrs| == 13
  {
    Dinode(Short(b[0..2]), Short(b[2..4]), Short(b[4..6]), Short(b[6..8]), FromLe32(b[8..12]),
           DecodeWords(b[12..64], 13))
  }

  lemma InodeInverse(d: Dinode)
    requires ValidInode(d)
    ensures DecodeInode(EncodeInode(d)) == d
  {
    hide Le16, Le32, EncodeWords, FromLe16, FromLe32, DecodeWords, Short;
    var b := EncodeInode(d);
    assert b[0..2] == Le16(d.kind) && b[2..4] == Le16(d.major) && b[4..6] == Le16(d.minor);
    assert b[6..8] == Le16(d.nlink) && b[8..12] == Le32(d.size) && b[12..64] == EncodeWords(d.addrs);
    Le16Inverse(d.kind);
    Le16Inverse(d.major);
    Le16Inverse(d.minor);
    Le16Inverse(d.nlink);
    Le32Inverse(d.size);
    WordsInverse(d.addrs);
  }

  lemma ZeroWord(b: seq<byte>, k: nat)
    requires 4 * k + 4 <= |b| && forall j :: 0 <= j < |b| ==> b[j] == 0
    ensures FromLe32(b[4 * k..4 * k + 4]) == 0
  {
    var w := b[4 * k..4 * k + 4];
    assert forall j :: 0 <= j < 4 ==> w[j] == b[4 * k + j];
  }

  lemma ZeroBytesDecode(b: seq<byte>)
    requires |b| == 64 && forall j :: 0 <= j < 64 ==> b[j] == 0
    ensures DecodeInode(b) == ZeroInode()
  {
    forall k | 0 <= k < 13 ensures DecodeWords(b[12..64], 13)[k] == 0 {
      ZeroWord(b[12..64], k);
    }
  }

  /* ---- directory entries ---- */

  /** strncpy into a 14-byte field: cut at 14 bytes, padded with zeros. */
  function PadName(name: seq<byte>): (r: seq<byte>)
    ensures |r| == 14
  {
    seq(14, j requires 0 <= j < 14 => if j < |name| then name[j] else 0)
  }

  function EncodeDirent(d: Dirent): (r: seq<byte>)
    requires |d.name| == 14
    ensures |r| == 16
  {
    Le16(d.inum) + d.name
  }

  function DecodeDirent(b: seq<byte>): (d: Dirent)
    requires |b| == 16
    ensures |d.name| == 14
  {
    Dirent(FromLe16(b[0..2]), b[2..16])
  }

  /** A free entry. */
  function ZeroDirent(): Dirent { Dirent(0, seq(14, _ => 0)) }

  lemma DirentInverse(d: Dirent)
    requires |d.name| == 14 && d.inum < 65536
    ensures DecodeDirent(EncodeDirent(d)) == d
  {
    var b := EncodeDirent(d);
    assert b[0..2] == Le16(d.inum) && b[2..16] == d.name;
    Le16Inverse(d.inum);
  }

  /** A NUL-free name reads back as itself when it fits, else as its first 14 bytes. */
  lemma {:induction false} PadNameReads(name: seq<byte>)
    requires forall j :: 0 <= j < |name| ==> name[j] != 0
    ensures CStr(PadName(name)) == if |name| <= 14 then name else name[..14]
  {
    CStrPrefix(PadName(name), if |name| <= 14 then name else name[..14]);
  }

  lemma {:induction false} CStrPrefix(raw: seq<byte>, s: seq<byte>)
    requires s <= raw && (forall j :: 0 <= j < |s| ==> s[j] != 0)
    requires |s| == |raw| || raw[|s|] == 0
    ensures CStr(raw) == s
    decreases |s|
  {
    if s != [] {
      CStrPrefix(raw[1..], s[1..]);
      assert s == [s[0]] + s[1..];
    }
  }

  /* ---- bitmap bytes ---- */

  function Pow2(k: nat): nat
    requires k <= 8
  {
    [1, 2, 4, 8, 16, 32, 64, 128, 256][k]
  }

  predicate BitOf(x: byte, k: nat)
    requires k < 8
  {
    x / Pow2(k) % 2 == 1
  }

  /** x | (1 << k) */
  function SetBit(x: byte, k: nat): (r: nat)
    requires k < 8
  {
    if BitOf(x, k) then x else x + Pow2(k)
  }

  /** Setting the next bit of a run of low ones. */
  lemma OnesStep(k: nat)
    requires k < 8
    ensures SetBit(Pow2(k) - 1, k) == Pow2(k + 1) - 1
  {}

  lemma OnesBits(n: nat, k: nat)
    requires n <= 8 && k < 8
    ensures BitOf(Pow2(n) - 1, k) <==> k < n
  {}

  /* ---- raw disks ---- */

  type Disk = seq<Sector>

  function InodeBytes(disk: Disk, i: nat): (r: seq<byte>)
    requires InodeBlock(i) < |disk|
    ensures |r| == 64
  {
    disk[InodeBlock(i)][i % 8 * 64..i % 8 * 64 + 64]
  }

  function ReadInode(disk: Disk, i: nat): (d: Dinode)
    requires InodeBlock(i) < |disk|
    ensures |d.addrs| == 13
  {
    DecodeInode(InodeBytes(disk, i))
  }

  /** The block of inode i with the inode replaced. */
  function PatchInode(s: Sector, i: nat, d: Dinode): Sector
    requires |d.addrs| == 13
  {
    s[..i % 8 * 64] + EncodeInode(d) + s[i % 8 * 64 + 64..]
  }

  /** One 64-byte part of a sector replaced, and any part read. */
  lemma PatchedPart(s: Sector, a: nat, b: nat, part: seq<byte>)
    requires a < 8 && b < 8 && |part| == 64
    ensures (s[..a * 64] + part + s[a * 64 + 64..])[b * 64..b * 64 + 64] ==
            if a == b then part else s[b * 64..b * 64 + 64]
  {
    assert a < b ==> a * 64 + 64 <= b * 64;
    assert b < a ==> b * 64 + 64 <= a * 64;
  }

  /** A written inode reads back; its neighbours in the block are untouched. */
  lemma WriteReadInode(disk: Disk, i: nat, d: Dinode, j: nat)
    requires InodeBlock(i) < |disk| && InodeBlock(j) < |disk| && ValidInode(d)
    ensures ReadInode(disk[InodeBlock(i) := PatchInode(disk[InodeBlock(i)], i, d)], j) ==
            if i == j then d else ReadInode(disk, j)
  {
    hide DecodeInode, EncodeInode;
    InodeInverse(d);
    PatchedPart(disk[InodeBlock(i)], i % 8, j % 8, EncodeInode(d));
    assert InodeBlock(i) == InodeBlock(j) && i % 8 == j % 8 ==> i == j;
  }

  function Words(s: Sector): (r: seq<nat>)
    ensures |r| == 128
  {
    DecodeWords(s, 128)
  }

  lemma ZeroWords(s: Sector)
    requires s == ZeroSector()
    ensures forall k :: 0 <= k < 128 ==> Words(s)[k] == 0
  {
    hide FromLe32;
    forall k | 0 <= k < 128 ensures Words(s)[k] == 0 { ZeroWord(s, k); }
  }

  function Dirents(s: Sector): (r: seq<Dirent>)
    ensures |r| == 32
  {
    seq(32, e requires 0 <= e < 32 => DecodeDirent(s[16 * e..16 * e + 16]))
  }

  /** bit_is_used: the allocation bit of block b. */
  function BitmapBit(disk: Disk, ninodes: nat, b: nat): bool
    requires BitmapBlock(b, ninodes) < |disk|
  {
    BitOf(disk[BitmapBlock(b, ninodes)][b % 4096 / 8], b % 8)
  }

  ghost predicate Decodable(disk: Disk) {
    && |disk| >= 2
    && |disk| == FromLe32(disk[1][0..4])
    && InodeBlock(FromLe32(disk[1][8..12])) < |disk|
    && BitmapBlock(|disk|, FromLe32(disk[1][8..12])) < |disk|
  }

  /** What myfsck and lsfs see when they map the image. */
  function Decode(disk: Disk): (img: Image)
    requires Decodable(disk)
    ensures WellFormed(img)
  {
    var size, nblocks, ninodes := FromLe32(disk[1][0..4]), FromLe32(disk[1][4..8]), FromLe32(disk[1][8..12]);
    Image(size, nblocks, ninodes,
          seq(8 * (ninodes / 8 + 1), i requires 0 <= i < 8 * (ninodes / 8 + 1) => ReadInode(disk, i)),
          seq(size, b requires 0 <= b < size => Words(disk[b])),
          seq(size, b requires 0 <= b < size => Dirents(disk[b])),
          seq(size, b requires 0 <= b < size => BitmapBit(disk, ninodes, b)))
  }
}
