/** On-disk layout and address arithmetic of the file system (fs.h, stat.h). Blocks
    are 512 bytes: 8 inodes, 128 words or 32 directory entries. An inode has 12
    direct slots and one indirect block, hence at most 140 data blocks. */
module Layout {

  /** Root inode number. */
  const ROOTINO: nat := 1
  const T_FREE: int := 0
  const T_DIR: int := 1
  const T_FILE: int := 2
  const T_DEV: int := 3

  type byte = x: int | 0 <= x < 256

  /** A disk block. */
  type Sector = s: seq<byte> | |s| == 512 witness seq(512, _ => 0)

  function ZeroSector(): Sector { seq(512, _ => 0) }

  const DOT: seq<byte> := [46]
  const DOTDOT: seq<byte> := [46, 46]

  /** Block that holds inode i. */
  function InodeBlock(i: nat): nat { i / 8 + 2 }

  /** Block that holds the bitmap bit of block b. */
  function BitmapBlock(b: nat, ninodes: nat): nat { b / 4096 + ninodes / 8 + 3 }

  /** First data block of an image of `size` blocks and `ninodes` inodes. */
  function DataStart(size: nat, ninodes: nat): nat {
    (ninodes / 8 + 1) + (size / 4096 + 1) + 2
  }

  /** The regions of an image adjoin: inode blocks, then bitmap blocks, then data blocks. */
  lemma RegionsAdjoin(size: nat, ninodes: nat)
    ensures InodeBlock(0) == 2 && BitmapBlock(0, ninodes) == InodeBlock(ninodes) + 1
    ensures DataStart(size, ninodes) == BitmapBlock(size, ninodes) + 1
  {}

  /** The C string held in a fixed-width name field. */
  function CStr(raw: seq<byte>): seq<byte> {
    if raw == [] || raw[0] == 0 then [] else [raw[0]] + CStr(raw[1..])
  }
}
