/** The on-disk constants and packed records of MiniVSFS: the superblock, the inode and the
    directory entry, each with a little-endian serializer and parser. */
module Format {
  import opened Wire
  import opened Codec

  const BS: nat := 4096
  const INODE_SIZE: nat := 128
  const ROOT_INO: nat := 1
  const DIRECT_MAX: nat := 12
  const MAGIC_NUMBER: u32 := 0x4D565346
  const VERSION: u32 := 1
  const PROJ_ID: u32 := 7

  const FILE_TYPE_REGULAR: byte := 1
  const FILE_TYPE_DIRECTORY: byte := 2

  /** The C octal constants 0100000 and 0040000. */
  const MODE_FILE: u16 := 0x8000
  const MODE_DIR: u16 := 0x4000

  const MIN_SIZE_KIB: nat := 180
  const MAX_SIZE_KIB: nat := 4096
  const MIN_INODES: nat := 128
  const MAX_INODES: nat := 512

  const SUPERBLOCK_SIZE: nat := 116
  const DIRENT_SIZE: nat := 64
  const NAME_LEN: nat := 58

  /** Inodes per inode-table block and entries per directory block. */
  const INODES_PER_BLOCK: nat := BS / INODE_SIZE
  const DIRENTS_PER_BLOCK: nat := BS / DIRENT_SIZE

  /** 32 inodes fill a block exactly, and so do 64 directory entries. */
  lemma PerBlockCounts()
    ensures INODES_PER_BLOCK == 32 && INODES_PER_BLOCK * INODE_SIZE == BS
    ensures DIRENTS_PER_BLOCK == 64 && DIRENTS_PER_BLOCK * DIRENT_SIZE == BS
  {
  }

  /* ---------------------------------------------------------------- superblock */

  datatype Superblock = Superblock(
    magic: u32, version: u32, blockSize: u32,
    totalBlocks: u64, inodeCount: u64,
    inodeBitmapStart: u64, inodeBitmapBlocks: u64,
    dataBitmapStart: u64, dataBitmapBlocks: u64,
    inodeTableStart: u64, inodeTableBlocks: u64,
    dataRegionStart: u64, dataRegionBlocks: u64,
    rootInode: u64, mtimeEpoch: u64, flags: u32,
    checksum: u32)

  /** Byte offset of each superblock field; the checksum is the last one. */
  const SB_OFFSETS: seq<nat> := [0, 4, 8, 12, 20, 28, 36, 44, 52, 60, 68, 76, 84, 92, 100, 108, 112, 116]

  lemma SuperblockLayout()
    ensures IsLayout(SB_OFFSETS) && |SB_OFFSETS| == 18 && SB_OFFSETS[17] == SUPERBLOCK_SIZE
    ensures SB_OFFSETS[16] == 112
  {
  }

  function SuperblockValues(sb: Superblock): seq<nat>
  {
    [sb.magic, sb.version, sb.blockSize, sb.totalBlocks, sb.inodeCount, sb.inodeBitmapStart,
     sb.inodeBitmapBlocks, sb.dataBitmapStart, sb.dataBitmapBlocks, sb.inodeTableStart,
     sb.inodeTableBlocks, sb.dataRegionStart, sb.dataRegionBlocks, sb.rootInode, sb.mtimeEpoch,
     sb.flags, sb.checksum]
  }

  lemma SuperblockFits(sb: Superblock)
    ensures IsLayout(SB_OFFSETS) && FitsLayout(SuperblockValues(sb), SB_OFFSETS)
  {
    SuperblockLayout();
    Pow256Values();
    var v := SuperblockValues(sb);
    forall i | 0 <= i < 17
      ensures v[i] < Pow256(Width(SB_OFFSETS, i))
    {
      if i <= 2 || i >= 15 {
        assert Width(SB_OFFSETS, i) == 4;
      } else {
        assert Width(SB_OFFSETS, i) == 8;
      }
    }
  }

  function SerializeSuperblock(sb: Superblock): (r: seq<byte>)
    ensures |r| == SUPERBLOCK_SIZE
  {
    SuperblockLayout();
    Encode(SuperblockValues(sb), SB_OFFSETS)
  }

  function ParseSuperblock(s: seq<byte>): Superblock
    requires |s| == SUPERBLOCK_SIZE
  {
    SuperblockLayout();
    Superblock(U32Field(s, SB_OFFSETS, 0), U32Field(s, SB_OFFSETS, 1), U32Field(s, SB_OFFSETS, 2),
      U64Field(s, SB_OFFSETS, 3), U64Field(s, SB_OFFSETS, 4), U64Field(s, SB_OFFSETS, 5),
      U64Field(s, SB_OFFSETS, 6), U64Field(s, SB_OFFSETS, 7), U64Field(s, SB_OFFSETS, 8),
      U64Field(s, SB_OFFSETS, 9), U64Field(s, SB_OFFSETS, 10), U64Field(s, SB_OFFSETS, 11),
      U64Field(s, SB_OFFSETS, 12), U64Field(s, SB_OFFSETS, 13), U64Field(s, SB_OFFSETS, 14),
      U32Field(s, SB_OFFSETS, 15), U32Field(s, SB_OFFSETS, 16))
  }

  lemma SuperblockParseSerialize(sb: Superblock)
    ensures ParseSuperblock(SerializeSuperblock(sb)) == sb
  {
    SuperblockFits(sb);
    DecodeEncode(SuperblockValues(sb), SB_OFFSETS);
  }

  lemma SuperblockSerializeParse(s: seq<byte>)
    requires |s| == SUPERBLOCK_SIZE
    ensures SerializeSuperblock(ParseSuperblock(s)) == s
  {
    SuperblockLayout();
    EncodeDecode(s, SB_OFFSETS);
    SuperblockValuesParse(s);
  }

  lemma SuperblockValuesParse(s: seq<byte>)
    requires |s| == SUPERBLOCK_SIZE
    ensures IsLayout(SB_OFFSETS) && SuperblockValues(ParseSuperblock(s)) == Decode(s, SB_OFFSETS)
  {
    SuperblockLayout();
    var v, d := SuperblockValues(ParseSuperblock(s)), Decode(s, SB_OFFSETS);
    forall i | 0 <= i < 17
      ensures v[i] == d[i]
    {
    }
  }

  /** The magic number is the first four bytes of the serialized superblock. */
  lemma SuperblockMagicFirst(sb: Superblock)
    ensures SerializeSuperblock(sb)[..4] == LE(sb.magic, 4)
  {
    SuperblockLayout();
    EncodeSlice(SuperblockValues(sb), SB_OFFSETS, 0);
  }

  /** The checksum is the last field, at [112, 116), and the bytes before it do not depend on it. */
  lemma SuperblockChecksumLast(sb: Superblock)
    ensures SerializeSuperblock(sb) == SerializeSuperblock(sb.(checksum := 0))[..112] + LE(sb.checksum, 4)
  {
    SuperblockLayout();
    var v := SuperblockValues(sb);
    var z := SuperblockValues(sb.(checksum := 0));
    assert v[..16] == z[..16];
    EncodeUpToPrefix(v, z, SB_OFFSETS, 16);
    EncodePrefix(z, SB_OFFSETS, 16, 17);
  }

  /* ---------------------------------------------------------------- inode */

  /** The twelve direct block pointers of an inode. */
  type DirectBlocks = d: seq<u32> | |d| == DIRECT_MAX witness seq(12, _ => 0)

  datatype Inode = Inode(
    mode: u16, links: u16, uid: u32, gid: u32,
    sizeBytes: u64, atime: u64, mtime: u64, ctime: u64,
    direct: DirectBlocks,
    reserved0: u32, reserved1: u32, reserved2: u32,
    projId: u32, uid16Gid16: u32, xattrPtr: u64,
    inodeCrc: u64)

  /** An inode is serialized in three packed parts: the header fields at [0, 44), the direct
      pointers at [44, 92) and the trailing fields at [92, 128), the CRC last. These are the
      byte offsets of the header fields and of the trailing fields relative to byte 92. */
  const INODE_HEAD_OFFSETS: seq<nat> := [0, 2, 4, 8, 12, 20, 28, 36, 44]
  const INODE_TAIL_OFFSETS: seq<nat> := [0, 4, 8, 12, 16, 20, 28, 36]

  /** Offsets of n consecutive four-byte fields. */
  function U32Array(n: nat): (r: seq<nat>)
    ensures |r| == n + 1 && IsLayout(r) && r[n] == 4 * n
    ensures forall k :: 0 <= k < n ==> Width(r, k) == 4
  {
    seq(n + 1, i => 4 * i)
  }

  lemma InodeLayout()
    ensures IsLayout(INODE_HEAD_OFFSETS) && |INODE_HEAD_OFFSETS| == 9 && INODE_HEAD_OFFSETS[8] == 44
    ensures IsLayout(INODE_TAIL_OFFSETS) && |INODE_TAIL_OFFSETS| == 8 && INODE_TAIL_OFFSETS[7] == 36
    ensures INODE_TAIL_OFFSETS[6] == 28
  {
  }

  function InodeHead(ino: Inode): seq<nat>
  {
    [ino.mode, ino.links, ino.uid, ino.gid, ino.sizeBytes, ino.atime, ino.mtime, ino.ctime]
  }

  function InodeDirect(ino: Inode): (r: seq<nat>)
    ensures |r| == DIRECT_MAX && forall k :: 0 <= k < DIRECT_MAX ==> r[k] == ino.direct[k]
  {
    var r: seq<nat> := ino.direct;
    r
  }

  function InodeTail(ino: Inode): seq<nat>
  {
    [ino.reserved0, ino.reserved1, ino.reserved2, ino.projId, ino.uid16Gid16, ino.xattrPtr, ino.inodeCrc]
  }

  lemma InodeFits(ino: Inode)
    ensures IsLayout(INODE_HEAD_OFFSETS) && FitsLayout(InodeHead(ino), INODE_HEAD_OFFSETS)
    ensures FitsLayout(InodeDirect(ino), U32Array(DIRECT_MAX))
    ensures IsLayout(INODE_TAIL_OFFSETS) && FitsLayout(InodeTail(ino), INODE_TAIL_OFFSETS)
  {
    InodeHeadFits(ino);
    InodeDirectFits(ino);
    InodeTailFits(ino);
  }

  lemma InodeHeadFits(ino: Inode)
    ensures IsLayout(INODE_HEAD_OFFSETS) && FitsLayout(InodeHead(ino), INODE_HEAD_OFFSETS)
  {
    InodeLayout();
    Pow256Values();
  }

  lemma InodeDirectFits(ino: Inode)
    ensures FitsLayout(InodeDirect(ino), U32Array(DIRECT_MAX))
  {
    Pow256Values();
  }

  lemma InodeTailFits(ino: Inode)
    ensures IsLayout(INODE_TAIL_OFFSETS) && FitsLayout(InodeTail(ino), INODE_TAIL_OFFSETS)
  {
    InodeLayout();
    Pow256Values();
  }

  function SerializeInode(ino: Inode): (r: seq<byte>)
    ensures |r| == INODE_SIZE
  {
    InodeLayout();
    Encode(InodeHead(ino), INODE_HEAD_OFFSETS)
    + Encode(InodeDirect(ino), U32Array(DIRECT_MAX))
    + Encode(InodeTail(ino), INODE_TAIL_OFFSETS)
  }

  function ParseDirect(s: seq<byte>): (r: DirectBlocks)
    requires |s| == 4 * DIRECT_MAX
    ensures forall k :: 0 <= k < DIRECT_MAX ==> r[k] == Decode(s, U32Array(DIRECT_MAX))[k]
  {
    seq(DIRECT_MAX, k requires 0 <= k < DIRECT_MAX => U32Field(s, U32Array(DIRECT_MAX), k))
  }

  function ParseInode(s: seq<byte>): Inode
    requires |s| == INODE_SIZE
  {
    InodeLayout();
    var h := s[..44];
    var t := s[92..];
    Inode(U16Field(h, INODE_HEAD_OFFSETS, 0), U16Field(h, INODE_HEAD_OFFSETS, 1),
      U32Field(h, INODE_HEAD_OFFSETS, 2), U32Field(h, INODE_HEAD_OFFSETS, 3),
      U64Field(h, INODE_HEAD_OFFSETS, 4), U64Field(h, INODE_HEAD_OFFSETS, 5),
      U64Field(h, INODE_HEAD_OFFSETS, 6), U64Field(h, INODE_HEAD_OFFSETS, 7),
      ParseDirect(s[44..92]),
      U32Field(t, INODE_TAIL_OFFSETS, 0), U32Field(t, INODE_TAIL_OFFSETS, 1),
      U32Field(t, INODE_TAIL_OFFSETS, 2), U32Field(t, INODE_TAIL_OFFSETS, 3),
      U32Field(t, INODE_TAIL_OFFSETS, 4), U64Field(t, INODE_TAIL_OFFSETS, 5),
      U64Field(t, INODE_TAIL_OFFSETS, 6))
  }

  lemma InodeParseSerialize(ino: Inode)
    ensures ParseInode(SerializeInode(ino)) == ino
  {
    InodeFits(ino);
    var h := Encode(InodeHead(ino), INODE_HEAD_OFFSETS);
    var d := Encode(InodeDirect(ino), U32Array(DIRECT_MAX));
    var t := Encode(InodeTail(ino), INODE_TAIL_OFFSETS);
    var s := SerializeInode(ino);
    PartsOfThree(h, d, t);
    DecodeEncode(InodeHead(ino), INODE_HEAD_OFFSETS);
    DecodeEncode(InodeDirect(ino), U32Array(DIRECT_MAX));
    DecodeEncode(InodeTail(ino), INODE_TAIL_OFFSETS);
    InodePartsParse(s);
    var p := ParseInode(s);
    assert InodeHead(p) == InodeHead(ino) && InodeTail(p) == InodeTail(ino);
    assert p.direct == ino.direct;
  }

  lemma InodeSerializeParse(s: seq<byte>)
    requires |s| == INODE_SIZE
    ensures SerializeInode(ParseInode(s)) == s
  {
    InodeLayout();
    EncodeDecode(s[..44], INODE_HEAD_OFFSETS);
    EncodeDecode(s[44..92], U32Array(DIRECT_MAX));
    EncodeDecode(s[92..], INODE_TAIL_OFFSETS);
    InodePartsParse(s);
    SplitThree(s, 44, 92);
  }

  lemma InodePartsParse(s: seq<byte>)
    requires |s| == INODE_SIZE
    ensures IsLayout(INODE_HEAD_OFFSETS) && IsLayout(INODE_TAIL_OFFSETS)
    ensures InodeHead(ParseInode(s)) == Decode(s[..44], INODE_HEAD_OFFSETS)
    ensures InodeDirect(ParseInode(s)) == Decode(s[44..92], U32Array(DIRECT_MAX))
    ensures InodeTail(ParseInode(s)) == Decode(s[92..], INODE_TAIL_OFFSETS)
  {
    InodeLayout();
  }

  /** The CRC occupies the last eight bytes, [120, 128), and the bytes before it do not depend on it. */
  lemma InodeCrcLast(ino: Inode)
    ensures SerializeInode(ino) == SerializeInode(ino.(inodeCrc := 0))[..120] + LE(ino.inodeCrc, 8)
  {
    InodeLayout();
    var z := ino.(inodeCrc := 0);
    var v := InodeTail(ino);
    var w := InodeTail(z);
    assert v[..6] == w[..6];
    EncodeUpToPrefix(v, w, INODE_TAIL_OFFSETS, 6);
    EncodePrefix(w, INODE_TAIL_OFFSETS, 6, 7);
    assert InodeHead(ino) == InodeHead(z) && InodeDirect(ino) == InodeDirect(z);
  }

  /** Direct pointer k is stored at byte 44 + 4k. */
  lemma InodeDirectAt(ino: Inode, k: nat)
    requires k < DIRECT_MAX
    ensures SerializeInode(ino)[44 + 4 * k .. 48 + 4 * k] == LE(ino.direct[k], 4)
  {
    InodeLayout();
    var d := Encode(InodeDirect(ino), U32Array(DIRECT_MAX));
    EncodeSlice(InodeDirect(ino), U32Array(DIRECT_MAX), k);
    assert SerializeInode(ino)[44 + 4 * k .. 48 + 4 * k] == d[4 * k .. 4 * k + 4];
  }

  /* ---------------------------------------------------------------- directory entry */

  /** The fixed 58-byte name field of a directory entry. */
  type NameField = n: seq<byte> | |n| == NAME_LEN witness Zeros(58)

  datatype Dirent = Dirent(inodeNo: u32, fileType: byte, name: NameField, checksum: byte)

  function SerializeDirent(d: Dirent): (r: seq<byte>)
    ensures |r| == DIRENT_SIZE
    ensures r[..4] == LE(d.inodeNo, 4) && r[4] == d.fileType && r[5..63] == d.name && r[63] == d.checksum
  {
    LE(d.inodeNo, 4) + [d.fileType] + d.name + [d.checksum]
  }

  function ParseDirent(s: seq<byte>): Dirent
    requires |s| == DIRENT_SIZE
  {
    LEDec(s[..4]);
    Pow256Values();
    Dirent(Dec(s[..4]), s[4], s[5..63], s[63])
  }

  lemma DirentParseSerialize(d: Dirent)
    ensures ParseDirent(SerializeDirent(d)) == d
  {
    Pow256Values();
    DecLE(d.inodeNo, 4);
  }

  lemma DirentSerializeParse(s: seq<byte>)
    requires |s| == DIRENT_SIZE
    ensures SerializeDirent(ParseDirent(s)) == s
  {
    LEDec(s[..4]);
    assert s == s[..4] + [s[4]] + s[5..63] + [s[63]];
  }
}
