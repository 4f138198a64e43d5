/** `mkfs_builder`: the numeric argument checks, the layout arithmetic, the initial records and
    the order in which a fresh image is written out block by block. */
module Builder {
  import opened Wire
  import opened Crc
  import opened Format
  import opened Finalize
  import opened Bitmap
  import opened Paths

  datatype BuildError =
    | SizeOutOfRange      // --size-kib outside [180, 4096]
    | InodesOutOfRange    // --inodes outside [128, 512]
    | SizeNotAligned      // --size-kib not a multiple of 4
    | TooManyInodes       // more inodes than total_blocks * 32
    | NoDataRegion        // the layout leaves no block for the data region

  /* ---------------------------------------------------------------- arguments */

  /** `size_kib * 1024 / BS`, where the product is taken in 32-bit unsigned arithmetic. */
  function TotalBlocks(sizeKib: u32): (r: nat)
    ensures sizeKib <= MAX_SIZE_KIB ==> r == sizeKib / 4
  {
    ((sizeKib * 1024) % 0x1_0000_0000) / BS
  }

  /** The numeric checks of `parse_cli_args`, in the order it makes them. Accepted arguments
      describe an image of 45 to 1024 blocks. */
  function CheckArgs(sizeKib: u32, inodeCount: u32): (r: Option<BuildError>)
    ensures r.None? ==> 45 <= TotalBlocks(sizeKib) <= 1024 && TotalBlocks(sizeKib) * BS == sizeKib * 1024
  {
    if sizeKib < MIN_SIZE_KIB || sizeKib > MAX_SIZE_KIB then Some(SizeOutOfRange)
    else if inodeCount < MIN_INODES || inodeCount > MAX_INODES then Some(InodesOutOfRange)
    else if sizeKib % 4 != 0 then Some(SizeNotAligned)
    else if inodeCount > TotalBlocks(sizeKib) * INODES_PER_BLOCK then Some(TooManyInodes)
    else None
  }

  /** The arguments accepted are exactly the aligned sizes in range with an inode count in range;
      in particular the "too many inodes" check can never fire, since the smallest image has
      45 blocks, room for 1440 inodes. */
  lemma CheckArgsAccepts(sizeKib: u32, inodeCount: u32)
    ensures CheckArgs(sizeKib, inodeCount) == None <==>
      MIN_SIZE_KIB <= sizeKib <= MAX_SIZE_KIB && sizeKib % 4 == 0 &&
      MIN_INODES <= inodeCount <= MAX_INODES
    ensures CheckArgs(sizeKib, inodeCount) != Some(TooManyInodes)
  {
    if MIN_SIZE_KIB <= sizeKib <= MAX_SIZE_KIB {
      assert TotalBlocks(sizeKib) >= 45;
    }
  }

  /* ---------------------------------------------------------------- layout */

  /** `fs_layout_t`. */
  datatype Layout = Layout(
    totalBlocks: u64, inodeTableBlocks: u64, dataRegionBlocks: u64,
    superblockStart: u64, inodeBitmapStart: u64, dataBitmapStart: u64,
    inodeTableStart: u64, dataRegionStart: u64)

  /** `(inode_count + 31) / 32` in 32-bit unsigned arithmetic. */
  function TableBlocks(inodeCount: u32): (r: nat)
    ensures r < 0x800_0000
  {
    ((inodeCount + INODES_PER_BLOCK - 1) % 0x1_0000_0000) / INODES_PER_BLOCK
  }

  /** `calculate_layout` as written: the data region size is an unsigned 64-bit difference, so a
      data region start beyond the end of the image wraps around instead of going negative, and
      the `<= 0` test only catches a difference of exactly zero. */
  function CalculateLayoutAsWritten(sizeKib: u32, inodeCount: u32): (r: Result<Layout, BuildError>)
    ensures r.Failure? <==> TotalBlocks(sizeKib) == 3 + TableBlocks(inodeCount)
    ensures r.Failure? ==> r.error == NoDataRegion
    ensures r.Success? ==>
      r.value.dataRegionStart == 3 + r.value.inodeTableBlocks &&
      (r.value.dataRegionStart + r.value.dataRegionBlocks == r.value.totalBlocks <==>
       TotalBlocks(sizeKib) > 3 + TableBlocks(inodeCount))
  {
    var total := TotalBlocks(sizeKib);
    var itb := TableBlocks(inodeCount);
    var drs := 3 + itb;
    var drb := (total - drs) % 0x1_0000_0000_0000_0000;
    if drb == 0 then Failure(NoDataRegion)
    else Success(Layout(total, itb, drb, 0, 1, 2, 3, drs))
  }

  /** `calculate_layout` with the evidently intended test: there must be at least one block
      after the inode table. */
  function CalculateLayout(sizeKib: u32, inodeCount: u32): (r: Result<Layout, BuildError>)
    ensures r.Failure? ==> r.error == NoDataRegion
    ensures r.Success? ==>
      r.value.dataRegionBlocks >= 1 &&
      r.value.dataRegionStart + r.value.dataRegionBlocks == r.value.totalBlocks == TotalBlocks(sizeKib)
  {
    var total := TotalBlocks(sizeKib);
    var itb := TableBlocks(inodeCount);
    var drs := 3 + itb;
    if total <= drs then Failure(NoDataRegion)
    else Success(Layout(total, itb, total - drs, 0, 1, 2, 3, drs))
  }

  /** The layout rules: the superblock, the two one-block bitmaps and the inode table come first,
      the table holds every inode in the fewest whole blocks, and the data region fills the rest
      of the image with at least one block; the layout fails exactly when no block would be left. */
  lemma LayoutRules(sizeKib: u32, inodeCount: u32)
    ensures CalculateLayout(sizeKib, inodeCount).Failure? <==>
      TotalBlocks(sizeKib) <= 3 + TableBlocks(inodeCount)
    ensures CalculateLayout(sizeKib, inodeCount).Success? ==>
      var l := CalculateLayout(sizeKib, inodeCount).value;
      l.totalBlocks == TotalBlocks(sizeKib) &&
      l.superblockStart == 0 && l.inodeBitmapStart == 1 && l.dataBitmapStart == 2 &&
      l.inodeTableStart == 3 && l.dataRegionStart == l.inodeTableStart + l.inodeTableBlocks &&
      l.dataRegionBlocks >= 1 && l.dataRegionStart + l.dataRegionBlocks == l.totalBlocks &&
      (inodeCount + 31 < 0x1_0000_0000 ==>
        l.inodeTableBlocks == (inodeCount + INODES_PER_BLOCK - 1) / INODES_PER_BLOCK &&
        l.inodeTableBlocks * INODES_PER_BLOCK >= inodeCount &&
        (l.inodeTableBlocks - 1) * INODES_PER_BLOCK < inodeCount)
  {
  }

  /** With arguments `parse_cli_args` accepts, the data region never wraps and the code as
      written computes the intended layout, which always succeeds. */
  lemma LayoutAsWrittenAgrees(sizeKib: u32, inodeCount: u32)
    requires CheckArgs(sizeKib, inodeCount) == None
    ensures CalculateLayoutAsWritten(sizeKib, inodeCount) == CalculateLayout(sizeKib, inodeCount)
    ensures CalculateLayout(sizeKib, inodeCount).Success?
  {
    var total, itb := TotalBlocks(sizeKib), TableBlocks(inodeCount);
    assert total == sizeKib / 4 >= 45;
    assert itb == (inodeCount + 31) / 32 <= 16;
    assert (total - (3 + itb)) % 0x1_0000_0000_0000_0000 == total - (3 + itb);
  }

  /** A 4 KiB image with 128 inodes has one block but needs seven before its data region: the
      code as written accepts it with a data region of 2^64 - 6 blocks. */
  lemma LayoutWrapExample()
    ensures CalculateLayoutAsWritten(4, 128).Success?
    ensures CalculateLayoutAsWritten(4, 128).value.dataRegionBlocks == 0x1_0000_0000_0000_0000 - 6
    ensures CalculateLayout(4, 128) == Failure(NoDataRegion)
  {
    WrapExampleSizes();
    assert CalculateLayoutAsWritten(4, 128) == Success(Layout(1, 4, 0x1_0000_0000_0000_0000 - 6, 0, 1, 2, 3, 7));
  }

  lemma WrapExampleSizes()
    ensures TotalBlocks(4) == 1 && TableBlocks(128) == 4
    ensures (1 - 7) % 0x1_0000_0000_0000_0000 == 0x1_0000_0000_0000_0000 - 6
  {
  }

  /* ---------------------------------------------------------------- initial records */

  /** The superblock `create_superblock` writes, before its checksum is stamped. */
  function InitialSuperblock(inodeCount: u32, l: Layout, now: u64): Superblock
  {
    Superblock(
      magic := MAGIC_NUMBER, version := VERSION, blockSize := BS,
      totalBlocks := l.totalBlocks, inodeCount := inodeCount,
      inodeBitmapStart := l.inodeBitmapStart, inodeBitmapBlocks := 1,
      dataBitmapStart := l.dataBitmapStart, dataBitmapBlocks := 1,
      inodeTableStart := l.inodeTableStart, inodeTableBlocks := l.inodeTableBlocks,
      dataRegionStart := l.dataRegionStart, dataRegionBlocks := l.dataRegionBlocks,
      rootInode := ROOT_INO, mtimeEpoch := now, flags := 0, checksum := 0)
  }

  function RootSuperblock(inodeCount: u32, l: Layout, now: u64): Superblock
  {
    var sb := InitialSuperblock(inodeCount, l, now);
    sb.(checksum := SuperblockCrc(sb))
  }

  /** `create_superblock`: the fields taken from the layout and the constants, then the CRC. */
  method CreateSuperblock(tab: array<nat>, inodeCount: u32, l: Layout, now: u64) returns (sb: Superblock)
    requires IsCrcTable(tab)
    ensures sb == RootSuperblock(inodeCount, l, now)
  {
    sb := InitialSuperblock(inodeCount, l, now);
    var s;
    sb, s := SuperblockCrcFinalize(tab, sb);
  }

  /** The new superblock carries the magic, version 1, 4096-byte blocks, one block per bitmap, the
      layout's region fields, root inode 1, no flags and a valid checksum. */
  lemma RootSuperblockSpec(inodeCount: u32, l: Layout, now: u64)
    ensures var sb := RootSuperblock(inodeCount, l, now);
      sb.magic == MAGIC_NUMBER && sb.version == 1 && sb.blockSize == 4096 &&
      sb.totalBlocks == l.totalBlocks && sb.inodeCount == inodeCount &&
      sb.inodeBitmapStart == l.inodeBitmapStart && sb.inodeBitmapBlocks == 1 &&
      sb.dataBitmapStart == l.dataBitmapStart && sb.dataBitmapBlocks == 1 &&
      sb.inodeTableStart == l.inodeTableStart && sb.inodeTableBlocks == l.inodeTableBlocks &&
      sb.dataRegionStart == l.dataRegionStart && sb.dataRegionBlocks == l.dataRegionBlocks &&
      sb.rootInode == 1 && sb.mtimeEpoch == now && sb.flags == 0 &&
      SuperblockChecksumValid(sb)
  {
    SuperblockFinalizedValid(InitialSuperblock(inodeCount, l, now));
  }

  /** The root directory inode `create_root_inode` writes, before its CRC is stamped. */
  function InitialRootInode(firstDataBlock: u32, now: u64): Inode
  {
    Inode(
      mode := MODE_DIR, links := 2, uid := 0, gid := 0,
      sizeBytes := 2 * DIRENT_SIZE, atime := now, mtime := now, ctime := now,
      direct := [firstDataBlock] + seq(DIRECT_MAX - 1, _ => 0),
      reserved0 := 0, reserved1 := 0, reserved2 := 0, projId := PROJ_ID,
      uid16Gid16 := 0, xattrPtr := 0, inodeCrc := 0)
  }

  function RootInode(firstDataBlock: u32, now: u64): Inode
  {
    var ino := InitialRootInode(firstDataBlock, now);
    ino.(inodeCrc := InodeCrc(ino))
  }

  /** `create_root_inode`. */
  method CreateRootInode(tab: array<nat>, firstDataBlock: u32, now: u64) returns (ino: Inode)
    requires IsCrcTable(tab)
    ensures ino == RootInode(firstDataBlock, now)
  {
    ino := InitialRootInode(firstDataBlock, now);
    ino := InodeCrcFinalize(tab, ino);
  }

  /** The root inode is a directory with two links and two entries' worth of size, its only
      block is the first data block, its project is 7 and its CRC is valid and fits 32 bits. */
  lemma RootInodeSpec(firstDataBlock: u32, now: u64)
    ensures var ino := RootInode(firstDataBlock, now);
      ino.mode == 0x4000 && ino.links == 2 && ino.sizeBytes == 128 &&
      ino.atime == now && ino.mtime == now && ino.ctime == now &&
      ino.direct[0] == firstDataBlock && (forall k :: 1 <= k < DIRECT_MAX ==> ino.direct[k] == 0) &&
      ino.reserved0 == 0 && ino.reserved1 == 0 && ino.reserved2 == 0 && ino.projId == 7 &&
      ino.uid == 0 && ino.gid == 0 && ino.uid16Gid16 == 0 && ino.xattrPtr == 0 &&
      InodeCrcValid(ino) && ino.inodeCrc < 0x1_0000_0000
  {
    InodeFinalizedValid(InitialRootInode(firstDataBlock, now));
  }

  /** A directory entry for the root directory under the given name, checksum stamped. */
  function RootEntry(name: CString): Dirent
  {
    var d := Dirent(ROOT_INO, FILE_TYPE_DIRECTORY, NameBytes(name), 0);
    d.(checksum := DirentChecksum(d))
  }

  const DOT: CString := [0x2E]
  const DOTDOT: CString := [0x2E, 0x2E]

  /** `create_root_directory_entries`: "." and "..", both naming the root. */
  method CreateRootDirectoryEntries() returns (dot: Dirent, dotdot: Dirent)
    ensures dot == RootEntry(DOT) && dotdot == RootEntry(DOTDOT)
  {
    dot := Dirent(ROOT_INO, FILE_TYPE_DIRECTORY, NameBytes(DOT), 0);
    dot := DirentChecksumFinalize(dot);
    dotdot := Dirent(ROOT_INO, FILE_TYPE_DIRECTORY, NameBytes(DOTDOT), 0);
    dotdot := DirentChecksumFinalize(dotdot);
  }

  /** Both entries refer to inode 1 as directories, read back as "." and ".." and carry a
      valid checksum. */
  lemma RootEntriesSpec()
    ensures RootEntry(DOT).inodeNo == 1 && RootEntry(DOTDOT).inodeNo == 1
    ensures RootEntry(DOT).fileType == 2 && RootEntry(DOTDOT).fileType == 2
    ensures NameOf(RootEntry(DOT).name) == DOT && NameOf(RootEntry(DOTDOT).name) == DOTDOT
    ensures DirentValid(RootEntry(DOT)) && DirentValid(RootEntry(DOTDOT))
  {
    NameRoundTrip(DOT);
    NameRoundTrip(DOTDOT);
    DirentValidIff(RootEntry(DOT));
    DirentValidIff(RootEntry(DOTDOT));
  }

  /* ---------------------------------------------------------------- bitmaps */

  /** A one-block bitmap with only bit 0 set. */
  function FreshBitmap(): (r: seq<byte>)
    ensures |r| == BS
  {
    [1] + Zeros(BS - 1)
  }

  /** `initialize_bitmaps`: clear both blocks, then mark the root inode and the root
      directory's block used. */
  method InitializeBitmaps(inodeBitmap: array<byte>, dataBitmap: array<byte>)
    requires inodeBitmap.Length == BS && dataBitmap.Length == BS && inodeBitmap != dataBitmap
    modifies inodeBitmap, dataBitmap
    ensures inodeBitmap[..] == FreshBitmap() && dataBitmap[..] == FreshBitmap()
  {
    forall i | 0 <= i < BS {
      inodeBitmap[i] := 0;
    }
    forall i | 0 <= i < BS {
      dataBitmap[i] := 0;
    }
    inodeBitmap[0] := inodeBitmap[0] | 1;
    dataBitmap[0] := dataBitmap[0] | 1;
    assert inodeBitmap[..] == FreshBitmap();
    assert dataBitmap[..] == FreshBitmap();
  }

  /** In a fresh bitmap exactly bit 0 is in use, so the first free inode is inode 2 and the first
      free data block is the one after the root directory's. */
  lemma FreshBitmapSpec(j: nat)
    requires j < 8 * BS
    ensures IsSet(FreshBitmap(), j) <==> j == 0
  {
    var bm := FreshBitmap();
    if j / 8 == 0 {
      assert bm[0] == 1;
      assert j % 8 == j;
      assert 1 & Bit(j) != 0 <==> j == 0 by {
        assert Bit(j) == (1 as byte) << j;
      }
    } else {
      assert bm[j / 8] == 0;
    }
  }

  /* ---------------------------------------------------------------- the image */

  /** A block holding the given bytes followed by zeros. */
  function PadBlock(data: seq<byte>): (r: seq<byte>)
    requires |data| <= BS
    ensures |r| == BS && r[..|data|] == data && r[|data|..] == Zeros(BS - |data|)
  {
    data + Zeros(BS - |data|)
  }

  /** k blocks of which the first is `first` and the rest are zero. */
  function LeadBlocks(first: seq<byte>, k: nat): (r: seq<byte>)
    requires |first| == BS
    ensures |r| == k * BS
  {
    if k == 0 then [] else first + Zeros((k - 1) * BS)
  }

  lemma LeadBlocksStep(first: seq<byte>, k: nat)
    requires |first| == BS
    ensures LeadBlocks(first, k + 1) == LeadBlocks(first, k) + (if k == 0 then first else Zeros(BS))
  {
    if k > 0 {
      ZerosAppend((k - 1) * BS, BS);
    }
  }

  /** The block the root directory's first data block holds: "." then "..", then zeros. */
  function RootDirBlock(): seq<byte>
  {
    PadBlock(SerializeDirent(RootEntry(DOT)) + SerializeDirent(RootEntry(DOTDOT)))
  }

  /** The whole image for a layout: the superblock block, both bitmaps, the inode table with the
      root inode in slot 0, and the data region with the root directory in block 0. The superblock
      and the root inode each read the clock once. */
  function ImageFor(inodeCount: u32, l: Layout, sbTime: u64, rootTime: u64): (r: seq<byte>)
    ensures |r| == (3 + l.inodeTableBlocks + l.dataRegionBlocks) * BS
  {
    PadBlock(SerializeSuperblock(RootSuperblock(inodeCount, l, sbTime))) +
    FreshBitmap() + FreshBitmap() +
    LeadBlocks(PadBlock(SerializeInode(RootInode(l.dataRegionStart % 0x1_0000_0000, rootTime))), l.inodeTableBlocks) +
    LeadBlocks(RootDirBlock(), l.dataRegionBlocks)
  }

  /** What `mkfs_builder` produces for the given arguments and clock readings. */
  function BuildSpec(sizeKib: u32, inodeCount: u32, sbTime: u64, rootTime: u64): Result<seq<byte>, BuildError>
  {
    match CheckArgs(sizeKib, inodeCount)
    case Some(e) => Failure(e)
    case None =>
      match CalculateLayout(sizeKib, inodeCount)
      case Failure(e) => Failure(e)
      case Success(l) => Success(ImageFor(inodeCount, l, sbTime, rootTime))
  }

  /** `memset(buf, 0, BS)`. */
  method ClearBlock(buf: array<byte>)
    modifies buf
    ensures buf[..] == Zeros(buf.Length)
  {
    forall i | 0 <= i < buf.Length {
      buf[i] := 0;
    }
  }

  /** `memcpy(buf + off, data, |data|)`. */
  method CopyIn(buf: array<byte>, off: nat, data: seq<byte>)
    requires off + |data| <= buf.Length
    modifies buf
    ensures buf[..] == Splice(old(buf[..]), off, data)
  {
    forall i | off <= i < off + |data| {
      buf[i] := data[i - off];
    }
  }

  /** The superblock block: the buffer cleared, then the serialized superblock copied in. */
  method WriteSuperblock(tab: array<nat>, blockBuffer: array<byte>, inodeCount: u32, l: Layout, sbTime: u64)
    returns (block: seq<byte>)
    requires IsCrcTable(tab) && blockBuffer.Length == BS
    modifies blockBuffer
    ensures block == PadBlock(SerializeSuperblock(RootSuperblock(inodeCount, l, sbTime)))
  {
    var sb := CreateSuperblock(tab, inodeCount, l, sbTime);
    ClearBlock(blockBuffer);
    CopyIn(blockBuffer, 0, SerializeSuperblock(sb));
    SpliceIntoZeros(BS, SerializeSuperblock(sb));
    block := blockBuffer[..];
  }

  /** The inode table blocks: every block cleared, the root inode copied into slot 0 of the first. */
  method WriteInodeTable(tab: array<nat>, blockBuffer: array<byte>, l: Layout, rootTime: u64)
    returns (blocks: seq<byte>)
    requires IsCrcTable(tab) && blockBuffer.Length == BS
    modifies blockBuffer
    ensures blocks == LeadBlocks(PadBlock(SerializeInode(RootInode(l.dataRegionStart % 0x1_0000_0000, rootTime))), l.inodeTableBlocks)
  {
    ghost var rootBlock := PadBlock(SerializeInode(RootInode(l.dataRegionStart % 0x1_0000_0000, rootTime)));
    blocks := [];
    var block := 0;
    while block < l.inodeTableBlocks
      invariant block <= l.inodeTableBlocks
      invariant blocks == LeadBlocks(rootBlock, block)
    {
      ClearBlock(blockBuffer);
      if block == 0 {
        var rootInode := CreateRootInode(tab, l.dataRegionStart % 0x1_0000_0000, rootTime);
        CopyIn(blockBuffer, 0, SerializeInode(rootInode));
        SpliceIntoZeros(BS, SerializeInode(rootInode));
      }
      LeadBlocksStep(rootBlock, block);
      blocks := blocks + blockBuffer[..];
      block := block + 1;
    }
  }

  /** Data block 0: the cleared block with the root's "." and ".." entries at its start. */
  method WriteRootDirBlock(blockBuffer: array<byte>)
    requires blockBuffer[..] == Zeros(BS)
    modifies blockBuffer
    ensures blockBuffer[..] == RootDirBlock()
  {
    var dot, dotdot := CreateRootDirectoryEntries();
    CopyIn(blockBuffer, 0, SerializeDirent(dot));
    CopyIn(blockBuffer, DIRENT_SIZE, SerializeDirent(dotdot));
    SpliceIntoZeros(BS, SerializeDirent(dot) + SerializeDirent(dotdot));
  }

  /** The data region blocks: every block cleared, "." and ".." copied into the first. */
  method WriteDataRegion(blockBuffer: array<byte>, l: Layout) returns (blocks: seq<byte>)
    requires blockBuffer.Length == BS
    modifies blockBuffer
    ensures blocks == LeadBlocks(RootDirBlock(), l.dataRegionBlocks)
  {
    blocks := [];
    var block := 0;
    while block < l.dataRegionBlocks
      invariant block <= l.dataRegionBlocks
      invariant blocks == LeadBlocks(RootDirBlock(), block)
    {
      ClearBlock(blockBuffer);
      if block == 0 {
        WriteRootDirBlock(blockBuffer);
      }
      LeadBlocksStep(RootDirBlock(), block);
      blocks := blocks + blockBuffer[..];
      block := block + 1;
    }
  }

  /** The builder's `main`: the checks, then the blocks in file order through one reused block
      buffer; the output file is modelled as the sequence of blocks written. */
  method BuildImage(tab: array<nat>, sizeKib: u32, inodeCount: u32, sbTime: u64, rootTime: u64)
    returns (r: Result<seq<byte>, BuildError>)
    requires IsCrcTable(tab)
    ensures r == BuildSpec(sizeKib, inodeCount, sbTime, rootTime)
  {
    var err := CheckArgs(sizeKib, inodeCount);
    if err.Some? {
      return Failure(err.value);
    }
    var lr := CalculateLayout(sizeKib, inodeCount);
    if lr.Failure? {
      return Failure(lr.error);
    }
    var l := lr.value;
    var blockBuffer := new byte[BS];
    var out := WriteSuperblock(tab, blockBuffer, inodeCount, l, sbTime);
    var inodeBitmap := new byte[BS];
    var dataBitmap := new byte[BS];
    InitializeBitmaps(inodeBitmap, dataBitmap);
    out := out + inodeBitmap[..];
    out := out + dataBitmap[..];
    var table := WriteInodeTable(tab, blockBuffer, l, rootTime);
    out := out + table;
    var region := WriteDataRegion(blockBuffer, l);
    out := out + region;
    r := Success(out);
  }

  /** A build succeeds exactly when the argument checks pass: neither the "too many inodes" check
      nor the layout ever rejects arguments that got that far. */
  lemma BuildOutcome(sizeKib: u32, inodeCount: u32, sbTime: u64, rootTime: u64)
    ensures BuildSpec(sizeKib, inodeCount, sbTime, rootTime).Success? <==> CheckArgs(sizeKib, inodeCount) == None
    ensures BuildSpec(sizeKib, inodeCount, sbTime, rootTime).Failure? ==>
      BuildSpec(sizeKib, inodeCount, sbTime, rootTime).error !in {TooManyInodes, NoDataRegion}
  {
    CheckArgsAccepts(sizeKib, inodeCount);
    if CheckArgs(sizeKib, inodeCount) == None {
      LayoutAsWrittenAgrees(sizeKib, inodeCount);
    }
  }

  /** The image is `total_blocks` blocks long: the region sizes add up. */
  lemma BuildImageLength(sizeKib: u32, inodeCount: u32, sbTime: u64, rootTime: u64)
    requires BuildSpec(sizeKib, inodeCount, sbTime, rootTime).Success?
    ensures |BuildSpec(sizeKib, inodeCount, sbTime, rootTime).value| == sizeKib / 4 * BS
  {
    var l := CalculateLayout(sizeKib, inodeCount).value;
    LayoutRules(sizeKib, inodeCount);
    CheckArgsAccepts(sizeKib, inodeCount);
    assert (3 + l.inodeTableBlocks + l.dataRegionBlocks) * BS == sizeKib / 4 * BS;
  }

  /** The shape every successful layout has. */
  predicate LayoutShape(l: Layout)
  {
    l.inodeTableBlocks >= 1 && l.dataRegionBlocks >= 1 &&
    l.dataRegionStart == 3 + l.inodeTableBlocks && l.dataRegionStart < 0x1_0000_0000 &&
    l.totalBlocks == l.dataRegionStart + l.dataRegionBlocks
  }

  lemma AcceptedLayoutShape(sizeKib: u32, inodeCount: u32)
    requires CheckArgs(sizeKib, inodeCount) == None
    ensures CalculateLayout(sizeKib, inodeCount).Success?
    ensures LayoutShape(CalculateLayout(sizeKib, inodeCount).value)
  {
    LayoutAsWrittenAgrees(sizeKib, inodeCount);
    assert TableBlocks(inodeCount) >= 4;
  }

  /** The image is the superblock block, two bitmap blocks, the table and the region, back to back. */
  lemma ImageLength(inodeCount: u32, l: Layout, sbTime: u64, rootTime: u64)
    requires LayoutShape(l)
    ensures |ImageFor(inodeCount, l, sbTime, rootTime)| == l.totalBlocks * BS
  {
    assert (3 + l.inodeTableBlocks + l.dataRegionBlocks) * BS == l.totalBlocks * BS;
  }

  /** Block b of an image. */
  function Block(img: seq<byte>, b: nat): (r: seq<byte>)
    requires (b + 1) * BS <= |img|
    ensures |r| == BS
  {
    img[b * BS..(b + 1) * BS]
  }

  /** Blocks of the front part of a concatenation are that part's blocks. */
  lemma BlockOfFront(u: seq<byte>, v: seq<byte>, b: nat)
    requires (b + 1) * BS <= |u|
    ensures Block(u + v, b) == Block(u, b)
  {
    assert (u + v)[b * BS..(b + 1) * BS] == u[b * BS..(b + 1) * BS];
  }

  /** Blocks past the front part of a concatenation are the back part's blocks. */
  lemma BlockOfBack(u: seq<byte>, v: seq<byte>, n: nat, b: nat)
    requires |u| == n * BS && n <= b && (b + 1 - n) * BS <= |v|
    ensures (b + 1) * BS <= |u + v| && Block(u + v, b) == Block(v, b - n)
  {
    assert b * BS == n * BS + (b - n) * BS;
    assert (u + v)[b * BS..(b + 1) * BS] == v[(b - n) * BS..(b - n + 1) * BS];
  }

  /** Block t of k blocks led by `first`. */
  lemma LeadBlocksBlock(first: seq<byte>, k: nat, t: nat)
    requires |first| == BS && t < k
    ensures Block(LeadBlocks(first, k), t) == if t == 0 then first else Zeros(BS)
  {
    var r := LeadBlocks(first, k);
    if t == 0 {
      assert r[..BS] == first;
    } else {
      assert t * BS == BS + (t - 1) * BS;
      assert Block(r, t) == Zeros((k - 1) * BS)[(t - 1) * BS..t * BS];
    }
  }

  /** Where the blocks of an image land: a first block, two whole blocks, k table blocks led by
      `x` and m region blocks led by `y`. */
  lemma ImageBlocks(img: seq<byte>, a: seq<byte>, b: seq<byte>, c: seq<byte>,
                    x: seq<byte>, k: nat, y: seq<byte>, m: nat)
    requires |a| == BS && |b| == BS && |c| == BS && |x| == BS && |y| == BS && k >= 1 && m >= 1
    requires img == a + b + c + LeadBlocks(x, k) + LeadBlocks(y, m)
    ensures |img| == (3 + k + m) * BS
    ensures Block(img, 0) == a && Block(img, 1) == b && Block(img, 2) == c
    ensures Block(img, 3) == x && Block(img, 3 + k) == y
    ensures forall t :: 3 < t < 3 + k + m && t != 3 + k ==> Block(img, t) == Zeros(BS)
  {
    var head := a + b + c;
    var front := head + LeadBlocks(x, k);
    forall t | 0 <= t < 3 + k + m
      ensures Block(img, t) == if t == 0 then a else if t == 1 then b else if t == 2 then c
                               else if t == 3 then x else if t == 3 + k then y else Zeros(BS)
    {
      if t < 3 + k {
        BlockOfFront(front, LeadBlocks(y, m), t);
        if t < 3 {
          BlockOfFront(head, LeadBlocks(x, k), t);
          if t < 2 {
            BlockOfFront(a + b, c, t);
            if t == 0 {
              BlockOfFront(a, b, 0);
            } else {
              BlockOfBack(a, b, 1, 1);
            }
          } else {
            BlockOfBack(a + b, c, 2, 2);
          }
        } else {
          BlockOfBack(head, LeadBlocks(x, k), 3, t);
          LeadBlocksBlock(x, k, t - 3);
        }
      } else {
        BlockOfBack(front, LeadBlocks(y, m), 3 + k, t);
        LeadBlocksBlock(y, m, t - 3 - k);
      }
    }
  }

  /** The root directory block reads back as "." and ".." followed by zeros. */
  lemma RootDirBlockBack()
    ensures ParseDirent(RootDirBlock()[..DIRENT_SIZE]) == RootEntry(DOT)
    ensures ParseDirent(RootDirBlock()[DIRENT_SIZE..2 * DIRENT_SIZE]) == RootEntry(DOTDOT)
    ensures forall i :: 2 * DIRENT_SIZE <= i < BS ==> RootDirBlock()[i] == 0
  {
    var e1, e2 := SerializeDirent(RootEntry(DOT)), SerializeDirent(RootEntry(DOTDOT));
    var y := RootDirBlock();
    assert y[..2 * DIRENT_SIZE] == e1 + e2;
    assert y[..DIRENT_SIZE] == (e1 + e2)[..DIRENT_SIZE] == e1;
    assert y[DIRENT_SIZE..2 * DIRENT_SIZE] == (e1 + e2)[DIRENT_SIZE..] == e2;
    DirentParseSerialize(RootEntry(DOT));
    DirentParseSerialize(RootEntry(DOTDOT));
  }

  /** Reading back an image of the built shape: block 0 parses as the superblock, blocks 1 and 2
      are fresh bitmaps, block 3 holds the inode in slot 0, the first region block holds the root
      directory, and every other block is zero. */
  lemma ImageBack(img: seq<byte>, sb: Superblock, ino: Inode, k: nat, m: nat)
    requires k >= 1 && m >= 1
    requires img == PadBlock(SerializeSuperblock(sb)) + FreshBitmap() + FreshBitmap() +
      LeadBlocks(PadBlock(SerializeInode(ino)), k) + LeadBlocks(RootDirBlock(), m)
    ensures |img| == (3 + k + m) * BS
    ensures Block(img, 0) == PadBlock(SerializeSuperblock(sb))
    ensures ParseSuperblock(Block(img, 0)[..SUPERBLOCK_SIZE]) == sb
    ensures Block(img, 1) == FreshBitmap() && Block(img, 2) == FreshBitmap()
    ensures Block(img, 3) == PadBlock(SerializeInode(ino))
    ensures ParseInode(Block(img, 3)[..INODE_SIZE]) == ino
    ensures Block(img, 3 + k) == RootDirBlock()
    ensures forall t :: 3 < t < 3 + k + m && t != 3 + k ==> Block(img, t) == Zeros(BS)
  {
    ImageBlocks(img, PadBlock(SerializeSuperblock(sb)), FreshBitmap(), FreshBitmap(),
      PadBlock(SerializeInode(ino)), k, RootDirBlock(), m);
    SuperblockBlockBack(sb);
    InodeBlockBack(ino);
  }

  /** A padded superblock block parses back as the superblock. */
  lemma SuperblockBlockBack(sb: Superblock)
    ensures ParseSuperblock(PadBlock(SerializeSuperblock(sb))[..SUPERBLOCK_SIZE]) == sb
  {
    var e := SerializeSuperblock(sb);
    assert PadBlock(e)[..SUPERBLOCK_SIZE] == e;
    SuperblockParseSerialize(sb);
  }

  /** A padded inode block parses back as the inode. */
  lemma InodeBlockBack(ino: Inode)
    ensures ParseInode(PadBlock(SerializeInode(ino))[..INODE_SIZE]) == ino
  {
    var e := SerializeInode(ino);
    assert PadBlock(e)[..INODE_SIZE] == e;
    InodeParseSerialize(ino);
  }

  lemma SmallMod(x: nat)
    requires x < 0x1_0000_0000
    ensures x % 0x1_0000_0000 == x
  {
  }

  /** The image `mkfs_builder` writes for an accepted layout, read back block by block. */
  lemma ImageReadsBack(inodeCount: u32, l: Layout, sbTime: u64, rootTime: u64)
    requires LayoutShape(l)
    ensures |ImageFor(inodeCount, l, sbTime, rootTime)| == l.totalBlocks * BS
    ensures var img := ImageFor(inodeCount, l, sbTime, rootTime);
      var k := l.inodeTableBlocks;
      Block(img, 0) == PadBlock(SerializeSuperblock(RootSuperblock(inodeCount, l, sbTime))) &&
      ParseSuperblock(Block(img, 0)[..SUPERBLOCK_SIZE]) == RootSuperblock(inodeCount, l, sbTime) &&
      Block(img, 1) == FreshBitmap() && Block(img, 2) == FreshBitmap() &&
      Block(img, 3) == PadBlock(SerializeInode(RootInode(l.dataRegionStart, rootTime))) &&
      ParseInode(Block(img, 3)[..INODE_SIZE]) == RootInode(l.dataRegionStart, rootTime) &&
      Block(img, 3 + k) == RootDirBlock() &&
      forall t :: 3 < t < l.totalBlocks && t != 3 + k ==> Block(img, t) == Zeros(BS)
  {
    SmallMod(l.dataRegionStart);
    ImageBack(ImageFor(inodeCount, l, sbTime, rootTime), RootSuperblock(inodeCount, l, sbTime),
      RootInode(l.dataRegionStart, rootTime), l.inodeTableBlocks, l.dataRegionBlocks);
  }
}
