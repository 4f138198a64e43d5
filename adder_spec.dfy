/** What `mkfs_adder` does to an image, as pure functions of the input image, the path given on
    the command line, the file's content and the clock reading: the checks in the order the tool
    makes them, the allocation of one inode and of the data blocks, the new inode, the root
    directory update, the content copy and the refreshed superblock. */
module AddSpec {
  import opened Wire
  import opened Format
  import opened Finalize
  import opened Bitmap
  import opened Paths
  import opened Builder

  const U32_MOD: nat := 0x1_0000_0000
  const U64_MOD: nat := 0x1_0000_0000_0000_0000

  /** Why the adder gives up, in the order it checks. */
  datatype AddError =
    | NameTooLong | EmptyFile | FileTooLarge
    | ShortSuperblock | BadMagic | ShortInodeBitmap | ShortDataBitmap
    | NoFreeInodes | NoFreeDataBlocks
    | ShortInodeTable | ShortDataRegion | DirectoryFull

  /** The image written out and the inode number given to the file. */
  datatype Added = Added(image: seq<byte>, inodeNo: nat)

  /* ---------------------------------------------------------------- the file */

  /** `(file_size + BS - 1) / BS` in 64-bit arithmetic. */
  function BlocksNeeded(size: u64): nat
  {
    ((size + BS - 1) % U64_MOD) / BS
  }

  /** Short of the last 4095 sizes, where the 64-bit sum wraps, the block count rounds up. */
  lemma BlocksNeededCeil(size: u64)
    requires size + BS - 1 < U64_MOD
    ensures BlocksNeeded(size) * BS >= size
    ensures size > 0 ==> (BlocksNeeded(size) - 1) * BS < size
  {
  }

  /** Sizes whose 64-bit sum wraps need no blocks at all. */
  lemma BlocksNeededWraps(size: u64)
    requires size + BS - 1 >= U64_MOD
    ensures BlocksNeeded(size) == 0
  {
  }

  /** The name check of `parse_cli_args`, then the size checks of `main`. */
  function CheckFile(path: CString, content: seq<byte>): Option<AddError>
    requires |content| < U64_MOD
  {
    if !NameFits(path) then Some(NameTooLong)
    else if |content| == 0 then Some(EmptyFile)
    else if BlocksNeeded(|content|) > DIRECT_MAX then Some(FileTooLarge)
    else None
  }

  /** A file passes when its base name fits and it holds 1 to 12 blocks of bytes; sizes so close
      to 2^64 that the rounding wraps pass too, as blocks of none. */
  lemma CheckFileSpec(path: CString, content: seq<byte>)
    requires |content| < U64_MOD
    ensures CheckFile(path, content) == None <==>
      NameFits(path) && 0 < |content| && (|content| <= DIRECT_MAX * BS || |content| + BS - 1 >= U64_MOD)
    ensures CheckFile(path, content) == None && |content| + BS - 1 < U64_MOD ==>
      1 <= BlocksNeeded(|content|) <= DIRECT_MAX
  {
    var size := |content|;
    if size + BS - 1 < U64_MOD {
      BlocksNeededCeil(size);
      if size > DIRECT_MAX * BS {
        assert BlocksNeeded(size) * BS > DIRECT_MAX * BS;
      }
    }
  }

  /** Exactly twelve blocks of content are accepted and one byte more is rejected. */
  lemma FileSizeBoundary()
    ensures BlocksNeeded(DIRECT_MAX * BS) == DIRECT_MAX
    ensures BlocksNeeded(DIRECT_MAX * BS + 1) == DIRECT_MAX + 1
  {
  }

  /* ---------------------------------------------------------------- reading the image */

  /** The superblock and the two bitmaps, as the adder reads them. */
  datatype Header = Header(sb: Superblock, inodeBitmap: seq<byte>, dataBitmap: seq<byte>)

  /** The first three blocks of the image: the superblock record from block 0, whose magic must
      match, then the inode bitmap and the data bitmap. */
  function ReadHeader(img: seq<byte>): (r: Result<Header, AddError>)
    ensures r.Success? ==> |r.value.inodeBitmap| == BS && |r.value.dataBitmap| == BS
  {
    if |img| < BS then Failure(ShortSuperblock)
    else
      var sb := ParseSuperblock(img[..SUPERBLOCK_SIZE]);
      if sb.magic != MAGIC_NUMBER then Failure(BadMagic)
      else if |img| < 2 * BS then Failure(ShortInodeBitmap)
      else if |img| < 3 * BS then Failure(ShortDataBitmap)
      else Success(Header(sb, img[BS..2 * BS], img[2 * BS..3 * BS]))
  }

  /** The header is read exactly when the image holds three blocks and the magic matches. */
  lemma ReadHeaderSpec(img: seq<byte>)
    ensures ReadHeader(img).Success? <==>
      |img| >= 3 * BS && ParseSuperblock(img[..SUPERBLOCK_SIZE]).magic == MAGIC_NUMBER
    ensures ReadHeader(img).Success? ==>
      SerializeSuperblock(ReadHeader(img).value.sb) == img[..SUPERBLOCK_SIZE] &&
      ReadHeader(img).value.inodeBitmap == Block(img, 1) && ReadHeader(img).value.dataBitmap == Block(img, 2)
  {
    if |img| >= 3 * BS {
      SuperblockSerializeParse(img[..SUPERBLOCK_SIZE]);
    }
  }

  /** An image of the shape `mkfs_builder` writes reads back as its superblock and two fresh
      bitmaps. */
  lemma BuiltImageHeader(img: seq<byte>, sb: Superblock, ino: Inode, k: nat, m: nat)
    requires k >= 1 && m >= 1 && sb.magic == MAGIC_NUMBER
    requires img == PadBlock(SerializeSuperblock(sb)) + FreshBitmap() + FreshBitmap() +
      LeadBlocks(PadBlock(SerializeInode(ino)), k) + LeadBlocks(RootDirBlock(), m)
    ensures ReadHeader(img) == Success(Header(sb, FreshBitmap(), FreshBitmap()))
  {
    ImageBack(img, sb, ino, k, m);
    HeaderFromBlocks(img, sb);
  }

  /** An image of three blocks or more whose block 0 holds a superblock with the right magic
      reads back as that superblock and blocks 1 and 2. */
  lemma HeaderFromBlocks(img: seq<byte>, sb: Superblock)
    requires 3 * BS <= |img| && sb.magic == MAGIC_NUMBER
    requires ParseSuperblock(Block(img, 0)[..SUPERBLOCK_SIZE]) == sb
    ensures ReadHeader(img) == Success(Header(sb, Block(img, 1), Block(img, 2)))
  {
    assert img[..SUPERBLOCK_SIZE] == Block(img, 0)[..SUPERBLOCK_SIZE];
  }

  /* ---------------------------------------------------------------- allocation */

  /** The 32-bit bounds the two scans are given. */
  function InodeLimit(sb: Superblock): u32
  {
    sb.inodeCount % U32_MOD
  }

  function BlockLimit(sb: Superblock): u32
  {
    sb.dataRegionBlocks % U32_MOD
  }

  /** The free inode bit, the data bits handed out, and both bitmaps after setting them. */
  datatype Grant = Grant(inodeBit: nat, inodeNo: nat, bits: seq<nat>, inodeBitmap: seq<byte>, dataBitmap: seq<byte>)

  /** One first-fit inode, then n first-fit data blocks; the inode bit is set last. */
  function Reserve(h: Header, n: nat): (r: Result<Grant, AddError>)
    requires |h.inodeBitmap| == BS
    ensures r.Success? ==>
      |r.value.bits| == n && |r.value.inodeBitmap| == BS && |r.value.dataBitmap| == |h.dataBitmap|
  {
    var bit := FreeBit(h.inodeBitmap, InodeLimit(h.sb));
    if bit < 0 then Failure(NoFreeInodes)
    else match AllocRun(h.dataBitmap, BlockLimit(h.sb), n)
      case None => Failure(NoFreeDataBlocks)
      case Some(a) => Success(Grant(bit, bit + 1, a.bits, WithBit(h.inodeBitmap, bit), a.bitmap))
  }

  /** Where the two scans stay inside their bitmaps (`find_free_bit` reads past the block
      otherwise). */
  predicate ReserveDefined(h: Header, n: nat)
  {
    ScanInBounds(h.inodeBitmap, InodeLimit(h.sb)) &&
    (FreeBit(h.inodeBitmap, InodeLimit(h.sb)) >= 0 ==> RunInBounds(h.dataBitmap, BlockLimit(h.sb), n))
  }

  /** Allocation fails for want of an inode exactly when no inode bit is clear within reach, and
      for want of data blocks exactly when fewer than n data bits are; otherwise the inode is the
      lowest clear bit, now set with no other bit changed, and the data bits are the n lowest
      clear ones, now set. */
  lemma ReserveSpec(h: Header, n: nat)
    requires |h.inodeBitmap| == BS
    ensures var bit := FreeBit(h.inodeBitmap, InodeLimit(h.sb));
      var R := Reach(h.dataBitmap, BlockLimit(h.sb));
      (Reserve(h, n) == Failure(NoFreeInodes) <==> CountFree(h.inodeBitmap, Reach(h.inodeBitmap, InodeLimit(h.sb))) == 0) &&
      (Reserve(h, n) == Failure(NoFreeDataBlocks) <==> bit >= 0 && n > CountFree(h.dataBitmap, R)) &&
      (Reserve(h, n).Success? ==>
        var g := Reserve(h, n).value;
        g.inodeBit == bit && !IsSet(h.inodeBitmap, bit) &&
        (forall i :: 0 <= i < bit ==> IsSet(h.inodeBitmap, i)) &&
        (forall j :: 0 <= j < 8 * BS ==> (IsSet(g.inodeBitmap, j) <==> IsSet(h.inodeBitmap, j) || j == bit)) &&
        RunFacts(h.dataBitmap, BlockLimit(h.sb), Alloc(g.bits, g.dataBitmap)))
  {
    var ibm := h.inodeBitmap;
    var bit := FreeBit(ibm, InodeLimit(h.sb));
    FreeBitCount(ibm, InodeLimit(h.sb));
    AllocRunSpec(h.dataBitmap, BlockLimit(h.sb), n);
    if bit >= 0 {
      FirstFreeSpec(ibm, 0, Reach(ibm, InodeLimit(h.sb)));
      forall j | 0 <= j < 8 * BS
        ensures IsSet(WithBit(ibm, bit), j) <==> IsSet(ibm, j) || j == bit
      {
        WithBitIsSet(ibm, bit, j);
      }
    }
  }

  /** What a granted run guarantees about its data bits: as many as the file needs, each below
      the data region's block count, strictly increasing. */
  lemma GrantBits(h: Header, n: nat, g: Grant)
    requires |h.inodeBitmap| == BS && Reserve(h, n) == Success(g)
    ensures |g.bits| == n && g.inodeBit < 8 * BS && g.inodeNo == g.inodeBit + 1
    ensures forall i :: 0 <= i < n ==>
      g.bits[i] < BlockLimit(h.sb) && g.bits[i] < h.sb.dataRegionBlocks && g.bits[i] < 8 * |h.dataBitmap|
    ensures forall i, j :: 0 <= i < j < n ==> g.bits[i] < g.bits[j]
  {
    var run := AllocRun(h.dataBitmap, BlockLimit(h.sb), n);
    assert run.Some? && g.bits == run.value.bits;
    RunBits(h.dataBitmap, BlockLimit(h.sb), n);
    assert g.inodeBit == FreeBit(h.inodeBitmap, InodeLimit(h.sb));
  }

  /** The bits of a successful run lie below the bound and increase. */
  lemma RunBits(bm: seq<byte>, maxBits: u32, n: nat)
    requires AllocRun(bm, maxBits, n).Some?
    ensures var bits := AllocRun(bm, maxBits, n).value.bits;
      (forall i :: 0 <= i < |bits| ==> bits[i] < maxBits && bits[i] < 8 * |bm|) &&
      (forall i, j :: 0 <= i < j < |bits| ==> bits[i] < bits[j])
  {
    var a := AllocRun(bm, maxBits, n).value;
    AllocRunSpec(bm, maxBits, n);
    assert WereFree(bm, Reach(bm, maxBits), a.bits) && Increasing(a.bits);
  }

  /** What the writes after the allocation rely on: the new inode's bit lies in the first bitmap
      block, and the granted blocks lie in the data region, within the first bitmap block, and
      number the content's size rounded up to blocks (none when the 64-bit rounding wraps). */
  predicate Granted(sb: Superblock, content: seq<byte>, g: Grant)
  {
    |content| < U64_MOD && g.inodeBit < 8 * BS && g.inodeNo < U32_MOD &&
    (|g.bits| == 0 || (|g.bits| - 1) * BS < |content| <= |g.bits| * BS) &&
    forall i :: 0 <= i < |g.bits| ==> g.bits[i] < sb.dataRegionBlocks && g.bits[i] < 8 * BS
  }

  /** A grant for a file that passed the checks is one the later writes can rely on. */
  lemma ReserveGranted(h: Header, path: CString, content: seq<byte>, g: Grant)
    requires |content| < U64_MOD && CheckFile(path, content) == None
    requires |h.inodeBitmap| == BS && |h.dataBitmap| == BS && Reserve(h, BlocksNeeded(|content|)) == Success(g)
    ensures Granted(h.sb, content, g) && g.inodeNo == g.inodeBit + 1
  {
    GrantBits(h, BlocksNeeded(|content|), g);
    if |content| + BS - 1 < U64_MOD {
      BlocksNeededCeil(|content|);
    } else {
      BlocksNeededWraps(|content|);
    }
  }

  /** The granted blocks hold the content inside a region of the size the superblock gives. */
  lemma GrantedFits(region: seq<byte>, sb: Superblock, content: seq<byte>, g: Grant)
    requires Granted(sb, content, g) && |region| == sb.dataRegionBlocks * BS
    ensures ContentFits(region, g.bits, content)
  {
    forall i | 0 <= i < |g.bits|
      ensures (g.bits[i] + 1) * BS <= |region|
    {
      assert g.bits[i] + 1 <= sb.dataRegionBlocks;
    }
  }

  /* ---------------------------------------------------------------- the new inode */

  /** `data_blocks[i] = (uint32_t)sb.data_region_start + free_data_bit`. */
  function DataBlockNumbers(start: u32, bits: seq<nat>): (r: seq<u32>)
    ensures |r| == |bits| && forall i :: 0 <= i < |bits| ==> r[i] == (start + bits[i]) % U32_MOD
  {
    seq(|bits|, i requires 0 <= i < |bits| => (start + bits[i]) % U32_MOD)
  }

  /** The direct pointers: the allocated blocks, then zeros. */
  function DirectFor(blocks: seq<u32>): (r: DirectBlocks)
    requires |blocks| <= DIRECT_MAX
    ensures forall k :: 0 <= k < DIRECT_MAX ==> r[k] == if k < |blocks| then blocks[k] else 0
  {
    blocks + seq(DIRECT_MAX - |blocks|, _ => 0)
  }

  /** The inode for the file before its CRC: zeroed, then every field set. */
  function FileInodeFields(size: u64, blocks: seq<u32>, now: u64): Inode
    requires |blocks| <= DIRECT_MAX
  {
    Inode(
      mode := MODE_FILE, links := 1, uid := 0, gid := 0,
      sizeBytes := size, atime := now, mtime := now, ctime := now,
      direct := DirectFor(blocks),
      reserved0 := 0, reserved1 := 0, reserved2 := 0, projId := PROJ_ID,
      uid16Gid16 := 0, xattrPtr := 0, inodeCrc := 0)
  }

  /** An inode with its CRC stamped. */
  function Stamped(ino: Inode): Inode
  {
    ino.(inodeCrc := InodeCrc(ino))
  }

  /** Finalizing changes the CRC field only, and leaves it valid. */
  lemma StampedSpec(ino: Inode)
    ensures Stamped(ino).(inodeCrc := ino.inodeCrc) == ino
    ensures InodeCrcValid(Stamped(ino))
  {
    InodeFinalizedValid(ino);
  }

  function FileInode(size: u64, blocks: seq<u32>, now: u64): Inode
    requires |blocks| <= DIRECT_MAX
  {
    Stamped(FileInodeFields(size, blocks, now))
  }

  /** The new inode is a regular file with one link, the file's size and times, the allocated
      blocks in order followed by zero pointers, project 7 and a valid CRC. */
  lemma FileInodeSpec(size: u64, blocks: seq<u32>, now: u64)
    requires |blocks| <= DIRECT_MAX
    ensures var ino := FileInode(size, blocks, now);
      ino.mode == 0x8000 && ino.links == 1 && ino.uid == 0 && ino.gid == 0 &&
      ino.sizeBytes == size && ino.atime == now && ino.mtime == now && ino.ctime == now &&
      (forall k :: 0 <= k < |blocks| ==> ino.direct[k] == blocks[k]) &&
      (forall k :: |blocks| <= k < DIRECT_MAX ==> ino.direct[k] == 0) &&
      ino.reserved0 == 0 && ino.reserved1 == 0 && ino.reserved2 == 0 && ino.projId == 7 &&
      ino.uid16Gid16 == 0 && ino.xattrPtr == 0 && InodeCrcValid(ino)
  {
    InodeFinalizedValid(FileInodeFields(size, blocks, now));
  }

  /* ---------------------------------------------------------------- the inode table */

  /** The inode stored in a slot of the table. */
  function InodeAt(table: seq<byte>, slot: nat): Inode
    requires (slot + 1) * INODE_SIZE <= |table|
  {
    ParseInode(table[slot * INODE_SIZE..(slot + 1) * INODE_SIZE])
  }

  /** The table with an inode written into a slot. */
  function PutInode(table: seq<byte>, slot: nat, ino: Inode): (r: seq<byte>)
    requires (slot + 1) * INODE_SIZE <= |table|
    ensures |r| == |table|
  {
    Splice(table, slot * INODE_SIZE, SerializeInode(ino))
  }

  /** The written slot reads back as the inode, and every byte outside it is unchanged. */
  lemma PutInodeSpec(table: seq<byte>, slot: nat, ino: Inode)
    requires (slot + 1) * INODE_SIZE <= |table|
    ensures InodeAt(PutInode(table, slot, ino), slot) == ino
    ensures forall i :: 0 <= i < |table| && !(slot * INODE_SIZE <= i < (slot + 1) * INODE_SIZE) ==>
      PutInode(table, slot, ino)[i] == table[i]
  {
    InodeParseSerialize(ino);
  }

  /** A slot the write did not touch reads back as before. */
  lemma PutInodeOther(table: seq<byte>, slot: nat, ino: Inode, other: nat)
    requires (slot + 1) * INODE_SIZE <= |table| && (other + 1) * INODE_SIZE <= |table| && other != slot
    ensures InodeAt(PutInode(table, slot, ino), other) == InodeAt(table, other)
  {
    if other < slot {
      assert (other + 1) * INODE_SIZE <= slot * INODE_SIZE;
    } else {
      assert (slot + 1) * INODE_SIZE <= other * INODE_SIZE;
    }
    SpliceElsewhere(table, slot * INODE_SIZE, SerializeInode(ino), other * INODE_SIZE, (other + 1) * INODE_SIZE);
  }

  /** The root with one link more (16-bit) and the clock reading as its mtime. */
  function Relinked(root: Inode, now: u64): Inode
  {
    root.(links := (root.links + 1) % 0x1_0000, mtime := now)
  }

  /** The root with one directory entry's worth of bytes more (64-bit). */
  function Grown(root: Inode): Inode
  {
    root.(sizeBytes := (root.sizeBytes + DIRENT_SIZE) % U64_MOD)
  }

  /** `root_inode->links++; root_inode->mtime = now; inode_crc_finalize(root_inode)`. */
  function LinkRoot(table: seq<byte>, now: u64): (r: seq<byte>)
    requires INODE_SIZE <= |table|
    ensures |r| == |table|
  {
    PutInode(table, 0, Stamped(Relinked(InodeAt(table, 0), now)))
  }

  /** `root_inode->size_bytes += sizeof(dirent64_t); inode_crc_finalize(root_inode)`. */
  function GrowRoot(table: seq<byte>): (r: seq<byte>)
    requires INODE_SIZE <= |table|
    ensures |r| == |table|
  {
    PutInode(table, 0, Stamped(Grown(InodeAt(table, 0))))
  }

  /** The table after the new inode is written and the root gains a link. */
  function TableAfterLink(table: seq<byte>, bit: nat, ino: Inode, now: u64): (r: seq<byte>)
    requires (bit + 1) * INODE_SIZE <= |table|
    ensures |r| == |table|
  {
    LinkRoot(PutInode(table, bit, ino), now)
  }

  /** The root's first data block after the new inode is written: the new inode's own when it
      landed in the root's slot. */
  lemma RootKeepsFirstBlock(table: seq<byte>, bit: nat, ino: Inode, now: u64)
    requires (bit + 1) * INODE_SIZE <= |table|
    ensures InodeAt(TableAfterLink(table, bit, ino, now), 0).direct ==
      (if bit == 0 then ino else InodeAt(table, 0)).direct
  {
    var t1 := PutInode(table, bit, ino);
    PutInodeSpec(table, bit, ino);
    if bit != 0 {
      PutInodeOther(table, bit, ino, 0);
    }
    LinkRootSpec(t1, now);
  }

  /** Relinking rewrites the root's slot with one link more, the new mtime and a fresh CRC, and
      leaves the rest of the table alone. */
  lemma LinkRootSpec(table: seq<byte>, now: u64)
    requires INODE_SIZE <= |table|
    ensures InodeAt(LinkRoot(table, now), 0) == Stamped(Relinked(InodeAt(table, 0), now))
    ensures forall i :: INODE_SIZE <= i < |table| ==> LinkRoot(table, now)[i] == table[i]
  {
    PutInodeSpec(table, 0, Stamped(Relinked(InodeAt(table, 0), now)));
  }

  /** Growing rewrites the root's slot with 64 bytes more and a fresh CRC, and leaves the rest of
      the table alone. */
  lemma GrowRootSpec(table: seq<byte>)
    requires INODE_SIZE <= |table|
    ensures InodeAt(GrowRoot(table), 0) == Stamped(Grown(InodeAt(table, 0)))
    ensures forall i :: INODE_SIZE <= i < |table| ==> GrowRoot(table)[i] == table[i]
  {
    PutInodeSpec(table, 0, Stamped(Grown(InodeAt(table, 0))));
  }

  /** Two tables that agree on a slot's bytes hold the same inode there. */
  lemma SameSlot(a: seq<byte>, b: seq<byte>, slot: nat)
    requires (slot + 1) * INODE_SIZE <= |a| == |b|
    requires forall i :: slot * INODE_SIZE <= i < (slot + 1) * INODE_SIZE ==> a[i] == b[i]
    ensures InodeAt(a, slot) == InodeAt(b, slot)
  {
    assert a[slot * INODE_SIZE..(slot + 1) * INODE_SIZE] == b[slot * INODE_SIZE..(slot + 1) * INODE_SIZE];
  }

  /** Relinking and growing the root leave every byte past the root's slot alone. */
  lemma RootUpdatesKeepRest(table: seq<byte>, now: u64)
    requires INODE_SIZE <= |table|
    ensures forall i :: INODE_SIZE <= i < |table| ==> GrowRoot(LinkRoot(table, now))[i] == table[i]
  {
    LinkRootSpec(table, now);
    GrowRootSpec(LinkRoot(table, now));
  }

  /** The whole update changes the table read only in the new inode's slot and the root's slot,
      and a new inode outside the root's slot reads back as written. */
  lemma TableUpdateSlots(table: seq<byte>, bit: nat, ino: Inode, now: u64)
    requires (bit + 1) * INODE_SIZE <= |table|
    ensures var t := GrowRoot(TableAfterLink(table, bit, ino, now));
      (forall i :: INODE_SIZE <= i < |table| && !(bit * INODE_SIZE <= i < (bit + 1) * INODE_SIZE) ==> t[i] == table[i]) &&
      (bit != 0 ==> InodeAt(t, bit) == ino)
  {
    var t1 := PutInode(table, bit, ino);
    PutInodeSpec(table, bit, ino);
    RootUpdatesKeepRest(t1, now);
    if bit != 0 {
      assert INODE_SIZE <= bit * INODE_SIZE;
      SameSlot(GrowRoot(LinkRoot(t1, now)), t1, bit);
    }
  }

  /** The root's slot after the new inode is written: the new inode when it took that slot,
      the old root otherwise. */
  lemma RootAfterPut(table: seq<byte>, bit: nat, ino: Inode)
    requires (bit + 1) * INODE_SIZE <= |table|
    ensures InodeAt(PutInode(table, bit, ino), 0) == if bit == 0 then ino else InodeAt(table, 0)
  {
    PutInodeSpec(table, bit, ino);
    if bit != 0 {
      PutInodeOther(table, bit, ino, 0);
    }
  }

  /** The root the adder leaves behind: one link more, the clock reading as its mtime and 64
      bytes more. */
  lemma UpdatedRootSpec(before: Inode, now: u64)
    ensures var root := Stamped(Grown(Stamped(Relinked(before, now))));
      root.links == (before.links + 1) % 0x1_0000 && root.mtime == now &&
      root.sizeBytes == (before.sizeBytes + DIRENT_SIZE) % U64_MOD
  {
    var r := Relinked(before, now);
    RestampedRoot(before, now, InodeCrc(r), InodeCrc(Grown(Stamped(r))));
  }

  /** The three changes hold whatever the two CRC values written along the way. */
  lemma RestampedRoot(before: Inode, now: u64, c1: u32, c2: u32)
    ensures var root := Grown(Relinked(before, now).(inodeCrc := c1)).(inodeCrc := c2);
      root.links == (before.links + 1) % 0x1_0000 && root.mtime == now &&
      root.sizeBytes == (before.sizeBytes + DIRENT_SIZE) % U64_MOD
  {
  }

  /** The root's CRC is valid after the second finalization. */
  lemma UpdatedRootValid(before: Inode, now: u64)
    ensures InodeCrcValid(Stamped(Grown(Stamped(Relinked(before, now)))))
  {
    StampedSpec(Grown(Stamped(Relinked(before, now))));
  }

  /** Every other field of the root is as before. */
  lemma UpdatedRootKeeps(before: Inode, now: u64)
    ensures var root := Stamped(Grown(Stamped(Relinked(before, now))));
      root.mode == before.mode && root.uid == before.uid && root.gid == before.gid &&
      root.atime == before.atime && root.ctime == before.ctime && root.direct == before.direct &&
      root.reserved0 == before.reserved0 && root.reserved1 == before.reserved1 &&
      root.reserved2 == before.reserved2 && root.projId == before.projId &&
      root.uid16Gid16 == before.uid16Gid16 && root.xattrPtr == before.xattrPtr
  {
    StampedSpec(Relinked(before, now));
    StampedSpec(Grown(Stamped(Relinked(before, now))));
  }

  /** After the whole update the root's slot holds the root relinked and finalized, then grown and
      finalized again. Before means the new inode when it took the root's slot. */
  lemma TableUpdateRoot(table: seq<byte>, bit: nat, ino: Inode, now: u64)
    requires (bit + 1) * INODE_SIZE <= |table|
    ensures InodeAt(GrowRoot(TableAfterLink(table, bit, ino, now)), 0) ==
      Stamped(Grown(Stamped(Relinked(if bit == 0 then ino else InodeAt(table, 0), now))))
  {
    var t1 := PutInode(table, bit, ino);
    RootAfterPut(table, bit, ino);
    LinkRootSpec(t1, now);
    GrowRootSpec(LinkRoot(t1, now));
  }

  /* ---------------------------------------------------------------- the root directory */

  /** The byte offset of the root directory's block in the data region: the block number minus
      the region start, times the block size, all in 32-bit arithmetic. */
  function RootDirOffset(firstBlock: u32, start: u32): (r: nat)
    ensures r < U32_MOD && r % BS == 0
    ensures firstBlock >= start && firstBlock - start < U32_MOD / BS ==> r == (firstBlock - start) * BS
  {
    BlockAlignedWrap((firstBlock - start) % U32_MOD);
    ((firstBlock - start) % U32_MOD) * BS % U32_MOD
  }

  /** A multiple of the block size stays one when reduced modulo 2^32. */
  lemma BlockAlignedWrap(k: nat)
    ensures (k * BS % U32_MOD) % BS == 0
  {
    var q := k * BS / U32_MOD;
    assert k * BS % U32_MOD == (k - q * 0x10_0000) * BS;
  }

  /** Whether slot i of the directory block at `off` has inode number 0. */
  predicate SlotFree(region: seq<byte>, off: nat, i: nat)
    requires off + BS <= |region| && i < DIRENTS_PER_BLOCK
  {
    Dec(region[off + i * DIRENT_SIZE..off + i * DIRENT_SIZE + 4]) == 0
  }

  /** The first free slot at or after i, or -1. */
  function FreeSlot(region: seq<byte>, off: nat, i: nat): (r: int)
    requires off + BS <= |region| && i <= DIRENTS_PER_BLOCK
    ensures r == -1 || i <= r < DIRENTS_PER_BLOCK
    decreases DIRENTS_PER_BLOCK - i
  {
    if i == DIRENTS_PER_BLOCK then -1
    else if SlotFree(region, off, i) then i
    else FreeSlot(region, off, i + 1)
  }

  /** The slot search finds the lowest free slot at or after i, and fails exactly when none is. */
  lemma {:induction false} FreeSlotSpec(region: seq<byte>, off: nat, i: nat)
    requires off + BS <= |region| && i <= DIRENTS_PER_BLOCK
    ensures FreeSlot(region, off, i) == -1 <==> forall j :: i <= j < DIRENTS_PER_BLOCK ==> !SlotFree(region, off, j)
    ensures FreeSlot(region, off, i) >= 0 ==>
      SlotFree(region, off, FreeSlot(region, off, i)) &&
      forall j :: i <= j < FreeSlot(region, off, i) ==> !SlotFree(region, off, j)
    decreases DIRENTS_PER_BLOCK - i
  {
    if i < DIRENTS_PER_BLOCK && !SlotFree(region, off, i) {
      FreeSlotSpec(region, off, i + 1);
    }
  }

  /** The entry for the file: zeroed, its inode number, type 1, the base name cut to 57 bytes with
      a NUL after it, then the XOR checksum. */
  function NewEntry(inodeNo: u32, path: CString): Dirent
  {
    var d := Dirent(inodeNo, FILE_TYPE_REGULAR, NameBytes(ExtractFilename(path)), 0);
    d.(checksum := DirentChecksum(d))
  }

  /** The entry names the new inode, is a regular file, holds the base name when it fits (its
      first 57 bytes otherwise) and carries a valid checksum. */
  lemma NewEntrySpec(inodeNo: u32, path: CString)
    ensures var e := NewEntry(inodeNo, path);
      e.inodeNo == inodeNo && e.fileType == 1 && e.name[NAME_MAX] == 0 &&
      (NameFits(path) ==> NameOf(e.name) == ExtractFilename(path)) &&
      (!NameFits(path) ==> NameOf(e.name) == ExtractFilename(path)[..NAME_MAX]) &&
      DirentValid(e)
  {
    NameRoundTrip(ExtractFilename(path));
    DirentFinalizedValid(Dirent(inodeNo, FILE_TYPE_REGULAR, NameBytes(ExtractFilename(path)), 0));
  }

  /** The region with an entry written into a slot of the directory block at `off`. */
  function PutEntry(region: seq<byte>, off: nat, slot: nat, e: Dirent): (r: seq<byte>)
    requires off + BS <= |region| && slot < DIRENTS_PER_BLOCK
    ensures |r| == |region|
  {
    Splice(region, off + slot * DIRENT_SIZE, SerializeDirent(e))
  }

  /** The written slot reads back as the entry, and every other byte is unchanged. */
  lemma PutEntrySpec(region: seq<byte>, off: nat, slot: nat, e: Dirent)
    requires off + BS <= |region| && slot < DIRENTS_PER_BLOCK
    ensures var p := off + slot * DIRENT_SIZE;
      ParseDirent(PutEntry(region, off, slot, e)[p..p + DIRENT_SIZE]) == e &&
      forall i :: 0 <= i < |region| && !(p <= i < p + DIRENT_SIZE) ==> PutEntry(region, off, slot, e)[i] == region[i]
  {
    DirentParseSerialize(e);
  }

  /* ---------------------------------------------------------------- the content */

  /** The bytes that go into block i of an n-block file: a whole block, or the rest of the file
      for the last one. */
  function Chunk(content: seq<byte>, n: nat, i: nat): (r: seq<byte>)
    requires i < n && (n - 1) * BS < |content| <= n * BS
    ensures |r| <= BS
  {
    if i == n - 1 then content[i * BS..]
    else
      assert (i + 1) * BS <= (n - 1) * BS;
      content[i * BS..(i + 1) * BS]
  }

  /** The chunks put back together are the content. */
  lemma {:induction false} ChunksCover(content: seq<byte>, n: nat, i: nat)
    requires i < n && (n - 1) * BS < |content| <= n * BS
    ensures Chunk(content, n, i) == content[i * BS..if i == n - 1 then |content| else (i + 1) * BS]
    ensures |Chunk(content, n, i)| > 0
  {
    if i < n - 1 {
      assert (i + 1) * BS <= (n - 1) * BS;
    }
  }

  /** The content fits the blocks handed out: n blocks round its size up, and each block lies
      inside the region. */
  predicate ContentFits(region: seq<byte>, bits: seq<nat>, content: seq<byte>)
  {
    (|bits| == 0 || (|bits| - 1) * BS < |content| <= |bits| * BS) &&
    forall i :: 0 <= i < |bits| ==> (bits[i] + 1) * BS <= |region|
  }

  /** `memset(block_data, 0, BS); memcpy(block_data, ..., bytes_to_copy)`. */
  function WriteBlock(region: seq<byte>, b: nat, data: seq<byte>): (r: seq<byte>)
    requires (b + 1) * BS <= |region| && |data| <= BS
    ensures |r| == |region|
  {
    Splice(region, b * BS, PadBlock(data))
  }

  /** The region after the first k blocks of the file are copied in. */
  function CopyContent(region: seq<byte>, bits: seq<nat>, content: seq<byte>, k: nat): (r: seq<byte>)
    requires ContentFits(region, bits, content) && k <= |bits|
    ensures |r| == |region|
  {
    if k == 0 then region
    else WriteBlock(CopyContent(region, bits, content, k - 1), bits[k - 1], Chunk(content, |bits|, k - 1))
  }

  /** With distinct blocks, after k copies each of the first k blocks holds its chunk padded
      with zeros, and every byte outside those blocks is unchanged. */
  lemma CopyContentSpec(region: seq<byte>, bits: seq<nat>, content: seq<byte>, k: nat)
    requires ContentFits(region, bits, content) && k <= |bits|
    requires forall i, j :: 0 <= i < j < |bits| ==> bits[i] != bits[j]
    ensures forall i :: 0 <= i < k ==>
      CopyContent(region, bits, content, k)[bits[i] * BS..(bits[i] + 1) * BS] == PadBlock(Chunk(content, |bits|, i))
    ensures forall p :: 0 <= p < |region| && (forall i :: 0 <= i < k ==> !(bits[i] * BS <= p < (bits[i] + 1) * BS)) ==>
      CopyContent(region, bits, content, k)[p] == region[p]
  {
    CopyContentBlocks(region, bits, content, k);
    CopyContentElsewhere(region, bits, content, k);
  }

  lemma {:induction false} CopyContentBlocks(region: seq<byte>, bits: seq<nat>, content: seq<byte>, k: nat)
    requires ContentFits(region, bits, content) && k <= |bits|
    requires forall i, j :: 0 <= i < j < |bits| ==> bits[i] != bits[j]
    ensures forall i :: 0 <= i < k ==>
      CopyContent(region, bits, content, k)[bits[i] * BS..(bits[i] + 1) * BS] == PadBlock(Chunk(content, |bits|, i))
  {
    if k > 0 {
      CopyContentBlocks(region, bits, content, k - 1);
      CopyContentBlocksStep(region, bits, content, k);
    }
  }

  /** One more copy writes block k - 1 and keeps the blocks written before it. */
  lemma CopyContentBlocksStep(region: seq<byte>, bits: seq<nat>, content: seq<byte>, k: nat)
    requires ContentFits(region, bits, content) && 0 < k <= |bits|
    requires forall i, j :: 0 <= i < j < |bits| ==> bits[i] != bits[j]
    requires forall i :: 0 <= i < k - 1 ==>
      CopyContent(region, bits, content, k - 1)[bits[i] * BS..(bits[i] + 1) * BS] == PadBlock(Chunk(content, |bits|, i))
    ensures forall i :: 0 <= i < k ==>
      CopyContent(region, bits, content, k)[bits[i] * BS..(bits[i] + 1) * BS] == PadBlock(Chunk(content, |bits|, i))
  {
    var prev := CopyContent(region, bits, content, k - 1);
    var b := bits[k - 1];
    var data := Chunk(content, |bits|, k - 1);
    assert CopyContent(region, bits, content, k) == WriteBlock(prev, b, data);
    WriteKeepsBlocks(prev, bits, content, k);
  }

  /** Writing block k - 1 into a region whose first k - 1 blocks hold their chunks leaves the
      first k blocks holding theirs. */
  lemma WriteKeepsBlocks(prev: seq<byte>, bits: seq<nat>, content: seq<byte>, k: nat)
    requires ContentFits(prev, bits, content) && 0 < k <= |bits|
    requires forall i, j :: 0 <= i < j < |bits| ==> bits[i] != bits[j]
    requires forall i :: 0 <= i < k - 1 ==>
      prev[bits[i] * BS..(bits[i] + 1) * BS] == PadBlock(Chunk(content, |bits|, i))
    ensures forall i :: 0 <= i < k ==>
      WriteBlock(prev, bits[k - 1], Chunk(content, |bits|, k - 1))[bits[i] * BS..(bits[i] + 1) * BS]
        == PadBlock(Chunk(content, |bits|, i))
  {
    var b, data := bits[k - 1], Chunk(content, |bits|, k - 1);
    WriteBlockHere(prev, b, data);
    forall i | 0 <= i < k - 1
      ensures WriteBlock(prev, b, data)[bits[i] * BS..(bits[i] + 1) * BS] == prev[bits[i] * BS..(bits[i] + 1) * BS]
    {
      WriteBlockOther(prev, b, data, bits[i]);
    }
  }

  lemma {:induction false} CopyContentElsewhere(region: seq<byte>, bits: seq<nat>, content: seq<byte>, k: nat)
    requires ContentFits(region, bits, content) && k <= |bits|
    ensures forall p :: 0 <= p < |region| && (forall i :: 0 <= i < k ==> !(bits[i] * BS <= p < (bits[i] + 1) * BS)) ==>
      CopyContent(region, bits, content, k)[p] == region[p]
  {
    if k > 0 {
      CopyContentElsewhere(region, bits, content, k - 1);
      var prev := CopyContent(region, bits, content, k - 1);
      var b := bits[k - 1];
      var data := Chunk(content, |bits|, k - 1);
      assert CopyContent(region, bits, content, k) == WriteBlock(prev, b, data);
      WriteBlockOutside(prev, b, data);
    }
  }

  /** The written block holds the data padded with zeros. */
  lemma WriteBlockHere(region: seq<byte>, b: nat, data: seq<byte>)
    requires (b + 1) * BS <= |region| && |data| <= BS
    ensures WriteBlock(region, b, data)[b * BS..(b + 1) * BS] == PadBlock(data)
  {
    assert b * BS + BS == (b + 1) * BS;
  }

  /** Another block keeps its bytes. */
  lemma WriteBlockOther(region: seq<byte>, b: nat, data: seq<byte>, c: nat)
    requires (b + 1) * BS <= |region| && |data| <= BS && (c + 1) * BS <= |region| && c != b
    ensures WriteBlock(region, b, data)[c * BS..(c + 1) * BS] == region[c * BS..(c + 1) * BS]
  {
    if c < b {
      assert (c + 1) * BS <= b * BS;
    } else {
      assert (b + 1) * BS <= c * BS;
    }
  }

  /** A byte outside the written block keeps its value. */
  lemma WriteBlockOutside(region: seq<byte>, b: nat, data: seq<byte>)
    requires (b + 1) * BS <= |region| && |data| <= BS
    ensures forall p :: 0 <= p < |region| && !(b * BS <= p < (b + 1) * BS) ==> WriteBlock(region, b, data)[p] == region[p]
  {
    assert b * BS + BS == (b + 1) * BS;
  }

  /* ---------------------------------------------------------------- the superblock */

  /** `sb.mtime_epoch = now; superblock_crc_finalize(&sb)`. */
  function Restamped(sb: Superblock, now: u64): Superblock
  {
    var s := sb.(mtimeEpoch := now);
    s.(checksum := SuperblockCrc(s))
  }

  /** The refreshed superblock differs from the one read only in its mtime and checksum, and its
      checksum is valid. */
  lemma RestampedSpec(sb: Superblock, now: u64)
    ensures Restamped(sb, now).(mtimeEpoch := sb.mtimeEpoch, checksum := sb.checksum) == sb
    ensures Restamped(sb, now).mtimeEpoch == now && SuperblockChecksumValid(Restamped(sb, now))
  {
    SuperblockFinalizedValid(sb.(mtimeEpoch := now));
  }

  /* ---------------------------------------------------------------- the whole insertion */

  /** The inode table and the data region as read, one after the other, after the bitmaps. */
  function TableBytes(img: seq<byte>, sb: Superblock): (r: seq<byte>)
    requires (3 + sb.inodeTableBlocks) * BS <= |img|
    ensures |r| == sb.inodeTableBlocks * BS
  {
    img[3 * BS..(3 + sb.inodeTableBlocks) * BS]
  }

  function RegionBytes(img: seq<byte>, sb: Superblock): (r: seq<byte>)
    requires (3 + sb.inodeTableBlocks + sb.dataRegionBlocks) * BS <= |img|
    ensures |r| == sb.dataRegionBlocks * BS
  {
    img[(3 + sb.inodeTableBlocks) * BS..(3 + sb.inodeTableBlocks + sb.dataRegionBlocks) * BS]
  }

  /** The 32-bit region start the adder computes block numbers from. */
  function Start(sb: Superblock): u32
  {
    sb.dataRegionStart % U32_MOD
  }

  /** The root directory's first block as the adder will read it: the new inode's first block
      when the new inode took the root's slot. */
  function RootFirstBlock(img: seq<byte>, sb: Superblock, g: Grant): u32
    requires (3 + sb.inodeTableBlocks) * BS <= |img| && INODE_SIZE <= sb.inodeTableBlocks * BS
    requires |g.bits| <= DIRECT_MAX
  {
    if g.inodeBit == 0 then DirectFor(DataBlockNumbers(Start(sb), g.bits))[0]
    else InodeAt(TableBytes(img, sb), 0).direct[0]
  }

  /** Where the writes after the allocation stay inside the table and the region: the new inode's
      slot lies in the table, and the root directory's block in the region. */
  predicate InsertDefined(img: seq<byte>, sb: Superblock, g: Grant)
  {
    var itb, drb := sb.inodeTableBlocks, sb.dataRegionBlocks;
    |g.bits| <= DIRECT_MAX &&
    ((3 + itb) * BS <= |img| ==>
      (g.inodeBit + 1) * INODE_SIZE <= itb * BS &&
      ((3 + itb + drb) * BS <= |img| ==>
        RootDirOffset(RootFirstBlock(img, sb, g), Start(sb)) + BS <= drb * BS))
  }

  /** Everything after the allocation: read the table, write the new inode, link the root, read
      the region, find a slot, write the entry, grow the root, copy the content, refresh the
      superblock, and assemble the output in file order. */
  function Insert(img: seq<byte>, path: CString, content: seq<byte>, now: u64, sb: Superblock, g: Grant): (r: Result<Added, AddError>)
    requires Granted(sb, content, g) && InsertDefined(img, sb, g)
  {
    var itb, drb := sb.inodeTableBlocks, sb.dataRegionBlocks;
    if |img| < (3 + itb) * BS then Failure(ShortInodeTable)
    else if |img| < (3 + itb + drb) * BS then Failure(ShortDataRegion)
    else
      InsertBounds(img, content, now, sb, g);
      Finish(HeadBlock(sb, now), g, GrowRoot(LinkedTable(img, content, now, sb, g)),
             FillRegion(RegionBytes(img, sb), RootOffset(img, content, now, sb, g), g.inodeNo, path, content, g.bits))
  }

  /** `Insert` from the root's offset and the linked table as the caller computed them. */
  lemma InsertFrom(img: seq<byte>, path: CString, content: seq<byte>, now: u64, sb: Superblock, g: Grant,
                   off: nat, linked: seq<byte>, r: Result<Added, AddError>)
    requires Granted(sb, content, g) && InsertDefined(img, sb, g)
    requires (3 + sb.inodeTableBlocks + sb.dataRegionBlocks) * BS <= |img| && RegionReady(img, content, now, sb, g)
    requires linked == LinkedTable(img, content, now, sb, g) && off == RootOffset(img, content, now, sb, g)
    requires r == Finish(HeadBlock(sb, now), g, GrowRoot(linked), FillRegion(RegionBytes(img, sb), off, g.inodeNo, path, content, g.bits))
    ensures r == Insert(img, path, content, now, sb, g)
  {}

  /** The output image once the table is grown and the region filled, with the new inode's number;
      a failure to fill the region is the result. */
  function Finish(head: seq<byte>, g: Grant, table: seq<byte>, fill: Result<seq<byte>, AddError>): (r: Result<Added, AddError>)
    ensures r.Failure? <==> fill.Failure?
    ensures r.Failure? ==> r.error == fill.error
    ensures r.Success? ==> r.value.inodeNo == g.inodeNo
  {
    match fill
    case Failure(e) => Failure(e)
    case Success(region) => Success(Added(Output(head, g.inodeBitmap, g.dataBitmap, table, region), g.inodeNo))
  }

  /** The inode table with the new file's inode in its slot and the root relinked. */
  function LinkedTable(img: seq<byte>, content: seq<byte>, now: u64, sb: Superblock, g: Grant): (r: seq<byte>)
    requires |content| < U64_MOD && InsertDefined(img, sb, g) && (3 + sb.inodeTableBlocks) * BS <= |img|
    ensures |r| == sb.inodeTableBlocks * BS
  {
    TableAfterLink(TableBytes(img, sb), g.inodeBit, FileInode(|content|, DataBlockNumbers(Start(sb), g.bits), now), now)
  }

  /** What filling the region needs: the table and the region are in the image, the new inode's
      number fits 32 bits, the root's first block lies inside the region, and so do the granted
      blocks. */
  predicate RegionReady(img: seq<byte>, content: seq<byte>, now: u64, sb: Superblock, g: Grant)
  {
    |content| < U64_MOD && InsertDefined(img, sb, g) &&
    (3 + sb.inodeTableBlocks + sb.dataRegionBlocks) * BS <= |img| && g.inodeNo < U32_MOD &&
    RootOffset(img, content, now, sb, g) + BS <= |RegionBytes(img, sb)| &&
    ContentFits(RegionBytes(img, sb), g.bits, content)
  }

  /** Where the root directory's first block starts in the region, read from the linked table. */
  function RootOffset(img: seq<byte>, content: seq<byte>, now: u64, sb: Superblock, g: Grant): nat
    requires |content| < U64_MOD && InsertDefined(img, sb, g) && (3 + sb.inodeTableBlocks) * BS <= |img|
  {
    RootDirOffset(InodeAt(LinkedTable(img, content, now, sb, g), 0).direct[0], Start(sb))
  }

  /** The superblock's block as written back: refreshed, then padded with zeros to a block. */
  function HeadBlock(sb: Superblock, now: u64): (r: seq<byte>)
    ensures |r| == BS
  {
    PadBlock(SerializeSuperblock(Restamped(sb, now)))
  }

  /** The image written back, in file order: the superblock's block, both bitmaps, the inode
      table and the data region. */
  function Output(head: seq<byte>, inodeBitmap: seq<byte>, dataBitmap: seq<byte>, table: seq<byte>, region: seq<byte>): seq<byte>
  {
    head + inodeBitmap + dataBitmap + table + region
  }

  /** The buffers `Insert` reaches into are large enough: the new inode's number fits 32 bits,
      the root's first block lies inside the data region, and so do the granted blocks. */
  lemma InsertBounds(img: seq<byte>, content: seq<byte>, now: u64, sb: Superblock, g: Grant)
    requires Granted(sb, content, g) && InsertDefined(img, sb, g)
    requires (3 + sb.inodeTableBlocks + sb.dataRegionBlocks) * BS <= |img|
    ensures RegionReady(img, content, now, sb, g)
  {
    GrantedFits(RegionBytes(img, sb), sb, content, g);
    RootSlotBound(img, content, now, sb, g);
  }

  /** The root's first block, read back after the new inode is written and the root relinked, is
      the one `InsertDefined` bounds. */
  lemma RootSlotBound(img: seq<byte>, content: seq<byte>, now: u64, sb: Superblock, g: Grant)
    requires |content| < U64_MOD && InsertDefined(img, sb, g)
    requires (3 + sb.inodeTableBlocks + sb.dataRegionBlocks) * BS <= |img|
    ensures RootDirOffset(InodeAt(LinkedTable(img, content, now, sb, g), 0).direct[0], Start(sb)) + BS <= |RegionBytes(img, sb)|
  {
    var ino := FileInode(|content|, DataBlockNumbers(Start(sb), g.bits), now);
    RootKeepsFirstBlock(TableBytes(img, sb), g.inodeBit, ino, now);
  }

  /** The data region's part: find a free slot in the root's block at `off`, write the entry
      there, then copy the content into the granted blocks. */
  function FillRegion(region: seq<byte>, off: nat, inodeNo: u32, path: CString, content: seq<byte>, bits: seq<nat>): (r: Result<seq<byte>, AddError>)
    requires off + BS <= |region| && ContentFits(region, bits, content)
    ensures r.Success? ==> |r.value| == |region|
    ensures r.Failure? ==> r.error == DirectoryFull
  {
    var slot := FreeSlot(region, off, 2);
    if slot < 0 then Failure(DirectoryFull)
    else
      var withEntry := PutEntry(region, off, slot, NewEntry(inodeNo, path));
      Success(CopyContent(withEntry, bits, content, |bits|))
  }

  /** Where the C code stays inside its buffers for these inputs. */
  predicate AddDefined(img: seq<byte>, path: CString, content: seq<byte>)
  {
    |content| < U64_MOD &&
    (CheckFile(path, content).None? && ReadHeader(img).Success? ==>
      var h := ReadHeader(img).value;
      var n := BlocksNeeded(|content|);
      ReserveDefined(h, n) && (Reserve(h, n).Success? ==> InsertDefined(img, h.sb, Reserve(h, n).value)))
  }

  /** What `mkfs_adder` produces for an input image, a path, the file's content and the clock
      reading. */
  function AddFileSpec(img: seq<byte>, path: CString, content: seq<byte>, now: u64): (r: Result<Added, AddError>)
    requires AddDefined(img, path, content)
  {
    match CheckFile(path, content)
    case Some(e) => Failure(e)
    case None =>
      match ReadHeader(img)
      case Failure(e) => Failure(e)
      case Success(h) =>
        match Reserve(h, BlocksNeeded(|content|))
        case Failure(e) => Failure(e)
        case Success(g) =>
          ReserveGranted(h, path, content, g);
          Insert(img, path, content, now, h.sb, g)
  }
  /** The insertion fails at the first stage that fails, in the order the tool runs them: the
      name and size checks before the image is read, the header before the allocation, and the
      allocation before anything is written; a new inode number is always 1 to 32768. */
  lemma AddFileStages(img: seq<byte>, path: CString, content: seq<byte>, now: u64)
    requires AddDefined(img, path, content)
    ensures var r := AddFileSpec(img, path, content, now);
      (CheckFile(path, content).Some? ==> r == Failure(CheckFile(path, content).value)) &&
      (CheckFile(path, content).None? && ReadHeader(img).Failure? ==> r == Failure(ReadHeader(img).error)) &&
      (CheckFile(path, content).None? && ReadHeader(img).Success? &&
       Reserve(ReadHeader(img).value, BlocksNeeded(|content|)).Failure? ==>
         r == Failure(Reserve(ReadHeader(img).value, BlocksNeeded(|content|)).error)) &&
      (r.Success? ==> 1 <= r.value.inodeNo <= 8 * BS)
  {
    if CheckFile(path, content).None? && ReadHeader(img).Success? {
      var h := ReadHeader(img).value;
      if Reserve(h, BlocksNeeded(|content|)).Success? {
        ReserveGranted(h, path, content, Reserve(h, BlocksNeeded(|content|)).value);
      }
    }
  }

  /** A successful insertion passed the file checks, read the header and reserved an inode and
      the data blocks; the new inode number is the lowest free inode bit plus one; the output runs
      to the end of the data region, with the refreshed superblock in block 0, the inode bitmap
      with just that bit added in block 1, the data bitmap after the block allocation in block 2,
      then the inode table with the new inode written and the root linked and grown, then the
      data region with the new entry in the root directory and the content copied in. */
  lemma AddFileOutcome(img: seq<byte>, path: CString, content: seq<byte>, now: u64)
    requires AddDefined(img, path, content) && AddFileSpec(img, path, content, now).Success?
    ensures CheckFile(path, content) == None && ReadHeader(img).Success?
    ensures var h := ReadHeader(img).value;
      Reserve(h, BlocksNeeded(|content|)).Success? &&
      RegionReady(img, content, now, h.sb, Reserve(h, BlocksNeeded(|content|)).value)
    ensures var h := ReadHeader(img).value;
      var g := Reserve(h, BlocksNeeded(|content|)).value;
      var out := AddFileSpec(img, path, content, now).value.image;
      var tableEnd := (3 + h.sb.inodeTableBlocks) * BS;
      tableEnd <= |out| &&
      out[3 * BS..tableEnd] == GrowRoot(LinkedTable(img, content, now, h.sb, g)) &&
      FillRegion(RegionBytes(img, h.sb), RootOffset(img, content, now, h.sb, g), g.inodeNo, path, content, g.bits)
        == Success(out[tableEnd..])
    ensures var h := ReadHeader(img).value;
      var out := AddFileSpec(img, path, content, now).value;
      var bit := FreeBit(h.inodeBitmap, InodeLimit(h.sb));
      var run := AllocRun(h.dataBitmap, BlockLimit(h.sb), BlocksNeeded(|content|));
      bit >= 0 && run.Some? && out.inodeNo == bit + 1 &&
      |out.image| == (3 + h.sb.inodeTableBlocks + h.sb.dataRegionBlocks) * BS <= |img| &&
      ParseSuperblock(Block(out.image, 0)[..SUPERBLOCK_SIZE]) == Restamped(h.sb, now) &&
      Block(out.image, 1) == WithBit(h.inodeBitmap, bit) &&
      Block(out.image, 2) == run.value.bitmap
  {
    var h := ReadHeader(img).value;
    var g := Reserve(h, BlocksNeeded(|content|)).value;
    ReserveGranted(h, path, content, g);
    var sb := h.sb;
    assert (3 + sb.inodeTableBlocks + sb.dataRegionBlocks) * BS <= |img|;
    InsertBounds(img, content, now, sb, g);
    var table := GrowRoot(LinkedTable(img, content, now, sb, g));
    var fill := FillRegion(RegionBytes(img, sb), RootOffset(img, content, now, sb, g), g.inodeNo, path, content, g.bits);
    var head := HeadBlock(sb, now);
    OutputBlocks(head, g.inodeBitmap, g.dataBitmap, table, fill.value);
    SuperblockBlockBack(Restamped(sb, now));
  }

  /** The first three blocks of the output are the superblock's block and the two bitmaps, and
      the table and the region follow them. */
  lemma OutputBlocks(head: seq<byte>, inodeBitmap: seq<byte>, dataBitmap: seq<byte>, table: seq<byte>, region: seq<byte>)
    requires |head| == BS && |inodeBitmap| == BS && |dataBitmap| == BS
    ensures var out := Output(head, inodeBitmap, dataBitmap, table, region);
      |out| == 3 * BS + |table| + |region| &&
      Block(out, 0) == head && Block(out, 1) == inodeBitmap && Block(out, 2) == dataBitmap &&
      out[3 * BS..3 * BS + |table|] == table && out[3 * BS + |table|..] == region
  {
    var x := head + inodeBitmap + dataBitmap;
    assert Output(head, inodeBitmap, dataBitmap, table, region) == x + (table + region);
    assert (x + (table + region))[|x|..] == table + region;
    assert (table + region)[..|table|] == table && (table + region)[|table|..] == region;
    BlockOfFront(x, table + region, 0);
    BlockOfFront(x, table + region, 1);
    BlockOfFront(x, table + region, 2);
    assert Block(x, 0) == head;
    assert Block(x, 1) == inodeBitmap;
    assert Block(x, 2) == dataBitmap;
  }
}
