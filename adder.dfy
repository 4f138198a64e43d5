/** `mkfs_adder`'s main as it runs: the image read into buffers block by block, the bitmaps
    scanned and updated in place, the inode table and the data region patched in memory, and
    the output assembled in file order. Each step is proved against the function in `AddSpec`
    that describes it. */
module Adder {
  import opened Wire
  import opened Crc
  import opened Format
  import opened Finalize
  import opened Bitmap
  import opened Paths
  import opened Builder
  import opened AddSpec

  /** `fread(buf, BS, count, input_file)` with the file positioned at block `first`. */
  method ReadBlocks(img: seq<byte>, first: nat, count: nat) returns (buf: array<byte>)
    requires (first + count) * BS <= |img|
    ensures fresh(buf) && buf[..] == img[first * BS..(first + count) * BS]
  {
    buf := new byte[count * BS](i requires 0 <= i < count * BS => img[first * BS + i]);
  }

  /** The allocation loop: n rounds of `find_free_bit` then `set_bit` on the data bitmap, each
      bit recorded in `data_blocks` as `(uint32_t)data_region_start + bit`. */
  method AllocateDataBlocks(dataBitmap: array<byte>, dataBlocks: array<u32>, limit: u32, start: u32, n: nat)
    returns (ok: bool, ghost bits: seq<nat>)
    requires dataBitmap.Length == BS && RunInBounds(dataBitmap[..], limit, n)
    requires n <= dataBlocks.Length && dataBitmap as object != dataBlocks
    modifies dataBitmap, dataBlocks
    ensures ok <==> AllocRun(old(dataBitmap[..]), limit, n).Some?
    ensures ok ==> AllocRun(old(dataBitmap[..]), limit, n).value == Alloc(bits, dataBitmap[..])
    ensures ok ==> dataBlocks[..n] == DataBlockNumbers(start, bits)
  {
    ghost var bm0 := dataBitmap[..];
    bits := [];
    var i := 0;
    while i < n
      invariant i <= n
      invariant AllocRun(bm0, limit, i) == Some(Alloc(bits, dataBitmap[..]))
      invariant dataBlocks[..i] == DataBlockNumbers(start, bits)
    {
      RunRoundInBounds(bm0, limit, n, i);
      var bit := FindFreeBit(dataBitmap, limit);
      if bit < 0 {
        AllocRunStops(bm0, limit, i + 1, n);
        return false, bits;
      }
      ghost var bm := dataBitmap[..];
      AllocStep(bm0, limit, i, bits, bm, bit);
      dataBlocks[i] := (start + bit) % U32_MOD;
      assert dataBitmap[..] == bm;
      SetBit(dataBitmap, bit);
      assert dataBitmap[..] == WithBit(bm, bit);
      ghost var b: nat := bit;
      NumbersSnoc(start, bits, b);
      assert dataBlocks[..i + 1] == dataBlocks[..i] + [dataBlocks[i]];
      bits := bits + [b];
      i := i + 1;
    }
    ok := true;
  }

  /** One more bit, one more block number at the end. */
  lemma NumbersSnoc(start: u32, bits: seq<nat>, b: nat)
    ensures DataBlockNumbers(start, bits + [b]) == DataBlockNumbers(start, bits) + [(start + b) % U32_MOD]
  {
    assert forall k :: 0 <= k < |bits| ==> (bits + [b])[k] == bits[k];
  }

  /** One more round of the run: the bit found is appended and set. */
  lemma AllocStep(bm0: seq<byte>, limit: u32, i: nat, bits: seq<nat>, bm: seq<byte>, bit: nat)
    requires AllocRun(bm0, limit, i) == Some(Alloc(bits, bm))
    requires bit == FreeBit(bm, limit)
    ensures bit < 8 * |bm|
    ensures AllocRun(bm0, limit, i + 1) == Some(Alloc(bits + [bit], WithBit(bm, bit)))
  {
  }

  /** The two loops over `direct`: the allocated block numbers, then zeros. */
  method FillDirect(dataBlocks: array<u32>, n: nat) returns (direct: DirectBlocks)
    requires n <= DIRECT_MAX == dataBlocks.Length
    ensures direct == DirectFor(dataBlocks[..n])
  {
    var d := new u32[DIRECT_MAX];
    var i := 0;
    while i < n
      invariant i <= n
      invariant forall k :: 0 <= k < i ==> d[k] == dataBlocks[k]
    {
      d[i] := dataBlocks[i];
      i := i + 1;
    }
    while i < DIRECT_MAX
      invariant n <= i <= DIRECT_MAX
      invariant forall k :: 0 <= k < n ==> d[k] == dataBlocks[k]
      invariant forall k :: n <= k < i ==> d[k] == 0
    {
      d[i] := 0;
      i := i + 1;
    }
    direct := d[..];
    assert forall k :: 0 <= k < DIRECT_MAX ==> direct[k] == DirectFor(dataBlocks[..n])[k];
  }

  /** The new inode: every field set, the direct pointers filled, `inode_crc_finalize`, and the
      record written into its slot of the table. */
  method WriteNewInode(tab: array<nat>, table: array<byte>, slot: nat, size: u64, dataBlocks: array<u32>, n: nat, now: u64)
    requires IsCrcTable(tab) && (slot + 1) * INODE_SIZE <= table.Length
    requires n <= DIRECT_MAX == dataBlocks.Length
    modifies table
    ensures table[..] == PutInode(old(table[..]), slot, FileInode(size, dataBlocks[..n], now))
  {
    var direct := FillDirect(dataBlocks, n);
    var ino := Inode(
      mode := MODE_FILE, links := 1, uid := 0, gid := 0,
      sizeBytes := size, atime := now, mtime := now, ctime := now,
      direct := direct,
      reserved0 := 0, reserved1 := 0, reserved2 := 0, projId := PROJ_ID,
      uid16Gid16 := 0, xattrPtr := 0, inodeCrc := 0);
    ino := InodeCrcFinalize(tab, ino);
    CopyIn(table, slot * INODE_SIZE, SerializeInode(ino));
  }

  /** `root_inode->links++; root_inode->mtime = now; inode_crc_finalize(root_inode)` on the
      record in slot 0; the root as it now stands is returned. */
  method LinkRootIn(tab: array<nat>, table: array<byte>, now: u64) returns (root: Inode)
    requires IsCrcTable(tab) && INODE_SIZE <= table.Length
    modifies table
    ensures table[..] == LinkRoot(old(table[..]), now)
    ensures root == InodeAt(table[..], 0)
  {
    ghost var t0 := table[..];
    root := ParseInode(table[..INODE_SIZE]);
    assert root == InodeAt(t0, 0);
    root := Relinked(root, now);
    root := InodeCrcFinalize(tab, root);
    CopyIn(table, 0, SerializeInode(root));
    PutInodeSpec(t0, 0, root);
  }

  /** `root_inode->size_bytes += sizeof(dirent64_t); inode_crc_finalize(root_inode)`. */
  method GrowRootIn(tab: array<nat>, table: array<byte>)
    requires IsCrcTable(tab) && INODE_SIZE <= table.Length
    modifies table
    ensures table[..] == GrowRoot(old(table[..]))
  {
    ghost var t0 := table[..];
    var root := ParseInode(table[..INODE_SIZE]);
    assert root == InodeAt(t0, 0);
    root := Grown(root);
    root := InodeCrcFinalize(tab, root);
    CopyIn(table, 0, SerializeInode(root));
  }

  /** The scan of slots 2 to 63 of the root directory block for an entry with inode number 0. */
  method FindFreeEntry(region: array<byte>, off: nat) returns (idx: int)
    requires off + BS <= region.Length
    ensures idx == FreeSlot(region[..], off, 2)
  {
    idx := -1;
    var i := 2;
    while i < DIRENTS_PER_BLOCK
      invariant 2 <= i <= DIRENTS_PER_BLOCK
      invariant FreeSlot(region[..], off, 2) == FreeSlot(region[..], off, i)
    {
      var p := off + i * DIRENT_SIZE;
      if Dec(region[p..p + 4]) == 0 {
        assert SlotFree(region[..], off, i);
        idx := i;
        return;
      }
      i := i + 1;
    }
  }

  /** The new entry: inode number, type, the base name cut by `strncpy` with a NUL after it,
      `dirent_checksum_finalize`, and the record written into its slot. */
  method WriteEntry(region: array<byte>, off: nat, idx: nat, inodeNo: u32, path: CString)
    requires off + BS <= region.Length && idx < DIRENTS_PER_BLOCK
    modifies region
    ensures region[..] == PutEntry(old(region[..]), off, idx, NewEntry(inodeNo, path))
  {
    var e := Dirent(inodeNo, FILE_TYPE_REGULAR, NameBytes(ExtractFilename(path)), 0);
    e := DirentChecksumFinalize(e);
    CopyIn(region, off + idx * DIRENT_SIZE, SerializeDirent(e));
  }

  /** `memset(block_data, 0, BS); memcpy(block_data, chunk, bytes_to_copy)`. */
  method FillBlock(region: array<byte>, p: nat, data: seq<byte>)
    requires p + BS <= region.Length && |data| <= BS
    modifies region
    ensures region[..] == Splice(old(region[..]), p, PadBlock(data))
  {
    forall i | p <= i < p + BS {
      region[i] := 0;
    }
    ghost var cleared := region[..];
    CopyIn(region, p, data);
    ghost var want := Splice(old(region[..]), p, PadBlock(data));
    forall i | 0 <= i < region.Length
      ensures region[i] == want[i]
    {
      if p <= i < p + BS {
        assert want[p..p + BS][i - p] == PadBlock(data)[i - p];
        if i < p + |data| {
          assert region[..][p..p + |data|][i - p] == data[i - p];
        } else {
          assert region[i] == cleared[i];
        }
      }
    }
    assert region[..] == want;
  }

  /** Block number minus region start, times the block size, as the adder computes both in 32
      bits: for the i-th block handed out, a bit of the one-block bitmap, this is the bit's byte
      offset in the region. */
  method BlockOffset(dataBlocks: seq<u32>, start: u32, i: nat, ghost bits: seq<nat>) returns (p: nat)
    requires dataBlocks == DataBlockNumbers(start, bits) && i < |bits| && bits[i] < 8 * BS
    ensures p == bits[i] * BS
  {
    var blockOffset := (dataBlocks[i] - start) % U32_MOD;
    p := blockOffset * BS % U32_MOD;
  }

  /** The bytes the i-th pass copies: `bytes_to_copy` is a whole block, except the rest of the
      content for the last one, taken from `file_content + i * BS`; they are the i-th chunk. */
  method ChunkAt(content: seq<byte>, n: nat, i: nat) returns (data: seq<byte>)
    requires i < n && (n - 1) * BS < |content| <= n * BS && |content| < U64_MOD
    ensures data == Chunk(content, n, i)
  {
    var bytesToCopy := if i == n - 1 then (|content| - i * BS) % U64_MOD else BS;
    ChunkBytes(content, n, i, bytesToCopy);
    data := content[i * BS..i * BS + bytesToCopy];
  }

  /** One more block of the content loop is one more `WriteBlock`. */
  lemma CopyContentStep(r0: seq<byte>, bits: seq<nat>, content: seq<byte>, i: nat, prev: seq<byte>, next: seq<byte>)
    requires ContentFits(r0, bits, content) && i < |bits|
    requires prev == CopyContent(r0, bits, content, i)
    requires next == Splice(prev, bits[i] * BS, PadBlock(Chunk(content, |bits|, i)))
    ensures next == CopyContent(r0, bits, content, i + 1)
  {}

  /** One pass of the content loop: the data block at byte offset p is cleared and then filled
      with the i-th chunk of the content. */
  method CopyPass(region: array<byte>, p: nat, content: seq<byte>, n: nat, i: nat,
                  ghost r0: seq<byte>, ghost bits: seq<nat>)
    requires |content| < U64_MOD && ContentFits(r0, bits, content) && i < n == |bits| && p == bits[i] * BS
    requires region[..] == CopyContent(r0, bits, content, i)
    modifies region
    ensures region[..] == CopyContent(r0, bits, content, i + 1)
  {
    var data := ChunkAt(content, n, i);
    ghost var prev := region[..];
    FillBlock(region, p, data);
    CopyContentStep(r0, bits, content, i, prev, region[..]);
  }

  /** The content loop: file block i goes to data block `data_blocks[i] - data_region_start`,
      cleared and then filled with the i-th chunk of the content. */
  method CopyFileContent(region: array<byte>, dataBlocks: seq<u32>, start: u32, content: seq<byte>, ghost bits: seq<nat>)
    requires |content| < U64_MOD
    requires ContentFits(region[..], bits, content)
    requires dataBlocks == DataBlockNumbers(start, bits) && forall k :: 0 <= k < |bits| ==> bits[k] < 8 * BS
    modifies region
    ensures region[..] == CopyContent(old(region[..]), bits, content, |bits|)
  {
    ghost var r0 := region[..];
    var n := |dataBlocks|;
    var i := 0;
    while i < n
      invariant i <= n
      invariant region[..] == CopyContent(r0, bits, content, i)
    {
      var p := BlockOffset(dataBlocks, start, i, bits);
      CopyPass(region, p, content, n, i, r0, bits);
      i := i + 1;
    }
  }

  /** `bytes_to_copy` bytes from `file_content + i * BS` are the i-th chunk. */
  lemma ChunkBytes(content: seq<byte>, n: nat, i: nat, bytesToCopy: int)
    requires i < n && (n - 1) * BS < |content| <= n * BS
    requires bytesToCopy == if i == n - 1 then (|content| - i * BS) % U64_MOD else BS
    requires |content| < U64_MOD
    ensures 0 <= bytesToCopy <= BS && i * BS + bytesToCopy <= |content|
    ensures content[i * BS..i * BS + bytesToCopy] == Chunk(content, n, i)
  {
    if i < n - 1 {
      assert (i + 1) * BS <= (n - 1) * BS;
    }
  }

  /** The adder's `main` from the file checks on: the image is the input file's bytes, the file
      to add is `path` with `content`, and `now` is the clock reading. */
  method AddFile(tab: array<nat>, img: seq<byte>, path: CString, content: seq<byte>, now: u64)
    returns (r: Result<Added, AddError>)
    requires IsCrcTable(tab) && AddDefined(img, path, content)
    ensures r == AddFileSpec(img, path, content, now)
  {
    var err := CheckFile(path, content);
    if err.Some? {
      return Failure(err.value);
    }
    var n := BlocksNeeded(|content|);
    var blockBuffer, inodeBitmap, dataBitmap, sb;
    err, blockBuffer, inodeBitmap, dataBitmap, sb := ReadHeaderIn(img);
    if err.Some? {
      return Failure(err.value);
    }
    ghost var h := Header(sb, inodeBitmap[..], dataBitmap[..]);
    CheckFileSpec(path, content);
    if |content| + BS - 1 >= U64_MOD {
      BlocksNeededWraps(|content|);
    }
    var dataBlocks := new u32[DIRECT_MAX];
    var freeInodeBit;
    ghost var g;
    err, freeInodeBit, g := ReserveIn(inodeBitmap, dataBitmap, dataBlocks, sb, n, h);
    if err.Some? {
      return Failure(err.value);
    }
    ReserveGranted(h, path, content, g);
    r := WriteBack(tab, img, path, content, now, sb, freeInodeBit, n, g,
                   blockBuffer, inodeBitmap, dataBitmap, dataBlocks);
  }

  /** The superblock block, checked for the magic number, then the two bitmap blocks, each read
      into its own buffer. */
  method ReadHeaderIn(img: seq<byte>)
    returns (err: Option<AddError>, blockBuffer: array<byte>, inodeBitmap: array<byte>, dataBitmap: array<byte>, sb: Superblock)
    ensures fresh(blockBuffer) && fresh(inodeBitmap) && fresh(dataBitmap)
    ensures blockBuffer.Length == BS
    ensures blockBuffer != inodeBitmap && blockBuffer != dataBitmap && inodeBitmap != dataBitmap
    ensures ReadHeader(img) == if err.Some? then Failure(err.value) else Success(Header(sb, inodeBitmap[..], dataBitmap[..]))
  {
    blockBuffer := new byte[BS];
    inodeBitmap := new byte[0];
    dataBitmap := new byte[0];
    sb := ParseSuperblock(Zeros(SUPERBLOCK_SIZE));
    if |img| < BS {
      return Some(ShortSuperblock), blockBuffer, inodeBitmap, dataBitmap, sb;
    }
    blockBuffer := ReadBlocks(img, 0, 1);
    assert blockBuffer[..SUPERBLOCK_SIZE] == img[..SUPERBLOCK_SIZE];
    sb := ParseSuperblock(blockBuffer[..SUPERBLOCK_SIZE]);
    if sb.magic != MAGIC_NUMBER {
      return Some(BadMagic), blockBuffer, inodeBitmap, dataBitmap, sb;
    }
    if |img| < 2 * BS {
      return Some(ShortInodeBitmap), blockBuffer, inodeBitmap, dataBitmap, sb;
    }
    inodeBitmap := ReadBlocks(img, 1, 1);
    if |img| < 3 * BS {
      return Some(ShortDataBitmap), blockBuffer, inodeBitmap, dataBitmap, sb;
    }
    dataBitmap := ReadBlocks(img, 2, 1);
    err := None;
  }

  /** `find_free_bit` on the inode bitmap, the data block loop, then `set_bit` for the inode. */
  method ReserveIn(inodeBitmap: array<byte>, dataBitmap: array<byte>, dataBlocks: array<u32>, sb: Superblock, n: nat, ghost h: Header)
    returns (err: Option<AddError>, freeInodeBit: int, ghost g: Grant)
    requires h == Header(sb, inodeBitmap[..], dataBitmap[..]) && inodeBitmap.Length == dataBitmap.Length == BS
    requires inodeBitmap != dataBitmap && n <= DIRECT_MAX == dataBlocks.Length
    requires ReserveDefined(h, n)
    modifies inodeBitmap, dataBitmap, dataBlocks
    ensures Reserve(h, n) == if err.Some? then Failure(err.value) else Success(g)
    ensures err.None? ==>
      freeInodeBit == g.inodeBit && inodeBitmap[..] == g.inodeBitmap && dataBitmap[..] == g.dataBitmap &&
      dataBlocks[..n] == DataBlockNumbers(Start(sb), g.bits)
  {
    g := Grant(0, 1, [], [], []);
    freeInodeBit := FindFreeBit(inodeBitmap, InodeLimit(sb));
    if freeInodeBit < 0 {
      return Some(NoFreeInodes), freeInodeBit, g;
    }
    var ok;
    ghost var bits;
    ok, bits := AllocateDataBlocks(dataBitmap, dataBlocks, BlockLimit(sb), Start(sb), n);
    if !ok {
      return Some(NoFreeDataBlocks), freeInodeBit, g;
    }
    SetBit(inodeBitmap, freeInodeBit);
    g := Grant(freeInodeBit, freeInodeBit + 1, bits, inodeBitmap[..], dataBitmap[..]);
    err := None;
  }

  /** The inode table read in, the new inode written into its slot and the root relinked; the
      root as it now stands is returned. */
  method PatchTable(tab: array<nat>, img: seq<byte>, sb: Superblock, slot: nat, size: u64,
                    dataBlocks: array<u32>, n: nat, now: u64, ghost t0: seq<byte>, ghost ino: Inode)
    returns (table: array<byte>, root: Inode)
    requires IsCrcTable(tab) && (3 + sb.inodeTableBlocks) * BS <= |img|
    requires (slot + 1) * INODE_SIZE <= sb.inodeTableBlocks * BS
    requires n <= DIRECT_MAX == dataBlocks.Length
    requires t0 == TableBytes(img, sb) && ino == FileInode(size, dataBlocks[..n], now)
    ensures fresh(table)
    ensures table[..] == TableAfterLink(t0, slot, ino, now)
    ensures root == InodeAt(table[..], 0)
  {
    table := LoadWithInode(tab, img, sb, slot, size, dataBlocks, n, now, t0, ino);
    ghost var t1 := table[..];
    root := LinkRootIn(tab, table, now);
    TableChain(t0, t1, table[..], slot, ino, now);
  }

  /** The inode table read in and the new inode written into its slot. */
  method LoadWithInode(tab: array<nat>, img: seq<byte>, sb: Superblock, slot: nat, size: u64,
                       dataBlocks: array<u32>, n: nat, now: u64, ghost t0: seq<byte>, ghost ino: Inode)
    returns (table: array<byte>)
    requires IsCrcTable(tab) && (3 + sb.inodeTableBlocks) * BS <= |img|
    requires (slot + 1) * INODE_SIZE <= sb.inodeTableBlocks * BS
    requires n <= DIRECT_MAX == dataBlocks.Length
    requires t0 == TableBytes(img, sb) && ino == FileInode(size, dataBlocks[..n], now)
    ensures fresh(table)
    ensures table[..] == PutInode(t0, slot, ino)
  {
    table := ReadBlocks(img, 3, sb.inodeTableBlocks);
    assert table[..] == TableBytes(img, sb);
    WriteNewInode(tab, table, slot, size, dataBlocks, n, now);
  }

  lemma TableChain(t0: seq<byte>, t1: seq<byte>, t2: seq<byte>, slot: nat, ino: Inode, now: u64)
    requires (slot + 1) * INODE_SIZE <= |t0|
    requires t1 == PutInode(t0, slot, ino) && t2 == LinkRoot(t1, now)
    ensures t2 == TableAfterLink(t0, slot, ino, now)
  {
  }

  /** The root directory scan, the new entry and the content copy, all in the data region. */
  method FillRegionIn(region: array<byte>, off: nat, inodeNo: u32, path: CString, content: seq<byte>,
                      dataBlocks: seq<u32>, start: u32, ghost bits: seq<nat>)
    returns (err: Option<AddError>)
    requires off + BS <= region.Length && ContentFits(region[..], bits, content)
    requires |bits| == |dataBlocks| && |content| < U64_MOD
    requires dataBlocks == DataBlockNumbers(start, bits) && forall k :: 0 <= k < |bits| ==> bits[k] < 8 * BS
    modifies region
    ensures FillRegion(old(region[..]), off, inodeNo, path, content, bits) ==
      if err.Some? then Failure(err.value) else Success(region[..])
  {
    var idx := FindFreeEntry(region, off);
    if idx < 0 {
      return Some(DirectoryFull);
    }
    WriteEntry(region, off, idx, inodeNo, path);
    CopyFileContent(region, dataBlocks, start, content, bits);
    err := None;
  }

  /** `sb.mtime_epoch = now; superblock_crc_finalize(&sb)`, then the superblock block as it is
      written out: the buffer cleared and the record copied in. */
  method WriteSuperblockOut(tab: array<nat>, blockBuffer: array<byte>, sb: Superblock, now: u64)
    returns (block: seq<byte>)
    requires IsCrcTable(tab) && blockBuffer.Length == BS
    modifies blockBuffer
    ensures block == HeadBlock(sb, now)
  {
    var sb' := sb.(mtimeEpoch := now);
    var crc;
    sb', crc := SuperblockCrcFinalize(tab, sb');
    ClearBlock(blockBuffer);
    CopyIn(blockBuffer, 0, SerializeSuperblock(sb'));
    SpliceIntoZeros(BS, SerializeSuperblock(sb'));
    block := blockBuffer[..];
  }

  /** Reads the data region, then finds a slot in the root directory block at `off`, writes the
      entry and copies the content: the outcome is `FillRegion` of the region the image holds. */
  method RegionIn(img: seq<byte>, sb: Superblock, off: nat, inodeNo: u32, path: CString, content: seq<byte>,
                  dataBlocks: seq<u32>, ghost bits: seq<nat>)
    returns (err: Option<AddError>, region: array<byte>)
    requires (3 + sb.inodeTableBlocks + sb.dataRegionBlocks) * BS <= |img|
    requires off + BS <= |RegionBytes(img, sb)| && ContentFits(RegionBytes(img, sb), bits, content)
    requires |bits| == |dataBlocks| && |content| < U64_MOD
    requires dataBlocks == DataBlockNumbers(Start(sb), bits) && forall k :: 0 <= k < |bits| ==> bits[k] < 8 * BS
    ensures fresh(region)
    ensures FillRegion(RegionBytes(img, sb), off, inodeNo, path, content, bits) ==
      if err.Some? then Failure(err.value) else Success(region[..])
  {
    region := ReadBlocks(img, 3 + sb.inodeTableBlocks, sb.dataRegionBlocks);
    assert region[..] == RegionBytes(img, sb);
    err := FillRegionIn(region, off, inodeNo, path, content, dataBlocks, Start(sb), bits);
  }

  /** The output in file order: the refreshed superblock block, both bitmaps, the table with the
      root grown by one entry, and the region. */
  method Assemble(tab: array<nat>, blockBuffer: array<byte>, inodeBitmap: array<byte>, dataBitmap: array<byte>,
                  table: array<byte>, region: array<byte>, sb: Superblock, now: u64)
    returns (out: seq<byte>)
    requires IsCrcTable(tab) && blockBuffer.Length == BS && INODE_SIZE <= table.Length
    requires blockBuffer != table && blockBuffer != region && blockBuffer != inodeBitmap && blockBuffer != dataBitmap
    requires table != region && table != inodeBitmap && table != dataBitmap && tab as object != table
    modifies blockBuffer, table
    ensures out == Output(HeadBlock(sb, now), old(inodeBitmap[..]), old(dataBitmap[..]), GrowRoot(old(table[..])), old(region[..]))
  {
    ghost var ibm, dbm, reg := inodeBitmap[..], dataBitmap[..], region[..];
    GrowRootIn(tab, table);
    assert inodeBitmap[..] == ibm && dataBitmap[..] == dbm && region[..] == reg;
    var block := WriteSuperblockOut(tab, blockBuffer, sb, now);
    assert inodeBitmap[..] == ibm && dataBitmap[..] == dbm && region[..] == reg;
    out := block + inodeBitmap[..] + dataBitmap[..] + table[..] + region[..];
  }

  /** Everything after the allocation: the table and the region read and patched, the superblock
      refreshed, and the five parts written out in file order. */
  method WriteBack(tab: array<nat>, img: seq<byte>, path: CString, content: seq<byte>, now: u64,
                   sb: Superblock, freeInodeBit: nat, n: nat, ghost g: Grant,
                   blockBuffer: array<byte>, inodeBitmap: array<byte>, dataBitmap: array<byte>, dataBlocks: array<u32>)
    returns (r: Result<Added, AddError>)
    requires IsCrcTable(tab) && Granted(sb, content, g) && InsertDefined(img, sb, g)
    requires freeInodeBit == g.inodeBit && freeInodeBit + 1 == g.inodeNo && n == |g.bits|
    requires blockBuffer.Length == BS && inodeBitmap[..] == g.inodeBitmap && dataBitmap[..] == g.dataBitmap
    requires blockBuffer != inodeBitmap && blockBuffer != dataBitmap
    requires dataBlocks.Length == DIRECT_MAX && n <= DIRECT_MAX
    requires dataBlocks[..n] == DataBlockNumbers(Start(sb), g.bits)
    modifies blockBuffer
    ensures r == Insert(img, path, content, now, sb, g)
  {
    if |img| < (3 + sb.inodeTableBlocks) * BS {
      return Failure(ShortInodeTable);
    }
    var table, root := PatchTable(tab, img, sb, freeInodeBit, |content|, dataBlocks, n, now,
                                  TableBytes(img, sb), FileInode(|content|, dataBlocks[..n], now));
    r := RegionOut(tab, img, path, content, now, sb, freeInodeBit + 1, n, g, root,
                   blockBuffer, inodeBitmap, dataBitmap, dataBlocks, table);
  }

  /** From the linked table on: the region read and filled through the root's first block, and
      the output assembled. */
  method RegionOut(tab: array<nat>, img: seq<byte>, path: CString, content: seq<byte>, now: u64,
                   sb: Superblock, inodeNo: u32, n: nat, ghost g: Grant, root: Inode,
                   blockBuffer: array<byte>, inodeBitmap: array<byte>, dataBitmap: array<byte>,
                   dataBlocks: array<u32>, table: array<byte>)
    returns (r: Result<Added, AddError>)
    requires IsCrcTable(tab) && Granted(sb, content, g) && InsertDefined(img, sb, g)
    requires (3 + sb.inodeTableBlocks) * BS <= |img| && inodeNo == g.inodeNo && n == |g.bits|
    requires table[..] == LinkedTable(img, content, now, sb, g) && root == InodeAt(table[..], 0)
    requires blockBuffer.Length == BS && inodeBitmap[..] == g.inodeBitmap && dataBitmap[..] == g.dataBitmap
    requires blockBuffer != table && blockBuffer != inodeBitmap && blockBuffer != dataBitmap
    requires table != inodeBitmap && table != dataBitmap && tab as object != table
    requires dataBlocks.Length == DIRECT_MAX && n <= DIRECT_MAX
    requires dataBlocks[..n] == DataBlockNumbers(Start(sb), g.bits)
    modifies blockBuffer, table
    ensures r == Insert(img, path, content, now, sb, g)
  {
    if |img| < (3 + sb.inodeTableBlocks + sb.dataRegionBlocks) * BS {
      return Failure(ShortDataRegion);
    }
    InsertBounds(img, content, now, sb, g);
    var off := RootDirOffset(root.direct[0], Start(sb));
    ghost var t0 := table[..];
    r := FillOut(tab, img, path, content, now, sb, inodeNo, g, off, HeadBlock(sb, now),
                 FillRegion(RegionBytes(img, sb), off, g.inodeNo, path, content, g.bits),
                 blockBuffer, inodeBitmap, dataBitmap, dataBlocks, n, table);
    InsertFrom(img, path, content, now, sb, g, off, t0, r);
  }

  /** The region read, the entry written and the content copied, then the output assembled around
      the grown table; a full root directory is the result instead. */
  method FillOut(tab: array<nat>, img: seq<byte>, path: CString, content: seq<byte>, now: u64,
                 sb: Superblock, inodeNo: u32, ghost g: Grant, off: nat,
                 ghost head: seq<byte>, ghost fill: Result<seq<byte>, AddError>,
                 blockBuffer: array<byte>, inodeBitmap: array<byte>, dataBitmap: array<byte>, dataBlocks: array<u32>,
                 n: nat, table: array<byte>)
    returns (r: Result<Added, AddError>)
    requires IsCrcTable(tab) && (3 + sb.inodeTableBlocks + sb.dataRegionBlocks) * BS <= |img|
    requires off + BS <= |RegionBytes(img, sb)| && ContentFits(RegionBytes(img, sb), g.bits, content)
    requires inodeNo == g.inodeNo && |content| < U64_MOD
    requires head == HeadBlock(sb, now) && fill == FillRegion(RegionBytes(img, sb), off, g.inodeNo, path, content, g.bits)
    requires n == |g.bits| <= DIRECT_MAX == dataBlocks.Length
    requires dataBlocks[..n] == DataBlockNumbers(Start(sb), g.bits) && forall k :: 0 <= k < n ==> g.bits[k] < 8 * BS
    requires blockBuffer.Length == BS && INODE_SIZE <= table.Length
    requires inodeBitmap[..] == g.inodeBitmap && dataBitmap[..] == g.dataBitmap
    requires blockBuffer != table && blockBuffer != inodeBitmap && blockBuffer != dataBitmap
    requires table != inodeBitmap && table != dataBitmap && tab as object != table
    modifies blockBuffer, table
    ensures r == Finish(head, g, GrowRoot(old(table[..])), fill)
  {
    ghost var t0 := table[..];
    var err, region := RegionIn(img, sb, off, inodeNo, path, content, dataBlocks[..n], g.bits);
    if err.Some? {
      r := Failure(err.value);
    } else {
      var out := Assemble(tab, blockBuffer, inodeBitmap, dataBitmap, table, region, sb, now);
      r := Success(Added(out, inodeNo));
    }
    FinishFrom(r, head, g, GrowRoot(t0), fill);
  }

  /** The parts `FillOut` promises make up `Finish`. */
  lemma FinishFrom(r: Result<Added, AddError>, head: seq<byte>, g: Grant, table: seq<byte>, fill: Result<seq<byte>, AddError>)
    requires (r.Failure? <==> fill.Failure?) && (fill.Failure? ==> r.error == fill.error)
    requires fill.Success? ==> r.value.inodeNo == g.inodeNo &&
                               r.value.image == Output(head, g.inodeBitmap, g.dataBitmap, table, fill.value)
    ensures r == Finish(head, g, table, fill)
  {}
}
