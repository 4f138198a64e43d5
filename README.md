# MiniVSFS in Dafny

MiniVSFS is a tiny block-structured file-system image format with two tools.

- `mkfs_builder` writes a fresh image. Block 0 holds the superblock, and blocks 1 and 2 hold the inode and data bitmaps. The inode table follows, with the root directory in slot 0. After it comes the data region, whose first block holds the `.` and `..` entries.
- `mkfs_adder` reads an image and inserts one file. It allocates an inode and the data blocks first-fit, writes the inode and a directory entry in the root directory, bumps the root's link count and size, copies the content in with zero padding, re-stamps every checksum and writes the image back.

This project models both tools and the shared format and utility code as Dafny and proves what each of them promises. The modules follow the program's files.

| Module | Contents |
|---|---|
| `Wire` | Bytes (`bv8`), the fixed-width unsigned integers, little-endian encoding, and `Splice`, the `memcpy` into a buffer. |
| `Codec` | A packed record as a list of field offsets, with generic encode/decode and their round trips. |
| `Format` | `minivsfs.h`: the constants and the packed `superblock_t` (116 bytes), `inode_t` (128 bytes) and `dirent64_t` (64 bytes), each with a little-endian serializer and a parser. |
| `Words` | XOR on natural numbers and its algebra, the arithmetic the CRC is built from. |
| `Crc` | `crc32_init` and `crc32`, proved against a bit-by-bit reference definition of the reflected CRC-32 (polynomial 0xEDB88320, initial and final XOR 0xFFFFFFFF, as in section 8 of RFC 1952). It also proves that a one-byte change always changes the CRC. |
| `Finalize` | The three checksum routines (superblock CRC, inode CRC, directory-entry XOR) and their validity predicates. Each is proved to make its record valid and to catch any single-byte corruption of the serialized record, the checksum bytes included. |
| `Bitmap` | `find_free_bit` and `set_bit` on arrays, proved against a first-fit specification. It also covers the repeated allocation the adder performs. |
| `Paths` | `extract_filename`, the 57-character name check and the 58-byte name field. |
| `Builder` | `mkfs_builder`: the numeric argument checks, `calculate_layout`, the `create_*` routines, `initialize_bitmaps` and the block-by-block writing of the image. The image is proved to read back block by block. |
| `AddSpec` | `mkfs_adder` as pure functions of the input image, the path, the file content and the clock reading, with the lemmas stating what each step promises. |
| `Adder` | `mkfs_adder`'s `main` as methods over arrays: buffers, loops, `set_bit`, `memset`/`memcpy`. It is proved equal to `AddSpec.AddFileSpec`. |

The clock (`time(NULL)`) is a parameter. Reading and writing files becomes a byte sequence in and a byte sequence out. The global CRC table is an array parameter that `Crc.Crc32Init` fills and every checksum routine requires to be filled.

## Model

| member | source | states |
|---|---|---|
| Wire.DecLE | minivsfs.h:41-92 | Decoding the n-byte little-endian form of a value below 256^n gives back the value. |
| Wire.LEDec | minivsfs.h:41-92 | Every byte string is the little-endian encoding of its decoded value, and that value is below 256^length. |
| Wire.LEInjective | minivsfs.h:41-92 | Two values that fit n bytes and have the same n-byte encoding are equal. |
| Wire.LEHighZero | minivsfs_utils.c:40 | Widening a value that fits m bytes to m+n bytes appends n zero bytes (the 32-bit CRC stored in the 64-bit `inode_crc`). |
| Wire.ZerosDec | mkfs_builder.c:216 | A run of zero bytes decodes to 0. |
| Wire.Splice | mkfs_builder.c:216-217 | Copying data into a buffer at an offset leaves the data in that slice and every other byte unchanged. |
| Wire.SpliceIntoZeros | mkfs_adder.c:287-288 | Copying data to the start of a zeroed block gives the data followed by zeros. |
| Codec.EncodeSlice | minivsfs.h:39-94 | In a packed record, field i occupies exactly the bytes between its offset and the next, as its little-endian encoding. |
| Codec.DecodeEncode | minivsfs.h:39-94 | Decoding an encoded packed record gives back the field values when each fits its width. |
| Codec.EncodeDecode | minivsfs.h:39-94 | Encoding the decoded fields of any byte string of the record's size gives back the bytes. |
| Codec.EncodePrefix | minivsfs.h:39-94 | The encoding of the first j fields begins with the encoding of the first k fields, for k <= j. |
| Codec.FieldAt | minivsfs.h:39-94 | A field read from a record is the decoding of its slice and fits its width. |
| Format.PerBlockCounts | minivsfs.h:16-17 | A block holds exactly 32 inodes of 128 bytes and exactly 64 directory entries of 64 bytes. |
| Format.SuperblockLayout | minivsfs.h:41-62 | The superblock has 17 fields at increasing offsets, the checksum at offset 112, and 116 bytes in all. |
| Format.SuperblockFits | minivsfs.h:41-62 | Every superblock field fits its 32- or 64-bit width. |
| Format.SerializeSuperblock | minivsfs.h:97 | A serialized superblock is exactly 116 bytes. |
| Format.SuperblockParseSerialize | minivsfs.h:41-62 | Parsing a serialized superblock gives it back. |
| Format.SuperblockSerializeParse | minivsfs.h:41-62 | Any 116 bytes parse to a superblock that serializes back to them. |
| Format.SuperblockValuesParse | minivsfs.h:41-62 | The parsed superblock's fields are the little-endian values at the field offsets. |
| Format.SuperblockMagicFirst | mkfs_adder.c:112-115 | The first four bytes of a serialized superblock are its magic number. |
| Format.SuperblockChecksumLast | minivsfs.h:59-61 | The checksum is the last field: a superblock's bytes are those with the checksum zeroed, cut at 112, followed by the checksum's four bytes. |
| Format.InodeLayout | minivsfs.h:64-84 | The inode's fields before the direct pointers end at byte 44, and the fields after them occupy 36 bytes with the CRC at their offset 28. |
| Format.U32Array | minivsfs.h:73 | An array of n 32-bit values is 4n bytes with every element 4 bytes wide. |
| Format.InodeFits | minivsfs.h:64-84 | Every inode field, including each of the 12 direct pointers, fits its width. |
| Format.SerializeInode | minivsfs.h:98 | A serialized inode is exactly 128 bytes. |
| Format.ParseDirect | minivsfs.h:73 | The 12 direct pointers are the 32-bit little-endian values in the 48 bytes from offset 44. |
| Format.InodeParseSerialize | minivsfs.h:64-84 | Parsing a serialized inode gives it back. |
| Format.InodeSerializeParse | minivsfs.h:64-84 | Any 128 bytes parse to an inode that serializes back to them. |
| Format.InodePartsParse | minivsfs.h:64-84 | A parsed inode's head fields, direct pointers and tail fields are the decodings of bytes 0-43, 44-91 and 92-127. |
| Format.InodeCrcLast | minivsfs.h:81-83 | The CRC is the last eight bytes: an inode's bytes are those with the CRC zeroed, cut at 120, followed by the CRC's eight bytes. |
| Format.InodeDirectAt | minivsfs.h:73 | Direct pointer k sits at bytes 44+4k to 48+4k. |
| Format.SerializeDirent | minivsfs.h:86-92 | A serialized entry is 64 bytes: the inode number in 0-3, the type at 4, the 58-byte name in 5-62, the checksum at 63. |
| Format.DirentParseSerialize | minivsfs.h:86-92 | Parsing a serialized entry gives it back. |
| Format.DirentSerializeParse | minivsfs.h:86-92 | Any 64 bytes parse to an entry that serializes back to them. |
| Words.XorBits | minivsfs_utils.c:21 | XOR on naturals works bit by bit: the low bit is the XOR of the low bits and the rest is the XOR of the rest. |
| Words.XorAssoc | minivsfs_utils.c:21 | XOR is associative. |
| Words.XorComm | minivsfs_utils.c:21 | XOR is commutative. |
| Words.XorSelf | minivsfs_utils.c:21 | A value XORed with itself is 0. |
| Words.XorZeroIff | minivsfs_utils.c:21 | The XOR of two values is 0 exactly when they are equal. |
| Words.XorCancel | minivsfs_utils.c:21 | XOR with the same value is injective. |
| Words.XorBound | minivsfs_utils.c:11 | The XOR of two n-bit values is an n-bit value. |
| Words.XorDisjoint | minivsfs_utils.c:21 | XOR of values with disjoint bits is their sum (the table entry and `c >> 8` in the byte step). |
| Crc.ShiftsBound | minivsfs_utils.c:8-14 | The shift rounds keep a 32-bit register within 32 bits, so every table entry is a 32-bit value. |
| Crc.RegisterBound | minivsfs_utils.c:17-24 | The CRC register stays within 32 bits for every input. |
| Crc.Crc32Empty | minivsfs_utils.c:19-23 | The CRC of no bytes is 0, since the initial and final XOR cancel. |
| Crc.ShiftsLinear | minivsfs_utils.c:10-12 | The shift rounds distribute over XOR. |
| Crc.ShiftsClear | minivsfs_utils.c:10-12 | k shift rounds of a value whose low k bits are zero only shift it right by k. |
| Crc.TableStep | minivsfs_utils.c:21 | The table-driven step `TAB[(c ^ b) & 0xFF] ^ (c >> 8)` equals eight bit-by-bit shift rounds of `c ^ b`. |
| Crc.Crc32Init | minivsfs_utils.c:7-15 | After the nested loops, entry i of the table is i after eight shift rounds, for all 256 entries. |
| Crc.ComputeCrc32 | minivsfs_utils.c:17-24 | The table-driven loop returns the bit-by-bit reflected CRC-32 of the bytes. |
| Crc.ShiftsInjective | minivsfs_utils.c:10-12 | Shift rounds are injective on 32-bit registers. |
| Crc.StepsDiffer | minivsfs_utils.c:21 | Changing either the register or the byte, but not both, changes the result of the byte step. |
| Crc.RegistersDiffer | minivsfs_utils.c:17-24 | Two inputs that differ in exactly one byte leave different registers. |
| Crc.Crc32DetectsByteError | minivsfs_utils.c:17-24 | Two inputs that differ in exactly one byte have different CRCs. |
| Finalize.SuperblockCrcInput | minivsfs_utils.c:27-29 | The CRC input is 4092 bytes: the superblock with its checksum zeroed, then zeros. |
| Finalize.SuperblockCrcFinalize | minivsfs_utils.c:27-32 | The result is the superblock with only its checksum replaced by the CRC, the same value is returned, and the superblock is valid. |
| Finalize.SuperblockFinalizeBytes | minivsfs_utils.c:27-32 | Finalizing keeps bytes 0-111 and writes the CRC into bytes 112-115. |
| Finalize.SuperblockFinalizedValid | minivsfs_utils.c:27-32 | A finalized superblock satisfies the checksum check. |
| Finalize.SuperblockCrcInputBytes | minivsfs_utils.c:29 | The CRC input is the superblock's first 112 bytes, four zero bytes for the checksum, then zero padding. |
| Finalize.SuperblockSameChecksum | minivsfs.h:59-61 | Changing a byte before offset 112 leaves the stored checksum as it was. |
| Finalize.SuperblockInputsDiffer | minivsfs_utils.c:29 | Changing one byte before the checksum changes exactly that byte of the CRC input. |
| Finalize.SuperblockCorruptionDetected | minivsfs_utils.c:27-32 | Changing any one of the 116 bytes of a valid superblock, the checksum included, makes its checksum check fail. |
| Finalize.SuperblockBodyCorrupted | minivsfs_utils.c:27-32 | Changing any one of the first 112 bytes of a valid superblock makes its checksum check fail: the CRC changes while the stored checksum does not. |
| Finalize.SuperblockChecksumCorrupted | minivsfs_utils.c:27-32 | Changing any one of the checksum's bytes 112-115 of a valid superblock makes its checksum check fail: the stored checksum changes while the CRC does not. |
| Finalize.InodeCrcFinalize | minivsfs_utils.c:34-41 | The result is the inode with only its CRC field replaced by the CRC of the first 120 bytes, and it is valid. |
| Finalize.InodeFinalizeBytes | minivsfs_utils.c:34-41 | Finalizing keeps bytes 0-119, stores the CRC in bytes 120-123 and zeros in bytes 124-127. |
| Finalize.InodeFinalizedValid | minivsfs_utils.c:34-41 | A finalized inode satisfies the CRC check. |
| Finalize.InodeSameCrc | minivsfs.h:81-83 | Changing a byte before offset 120 leaves the stored CRC as it was. |
| Finalize.InodeCorruptionDetected | minivsfs_utils.c:34-41 | Changing any one of the 128 bytes of a valid inode, the CRC field included, makes its CRC check fail. |
| Finalize.InodeBodyCorrupted | minivsfs_utils.c:34-41 | Changing any one of the first 120 bytes of a valid inode makes its CRC check fail: the CRC changes while the stored value does not. |
| Finalize.InodeCrcCorrupted | minivsfs_utils.c:34-41 | Changing any one of bytes 120-127 of a valid inode makes its CRC check fail: the stored value changes while the CRC of bytes 0-119 does not. |
| Finalize.DirentChecksumFinalize | minivsfs_utils.c:43-50 | The XOR loop leaves the entry unchanged but for its checksum, which becomes the XOR of bytes 0-62, and the entry is valid. |
| Finalize.DirentValidIff | minivsfs.h:91 | The XOR of all 64 bytes is 0 exactly when the checksum byte is the XOR of bytes 0-62. |
| Finalize.DirentFinalizedValid | minivsfs_utils.c:43-50 | A finalized entry passes the check. |
| Finalize.XorFoldDiffers | minivsfs_utils.c:46-48 | Byte strings that differ in exactly one byte have different XORs. |
| Finalize.DirentCorruptionDetected | minivsfs_utils.c:43-50 | Changing any one of the 64 bytes of a valid entry makes its check fail. |
| Bitmap.WithBitIsSet | minivsfs_utils.c:69-73 | After `set_bit(i)`, a bit is set exactly when it was set before or it is bit i. |
| Bitmap.WithBitIdempotent | minivsfs_utils.c:69-73 | Setting the same bit twice is the same as setting it once. |
| Bitmap.WithBitAlreadySet | minivsfs_utils.c:69-73 | Setting a bit that is already set changes nothing. |
| Bitmap.FirstFreeSpec | minivsfs_utils.c:53-67 | The first-fit search returns -1 exactly when every bit in range is set; otherwise it returns a clear bit with every lower bit in range set. |
| Bitmap.FirstFreeIs | minivsfs_utils.c:53-67 | A clear bit with only set bits before it is what the first-fit search returns. |
| Bitmap.ScanBytes | minivsfs_utils.c:54 | The scan covers ceil(max_bits/8) bytes, and none when `max_bits + 7` wraps around 32 bits. |
| Bitmap.FullByteSet | minivsfs_utils.c:55 | A byte equal to 0xFF has all eight bits set, so skipping it loses no free bit. |
| Bitmap.FindFreeBit | minivsfs_utils.c:53-67 | The byte-then-bit loop returns the first-fit result over the bits it can reach, and a value that fits a C `int`. |
| Bitmap.SetBit | minivsfs_utils.c:69-73 | The bitmap afterwards is the old one with bit i ORed in and every other byte unchanged. |
| Bitmap.FreeBitLowest | minivsfs_utils.c:53-67 | When `max_bits + 7` does not wrap and the bitmap is long enough: -1 exactly when all bits below `max_bits` are set, and otherwise the lowest clear bit below `max_bits`. |
| Bitmap.FreeBitWraps | minivsfs_utils.c:54 | When `max_bits + 7` wraps around 32 bits, the search finds nothing. |
| Bitmap.FreeBitAfterSet | minivsfs_utils.c:53-73 | After `set_bit(i)`, the search never returns i. |
| Bitmap.CountFreeZero | minivsfs_utils.c:53-67 | No bit in range is clear exactly when the count of clear bits is 0. |
| Bitmap.CountFreeWithBit | minivsfs_utils.c:69-73 | Setting a clear bit in range lowers the count of clear bits by one and leaves it alone otherwise. |
| Bitmap.FreeBitCount | minivsfs_utils.c:53-67 | The search finds a bit exactly when some bit it can reach is clear. |
| Bitmap.AllocRunSpec | mkfs_adder.c:151-162 | k rounds of search-then-set succeed exactly when at least k bits within reach are clear. They then hand out strictly increasing bits, each clear before and within reach, with no clear bit skipped. Afterwards exactly those bits are newly set. |
| Bitmap.AllocRunStops | mkfs_adder.c:152-159 | Once a round finds nothing, every longer run fails too. |
| Bitmap.AllocRoundSpec | mkfs_adder.c:153-161 | After a run of rounds, the next search finds a bit exactly when a reachable bit is still clear. A run extended by that bit, with the bit set, keeps every property `AllocRunSpec` promises. |
| Paths.LastSlashSpec | minivsfs_utils.c:76 | The index found holds a '/' with none after it, and -1 means the path has no '/'. |
| Paths.ExtractFilenameSpec | minivsfs_utils.c:75-81 | The base name has no '/', is a suffix of the path, and is either the whole path or preceded by a '/'. A path without '/' is its own base name. |
| Paths.ExtractFilenameIdempotent | minivsfs_utils.c:75-81 | Extracting the base name of a base name changes nothing. |
| Paths.NameRoundTrip | mkfs_adder.c:270-272 | The name read back from the entry's name field is the name itself when it has at most 57 bytes, and its first 57 bytes otherwise. |
| Paths.NameOfPrefix | mkfs_builder.c:165 | A string followed by a NUL reads back as the string. |
| Builder.TotalBlocks | mkfs_builder.c:77 | For sizes up to the maximum, the block count is the size in KiB divided by 4. |
| Builder.CheckArgs | mkfs_builder.c:45-69 | Arguments that pass the numeric checks describe an image of 45 to 1024 blocks whose block count times 4096 is the requested size in bytes. |
| Builder.CheckArgsAccepts | mkfs_builder.c:45-69 | Exactly the sizes 180 to 4096 KiB that are multiples of 4 and the inode counts 128 to 512 are accepted. The "too many inodes" error can never be raised. |
| Builder.TableBlocks | mkfs_builder.c:78-79 | The inode table's block count, computed with the 32-bit rounding, stays below 2^27. |
| Builder.LayoutRules | mkfs_builder.c:77-100 | The corrected layout fails exactly when no block is left after the inode table. Otherwise the bitmaps are at blocks 1 and 2 and the table at 3, and the table is `ceil(inode_count / 32)` blocks, the fewest that hold every inode. The data region starts right after the table and fills the rest of the image with at least one block. |
| Builder.CalculateLayoutAsWritten | mkfs_builder.c:75-103 | The layout as written fails only when the inode table ends exactly at the end of the image. Otherwise the data region starts right after the table, and it ends at the end of the image exactly when the image is larger than the blocks before the region. |
| Builder.CalculateLayout | mkfs_builder.c:75-103 | The corrected layout fails only with the no-data-region error; when it succeeds the data region has at least one block and ends at the end of the image. |
| Builder.LayoutAsWrittenAgrees | mkfs_builder.c:89-100 | For arguments the argument checks accept, the layout as written equals the corrected one and succeeds. |
| Builder.LayoutWrapExample | mkfs_builder.c:89-95 | With 4 KiB and 128 inodes the code as written accepts a data region of 2^64 - 6 blocks, while the corrected layout fails. |
| Builder.CreateSuperblock | mkfs_builder.c:106-129 | The superblock built is the specified one, stamped with its checksum. |
| Builder.RootSuperblockSpec | mkfs_builder.c:111-128 | It carries: the magic, version 1 and 4096-byte blocks; one block per bitmap; the layout's fields; root inode 1, the clock reading, no flags; and a valid checksum. |
| Builder.CreateRootInode | mkfs_builder.c:132-157 | The root inode built is the specified one, stamped with its CRC. |
| Builder.RootInodeSpec | mkfs_builder.c:137-156 | The root inode is a directory with 2 links and 128 bytes, all times the clock reading. Its first pointer is the first data block and the other 11 are 0. It has project 7, zero reserved fields and a valid 32-bit CRC. |
| Builder.CreateRootDirectoryEntries | mkfs_builder.c:160-174 | The two entries built are the specified `.` and `..`. |
| Builder.RootEntriesSpec | mkfs_builder.c:160-174 | Both entries name inode 1 as a directory, read back as "." and "..", and carry a valid checksum. |
| Builder.InitializeBitmaps | mkfs_builder.c:177-189 | Both bitmaps become the fresh bitmap. |
| Builder.FreshBitmapSpec | mkfs_builder.c:181-188 | In a fresh bitmap, exactly bit 0 is set. |
| Builder.PadBlock | mkfs_builder.c:215-217 | A record copied into a cleared block is followed by zeros to 4096 bytes. |
| Builder.LeadBlocksStep | mkfs_builder.c:243-278 | Each pass of the table or region loop appends one block: the special block on the first pass and a zero block after it. |
| Builder.WriteSuperblock | mkfs_builder.c:211-222 | Block 0 written is the new superblock padded with zeros. |
| Builder.WriteInodeTable | mkfs_builder.c:242-259 | The table written is the padded root inode followed by zero blocks, `inode_table_blocks` blocks in all. |
| Builder.WriteRootDirBlock | mkfs_builder.c:265-271 | The first data block holds `.` at offset 0 and `..` at offset 64. |
| Builder.WriteDataRegion | mkfs_builder.c:261-278 | The region written is the root directory block followed by zero blocks, `data_region_blocks` blocks in all. |
| Builder.BuildOutcome | mkfs_builder.c:191-284 | The specified build (`Builder.BuildSpec`) succeeds exactly when the argument checks pass, and never fails with the "too many inodes" or the layout error. |
| Builder.BuildImage | mkfs_builder.c:191-284 | The tool's run is the specified result: an argument or layout error, or the blocks in file order. |
| Builder.BuildImageLength | mkfs_builder.c:191-284 | An image built is `size_kib / 4` blocks of 4096 bytes. |
| Builder.AcceptedLayoutShape | mkfs_builder.c:45-100 | Accepted arguments give a layout with at least one table block and one data block, a region start below 2^32, and parts that add up to the image. |
| Builder.ImageBlocks | mkfs_builder.c:215-278 | In an image assembled from three blocks and two runs, each block reads back in place and every other block is zero. |
| Builder.RootDirBlockBack | mkfs_builder.c:265-271 | The root directory block parses back to `.` and `..`, and everything after them is zero. |
| Builder.ImageReadsBack | mkfs_builder.c:211-278 | The image read back by blocks gives: block 0 is the superblock padded with zeros, and parses back to it; two fresh bitmaps in blocks 1 and 2; block 3 is the root inode padded with zeros, so only slot 0 of the table is non-zero; the root directory block at the start of the data region; zeros in every other block. |
| AddSpec.BlocksNeededCeil | mkfs_adder.c:88 | The block count is the size rounded up to whole blocks. |
| AddSpec.BlocksNeededWraps | mkfs_adder.c:88 | When `file_size + BS - 1` wraps around 64 bits, the block count is 0. |
| AddSpec.CheckFileSpec | mkfs_adder.c:53-93 | A file passes the checks exactly when its base name has at most 57 bytes, it is not empty, and it needs at most 12 blocks. The last condition also admits the sizes whose rounding wraps. A passing file needs 1 to 12 blocks. |
| AddSpec.FileSizeBoundary | mkfs_adder.c:88-89 | A file of 12 x 4096 bytes needs 12 blocks and one byte more needs 13. |
| AddSpec.ReadHeaderSpec | mkfs_adder.c:104-138 | Reading the header succeeds exactly when the image has three blocks and the magic matches. The superblock read then serializes to the first 116 bytes, and the bitmaps are blocks 1 and 2. |
| AddSpec.BuiltImageHeader | mkfs_adder.c:104-138 | A fresh image's header reads back as its superblock and two fresh bitmaps. |
| AddSpec.HeaderFromBlocks | mkfs_adder.c:104-138 | An image whose block 0 holds a superblock with the magic reads back with that superblock and blocks 1 and 2 as the bitmaps. |
| AddSpec.Reserve | mkfs_adder.c:140-165 | A successful reservation hands out exactly the requested number of data bits, and keeps both bitmaps at their sizes. |
| AddSpec.ReserveSpec | mkfs_adder.c:140-165 | Allocation fails for want of an inode exactly when no inode bit is clear within reach. It fails for want of data blocks exactly when fewer clear data bits than needed are within reach. Otherwise the inode is the lowest clear bit, now set with no other bit changed, and the data bits are the lowest clear ones in increasing order, now set. |
| AddSpec.GrantBits | mkfs_adder.c:148-162 | The inode number is the inode bit plus one. The data bits are as many as needed, strictly increasing, and inside the data region and the bitmap. |
| AddSpec.ReserveGranted | mkfs_adder.c:148-162 | For a file that passed the checks, the grant covers its size in blocks and stays inside the region and the bitmaps. |
| AddSpec.DataBlockNumbers | mkfs_adder.c:160 | Block i is the 32-bit sum of the region start and the i-th bit. |
| AddSpec.DirectFor | mkfs_adder.c:199-204 | Direct pointer k is the k-th allocated block for k below the count and 0 after it. |
| AddSpec.FileInodeSpec | mkfs_adder.c:185-213 | The new inode is a regular file with one link and the file's size, all times the clock reading. Its pointers are the allocated blocks in order, then zeros. It has project 7, zero reserved fields and a valid CRC. |
| AddSpec.StampedSpec | minivsfs_utils.c:34-41 | Re-stamping changes only the CRC and makes it valid. |
| AddSpec.PutInodeSpec | mkfs_adder.c:185-213 | The inode written into a table slot reads back from that slot, and every byte outside the slot is unchanged. |
| AddSpec.PutInodeOther | mkfs_adder.c:185-213 | Writing one slot leaves every other slot reading back as before. |
| AddSpec.LinkRootSpec | mkfs_adder.c:216-219 | The root's slot reads back as the old root with one more link, the clock reading as mtime and a fresh CRC. The rest of the table is unchanged. |
| AddSpec.GrowRootSpec | mkfs_adder.c:276-277 | The root's slot reads back as the old root with 64 more bytes and a fresh CRC. The rest of the table is unchanged. |
| AddSpec.RootUpdatesKeepRest | mkfs_adder.c:216-277 | Both root updates together leave every byte after the root's slot unchanged. |
| AddSpec.TableUpdateSlots | mkfs_adder.c:185-277 | After the whole table update, only the new inode's slot and the root's slot may differ, and a new inode outside the root's slot reads back as written. |
| AddSpec.RootKeepsFirstBlock | mkfs_adder.c:216-243 | The root's direct pointers after the link are those of the old root, or of the new inode when the new inode took slot 0. |
| AddSpec.UpdatedRootSpec | mkfs_adder.c:216-277 | The updated root has one more link and 64 more bytes (modulo the field widths) and the clock reading as mtime. |
| AddSpec.UpdatedRootValid | mkfs_adder.c:216-277 | The updated root's CRC is valid. |
| AddSpec.UpdatedRootKeeps | mkfs_adder.c:216-277 | Every other field of the updated root is as before: mode, owners, atime, ctime, pointers, reserved fields, project and attribute pointer. |
| AddSpec.TableUpdateRoot | mkfs_adder.c:216-277 | After the whole table update, the root slot holds the root as it was before, linked, grown and re-stamped. "Before" is the new inode when the new inode took slot 0. |
| AddSpec.FreeSlotSpec | mkfs_adder.c:247-255 | The search returns -1 exactly when no slot from 2 on has inode number 0. Otherwise it returns such a slot with no free slot before it. |
| AddSpec.NewEntrySpec | mkfs_adder.c:265-273 | The new entry holds the inode number and type 1. Its name is the base name, or the base name's first 57 bytes, with a NUL at byte 57. Its checksum is valid. |
| AddSpec.PutEntrySpec | mkfs_adder.c:266-273 | The entry written into a slot reads back from it, and every byte outside the slot is unchanged. |
| AddSpec.ChunksCover | mkfs_adder.c:284-288 | Chunk i is the content from i x 4096 to the next block boundary, or to the end for the last block, and is never empty. |
| AddSpec.CopyContentSpec | mkfs_adder.c:279-289 | After the copy, each allocated block holds its chunk followed by zeros, and every byte outside those blocks is unchanged. |
| AddSpec.WriteBlockHere | mkfs_adder.c:287-288 | The block written holds the chunk padded with zeros. |
| AddSpec.WriteBlockOther | mkfs_adder.c:287-288 | Any other block is unchanged. |
| AddSpec.RestampedSpec | mkfs_adder.c:293-295 | The refreshed superblock differs from the one read only in mtime and checksum; mtime is the clock reading and the checksum is valid. |
| AddSpec.InsertBounds | mkfs_adder.c:167-289 | For a granted allocation, the root's first block and the allocated blocks all lie inside the data region read. |
| AddSpec.RootDirOffset | mkfs_adder.c:243-244 | The root directory's byte offset, computed in 32 bits, is below 2^32 and a multiple of 4096, and is the block index times 4096 whenever that index is below 2^20. |
| AddSpec.FillRegion | mkfs_adder.c:242-289 | Filling the region keeps its size, and fails only with a full root directory. |
| AddSpec.Finish | mkfs_adder.c:306-351 | The insertion fails exactly when filling the region failed, with that error, and otherwise reports the granted inode number. |
| AddSpec.RootSlotBound | mkfs_adder.c:243-245 | The root directory block, read from the updated table, lies inside the data region. |
| AddSpec.AddFileStages | mkfs_adder.c:64-165 | The insertion fails at the first stage that fails, in the tool's order: name and size checks, then the header, then the allocation. A new inode number is 1 to 32768. |
| AddSpec.AddFileOutcome | mkfs_adder.c:64-351 | A successful insertion passed the file checks, read the header and reserved its blocks, and the new inode number is the lowest free inode bit plus one. The output runs to the end of the data region. Block 0 holds the refreshed superblock, block 1 the inode bitmap with just that bit added, and block 2 the data bitmap after the allocation. The inode table that follows is the one read with the new inode written, the root linked and grown; the data region after it is the one read with the entry written and the content copied. |
| AddSpec.OutputBlocks | mkfs_adder.c:306-351 | The output's first three blocks are the superblock block and the two bitmaps, in that order, followed by the inode table and then the data region. |
| Adder.ReadBlocks | mkfs_adder.c:176 | The buffer read holds the image's blocks from the given one on. |
| Adder.AllocateDataBlocks | mkfs_adder.c:151-162 | The loop succeeds exactly when the specified run of first-fit allocations does. The bits, the bitmap afterwards and the recorded block numbers are those of that run. |
| Adder.FillDirect | mkfs_adder.c:198-204 | The two loops leave exactly the allocated blocks then zeros in the pointers. |
| Adder.WriteNewInode | mkfs_adder.c:184-213 | The table afterwards has the specified new inode in its slot and nothing else changed. |
| Adder.LinkRootIn | mkfs_adder.c:215-219 | The table afterwards is the root-linked table, and the root returned is what slot 0 holds. |
| Adder.GrowRootIn | mkfs_adder.c:275-277 | The table afterwards is the root-grown table. |
| Adder.FindFreeEntry | mkfs_adder.c:247-255 | The for/break loop returns the first free slot from 2 on, or -1. |
| Adder.WriteEntry | mkfs_adder.c:265-273 | The region afterwards has the new entry in the slot and nothing else changed. |
| Adder.FillBlock | mkfs_adder.c:287-288 | The block at the offset becomes the data padded with zeros, and nothing else changes. |
| Adder.ChunkAt | mkfs_adder.c:284-288 | The bytes copied in pass i are the i-th chunk. |
| Adder.CopyFileContent | mkfs_adder.c:279-289 | The region afterwards is the specified content copy. |
| Adder.ReadHeaderIn | mkfs_adder.c:103-138 | The reads and the magic check fail exactly as the header specification does, and otherwise yield its superblock and bitmaps. |
| Adder.ReserveIn | mkfs_adder.c:140-165 | The allocation succeeds or fails exactly as specified, with the same inode bit, data bits and bitmaps. |
| Adder.BlockOffset | mkfs_adder.c:281-282 | For an allocated block, the 32-bit offset `(data_blocks[i] - data_region_start) * BS` is the bit's byte offset in the region: it never wraps. |
| Adder.LoadWithInode | mkfs_adder.c:167-213 | The inode table read from the image, with the specified new inode written into its slot. |
| Adder.PatchTable | mkfs_adder.c:167-219 | The inode table read, with the new inode written and the root relinked; the root returned is what slot 0 then holds. |
| Adder.FillRegionIn | mkfs_adder.c:242-289 | The slot search, the entry and the content copy give exactly `FillRegion` of the region: the new region, or the full-directory error. |
| Adder.RegionIn | mkfs_adder.c:221-289 | The data region read from the image, then filled: the outcome is `FillRegion` of the region the image holds. |
| Adder.Assemble | mkfs_adder.c:275-351 | The output is the refreshed superblock block, both bitmaps, the table with the root grown by one entry, and the region, in that order. |
| Adder.FillOut | mkfs_adder.c:221-351 | Filling the region and assembling the output give `Finish` of the specified parts: the output image, or the full-directory error. |
| Adder.RegionOut | mkfs_adder.c:221-351 | From the linked table on, the result is the specified insertion, including the short-data-region error. |
| Adder.WriteBack | mkfs_adder.c:167-351 | Everything after the allocation returns exactly the specified insertion `AddSpec.Insert`, error for error and byte for byte. |
| Adder.WriteSuperblockOut | mkfs_adder.c:293-313 | The superblock block written is the refreshed superblock padded with zeros. |
| Adder.AddFile | mkfs_adder.c:64-351 | The whole insertion returns exactly what the specification does, error for error and byte for byte. |

## Left out

- File I/O (`fopen`, `fread`, `fwrite`, `fseek`, `ftell`, `read_file_content`) is replaced by byte sequences in and out. A short read is modelled by the image being too short for the blocks asked for. Failures of the host file system and of `malloc` are not modelled.
- `print_error`, `cleanup_and_exit` and the success messages are plumbing and are not modelled.
- The `strcmp`/`atoi` scanning of the command lines is not modelled. Only the numeric checks of the builder and the adder's name-length check are.
- `time(NULL)` is a parameter. The builder reads the clock separately for the superblock and the root inode, so `Builder.BuildSpec` takes two readings.
- Native struct `memcpy` is modelled as explicit little-endian serialization and parsing, which matches the packed layout on a little-endian host.
- Finalize.SuperblockCrcFinalize: `crc32` over `BS - 4` bytes from a 116-byte struct reads past the struct in the C code. The model takes the intended meaning: the serialized superblock with its checksum zeroed, then zeros up to 4092 bytes.
- The process-wide `CRC32_TAB` is an array parameter. Every routine that uses it requires that `Crc.Crc32Init` filled it.
- The adder checks only the magic number. It never verifies the superblock checksum, the block size or any other field, and the model does the same: the bitmaps and the layout fields are taken as read.
- The adder never checks for an existing entry with the same name, and the model does not either.
- AddSpec.AddFileSpec: the buffers `find_free_bit`, the inode-slot pointer and the root-directory pointer reach into must lie inside the bitmaps, the table and the region read. These are preconditions (`AddSpec.AddDefined`, `AddSpec.ReserveDefined`, `AddSpec.InsertDefined`), not error results, because the C code reads and writes out of bounds there instead of failing.
- Bitmap.FindFreeBit: bitmaps longer than 2^28 bytes are excluded by its precondition, so that every bit number fits a C `int`. The tools only pass one-block bitmaps.
- The memory model of C (aliasing between the struct pointers into one buffer, stack layout) is not modelled. Each buffer is its own array.

## Findings

| source | as written | input that shows it | evidently intended | confidence | as-written member | corrected member |
|---|---|---|---|---|---|---|
| mkfs_builder.c:89-95 | `data_region_blocks = total_blocks - data_region_start` is an unsigned 64-bit subtraction, so the `<= 0` test only catches a difference of exactly 0 and a data region start past the end of the image wraps to a huge region | `calculate_layout` with `size_kib = 4` and `inode_count = 128`: 1 block in all, 7 needed before the data region, giving a data region of 2^64 - 6 blocks | fail with "Not enough space for data region" whenever `total_blocks <= data_region_start` | not executed; unreachable through the tool itself, because the argument checks reject such sizes (`Builder.LayoutAsWrittenAgrees`) | Builder.LayoutWrapExample | Builder.LayoutRules |
