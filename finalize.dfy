/** The three finalize routines that stamp a checksum into a record before it is written:
    the superblock CRC, the inode CRC and the directory-entry XOR byte, each with the
    validity predicate a reader would check and a proof that a single corrupted byte fails it. */
module Finalize {
  import opened Wire
  import opened Words
  import opened Crc
  import opened Format

  /* ---------------------------------------------------------------- superblock */

  /** The bytes the superblock CRC covers: block 0 up to the checksum's end minus its own four
      bytes, that is the record with the checksum zeroed followed by the zero padding of the block. */
  function SuperblockCrcInput(sb: Superblock): (r: seq<byte>)
    ensures |r| == BS - 4
  {
    SerializeSuperblock(sb.(checksum := 0)) + Zeros(BS - 4 - SUPERBLOCK_SIZE)
  }

  function SuperblockCrc(sb: Superblock): u32
  {
    Crc32(SuperblockCrcInput(sb))
  }

  predicate SuperblockChecksumValid(sb: Superblock)
  {
    sb.checksum == SuperblockCrc(sb)
  }

  /** Zeroes the checksum, runs the CRC over the block prefix and stores the result. */
  method SuperblockCrcFinalize(tab: array<nat>, sb: Superblock) returns (r: Superblock, s: u32)
    requires IsCrcTable(tab)
    ensures r == sb.(checksum := SuperblockCrc(sb)) && s == r.checksum
    ensures SuperblockChecksumValid(r)
  {
    r := sb.(checksum := 0);
    var block := SerializeSuperblock(r) + Zeros(BS - 4 - SUPERBLOCK_SIZE);
    s := ComputeCrc32(tab, block);
    r := r.(checksum := s);
  }

  /** The finalized record differs from the input only in the last four bytes, which hold the CRC. */
  lemma SuperblockFinalizeBytes(sb: Superblock)
    ensures SerializeSuperblock(sb.(checksum := SuperblockCrc(sb)))[..112] == SerializeSuperblock(sb)[..112]
    ensures SerializeSuperblock(sb.(checksum := SuperblockCrc(sb)))[112..] == LE(SuperblockCrc(sb), 4)
  {
    SuperblockChecksumLast(sb);
    SuperblockChecksumLast(sb.(checksum := SuperblockCrc(sb)));
  }

  /** Stamping the computed checksum makes a superblock valid: the CRC does not cover the field. */
  lemma SuperblockFinalizedValid(sb: Superblock)
    ensures SuperblockChecksumValid(sb.(checksum := SuperblockCrc(sb)))
  {
    assert sb.(checksum := SuperblockCrc(sb)).(checksum := 0) == sb.(checksum := 0);
  }

  /** Rewriting any one byte of a valid serialized superblock, the checksum included, makes the
      record read back from those bytes invalid. */
  lemma SuperblockCorruptionDetected(sb: Superblock, j: nat, v: byte)
    requires SuperblockChecksumValid(sb)
    requires j < SUPERBLOCK_SIZE && v != SerializeSuperblock(sb)[j]
    ensures !SuperblockChecksumValid(ParseSuperblock(SerializeSuperblock(sb)[j := v]))
  {
    if j < 112 {
      SuperblockBodyCorrupted(sb, j, v);
    } else {
      SuperblockChecksumCorrupted(sb, j, v);
    }
  }

  /** A byte rewritten ahead of the checksum changes the CRC but not the stored checksum. */
  lemma SuperblockBodyCorrupted(sb: Superblock, j: nat, v: byte)
    requires SuperblockChecksumValid(sb)
    requires j < 112 && v != SerializeSuperblock(sb)[j]
    ensures !SuperblockChecksumValid(ParseSuperblock(SerializeSuperblock(sb)[j := v]))
  {
    var s := SerializeSuperblock(sb);
    var sb2 := ParseSuperblock(s[j := v]);
    SuperblockSameChecksum(sb, j, v);
    SuperblockInputsDiffer(sb, j, v);
    Crc32DetectsByteError(SuperblockCrcInput(sb), SuperblockCrcInput(sb2), j);
  }

  /** A byte rewritten inside the checksum field changes the stored checksum but not the CRC. */
  lemma SuperblockChecksumCorrupted(sb: Superblock, j: nat, v: byte)
    requires SuperblockChecksumValid(sb)
    requires 112 <= j < SUPERBLOCK_SIZE && v != SerializeSuperblock(sb)[j]
    ensures !SuperblockChecksumValid(ParseSuperblock(SerializeSuperblock(sb)[j := v]))
  {
    var s := SerializeSuperblock(sb);
    var s2 := s[j := v];
    var sb2 := ParseSuperblock(s2);
    SuperblockSerializeParse(s2);
    SuperblockChecksumLast(sb);
    SuperblockChecksumLast(sb2);
    assert s2[..112] == s[..112];
    assert LE(sb2.checksum, 4)[j - 112] == v != s[j] == LE(sb.checksum, 4)[j - 112];
    SuperblockCrcInputBytes(sb);
    SuperblockCrcInputBytes(sb2);
    assert SuperblockCrc(sb2) == SuperblockCrc(sb);
  }

  /** A byte rewritten ahead of the checksum leaves the stored checksum as it was. */
  lemma SuperblockSameChecksum(sb: Superblock, j: nat, v: byte)
    requires j < 112
    ensures ParseSuperblock(SerializeSuperblock(sb)[j := v]).checksum == sb.checksum
  {
    var s := SerializeSuperblock(sb);
    var s2 := s[j := v];
    var sb2 := ParseSuperblock(s2);
    SuperblockSerializeParse(s2);
    SuperblockChecksumLast(sb);
    SuperblockChecksumLast(sb2);
    assert LE(sb2.checksum, 4) == s2[112..] == s[112..] == LE(sb.checksum, 4);
    Pow256Values();
    LEInjective(sb2.checksum, sb.checksum, 4);
  }

  /** The CRC input is the serialized record's first 112 bytes, then four zero bytes in place
      of the checksum, then the padding. */
  lemma SuperblockCrcInputBytes(sb: Superblock)
    ensures SuperblockCrcInput(sb) == SerializeSuperblock(sb)[..112] + (LE(0, 4) + Zeros(BS - 4 - SUPERBLOCK_SIZE))
  {
    var z := sb.(checksum := 0);
    SuperblockChecksumLast(sb);
    SuperblockChecksumLast(z);
    assert z.(checksum := 0) == z;
  }

  /** One byte rewritten in the prefix kept of a sequence: the kept prefixes with a common tail
      differ in that byte only. */
  lemma EditBeforeTail(s: seq<byte>, j: nat, v: byte, n: nat, tail: seq<byte>)
    requires j < n <= |s| && v != s[j]
    ensures DiffersOnlyAt(s[..n] + tail, s[j := v][..n] + tail, j)
  {
  }

  /** A byte rewritten ahead of the checksum changes the CRC input in exactly that byte. */
  lemma SuperblockInputsDiffer(sb: Superblock, j: nat, v: byte)
    requires j < 112 && v != SerializeSuperblock(sb)[j]
    ensures DiffersOnlyAt(SuperblockCrcInput(sb), SuperblockCrcInput(ParseSuperblock(SerializeSuperblock(sb)[j := v])), j)
  {
    var s := SerializeSuperblock(sb);
    var s2 := s[j := v];
    var sb2 := ParseSuperblock(s2);
    SuperblockSerializeParse(s2);
    SuperblockCrcInputBytes(sb);
    SuperblockCrcInputBytes(sb2);
    EditBeforeTail(s, j, v, 112, LE(0, 4) + Zeros(BS - 4 - SUPERBLOCK_SIZE));
  }

  /* ---------------------------------------------------------------- inode */

  /** The CRC of the first 120 bytes of the serialized inode: everything but the CRC field. */
  function InodeCrc(ino: Inode): u32
  {
    Crc32(SerializeInode(ino)[..120])
  }

  predicate InodeCrcValid(ino: Inode)
  {
    ino.inodeCrc == InodeCrc(ino)
  }

  /** Copies the record into a scratch buffer, zeroes the CRC area, runs the CRC over bytes
      [0, 120) and stores it in the low half of the 64-bit CRC field. */
  method InodeCrcFinalize(tab: array<nat>, ino: Inode) returns (r: Inode)
    requires IsCrcTable(tab)
    ensures r == ino.(inodeCrc := InodeCrc(ino))
    ensures InodeCrcValid(r)
  {
    var bytes := SerializeInode(ino);
    var tmp := new byte[INODE_SIZE](i requires 0 <= i < INODE_SIZE => bytes[i]);
    var k := 120;
    while k < INODE_SIZE
      invariant 120 <= k <= INODE_SIZE
      invariant tmp[..120] == bytes[..120]
    {
      tmp[k] := 0;
      k := k + 1;
    }
    var c := ComputeCrc32(tab, tmp[..120]);
    r := ino.(inodeCrc := c);
    assert SerializeInode(r)[..120] == bytes[..120] by { InodeFinalizeBytes(ino); }
  }

  /** After finalizing, bytes [0, 120) are unchanged, bytes [120, 124) hold the CRC and bytes
      [124, 128) are zero. */
  lemma InodeFinalizeBytes(ino: Inode)
    ensures SerializeInode(ino.(inodeCrc := InodeCrc(ino)))[..120] == SerializeInode(ino)[..120]
    ensures SerializeInode(ino.(inodeCrc := InodeCrc(ino)))[120..124] == LE(InodeCrc(ino), 4)
    ensures SerializeInode(ino.(inodeCrc := InodeCrc(ino)))[124..] == Zeros(4)
  {
    var c := InodeCrc(ino);
    var r := ino.(inodeCrc := c);
    var head := SerializeInode(ino.(inodeCrc := 0))[..120];
    InodeCrcLast(ino);
    InodeCrcLast(r);
    assert r.(inodeCrc := 0) == ino.(inodeCrc := 0);
    Pow256Values();
    assert SerializeInode(ino)[..120] == head;
    CrcTail(head, c);
  }

  /** A head followed by an eight-byte field holding a 32-bit value: the head reads back, the
      field's low four bytes hold the value and its high four are zero. */
  lemma CrcTail(head: seq<byte>, c: nat)
    requires c < Pow256(4)
    ensures (head + LE(c, 8))[..|head|] == head
    ensures (head + LE(c, 8))[|head|..|head| + 4] == LE(c, 4)
    ensures (head + LE(c, 8))[|head| + 4..] == Zeros(4)
  {
    LEHighZero(c, 4, 4);
    assert (head + LE(c, 8))[|head|..] == LE(c, 4) + Zeros(4);
  }

  /** Stamping the computed CRC makes an inode valid. */
  lemma InodeFinalizedValid(ino: Inode)
    ensures InodeCrcValid(ino.(inodeCrc := InodeCrc(ino)))
  {
    InodeFinalizeBytes(ino);
  }

  /** Rewriting any one byte of a valid serialized inode, the CRC field included, makes the
      record read back from those bytes invalid. */
  lemma InodeCorruptionDetected(ino: Inode, j: nat, v: byte)
    requires InodeCrcValid(ino)
    requires j < INODE_SIZE && v != SerializeInode(ino)[j]
    ensures !InodeCrcValid(ParseInode(SerializeInode(ino)[j := v]))
  {
    if j < 120 {
      InodeBodyCorrupted(ino, j, v);
    } else {
      InodeCrcCorrupted(ino, j, v);
    }
  }

  /** A byte rewritten inside the CRC field changes the stored CRC but not the computed one. */
  lemma InodeCrcCorrupted(ino: Inode, j: nat, v: byte)
    requires InodeCrcValid(ino)
    requires 120 <= j < INODE_SIZE && v != SerializeInode(ino)[j]
    ensures !InodeCrcValid(ParseInode(SerializeInode(ino)[j := v]))
  {
    var s := SerializeInode(ino);
    var s2 := s[j := v];
    var ino2 := ParseInode(s2);
    InodeSerializeParse(s2);
    InodeCrcLast(ino);
    InodeCrcLast(ino2);
    assert s2[..120] == s[..120];
    assert LE(ino2.inodeCrc, 8)[j - 120] == v != s[j] == LE(ino.inodeCrc, 8)[j - 120];
  }

  /** A byte rewritten ahead of the CRC field changes the CRC but not the stored value. */
  lemma InodeBodyCorrupted(ino: Inode, j: nat, v: byte)
    requires InodeCrcValid(ino)
    requires j < 120 && v != SerializeInode(ino)[j]
    ensures !InodeCrcValid(ParseInode(SerializeInode(ino)[j := v]))
  {
    var s := SerializeInode(ino);
    var s2 := s[j := v];
    var ino2 := ParseInode(s2);
    InodeSerializeParse(s2);
    InodeSameCrc(ino, j, v);
    InodeCrcLast(ino);
    InodeCrcLast(ino2);
    EditBeforeTail(s, j, v, 120, []);
    assert s[..120] + [] == s[..120] && s2[..120] + [] == s2[..120];
    Crc32DetectsByteError(s[..120], s2[..120], j);
  }

  /** A byte rewritten ahead of the CRC field leaves the stored CRC as it was. */
  lemma InodeSameCrc(ino: Inode, j: nat, v: byte)
    requires j < 120
    ensures ParseInode(SerializeInode(ino)[j := v]).inodeCrc == ino.inodeCrc
  {
    var s := SerializeInode(ino);
    var s2 := s[j := v];
    var ino2 := ParseInode(s2);
    InodeSerializeParse(s2);
    InodeCrcLast(ino);
    InodeCrcLast(ino2);
    assert LE(ino2.inodeCrc, 8) == s2[120..] == s[120..] == LE(ino.inodeCrc, 8);
    Pow256Values();
    LEInjective(ino2.inodeCrc, ino.inodeCrc, 8);
  }

  /* ---------------------------------------------------------------- directory entry */

  /** XOR of all bytes of s. */
  function XorFold(s: seq<byte>): byte
  {
    if s == [] then 0 else XorFold(s[..|s| - 1]) ^ s[|s| - 1]
  }

  /** The checksum byte a directory entry should carry: the XOR of its bytes 0..62. */
  function DirentChecksum(d: Dirent): byte
  {
    XorFold(SerializeDirent(d)[..63])
  }

  /** A directory entry is intact when the XOR of all 64 of its bytes is 0. */
  predicate DirentValid(d: Dirent)
  {
    XorFold(SerializeDirent(d)) == 0
  }

  /** XORs bytes 0..62 of the entry and stores the result in byte 63. */
  method DirentChecksumFinalize(d: Dirent) returns (r: Dirent)
    ensures r == d.(checksum := DirentChecksum(d))
    ensures DirentValid(r)
  {
    var p := SerializeDirent(d);
    var x: byte := 0;
    var i := 0;
    while i < 63
      invariant 0 <= i <= 63
      invariant x == XorFold(p[..i])
    {
      assert p[..i + 1][..i] == p[..i];
      x := x ^ p[i];
      i := i + 1;
    }
    r := d.(checksum := x);
    DirentValidIff(r);
  }

  lemma XorZeroIffByte(x: byte, y: byte)
    ensures x ^ y == 0 <==> x == y
  {
  }

  lemma XorCancelByte(a: byte, x: byte, y: byte)
    ensures (x ^ a == y ^ a) <==> x == y
  {
  }

  /** The XOR of all 64 bytes is 0 exactly when byte 63 is the XOR of the other 63. */
  lemma DirentValidIff(d: Dirent)
    ensures DirentValid(d) <==> d.checksum == DirentChecksum(d)
  {
    var s := SerializeDirent(d);
    assert s[..64][..63] == s[..63];
    assert s[..64] == s;
    XorZeroIffByte(XorFold(s[..63]), s[63]);
  }

  /** Stamping the computed checksum byte makes an entry valid. */
  lemma DirentFinalizedValid(d: Dirent)
    ensures DirentValid(d.(checksum := DirentChecksum(d)))
  {
    var d' := d.(checksum := DirentChecksum(d));
    var s, s' := SerializeDirent(d), SerializeDirent(d');
    assert s'[..63] == s'[..4] + [s'[4]] + s'[5..63];
    assert s[..63] == s[..4] + [s[4]] + s[5..63];
    DirentValidIff(d');
  }

  lemma {:induction false} XorFoldDiffers(s: seq<byte>, t: seq<byte>, j: nat)
    requires DiffersOnlyAt(s, t, j)
    ensures XorFold(s) != XorFold(t)
  {
    var n := |s|;
    var s', t' := s[..n - 1], t[..n - 1];
    if j == n - 1 {
      assert s' == t';
      XorCancelByte(XorFold(s'), s[n - 1], t[n - 1]);
      assert XorFold(s') ^ s[n - 1] == s[n - 1] ^ XorFold(s');
      assert XorFold(t') ^ t[n - 1] == t[n - 1] ^ XorFold(t');
    } else {
      assert DiffersOnlyAt(s', t', j);
      XorFoldDiffers(s', t', j);
      XorCancelByte(s[n - 1], XorFold(s'), XorFold(t'));
    }
  }

  /** Changing any one byte of a valid serialized entry makes the entry read back invalid. */
  lemma DirentCorruptionDetected(d: Dirent, j: nat, v: byte)
    requires DirentValid(d)
    requires j < DIRENT_SIZE && v != SerializeDirent(d)[j]
    ensures !DirentValid(ParseDirent(SerializeDirent(d)[j := v]))
  {
    var s := SerializeDirent(d);
    var s2 := s[j := v];
    DirentSerializeParse(s2);
    XorFoldDiffers(s, s2, j);
  }
}
