/** Unsigned machine words as naturals, with the bitwise exclusive or that the checksums use. */
module Words {
  function Pow2(n: nat): (r: nat)
    ensures r >= 1
  {
    if n == 0 then 1 else 2 * Pow2(n - 1)
  }

  lemma Pow2Values()
    ensures Pow2(8) == 0x100 && Pow2(31) == 0x8000_0000 && Pow2(32) == 0x1_0000_0000
  {
    assert Pow2(4) == 16 by {
      assert Pow2(1) == 2;
      assert Pow2(2) == 4;
      assert Pow2(3) == 8;
    }
    assert Pow2(8) == 256 by {
      assert Pow2(5) == 32;
      assert Pow2(6) == 64;
      assert Pow2(7) == 128;
    }
    assert Pow2(16) == 0x1_0000 by {
      assert Pow2(9) == 0x200;
      assert Pow2(10) == 0x400;
      assert Pow2(11) == 0x800;
      assert Pow2(12) == 0x1000;
      assert Pow2(13) == 0x2000;
      assert Pow2(14) == 0x4000;
      assert Pow2(15) == 0x8000;
    }
    assert Pow2(24) == 0x100_0000 by {
      assert Pow2(17) == 0x2_0000;
      assert Pow2(18) == 0x4_0000;
      assert Pow2(19) == 0x8_0000;
      assert Pow2(20) == 0x10_0000;
      assert Pow2(21) == 0x20_0000;
      assert Pow2(22) == 0x40_0000;
      assert Pow2(23) == 0x80_0000;
    }
    assert Pow2(25) == 0x200_0000;
    assert Pow2(26) == 0x400_0000;
    assert Pow2(27) == 0x800_0000;
    assert Pow2(28) == 0x1000_0000;
    assert Pow2(29) == 0x2000_0000;
    assert Pow2(30) == 0x4000_0000;
  }

  /** Bitwise exclusive or of two naturals: the C operator ^ on unsigned words. */
  function Xor(a: nat, b: nat): nat
    decreases a + b
  {
    if a == 0 then b
    else if b == 0 then a
    else (if a % 2 == b % 2 then 0 else 1) + 2 * Xor(a / 2, b / 2)
  }

  lemma Digit(t: nat, x: nat)
    requires t < 2
    ensures (t + 2 * x) % 2 == t && (t + 2 * x) / 2 == x
  {
  }

  /** The lowest bit of a ^ b and the bits above it. */
  lemma XorBits(a: nat, b: nat)
    ensures Xor(a, b) % 2 == (if a % 2 == b % 2 then 0 else 1)
    ensures Xor(a, b) / 2 == Xor(a / 2, b / 2)
  {
    if a == 0 {
      assert Xor(a / 2, b / 2) == b / 2;
    } else if b == 0 {
      assert Xor(a / 2, b / 2) == a / 2 by { XorZero(a / 2); }
    } else {
      Digit(if a % 2 == b % 2 then 0 else 1, Xor(a / 2, b / 2));
    }
  }

  lemma XorZero(a: nat)
    ensures Xor(a, 0) == a && Xor(0, a) == a
  {
  }

  lemma {:induction false} XorComm(a: nat, b: nat)
    ensures Xor(a, b) == Xor(b, a)
    decreases a + b
  {
    if a != 0 && b != 0 {
      XorComm(a / 2, b / 2);
    }
  }

  lemma {:induction false} XorSelf(a: nat)
    ensures Xor(a, a) == 0
  {
    if a != 0 {
      XorSelf(a / 2);
    }
  }

  lemma {:induction false} XorAssoc(a: nat, b: nat, c: nat)
    ensures Xor(Xor(a, b), c) == Xor(a, Xor(b, c))
    decreases a + b + c
  {
    if a != 0 && b != 0 && c != 0 {
      XorAssoc(a / 2, b / 2, c / 2);
      XorBits(Xor(a, b), c);
      XorBits(a, b);
      XorBits(a, Xor(b, c));
      XorBits(b, c);
    } else if a == 0 {
      XorZero(b);
      XorZero(Xor(b, c));
    } else if b == 0 {
      XorZero(a);
      XorZero(c);
    } else {
      XorZero(Xor(a, b));
      XorZero(b);
    }
  }

  /** x ^ y is 0 exactly when x == y. */
  lemma XorZeroIff(x: nat, y: nat)
    ensures Xor(x, y) == 0 <==> x == y
  {
    XorSelf(y);
    if Xor(x, y) == 0 {
      XorAssoc(x, y, y);
      XorZero(x);
      XorZero(y);
    }
  }

  /** XOR with a fixed value is injective. */
  lemma XorCancel(a: nat, x: nat, y: nat)
    requires Xor(x, a) == Xor(y, a)
    ensures x == y
  {
    XorAssoc(x, a, a);
    XorAssoc(y, a, a);
    XorSelf(a);
    XorZero(x);
    XorZero(y);
  }

  /** (a ^ b) ^ (c ^ d) == (a ^ c) ^ (b ^ d). */
  lemma XorShuffle(a: nat, b: nat, c: nat, d: nat)
    ensures Xor(Xor(a, b), Xor(c, d)) == Xor(Xor(a, c), Xor(b, d))
  {
    XorAssoc(a, b, Xor(c, d));
    XorAssoc(b, c, d);
    XorComm(b, c);
    XorAssoc(c, b, d);
    XorAssoc(a, c, Xor(b, d));
  }

  lemma {:induction false} XorBound(a: nat, b: nat, n: nat)
    requires a < Pow2(n) && b < Pow2(n)
    ensures Xor(a, b) < Pow2(n)
  {
    if n > 0 && a != 0 && b != 0 {
      XorBound(a / 2, b / 2, n - 1);
    }
  }

  /** k has its n low bits clear. */
  predicate LowClear(k: nat, n: nat)
  {
    n == 0 || (k % 2 == 0 && LowClear(k / 2, n - 1))
  }

  /** XOR with a value whose low n bits are clear is addition. */
  lemma {:induction false} XorDisjoint(r: nat, k: nat, n: nat)
    requires r < Pow2(n) && LowClear(k, n)
    ensures Xor(r, k) == r + k
  {
    if n > 0 {
      XorDisjoint(r / 2, k / 2, n - 1);
      XorBits(r, k);
    }
  }

  /** Doubling shifts one more clear bit in at the bottom. */
  lemma LowClearDouble(k: nat, n: nat)
    requires LowClear(k, n)
    ensures LowClear(2 * k, n + 1)
  {
    assert (2 * k) % 2 == 0 && (2 * k) / 2 == k;
  }

  /** A multiple of 256 has its eight low bits clear. */
  lemma LowClear256(m: nat)
    ensures LowClear(256 * m, 8)
  {
    var k := m;
    var i := 0;
    while i < 8
      invariant i <= 8 && k == Pow2(i) * m && LowClear(k, i)
    {
      LowClearDouble(k, i);
      Pow2Step(i, m);
      k, i := 2 * k, i + 1;
    }
    Pow2Values();
  }

  /** One more factor of two. */
  lemma Pow2Step(i: nat, m: nat)
    ensures Pow2(i + 1) * m == 2 * (Pow2(i) * m)
  {
    assert Pow2(i + 1) == 2 * Pow2(i);
  }
}

/** The checksums of MiniVSFS: the table-driven reflected CRC-32 (polynomial 0xEDB88320,
    initial and final XOR 0xFFFFFFFF, the CRC of section 8 of RFC 1952) that protects the
    superblock and every inode. A 32-bit CRC register is a natural below 2^32. */
module Crc {
  import opened Wire
  import opened Words

  const POLY: nat := 0xEDB88320
  const ALL_ONES: nat := 0xFFFF_FFFF
  const WORD: nat := 0x1_0000_0000

  /* ---------------------------------------------------------------- bit-level reference */

  /** One bit of the reflected CRC division: shift right, folding in the polynomial when the
      bit shifted out was 1. */
  function Shift(c: nat): nat
  {
    if c % 2 == 1 then Xor(POLY, c / 2) else c / 2
  }

  function Shifts(c: nat, k: nat): nat
    decreases k
  {
    if k == 0 then c else Shifts(Shift(c), k - 1)
  }

  /** The value the table holds for index i: i after eight shift rounds. */
  function TableEntry(i: nat): nat
  {
    Shifts(i, 8)
  }

  /** One byte of the CRC, processed bit by bit. */
  function Step(c: nat, b: byte): nat
  {
    Shifts(Xor(c, b as nat), 8)
  }

  /** The CRC register after the bytes of s, fed first to last. */
  function Register(s: seq<byte>): nat
  {
    if s == [] then ALL_ONES else Step(Register(s[..|s| - 1]), s[|s| - 1])
  }

  /** The CRC-32 of s, a 32-bit value. */
  function Crc32(s: seq<byte>): (r: u32)
  {
    RegisterBound(s);
    Pow2Values();
    XorBound(Register(s), ALL_ONES, 32);
    Xor(Register(s), ALL_ONES)
  }

  /* ---------------------------------------------------------------- bounds */

  lemma ShiftBound(c: nat)
    requires c < WORD
    ensures Shift(c) < WORD
  {
    Pow2Values();
    if c % 2 == 1 {
      XorBound(POLY, c / 2, 32);
    }
  }

  lemma {:induction false} ShiftsBound(c: nat, k: nat)
    requires c < WORD
    ensures Shifts(c, k) < WORD
    decreases k
  {
    if k > 0 {
      ShiftBound(c);
      ShiftsBound(Shift(c), k - 1);
    }
  }

  lemma StepBound(c: nat, b: byte)
    requires c < WORD
    ensures Step(c, b) < WORD
  {
    Pow2Values();
    XorBound(c, b as nat, 32);
    ShiftsBound(Xor(c, b as nat), 8);
  }

  lemma {:induction false} RegisterBound(s: seq<byte>)
    ensures Register(s) < WORD
  {
    if s != [] {
      RegisterBound(s[..|s| - 1]);
      StepBound(Register(s[..|s| - 1]), s[|s| - 1]);
    }
  }

  /** The CRC of nothing is 0: the initial XOR cancels the final one. */
  lemma Crc32Empty()
    ensures Crc32([]) == 0
  {
    XorSelf(ALL_ONES);
  }

  /* ---------------------------------------------------------------- linearity */

  /** A shift round is linear over XOR. */
  lemma ShiftLinear(a: nat, g: nat)
    ensures Shift(Xor(a, g)) == Xor(Shift(a), Shift(g))
  {
    XorBits(a, g);
    var u, v := a / 2, g / 2;
    if a % 2 == 1 && g % 2 == 1 {
      XorShuffle(POLY, u, POLY, v);
      XorSelf(POLY);
      XorZero(Xor(u, v));
    } else if a % 2 == 1 {
      XorAssoc(POLY, u, v);
    } else if g % 2 == 1 {
      XorAssoc(u, POLY, v);
      XorComm(u, POLY);
      XorAssoc(POLY, u, v);
    }
  }

  lemma {:induction false} ShiftsLinear(a: nat, g: nat, k: nat)
    ensures Shifts(Xor(a, g), k) == Xor(Shifts(a, k), Shifts(g, k))
    decreases k
  {
    if k > 0 {
      ShiftLinear(a, g);
      ShiftsLinear(Shift(a), Shift(g), k - 1);
    }
  }

  /** A shift round maps only 0 to 0, so it loses no information. */
  lemma ShiftNonzero(a: nat)
    requires 0 < a < WORD
    ensures Shift(a) != 0
  {
    if a % 2 == 1 {
      XorZeroIff(POLY, a / 2);
    }
  }

  lemma {:induction false} ShiftsNonzero(a: nat, k: nat)
    requires 0 < a < WORD
    ensures Shifts(a, k) != 0
    decreases k
  {
    if k > 0 {
      ShiftNonzero(a);
      ShiftBound(a);
      ShiftsNonzero(Shift(a), k - 1);
    }
  }

  /** k rounds over a value whose low k bits are clear only shift it right. */
  lemma {:induction false} ShiftsClear(m: nat, k: nat)
    ensures Shifts(Pow2(k) * m, k) == m
  {
    if k > 0 {
      assert Pow2(k) * m == 2 * (Pow2(k - 1) * m);
      ShiftsClear(m, k - 1);
    }
  }

  /** The table-driven step of the loop in crc32 equals eight bit rounds. */
  lemma TableStep(c: nat, b: byte)
    requires c < WORD
    ensures Xor(c, b as nat) % 256 < 256
    ensures Xor(TableEntry(Xor(c, b as nat) % 256), c / 256) == Step(c, b)
  {
    var ch := c / 256;
    var x := Xor(c, b as nat);
    var lo := LowByteXor(c, b);
    ModOf(lo, ch);
    assert x % 256 == lo;
    var h := 256 * ch;
    ShiftsLinear(lo, h, 8);
    Pow2Values();
    ShiftsClear(ch, 8);
    assert Shifts(h, 8) == ch;
    assert x == Xor(lo, h);
    assert TableEntry(lo) == Shifts(lo, 8);
    calc {
      Xor(TableEntry(x % 256), ch);
      Xor(Shifts(lo, 8), Shifts(h, 8));
      Shifts(x, 8);
      Step(c, b);
    }
  }

  lemma ModOf(lo: nat, ch: nat)
    requires lo < 256
    ensures (lo + 256 * ch) % 256 == lo
  {
  }

  /** Splitting c ^ b at bit 8: the byte only touches the low eight bits. */
  lemma LowByteXor(c: nat, b: byte) returns (lo: nat)
    ensures lo < 256 && lo == Xor(c % 256, b as nat)
    ensures Xor(c, b as nat) == lo + 256 * (c / 256) == Xor(lo, 256 * (c / 256))
  {
    Pow2Values();
    var cl, ch := c % 256, c / 256;
    LowClear256(ch);
    XorDisjoint(cl, 256 * ch, 8);
    assert Xor(cl, 256 * ch) == c;
    lo := Xor(cl, b as nat);
    XorBound(cl, b as nat, 8);
    XorAssoc(cl, 256 * ch, b as nat);
    XorComm(256 * ch, b as nat);
    XorAssoc(cl, b as nat, 256 * ch);
    XorDisjoint(lo, 256 * ch, 8);
  }

  /* ---------------------------------------------------------------- the table and the loop */

  /** The 256-entry lookup table that the byte-wise CRC loop reads. */
  ghost predicate IsCrcTable(tab: array<nat>)
    reads tab
  {
    tab.Length == 256 && forall k :: 0 <= k < 256 ==> tab[k] == TableEntry(k)
  }

  /** Fills the table: eight shift rounds for every index. */
  method Crc32Init(tab: array<nat>)
    requires tab.Length == 256
    modifies tab
    ensures IsCrcTable(tab)
  {
    var i := 0;
    while i < 256
      invariant 0 <= i <= 256
      invariant forall k :: 0 <= k < i ==> tab[k] == TableEntry(k)
    {
      var c: nat := i;
      var j := 0;
      while j < 8
        invariant 0 <= j <= 8
        invariant Shifts(c, 8 - j) == TableEntry(i)
      {
        c := if c % 2 == 1 then Xor(POLY, c / 2) else c / 2;
        j := j + 1;
      }
      tab[i] := c;
      i := i + 1;
    }
  }

  /** The byte-wise loop of crc32 over data, reading the table. */
  method ComputeCrc32(tab: array<nat>, data: seq<byte>) returns (crc: u32)
    requires IsCrcTable(tab)
    ensures crc == Crc32(data)
  {
    var c := ALL_ONES;
    var i := 0;
    while i < |data|
      invariant 0 <= i <= |data|
      invariant c == Register(data[..i])
    {
      RegisterBound(data[..i]);
      TableStep(c, data[i]);
      assert data[..i + 1][..i] == data[..i];
      c := Xor(tab[Xor(c, data[i] as nat) % 256], c / 256);
      i := i + 1;
    }
    assert data[..i] == data;
    RegisterBound(data);
    Pow2Values();
    XorBound(c, ALL_ONES, 32);
    crc := Xor(c, ALL_ONES);
  }
  /* ---------------------------------------------------------------- error detection */

  /** s and t have the same length and differ in exactly one byte, at index j. */
  ghost predicate DiffersOnlyAt(s: seq<byte>, t: seq<byte>, j: nat)
  {
    |s| == |t| && j < |s| && s[j] != t[j] && forall i :: 0 <= i < |s| && i != j ==> s[i] == t[i]
  }

  lemma {:induction false} ShiftsInjective(x: nat, y: nat, k: nat)
    requires x < WORD && y < WORD && Shifts(x, k) == Shifts(y, k)
    ensures x == y
  {
    ShiftsLinear(x, y, k);
    XorSelf(Shifts(x, k));
    if x != y {
      XorZeroIff(x, y);
      Pow2Values();
      XorBound(x, y, 32);
      ShiftsNonzero(Xor(x, y), k);
    }
  }

  /** Equal steps from registers in range had equal inputs. */
  lemma StepInjective(c1: nat, b1: byte, c2: nat, b2: byte)
    requires c1 < WORD && c2 < WORD && Step(c1, b1) == Step(c2, b2)
    ensures Xor(c1, b1 as nat) == Xor(c2, b2 as nat)
  {
    Pow2Values();
    XorBound(c1, b1 as nat, 32);
    XorBound(c2, b2 as nat, 32);
    ShiftsInjective(Xor(c1, b1 as nat), Xor(c2, b2 as nat), 8);
  }

  /** The register after two byte strings that differ in one byte differs. */
  lemma {:induction false} RegistersDiffer(s: seq<byte>, t: seq<byte>, j: nat)
    requires DiffersOnlyAt(s, t, j)
    ensures Register(s) != Register(t)
  {
    var n := |s|;
    var s', t' := s[..n - 1], t[..n - 1];
    RegisterBound(s');
    RegisterBound(t');
    if j == n - 1 {
      assert s' == t';
      StepsDiffer(Register(s'), s[n - 1], Register(t'), t[n - 1]);
    } else {
      assert DiffersOnlyAt(s', t', j);
      RegistersDiffer(s', t', j);
      StepsDiffer(Register(s'), s[n - 1], Register(t'), t[n - 1]);
    }
  }

  /** Steps differ when exactly one of register and byte differs. */
  lemma StepsDiffer(c1: nat, b1: byte, c2: nat, b2: byte)
    requires c1 < WORD && c2 < WORD
    requires (c1 == c2 && b1 != b2) || (c1 != c2 && b1 == b2)
    ensures Step(c1, b1) != Step(c2, b2)
  {
    if Step(c1, b1) == Step(c2, b2) {
      StepInjective(c1, b1, c2, b2);
      if c1 == c2 {
        XorComm(c1, b1 as nat);
        XorComm(c1, b2 as nat);
        XorCancel(c1, b1 as nat, b2 as nat);
      } else {
        XorCancel(b1 as nat, c1, c2);
      }
    }
  }

  /** CRC-32 detects every single-byte error. */
  lemma Crc32DetectsByteError(s: seq<byte>, t: seq<byte>, j: nat)
    requires DiffersOnlyAt(s, t, j)
    ensures Crc32(s) != Crc32(t)
  {
    RegistersDiffer(s, t, j);
    if Crc32(s) == Crc32(t) {
      XorCancel(ALL_ONES, Register(s), Register(t));
    }
  }
}
