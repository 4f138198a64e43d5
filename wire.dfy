/** Fixed-width little-endian encoding of unsigned integers as bytes.
    Every multi-byte field of the MiniVSFS records is stored this way. */
module Wire {

  type byte = bv8
  type u8 = x: int | 0 <= x < 0x100
  type u16 = x: int | 0 <= x < 0x1_0000
  type u32 = x: int | 0 <= x < 0x1_0000_0000
  type u64 = x: int | 0 <= x < 0x1_0000_0000_0000_0000

  datatype Result<+T, +E> = Success(value: T) | Failure(error: E)

  datatype Option<+T> = None | Some(value: T)

  /** 256 to the power n: the number of distinct values of an n-byte field. */
  function Pow256(n: nat): (r: nat)
    ensures r >= 1
  {
    if n == 0 then 1 else 256 * Pow256(n - 1)
  }

  /** The n low bytes of x, least significant first. */
  function LE(x: nat, n: nat): (r: seq<byte>)
    ensures |r| == n
  {
    if n == 0 then [] else [ToByte(x % 256)] + LE(x / 256, n - 1)
  }

  /** The unsigned value of a little-endian byte string. */
  function Dec(s: seq<byte>): nat
  {
    if s == [] then 0 else (s[0] as int) + 256 * Dec(s[1..])
  }

  function Zeros(n: nat): (r: seq<byte>)
    ensures |r| == n
    ensures forall i :: 0 <= i < n ==> r[i] == 0
  {
    seq(n, _ => 0)
  }

  /** The byte whose value is v, for v below 256: the C conversion `(uint8_t)v` where it does
      not truncate. */
  function ToByte(v: nat): (b: byte)
    requires v < 256
    ensures b as int == v
  {
    if v == 0 then 0 else ToByte(v - 1) + 1
  }

  /** Every byte is the byte of its own value. */
  lemma ToByteValue(b: byte)
    ensures ToByte(b as int) == b
  {
    var c := ToByte(b as int);
    assert (c as int) as bv8 == c;
    assert (b as int) as bv8 == b;
  }

  /** Decoding an encoding gives the value back, when the value fits. */
  lemma {:induction false} DecLE(x: nat, n: nat)
    requires x < Pow256(n)
    ensures Dec(LE(x, n)) == x
  {
    if n > 0 {
      DecLE(x / 256, n - 1);
      var r := LE(x, n);
      assert r[1..] == LE(x / 256, n - 1);
    }
  }

  /** Encoding a decoded string gives the string back, and every decoded value fits. */
  lemma LEDec(s: seq<byte>)
    ensures Dec(s) < Pow256(|s|)
    ensures LE(Dec(s), |s|) == s
  {
    DecBound(s);
    LEDecBytes(s);
  }

  lemma {:induction false} DecBound(s: seq<byte>)
    ensures Dec(s) < Pow256(|s|)
  {
    if s != [] {
      DecBound(s[1..]);
    }
  }

  lemma {:induction false} LEDecBytes(s: seq<byte>)
    ensures LE(Dec(s), |s|) == s
  {
    if s != [] {
      var t := s[1..];
      LEDecBytes(t);
      DigitSplit(s[0] as int, Dec(t));
      ToByteValue(s[0]);
      assert s == [s[0]] + t;
    }
  }

  /** The low byte and the rest of a little-endian value. */
  lemma DigitSplit(lo: nat, hi: nat)
    requires lo < 256
    ensures (lo + 256 * hi) % 256 == lo && (lo + 256 * hi) / 256 == hi
  {
  }

  /** Two values that fit in n bytes have the same encoding only if they are equal. */
  lemma LEInjective(x: nat, y: nat, n: nat)
    requires x < Pow256(n) && y < Pow256(n)
    requires LE(x, n) == LE(y, n)
    ensures x == y
  {
    DecLE(x, n);
    DecLE(y, n);
  }

  lemma ZerosDec(n: nat)
    ensures Dec(Zeros(n)) == 0
  {
    if n > 0 {
      assert Zeros(n)[1..] == Zeros(n - 1);
      ZerosDec(n - 1);
    }
  }

  lemma {:induction false} LEZero(n: nat)
    ensures LE(0, n) == Zeros(n)
  {
    if n > 0 {
      LEZero(n - 1);
      assert LE(0, n) == [0] + Zeros(n - 1);
    }
  }

  /** A value that fits in m bytes, written in m + n bytes, ends in n zero bytes. */
  lemma {:induction false} LEHighZero(x: nat, m: nat, n: nat)
    requires x < Pow256(m)
    ensures LE(x, m + n) == LE(x, m) + Zeros(n)
  {
    if m == 0 {
      LEZero(n);
    } else {
      LEHighZero(x / 256, m - 1, n);
    }
  }

  lemma ZerosAppend(a: nat, b: nat)
    ensures Zeros(a) + Zeros(b) == Zeros(a + b)
  {
  }

  lemma Pow256Values()
    ensures Pow256(1) == 0x100 && Pow256(2) == 0x1_0000 && Pow256(4) == 0x1_0000_0000
    ensures Pow256(8) == 0x1_0000_0000_0000_0000
  {
    assert Pow256(2) == 256 * Pow256(1);
    assert Pow256(4) == 256 * 256 * Pow256(2);
    assert Pow256(8) == 256 * 256 * 256 * 256 * Pow256(4);
  }

  /** s with the bytes [off, off + |data|) replaced by data: what a memcpy leaves behind. */
  function Splice(s: seq<byte>, off: nat, data: seq<byte>): (r: seq<byte>)
    requires off + |data| <= |s|
    ensures |r| == |s|
    ensures r[off..off + |data|] == data
    ensures forall i :: 0 <= i < |s| && !(off <= i < off + |data|) ==> r[i] == s[i]
  {
    s[..off] + data + s[off + |data|..]
  }

  /** A prefix is a shorter prefix followed by the bytes between the two. */
  lemma SplitPrefix(s: seq<byte>, i: nat, j: nat)
    requires i <= j <= |s|
    ensures s[..j] == s[..i] + s[i..j]
  {
  }

  /** Each of three joined pieces can be cut back out. */
  lemma PartsOfThree(a: seq<byte>, b: seq<byte>, c: seq<byte>)
    ensures (a + b + c)[..|a|] == a && (a + b + c)[|a|..|a| + |b|] == b && (a + b + c)[|a| + |b|..] == c
  {
  }

  /** A sequence is its three pieces cut at i and j put back together. */
  lemma SplitThree(s: seq<byte>, i: nat, j: nat)
    requires i <= j <= |s|
    ensures s == s[..i] + s[i..j] + s[j..]
  {
  }

  /** A range of bytes the splice does not overlap keeps its contents. */
  lemma SpliceElsewhere(s: seq<byte>, off: nat, data: seq<byte>, a: nat, b: nat)
    requires off + |data| <= |s| && a <= b <= |s| && (b <= off || off + |data| <= a)
    ensures Splice(s, off, data)[a..b] == s[a..b]
  {
  }

  /** Copying data to the start of a cleared buffer leaves data followed by zeros. */
  lemma SpliceIntoZeros(n: nat, data: seq<byte>)
    requires |data| <= n
    ensures Splice(Zeros(n), 0, data) == data + Zeros(n - |data|)
  {
  }
}

/** Packed records described by a table of field offsets, encoded field by field. */
module Codec {
  import opened Wire

  /** A packed record layout: field i occupies bytes [offs[i], offs[i+1]). */
  predicate IsLayout(offs: seq<nat>)
  {
    |offs| >= 1 && offs[0] == 0 && forall i :: 0 <= i < |offs| - 1 ==> offs[i] <= offs[i + 1]
  }

  lemma LayoutMono(offs: seq<nat>, i: nat, j: nat)
    requires IsLayout(offs) && i <= j < |offs|
    ensures offs[i] <= offs[j]
    decreases j - i
  {
    if i < j { LayoutMono(offs, i + 1, j); }
  }

  function Width(offs: seq<nat>, i: nat): nat
    requires IsLayout(offs) && i < |offs| - 1
  {
    offs[i + 1] - offs[i]
  }

  predicate FitsLayout(values: seq<nat>, offs: seq<nat>)
    requires IsLayout(offs)
  {
    |values| == |offs| - 1 && forall i :: 0 <= i < |values| ==> values[i] < Pow256(Width(offs, i))
  }

  function EncodeUpTo(values: seq<nat>, offs: seq<nat>, k: nat): (r: seq<byte>)
    requires IsLayout(offs) && |values| == |offs| - 1 && k <= |values|
    ensures |r| == offs[k]
  {
    if k == 0 then [] else EncodeUpTo(values, offs, k - 1) + LE(values[k - 1], Width(offs, k - 1))
  }

  function Encode(values: seq<nat>, offs: seq<nat>): (r: seq<byte>)
    requires IsLayout(offs) && |values| == |offs| - 1
    ensures |r| == offs[|offs| - 1]
  {
    EncodeUpTo(values, offs, |values|)
  }

  function Decode(s: seq<byte>, offs: seq<nat>): (r: seq<nat>)
    requires IsLayout(offs) && |s| == offs[|offs| - 1]
    ensures |r| == |offs| - 1
    ensures forall i :: 0 <= i < |r| ==> r[i] < Pow256(Width(offs, i))
  {
    seq(|offs| - 1, i requires 0 <= i < |offs| - 1 => FieldAt(s, offs, i))
  }

  /** The value of field i of the record s. */
  function FieldAt(s: seq<byte>, offs: seq<nat>, i: nat): (r: nat)
    requires IsLayout(offs) && |s| == offs[|offs| - 1] && i < |offs| - 1
    ensures offs[i + 1] <= |s|
    ensures r == Dec(s[offs[i]..offs[i + 1]]) && r < Pow256(Width(offs, i))
  {
    LayoutMono(offs, i + 1, |offs| - 1);
    LEDec(s[offs[i]..offs[i + 1]]);
    Dec(s[offs[i]..offs[i + 1]])
  }

  lemma {:induction false} EncodeUpToSlice(values: seq<nat>, offs: seq<nat>, k: nat, i: nat)
    requires IsLayout(offs) && |values| == |offs| - 1 && i < k <= |values|
    ensures offs[i + 1] <= offs[k]
    ensures EncodeUpTo(values, offs, k)[offs[i]..offs[i + 1]] == LE(values[i], Width(offs, i))
  {
    LayoutMono(offs, i + 1, k);
    if i < k - 1 {
      EncodeUpToSlice(values, offs, k - 1, i);
      LayoutMono(offs, i + 1, k - 1);
    }
  }

  /** Field i of an encoded record holds the encoding of value i. */
  lemma EncodeSlice(values: seq<nat>, offs: seq<nat>, i: nat)
    requires IsLayout(offs) && |values| == |offs| - 1 && i < |values|
    ensures offs[i + 1] <= offs[|offs| - 1]
    ensures Encode(values, offs)[offs[i]..offs[i + 1]] == LE(values[i], Width(offs, i))
  {
    LayoutMono(offs, i + 1, |offs| - 1);
    EncodeUpToSlice(values, offs, |values|, i);
  }

  lemma DecodeEncode(values: seq<nat>, offs: seq<nat>)
    requires IsLayout(offs) && FitsLayout(values, offs)
    ensures Decode(Encode(values, offs), offs) == values
  {
    var d := Decode(Encode(values, offs), offs);
    forall i | 0 <= i < |values| ensures d[i] == values[i] {
      EncodeSlice(values, offs, i);
      DecLE(values[i], Width(offs, i));
    }
  }

  lemma {:induction false} EncodeUpToDecode(s: seq<byte>, offs: seq<nat>, k: nat)
    requires IsLayout(offs) && |s| == offs[|offs| - 1] && k <= |offs| - 1
    ensures offs[k] <= |s|
    ensures EncodeUpTo(Decode(s, offs), offs, k) == s[..offs[k]]
  {
    LayoutMono(offs, k, |offs| - 1);
    if k > 0 {
      EncodeUpToDecode(s, offs, k - 1);
      var d := Decode(s, offs);
      var f := FieldAt(s, offs, k - 1);
      assert d[k - 1] == f;
      LEDec(s[offs[k - 1]..offs[k]]);
      assert EncodeUpTo(d, offs, k) == s[..offs[k - 1]] + LE(f, Width(offs, k - 1));
      SplitPrefix(s, offs[k - 1], offs[k]);
    }
  }

  lemma EncodeDecode(s: seq<byte>, offs: seq<nat>)
    requires IsLayout(offs) && |s| == offs[|offs| - 1]
    ensures Encode(Decode(s, offs), offs) == s
  {
    EncodeUpToDecode(s, offs, |offs| - 1);
  }

  /** The first k fields of an encoding depend only on the first k values. */
  lemma {:induction false} EncodeUpToPrefix(v1: seq<nat>, v2: seq<nat>, offs: seq<nat>, k: nat)
    requires IsLayout(offs) && |v1| == |offs| - 1 && |v2| == |offs| - 1 && k <= |v1|
    requires v1[..k] == v2[..k]
    ensures EncodeUpTo(v1, offs, k) == EncodeUpTo(v2, offs, k)
  {
    if k > 0 {
      assert v1[..k - 1] == v2[..k - 1];
      assert v1[k - 1] == v1[..k][k - 1];
      EncodeUpToPrefix(v1, v2, offs, k - 1);
    }
  }

  lemma {:induction false} EncodePrefix(values: seq<nat>, offs: seq<nat>, k: nat, j: nat)
    requires IsLayout(offs) && |values| == |offs| - 1 && k <= j <= |values|
    ensures offs[k] <= offs[j]
    ensures EncodeUpTo(values, offs, j)[..offs[k]] == EncodeUpTo(values, offs, k)
    decreases j - k
  {
    LayoutMono(offs, k, j);
    if k < j {
      EncodePrefix(values, offs, k, j - 1);
      LayoutMono(offs, k, j - 1);
    }
  }

  function U16Field(s: seq<byte>, offs: seq<nat>, i: nat): (r: u16)
    requires IsLayout(offs) && |s| == offs[|offs| - 1] && i < |offs| - 1 && Width(offs, i) == 2
    ensures r == Decode(s, offs)[i]
  {
    Pow256Values();
    FieldAt(s, offs, i)
  }

  function U32Field(s: seq<byte>, offs: seq<nat>, i: nat): (r: u32)
    requires IsLayout(offs) && |s| == offs[|offs| - 1] && i < |offs| - 1 && Width(offs, i) == 4
    ensures r == Decode(s, offs)[i]
  {
    Pow256Values();
    FieldAt(s, offs, i)
  }

  function U64Field(s: seq<byte>, offs: seq<nat>, i: nat): (r: u64)
    requires IsLayout(offs) && |s| == offs[|offs| - 1] && i < |offs| - 1 && Width(offs, i) == 8
    ensures r == Decode(s, offs)[i]
  {
    Pow256Values();
    FieldAt(s, offs, i)
  }
}
