/** The one-block allocation bitmaps: bit i lives in byte i / 8 at position i % 8 (least
    significant first), and a set bit means "in use". `FindFreeBit` is the first-fit scan and
    `SetBit` marks one bit used; `AllocRun` is the repeated find-then-set the adder performs when
    it allocates a file's data blocks. */
module Bitmap {
  import opened Wire

  /** The mask `1 << k` for a bit position inside a byte. */
  function Bit(k: nat): (r: byte)
    requires k < 8
    ensures r != 0
  {
    (1 as byte) << k
  }

  predicate IsSet(bm: seq<byte>, i: nat)
    requires i < 8 * |bm|
  {
    bm[i / 8] & Bit(i % 8) != 0
  }

  /** The bitmap with bit i set. */
  function WithBit(bm: seq<byte>, i: nat): (r: seq<byte>)
    requires i < 8 * |bm|
    ensures |r| == |bm|
  {
    bm[i / 8 := bm[i / 8] | Bit(i % 8)]
  }

  lemma OrBit(b: byte, p: nat, q: nat)
    requires p < 8 && q < 8
    ensures (b | Bit(p)) & Bit(q) != 0 <==> (b & Bit(q) != 0 || p == q)
  {
  }

  lemma FullByte(q: nat)
    requires q < 8
    ensures 0xFF & Bit(q) != 0
  {
  }

  /** Setting bit i sets exactly bit i: every other bit keeps its value. */
  lemma WithBitIsSet(bm: seq<byte>, i: nat, j: nat)
    requires i < 8 * |bm| && j < 8 * |bm|
    ensures IsSet(WithBit(bm, i), j) <==> (IsSet(bm, j) || j == i)
  {
    if i / 8 == j / 8 {
      OrBit(bm[i / 8], i % 8, j % 8);
    }
  }

  /** Setting a bit twice is the same as setting it once. */
  lemma WithBitIdempotent(bm: seq<byte>, i: nat)
    requires i < 8 * |bm|
    ensures WithBit(WithBit(bm, i), i) == WithBit(bm, i)
  {
    var b := bm[i / 8];
    assert (b | Bit(i % 8)) | Bit(i % 8) == b | Bit(i % 8);
  }

  /** Setting a bit that is already set leaves the bitmap as it was. */
  lemma WithBitAlreadySet(bm: seq<byte>, i: nat)
    requires i < 8 * |bm| && IsSet(bm, i)
    ensures WithBit(bm, i) == bm
  {
    var b, m := bm[i / 8], Bit(i % 8);
    assert m == 1 << (i % 8);
    assert b | m == b by {
      assert b & m != 0;
    }
  }

  /* ---------------------------------------------------------------- the scan */

  /** The lowest clear bit in [from, limit), or -1 when all of them are set. */
  function FirstFree(bm: seq<byte>, from: nat, limit: nat): (r: int)
    requires limit <= 8 * |bm|
    ensures r == -1 || from <= r < limit
    decreases limit - from
  {
    if from >= limit then -1
    else if !IsSet(bm, from) then from
    else FirstFree(bm, from + 1, limit)
  }

  lemma {:induction false} FirstFreeSpec(bm: seq<byte>, from: nat, limit: nat)
    requires limit <= 8 * |bm|
    ensures FirstFree(bm, from, limit) == -1 <==> forall i :: from <= i < limit ==> IsSet(bm, i)
    ensures FirstFree(bm, from, limit) >= 0 ==>
      !IsSet(bm, FirstFree(bm, from, limit)) &&
      forall i :: from <= i < FirstFree(bm, from, limit) ==> IsSet(bm, i)
    decreases limit - from
  {
    if from < limit && IsSet(bm, from) {
      FirstFreeSpec(bm, from + 1, limit);
    }
  }

  /** A clear bit with only set bits below it (from `from` on) is the one `FirstFree` finds. */
  lemma FirstFreeIs(bm: seq<byte>, from: nat, limit: nat, j: nat)
    requires limit <= 8 * |bm| && from <= j < limit && !IsSet(bm, j)
    requires forall i :: from <= i < j ==> IsSet(bm, i)
    ensures FirstFree(bm, from, limit) == j
  {
    FirstFreeSpec(bm, from, limit);
  }

  /** The number of bytes `find_free_bit` scans: `(max_bits + 7) / 8` in 32-bit unsigned
      arithmetic, so a bound within 7 of 2^32 wraps around to a scan of no bytes at all. */
  function ScanBytes(maxBits: u32): (r: nat)
    ensures maxBits + 7 < 0x1_0000_0000 ==> maxBits <= 8 * r < maxBits + 8
    ensures maxBits + 7 >= 0x1_0000_0000 ==> r == 0
  {
    ((maxBits + 7) % 0x1_0000_0000) / 8
  }

  /** The bits the scan can report: below `maxBits`, inside the scanned bytes and inside the buffer. */
  function Reach(bm: seq<byte>, maxBits: u32): (r: nat)
    ensures r <= 8 * |bm| && r <= maxBits
  {
    var scanned := 8 * ScanBytes(maxBits);
    var lim := if maxBits < scanned then maxBits else scanned;
    if lim < 8 * |bm| then lim else 8 * |bm|
  }

  /** What `find_free_bit(bm, maxBits)` returns. */
  function FreeBit(bm: seq<byte>, maxBits: u32): (r: int)
    ensures r == -1 || 0 <= r < Reach(bm, maxBits)
  {
    FirstFree(bm, 0, Reach(bm, maxBits))
  }

  /** The scan never reads past the buffer: either all the bytes it may scan are inside the
      buffer, or it stops at a clear bit before leaving it. */
  predicate ScanInBounds(bm: seq<byte>, maxBits: u32)
  {
    ScanBytes(maxBits) <= |bm| || FreeBit(bm, maxBits) >= 0
  }

  /** Bit k of byte b is bit 8 * b + k of the bitmap. */
  lemma BitAt(bm: seq<byte>, b: nat, k: nat)
    requires b < |bm| && k < 8
    ensures 8 * b + k < 8 * |bm|
    ensures IsSet(bm, 8 * b + k) <==> bm[b] & Bit(k) != 0
  {
    assert (8 * b + k) / 8 == b && (8 * b + k) % 8 == k;
  }

  /** A byte equal to 0xFF has all eight of its bits set. */
  lemma FullByteSet(bm: seq<byte>, b: nat)
    requires b < |bm| && bm[b] == 0xFF
    ensures forall i :: 8 * b <= i < 8 * b + 8 ==> IsSet(bm, i)
  {
    forall i | 8 * b <= i < 8 * b + 8
      ensures IsSet(bm, i)
    {
      FullByte(i - 8 * b);
      BitAt(bm, b, i - 8 * b);
    }
  }

  /** While every bit below byte b within the bound is set, a scan that stays in bounds has not
      yet left the buffer at byte b. */
  lemma ScanByteInBounds(bm: seq<byte>, maxBits: u32, b: nat)
    requires ScanInBounds(bm, maxBits) && b < ScanBytes(maxBits)
    requires forall i :: 0 <= i < 8 * b && i < maxBits && i < 8 * |bm| ==> IsSet(bm, i)
    ensures b < |bm|
  {
    if ScanBytes(maxBits) > |bm| {
      FirstFreeSpec(bm, 0, Reach(bm, maxBits));
    }
  }

  /** The first-fit scan: whole bytes equal to 0xFF are skipped, then the bits of the first byte
      with a clear bit are tried from bit 0 up, and a clear bit at or past `maxBits` is passed over.
      The bit number is computed in 32 bits; the buffer bound keeps it below 2^31, so it fits the
      returned `int`. */
  method FindFreeBit(bm: array<byte>, maxBits: u32) returns (r: int)
    requires bm.Length <= 0x1000_0000
    requires ScanInBounds(bm[..], maxBits)
    ensures r == FreeBit(bm[..], maxBits)
    ensures r < 0x8000_0000
  {
    ghost var s := bm[..];
    ghost var R := Reach(s, maxBits);
    var n := ((maxBits + 7) % 0x1_0000_0000) / 8;
    var byteIdx := 0;
    while byteIdx < n
      invariant 0 <= byteIdx <= n
      invariant forall i :: 0 <= i < 8 * byteIdx && i < maxBits && i < 8 * |s| ==> IsSet(s, i)
    {
      ScanByteInBounds(s, maxBits, byteIdx);
      if bm[byteIdx] != 0xFF {
        var bitIdx := 0;
        while bitIdx < 8
          invariant 0 <= bitIdx <= 8
          invariant forall i :: 0 <= i < 8 * byteIdx + bitIdx && i < maxBits && i < 8 * |s| ==> IsSet(s, i)
        {
          BitAt(s, byteIdx, bitIdx);
          if bm[byteIdx] & Bit(bitIdx) == 0 {
            var bitNumber := byteIdx * 8 + bitIdx;
            if bitNumber < maxBits {
              FirstFreeIs(s, 0, R, bitNumber);
              return bitNumber;
            }
          }
          bitIdx := bitIdx + 1;
        }
      } else {
        FullByteSet(s, byteIdx);
      }
      byteIdx := byteIdx + 1;
    }
    FirstFreeSpec(s, 0, R);
    r := -1;
  }

  /** `set_bit`: or the bit's mask into its byte. */
  method SetBit(bm: array<byte>, bitNumber: int)
    requires 0 <= bitNumber < 8 * bm.Length
    modifies bm
    ensures bm[..] == WithBit(old(bm[..]), bitNumber)
  {
    var byteIdx := bitNumber / 8;
    var bitIdx := bitNumber % 8;
    bm[byteIdx] := bm[byteIdx] | Bit(bitIdx);
  }

  /** For a bound that neither wraps nor exceeds the buffer, `find_free_bit` returns the lowest
      clear bit below the bound, and -1 exactly when every bit below it is set. */
  lemma FreeBitLowest(bm: seq<byte>, maxBits: u32)
    requires maxBits + 7 < 0x1_0000_0000 && maxBits <= 8 * |bm|
    ensures FreeBit(bm, maxBits) == -1 <==> forall i :: 0 <= i < maxBits ==> IsSet(bm, i)
    ensures FreeBit(bm, maxBits) >= 0 ==>
      FreeBit(bm, maxBits) < maxBits && !IsSet(bm, FreeBit(bm, maxBits)) &&
      forall i :: 0 <= i < FreeBit(bm, maxBits) ==> IsSet(bm, i)
  {
    assert Reach(bm, maxBits) == maxBits;
    FirstFreeSpec(bm, 0, maxBits);
  }

  /** A bound within 7 of 2^32 makes the scan cover no byte, so nothing is ever found. */
  lemma FreeBitWraps(bm: seq<byte>, maxBits: u32)
    requires maxBits + 7 >= 0x1_0000_0000
    ensures FreeBit(bm, maxBits) == -1
  {
  }

  /** Once bit i is set the scan never reports it. */
  lemma FreeBitAfterSet(bm: seq<byte>, maxBits: u32, i: nat)
    requires i < 8 * |bm|
    ensures FreeBit(WithBit(bm, i), maxBits) != i
  {
    var bm' := WithBit(bm, i);
    FirstFreeSpec(bm', 0, Reach(bm', maxBits));
    WithBitIsSet(bm, i, i);
  }

  /* ---------------------------------------------------------------- counting */

  /** The number of clear bits below `limit`. */
  function CountFree(bm: seq<byte>, limit: nat): (r: nat)
    requires limit <= 8 * |bm|
    ensures r <= limit
  {
    if limit == 0 then 0
    else CountFree(bm, limit - 1) + (if IsSet(bm, limit - 1) then 0 else 1)
  }

  lemma {:induction false} CountFreeZero(bm: seq<byte>, limit: nat)
    requires limit <= 8 * |bm|
    ensures CountFree(bm, limit) == 0 <==> forall i :: 0 <= i < limit ==> IsSet(bm, i)
  {
    if limit > 0 {
      CountFreeZero(bm, limit - 1);
    }
  }

  /** Setting a clear bit below the limit removes exactly one clear bit. */
  lemma {:induction false} CountFreeWithBit(bm: seq<byte>, limit: nat, i: nat)
    requires limit <= 8 * |bm| && i < 8 * |bm| && !IsSet(bm, i)
    ensures CountFree(WithBit(bm, i), limit) == CountFree(bm, limit) - (if i < limit then 1 else 0)
  {
    if limit > 0 {
      var j := limit - 1;
      var w := WithBit(bm, i);
      CountFreeWithBit(bm, j, i);
      WithBitIsSet(bm, i, j);
      var setBefore, setAfter := IsSet(bm, j), IsSet(w, j);
      assert setAfter == (setBefore || j == i);
      assert CountFree(w, limit) == CountFree(w, j) + (if setAfter then 0 else 1);
      assert CountFree(bm, limit) == CountFree(bm, j) + (if setBefore then 0 else 1);
    }
  }

  /** The scan finds a bit exactly when there is a clear bit within its reach. */
  lemma FreeBitCount(bm: seq<byte>, maxBits: u32)
    ensures FreeBit(bm, maxBits) >= 0 <==> CountFree(bm, Reach(bm, maxBits)) > 0
  {
    FirstFreeSpec(bm, 0, Reach(bm, maxBits));
    CountFreeZero(bm, Reach(bm, maxBits));
  }

  /* ---------------------------------------------------------------- repeated allocation */

  /** The bits handed out so far and the bitmap after setting them. */
  datatype Alloc = Alloc(bits: seq<nat>, bitmap: seq<byte>)

  /** `k` rounds of find-then-set with the same bound, as the adder allocates data blocks;
      `None` when some round finds no clear bit. */
  function AllocRun(bm: seq<byte>, maxBits: u32, k: nat): (r: Option<Alloc>)
    ensures r.Some? ==> |r.value.bits| == k && |r.value.bitmap| == |bm|
  {
    if k == 0 then Some(Alloc([], bm))
    else match AllocRun(bm, maxBits, k - 1)
      case None => None
      case Some(a) =>
        var b := FreeBit(a.bitmap, maxBits);
        if b < 0 then None else Some(Alloc(a.bits + [b], WithBit(a.bitmap, b)))
  }

  /** Every round of the run stays inside the buffer: either the scanned bytes fit it, or it holds
      enough clear bits that no round runs off its end. */
  predicate RunInBounds(bm: seq<byte>, maxBits: u32, k: nat)
  {
    ScanBytes(maxBits) <= |bm| || k <= CountFree(bm, Reach(bm, maxBits))
  }

  /** The bits are handed out in strictly increasing order. */
  ghost predicate Increasing(bits: seq<nat>)
  {
    forall p, q :: 0 <= p < q < |bits| ==> bits[p] < bits[q]
  }

  /** Each bit handed out lies within reach and was clear in the bitmap the run started from. */
  ghost predicate WereFree(bm: seq<byte>, R: nat, bits: seq<nat>)
    requires R <= 8 * |bm|
  {
    forall p :: 0 <= p < |bits| ==> bits[p] < R && !IsSet(bm, bits[p])
  }

  /** `after` has exactly the bits of `bm` plus `bits` set. */
  ghost predicate SetExactly(bm: seq<byte>, after: seq<byte>, bits: seq<nat>)
    requires |after| == |bm|
  {
    forall j :: 0 <= j < 8 * |bm| ==> (IsSet(after, j) <==> IsSet(bm, j) || j in bits)
  }

  /** No clear bit below a handed-out bit was passed over. */
  ghost predicate NoGaps(bm: seq<byte>, bits: seq<nat>)
  {
    forall j, p :: 0 <= p < |bits| && 0 <= j < bits[p] && j < 8 * |bm| && !IsSet(bm, j) ==> j in bits
  }

  /** What a successful run hands out: increasing bits within reach, each clear beforehand, each
      set afterwards with no other bit changed, no clear bit skipped below the last one, and one
      clear bit fewer per round. */
  ghost predicate RunFacts(bm: seq<byte>, maxBits: u32, a: Alloc)
  {
    var R := Reach(bm, maxBits);
    |a.bitmap| == |bm| &&
    Increasing(a.bits) && WereFree(bm, R, a.bits) && SetExactly(bm, a.bitmap, a.bits) &&
    NoGaps(bm, a.bits) && CountFree(a.bitmap, R) + |a.bits| == CountFree(bm, R)
  }

  /** A run of k rounds succeeds exactly when at least k bits are clear within reach, and then it
      hands out the k lowest of them in increasing order. */
  lemma {:induction false} AllocRunSpec(bm: seq<byte>, maxBits: u32, k: nat)
    ensures AllocRun(bm, maxBits, k).Some? <==> k <= CountFree(bm, Reach(bm, maxBits))
    ensures AllocRun(bm, maxBits, k).Some? ==> RunFacts(bm, maxBits, AllocRun(bm, maxBits, k).value)
  {
    var R := Reach(bm, maxBits);
    if k > 0 {
      AllocRunSpec(bm, maxBits, k - 1);
      var prev := AllocRun(bm, maxBits, k - 1);
      if prev.Some? {
        AllocRoundSpec(bm, maxBits, prev.value);
      } else {
        assert k - 1 > CountFree(bm, R);
      }
    } else {
      CountFreeZero(bm, 0);
    }
  }

  /** Once a round finds no clear bit, every longer run fails too. */
  lemma {:induction false} AllocRunStops(bm: seq<byte>, maxBits: u32, i: nat, k: nat)
    requires i <= k && AllocRun(bm, maxBits, i).None?
    ensures AllocRun(bm, maxBits, k).None?
    decreases k - i
  {
    if i < k {
      AllocRunStops(bm, maxBits, i, k - 1);
    }
  }

  /** When the whole run is in bounds, so is the scan of every round the run reaches. */
  lemma RunRoundInBounds(bm: seq<byte>, maxBits: u32, k: nat, i: nat)
    requires RunInBounds(bm, maxBits, k) && i < k && AllocRun(bm, maxBits, i).Some?
    ensures ScanInBounds(AllocRun(bm, maxBits, i).value.bitmap, maxBits)
  {
    var a := AllocRun(bm, maxBits, i).value;
    AllocRunSpec(bm, maxBits, i);
    assert Reach(a.bitmap, maxBits) == Reach(bm, maxBits);
    FreeBitCount(a.bitmap, maxBits);
  }

  /** One more round on top of a run that satisfies `RunFacts`. */
  lemma AllocRoundSpec(bm: seq<byte>, maxBits: u32, a: Alloc)
    requires RunFacts(bm, maxBits, a)
    ensures FreeBit(a.bitmap, maxBits) >= 0 <==> CountFree(a.bitmap, Reach(bm, maxBits)) > 0
    ensures FreeBit(a.bitmap, maxBits) >= 0 ==>
      RunFacts(bm, maxBits, Alloc(a.bits + [FreeBit(a.bitmap, maxBits)], WithBit(a.bitmap, FreeBit(a.bitmap, maxBits))))
  {
    var R := Reach(bm, maxBits);
    assert Reach(a.bitmap, maxBits) == R;
    FreeBitCount(a.bitmap, maxBits);
    var b := FreeBit(a.bitmap, maxBits);
    if b >= 0 {
      FirstFreeSpec(a.bitmap, 0, R);
      RoundSets(bm, a, b);
      RoundIncreasing(bm, R, a, b);
      RoundNoGaps(bm, R, a, b);
      CountFreeWithBit(a.bitmap, R, b);
    }
  }

  lemma RoundSets(bm: seq<byte>, a: Alloc, b: nat)
    requires |a.bitmap| == |bm| && SetExactly(bm, a.bitmap, a.bits)
    requires b < 8 * |bm|
    ensures SetExactly(bm, WithBit(a.bitmap, b), a.bits + [b])
  {
    forall j | 0 <= j < 8 * |bm|
      ensures IsSet(WithBit(a.bitmap, b), j) <==> IsSet(bm, j) || j in a.bits + [b]
    {
      WithBitIsSet(a.bitmap, b, j);
    }
  }

  lemma RoundIncreasing(bm: seq<byte>, R: nat, a: Alloc, b: nat)
    requires |a.bitmap| == |bm| && R <= 8 * |bm| && b < R
    requires Increasing(a.bits) && WereFree(bm, R, a.bits) && SetExactly(bm, a.bitmap, a.bits)
    requires NoGaps(bm, a.bits) && !IsSet(a.bitmap, b)
    ensures Increasing(a.bits + [b]) && WereFree(bm, R, a.bits + [b])
  {
    assert !IsSet(bm, b) && b !in a.bits;
    forall p | 0 <= p < |a.bits|
      ensures a.bits[p] < b
    {
      assert IsSet(a.bitmap, a.bits[p]);
    }
  }

  lemma RoundNoGaps(bm: seq<byte>, R: nat, a: Alloc, b: nat)
    requires |a.bitmap| == |bm| && R <= 8 * |bm| && b < R
    requires SetExactly(bm, a.bitmap, a.bits) && NoGaps(bm, a.bits)
    requires forall i :: 0 <= i < b ==> IsSet(a.bitmap, i)
    ensures NoGaps(bm, a.bits + [b])
  {
    var bits' := a.bits + [b];
    forall j, p | 0 <= p < |bits'| && 0 <= j < bits'[p] && j < 8 * |bm| && !IsSet(bm, j)
      ensures j in bits'
    {
      if p == |a.bits| {
        assert IsSet(a.bitmap, j);
      }
    }
  }
}
