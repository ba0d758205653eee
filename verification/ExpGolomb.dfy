/**
  The u(n), ue(v) and se(v) codes as bs.h writes and reads them, and exactly
  which values survive a write followed by a read.
 */
module ExpGolomb {
  import opened CArithmetic
  import opened Bits

  /** Bit i of the n bits that bs_write_u emits. The 32-bit value is shifted by
      n - i - 1; a processor takes that count modulo 32. */
  predicate WrittenBit(n: nat, v: nat, i: nat)
    requires i < n
  {
    var k := n - 1 - i;
    BitOf(v, if k < 32 then k else k % 32)
  }

  /** What bs_write_u emits for the low n bits of the 32-bit word v. */
  function UBits(n: nat, v: nat): (w: seq<bool>)
    ensures |w| == n
    ensures forall i: nat :: i < n ==> w[i] == WrittenBit(n, v, i)
  {
    seq(n, i requires 0 <= i < n => WrittenBit(n, v, i))
  }

  /** The first k bits read back from UBits(n, v) are the top k of the n low bits of v. */
  lemma {:induction false} ReadUPrefix(bits: seq<bool>, pos: nat, n: nat, v: nat, k: nat)
    requires k <= n <= 32 && v < Pow2(n)
    requires At(bits, pos, UBits(n, v))
    ensures ReadU(bits, pos, k) == Shr(v, n - k)
  {
    if k == 0 {
      ShrVanishes(v, n, n);
    } else {
      ReadUPrefix(bits, pos, n, v, k - 1);
      AtIndex(bits, pos, UBits(n, v), k - 1);
      ShrNext(v, n - k);
    }
  }

  /** A u(n) field of at most 32 bits reads back as the value that was written. */
  lemma ReadUWritten(bits: seq<bool>, pos: nat, n: nat, v: nat)
    requires n <= 32 && v < Pow2(n)
    requires At(bits, pos, UBits(n, v))
    ensures ReadU(bits, pos, n) == v
  {
    ReadUPrefix(bits, pos, n, v, n);
  }

  /** The 256-entry table of bs_write_ue, row by row. */
  function LenTable(k: nat): (len: nat)
    requires k < 256
    ensures k > 0 ==> len == BitLen(k)
  {
    if k < 2 then 1
    else if k < 4 then BitLenUnique(k, 2); 2
    else if k < 8 then BitLenUnique(k, 3); 3
    else if k < 16 then BitLenUnique(k, 4); 4
    else if k < 32 then BitLenUnique(k, 5); 5
    else if k < 64 then BitLenUnique(k, 6); 6
    else if k < 128 then BitLenUnique(k, 7); 7
    else BitLenUnique(k, 8); 8
  }

  /** The code length that bs_write_ue looks up for the 32-bit word w. */
  function UeLength(w: nat): (len: nat)
    requires w < TWO_32
    ensures w > 0 ==> len == BitLen(w)
    ensures w == 0 ==> len == 1
  {
    if w >= 0x01000000 then
      ShiftedLength(w, 24);
      24 + LenTable(w / 0x01000000)
    else if w >= 0x00010000 then
      ShiftedLength(w, 16);
      16 + LenTable(w / 0x00010000)
    else if w >= 0x00000100 then
      ShiftedLength(w, 8);
      8 + LenTable(w / 0x00000100)
    else
      LenTable(w)
  }

  lemma ShiftedLength(w: nat, k: nat)
    requires (k == 24 && w >= 0x01000000) || (k == 16 && w >= 0x00010000) || (k == 8 && w >= 0x00000100)
    ensures Shr(w, 8) == w / 0x100 && Shr(w, 16) == w / 0x1_0000 && Shr(w, 24) == w / 0x100_0000
    ensures BitLen(w) == k + BitLen(Shr(w, k))
  {
    ShrByBytes(w);
    if BitLen(w) <= k {
      BitLenBounds(w);
      ShrVanishes(w, BitLen(w), k);
    }
    BitLenOfShift(w, k);
  }

  /** What bs_write_ue emits for the 32-bit value v. */
  function UeBits(v: nat): (w: seq<bool>)
    requires v < TWO_32
    ensures |w| >= 1
  {
    if v == 0 then [true]
    else
      var w := Uint32(v + 1);
      UBits(2 * (if w == 0 then 1 else BitLen(w)) - 1, w)
  }

  /** ue(v) as section 9.1 of H.264 defines it: as many zeros as v + 1 has
      digits after its leading one, then the digits of v + 1. */
  function Code(v: nat): (w: seq<bool>)
    ensures |w| == 2 * BitLen(v + 1) - 1
  {
    var len := BitLen(v + 1);
    seq(2 * len - 1, i requires 0 <= i < 2 * len - 1 => i >= len - 1 && BitOf(v + 1, 2 * len - 2 - i))
  }

  /** The values whose code bs_write_ue gets right: those below 65535, and
      those whose successor ends in enough zero bits to hide that the shift
      count runs past 31. */
  predicate WritableUe(v: nat) {
    v + 1 < TWO_32 &&
    var len := BitLen(v + 1);
    len <= 16 || TrailingZeros(v + 1) >= 2 * len - 33
  }

  lemma SmallUeIsWritable(v: nat)
    requires v < 65535
    ensures WritableUe(v)
  {
    Pow2Values();
    BitLenBounds(v + 1);
    if BitLen(v + 1) > 16 {
      Pow2Monotonic(16, BitLen(v + 1) - 1);
    }
  }

  /** Bit i of a long code: right unless its shift count is 32 or more, and
      then a copy of a low bit of v + 1 where the code has a zero. */
  lemma UeBitAt(v: nat, i: nat)
    requires 0 < v && v + 1 < TWO_32 && i < 2 * BitLen(v + 1) - 1
    ensures i < |UeBits(v)|
    ensures var k := 2 * BitLen(v + 1) - 2 - i;
            if k < 32 then UeBits(v)[i] == Code(v)[i]
            else UeBits(v)[i] == BitOf(v + 1, k - 32) && !Code(v)[i]
  {
    hide Shr, Pow2, BitLen;
    var w, len := v + 1, BitLen(v + 1);
    var k := 2 * len - 2 - i;
    BitLenBounds(w);
    BitLenOfWord(w);
    assert UeBits(v) == UBits(2 * len - 1, w);
    assert UeBits(v)[i] == WrittenBit(2 * len - 1, w, i);
    if len <= k < 32 {
      ShrVanishes(w, len, k);
    }
  }

  /** bs_write_ue emits the ue(v) code for exactly the writable values. */
  lemma UeBitsAreTheCode(v: nat)
    requires v + 1 < TWO_32
    ensures UeBits(v) == Code(v) <==> WritableUe(v)
  {
    var w, len := v + 1, BitLen(v + 1);
    if v == 0 {
      CodeOfZero();
    } else {
      forall i: nat | i < 2 * len - 1
        ensures i < |UeBits(v)|
        ensures 2 * len - 2 - i < 32 ==> UeBits(v)[i] == Code(v)[i]
        ensures 2 * len - 2 - i >= 32 ==> UeBits(v)[i] == BitOf(w, 2 * len - 34 - i) && !Code(v)[i]
      {
        UeBitAt(v, i);
      }
      assert |UeBits(v)| == |Code(v)|;
      if len > 16 {
        TrailingZerosAreZeros(w, 2 * len - 33);
        if UeBits(v) == Code(v) {
          forall k: nat | k < 2 * len - 33
            ensures !BitOf(w, k)
          {
            assert UeBits(v)[2 * len - 34 - k] == Code(v)[2 * len - 34 - k];
          }
        }
      }
    }
  }

  lemma CodeOfZero()
    ensures Code(0) == [true] && UeBits(0) == [true] && WritableUe(0)
  {
    assert BitLen(1) == 1;
    assert Pow2(0) == 1;
    assert BitOf(1, 0);
  }

  /** The loop of bs_read_ue that counts leading zeros, i of them so far. */
  function UeZeros(bits: seq<bool>, pos: nat, i: nat): (r: (nat, nat))
    requires i <= 32
    ensures i <= r.0 <= 32 && r.1 == pos + (r.0 - i) + 1
    decreases 32 - i
  {
    if !BitAt(bits, pos) && i < 32 && !Eof(bits, pos + 1) then UeZeros(bits, pos + 1, i + 1)
    else (i, pos + 1)
  }

  /** bs_read_ue: the value and the position after it. */
  function ReadUe(bits: seq<bool>, pos: nat): (r: (nat, nat))
    ensures r.0 < TWO_32 && r.1 > pos
  {
    var (i, p) := UeZeros(bits, pos, 0);
    (Uint32(ReadU(bits, p, i) + Pow2(i % 32) - 1), p + i)
  }

  lemma {:induction false} ReadUFirst(bits: seq<bool>, pos: nat, n: nat)
    ensures ReadU(bits, pos, n + 1) == (if BitAt(bits, pos) then Pow2(n) else 0) + ReadU(bits, pos + 1, n)
  {
    if n > 0 {
      ReadUFirst(bits, pos, n - 1);
    } else {
      assert ReadU(bits, pos, 0) == 0 && ReadU(bits, pos + 1, 0) == 0;
    }
  }

  lemma {:induction false} CountZeros(bits: seq<bool>, pos: nat, i: nat, one: nat)
    requires pos <= one && i + one - pos <= 31
    requires forall j: nat :: pos <= j < one ==> !BitAt(bits, j)
    requires BitAt(bits, one)
    ensures UeZeros(bits, pos, i) == (i + one - pos, one + 1)
    decreases one - pos
  {
    if pos < one {
      CountZeros(bits, pos + 1, i + 1, one);
    }
  }

  lemma CodeBit(bits: seq<bool>, pos: nat, v: nat, i: nat)
    requires At(bits, pos, Code(v)) && i < 2 * BitLen(v + 1) - 1
    ensures BitAt(bits, pos + i) == (i >= BitLen(v + 1) - 1 && BitOf(v + 1, 2 * BitLen(v + 1) - 2 - i))
  {
    hide BitOf, BitLen, At, BitAt;
    AtIndex(bits, pos, Code(v), i);
  }

  lemma PartBit(bits: seq<bool>, from: nat, n: nat, i: nat)
    requires from + n <= |bits| && i < n
    ensures bits[from..from + n][i] == BitAt(bits, from + i)
  {
  }

  lemma CodeDigits(bits: seq<bool>, pos: nat, v: nat)
    requires At(bits, pos, Code(v)) && BitLen(v + 1) <= 32
    ensures At(bits, pos + BitLen(v + 1) - 1, UBits(BitLen(v + 1), v + 1))
  {
    hide BitOf, BitLen;
    var len := BitLen(v + 1);
    var part, digits := bits[pos + len - 1..pos + len - 1 + len], UBits(len, v + 1);
    forall i: nat | i < len
      ensures part[i] == digits[i]
    {
      CodeBit(bits, pos, v, len - 1 + i);
      PartBit(bits, pos + len - 1, len, i);
    }
    assert part == digits;
  }

  /** The second half of the code of v is the digits of v + 1, after zeros. */
  lemma CodeLayout(bits: seq<bool>, pos: nat, v: nat)
    requires At(bits, pos, Code(v)) && BitLen(v + 1) <= 32
    ensures var len := BitLen(v + 1);
            && (forall j: nat :: pos <= j < pos + len - 1 ==> !BitAt(bits, j))
            && BitAt(bits, pos + len - 1)
            && At(bits, pos + len - 1, UBits(len, v + 1))
  {
    hide *;
    var len := BitLen(v + 1);
    LeadingDigit(v + 1);
    CodeBit(bits, pos, v, len - 1);
    CodeDigits(bits, pos, v);
    forall j: nat | pos <= j < pos + len - 1
      ensures !BitAt(bits, j)
    {
      CodeBit(bits, pos, v, j - pos);
    }
  }

  /** The ue(v) code reads back as v, and the cursor ends right after it. */
  lemma ReadUeOfCode(bits: seq<bool>, pos: nat, v: nat)
    requires v + 1 < TWO_32 && At(bits, pos, Code(v))
    ensures ReadUe(bits, pos) == (v, pos + |Code(v)|)
  {
    hide *;
    BitLenOfWord(v + 1);
    var n := BitLen(v + 1) - 1;
    assert UeZeros(bits, pos, 0) == (n, pos + n + 1) by {
      CodeLayout(bits, pos, v);
      CountZeros(bits, pos, 0, pos + n);
    }
    assert ReadU(bits, pos + n + 1, n) + Pow2(n) == v + 1 by {
      ReadDigits(bits, pos, v, n);
    }
    ReadUeValue(bits, pos, n, v);
  }

  lemma ReadDigits(bits: seq<bool>, pos: nat, v: nat, n: nat)
    requires At(bits, pos, Code(v)) && BitLen(v + 1) == n + 1 <= 32
    ensures ReadU(bits, pos + n + 1, n) + Pow2(n) == v + 1
  {
    hide *;
    CodeLayout(bits, pos, v);
    BitLenBounds(v + 1);
    ReadUWritten(bits, pos + n, n + 1, v + 1);
    ReadUFirst(bits, pos + n, n);
  }

  lemma ReadUeValue(bits: seq<bool>, pos: nat, n: nat, v: nat)
    requires n < 32 && v < TWO_32
    requires UeZeros(bits, pos, 0) == (n, pos + n + 1)
    requires ReadU(bits, pos + n + 1, n) + Pow2(n) == v + 1
    ensures ReadUe(bits, pos) == (v, pos + 2 * n + 1)
  {
    hide Uint32, UeZeros, ReadU, Pow2;
    assert n % 32 == n;
    assert ReadU(bits, pos + n + 1, n) + Pow2(n) - 1 == v;
  }

  lemma {:induction false} ReadUBounded(bits: seq<bool>, pos: nat, n: nat)
    ensures ReadU(bits, pos, n) < Pow2(n)
  {
    if n > 0 {
      ReadUBounded(bits, pos, n - 1);
    }
  }

  lemma ReadUeBelow(bits: seq<bool>, pos: nat, n: nat, q: nat)
    requires UeZeros(bits, pos, 0) == (n, q) && n < 32
    ensures ReadUe(bits, pos).0 + 1 < Pow2(n + 1)
  {
    hide UeZeros, ReadU;
    ReadUBounded(bits, q, n);
    Pow2Monotonic(n, 31);
    Pow2Values();
    assert n % 32 == n;
  }

  lemma {:induction false} ZerosStopAtOne(bits: seq<bool>, pos: nat, i: nat, k: nat)
    requires i + k <= 32 && BitAt(bits, pos + k)
    ensures UeZeros(bits, pos, i).0 <= i + k
    decreases k
  {
    if k > 0 && UeZeros(bits, pos, i).0 != i {
      ZerosStopAtOne(bits, pos + 1, i + 1, k - 1);
    }
  }

  /** Writing v with bs_write_ue and reading it back gives v, with the cursor
      where the writer stopped, for exactly the writable values. */
  lemma UeRoundTrip(bits: seq<bool>, pos: nat, v: nat)
    requires v < TWO_32 && At(bits, pos, UeBits(v))
    ensures ReadUe(bits, pos) == (v, pos + |UeBits(v)|) <==> WritableUe(v)
  {
    if v + 1 == TWO_32 {
      LastWordFails(bits, pos);
    } else {
      UeBitsAreTheCode(v);
      if WritableUe(v) {
        ReadUeOfCode(bits, pos, v);
      } else {
        EarlyOneFails(bits, pos, v);
      }
    }
  }

  /** 2^32 - 1 wraps to the word 0, for which a single 0 bit is written. */
  lemma LastWordFails(bits: seq<bool>, pos: nat)
    requires At(bits, pos, UeBits(TWO_32 - 1))
    ensures ReadUe(bits, pos) != (TWO_32 - 1, pos + |UeBits(TWO_32 - 1)|)
  {
    var w := UeBits(TWO_32 - 1);
    assert w == UBits(1, 0);
    assert |w| == 1;
    var r := ReadUe(bits, pos);
    if r.1 == pos + 1 {
      assert UeZeros(bits, pos, 0) == (0, pos + 1);
      assert Pow2(0) == 1;
      assert r.0 == 0;
    }
  }

  /** A code with a stray one reads back as a smaller value, too early. */
  lemma EarlyOneFails(bits: seq<bool>, pos: nat, v: nat)
    requires v + 1 < TWO_32 && !WritableUe(v) && At(bits, pos, UeBits(v))
    ensures ReadUe(bits, pos).1 < pos + |UeBits(v)| && ReadUe(bits, pos).0 < v
  {
    var w, len := v + 1, BitLen(v + 1);
    BitLenOfWord(w);
    TrailingZerosAreZeros(w, 2 * len - 33);
    var k: nat :| k < 2 * len - 33 && BitOf(w, k);
    var i := 2 * len - 34 - k;
    UeBitAt(v, i);
    AtIndex(bits, pos, UeBits(v), i);
    ZerosStopAtOne(bits, pos, 0, i);
    assert |UeBits(v)| == 2 * len - 1;
    var (n, q) := UeZeros(bits, pos, 0);
    EarlyValue(bits, pos, n, q, w);
  }

  lemma EarlyValue(bits: seq<bool>, pos: nat, n: nat, q: nat, w: nat)
    requires UeZeros(bits, pos, 0) == (n, q) && 0 < w && n + 2 <= BitLen(w) <= 32
    ensures ReadUe(bits, pos).0 + 1 < w
  {
    hide *;
    BitLenBounds(w);
    ReadUeBelow(bits, pos, n, q);
    Pow2Monotonic(n + 1, BitLen(w) - 1);
  }

  /** There is a one among the first bits that are written for v, at or before
      the leading one of its code. */
  lemma OneInFront(bits: seq<bool>, pos: nat, v: nat) returns (i: nat)
    requires v + 1 < TWO_32 && At(bits, pos, UeBits(v))
    ensures i < BitLen(v + 1) && BitAt(bits, pos + i)
  {
    hide BitLen, Shr, Pow2, At, BitAt;
    var w, len := v + 1, BitLen(v + 1);
    BitLenOfWord(w);
    UeBitsAreTheCode(v);
    CodeOfZero();
    if WritableUe(v) {
      i := len - 1;
      CodeLayout(bits, pos, v);
    } else {
      TrailingZerosAreZeros(w, 2 * len - 33);
      var k: nat :| k < 2 * len - 33 && BitOf(w, k);
      i := 2 * len - 34 - k;
      UeBitAt(v, i);
      AtIndex(bits, pos, UeBits(v), i);
    }
  }

  /** Started behind some zeros in front of what is written for v, bs_read_ue
      reads a value below v. */
  lemma LateReadIsSmaller(bits: seq<bool>, pos: nat, v: nat, d: nat)
    requires v + 1 < TWO_32 && At(bits, pos, UeBits(v)) && d > 0
    requires forall j: nat :: pos <= j < pos + d ==> !BitAt(bits, j)
    ensures ReadUe(bits, pos + d).0 < v
  {
    hide *;
    BitLenOfWord(v + 1);
    var i := OneInFront(bits, pos, v);
    assert i >= d;
    ZerosStopAtOne(bits, pos + d, 0, i - d);
    var (n, q) := UeZeros(bits, pos + d, 0);
    EarlyValue(bits, pos + d, n, q, v + 1);
  }

  /** The first value that bs_write_ue gets wrong: 65536 reads back as 0. */
  lemma UeFailsAt65536(bits: seq<bool>, pos: nat)
    requires At(bits, pos, UeBits(65536))
    ensures !WritableUe(65536) && WritableUe(65535)
    ensures ReadUe(bits, pos) == (0, pos + 1)
  {
    Boundary();
    hide *;
    UeBitAt(65536, 0);
    AtIndex(bits, pos, UeBits(65536), 0);
    StopsAtOnce(bits, pos);
  }

  lemma Boundary()
    ensures 65537 < TWO_32 && BitLen(65537) == 17 && BitOf(65537, 0)
    ensures !WritableUe(65536) && WritableUe(65535)
  {
    LengthsAtBoundary();
    ParityDecides(65536);
    ParityDecides(65537);
    hide BitLen, TrailingZeros, Shr;
  }

  lemma ParityDecides(x: nat)
    requires x > 0
    ensures BitOf(x, 0) <==> x % 2 == 1
    ensures TrailingZeros(x) >= 1 <==> x % 2 == 0
  {
  }

  lemma LengthsAtBoundary()
    ensures BitLen(65537) == 17 && BitLen(65536) == 17
  {
    Pow2Values();
    var p := Pow2(16);
    assert Pow2(17) == 2 * p;
    BitLenUnique(p, 17);
    BitLenUnique(p + 1, 17);
  }

  lemma StopsAtOnce(bits: seq<bool>, pos: nat)
    requires BitAt(bits, pos)
    ensures ReadUe(bits, pos) == (0, pos + 1)
  {
    assert UeZeros(bits, pos, 0) == (0, pos + 1);
    assert ReadU(bits, pos + 1, 0) == 0 && Pow2(0) == 1;
  }

  /** The mapping of bs_write_se from signed values to code numbers. */
  function SeToUe(v: int): (u: nat)
  {
    if v <= 0 then -v * 2 else v * 2 - 1
  }

  /** The mapping of bs_read_se back from a code number held in an int32_t;
      both divisions are exact. */
  function UeToSe(u: nat): (v: int)
    requires u < TWO_32
  {
    var r := Int32(u);
    if r % 2 == 1 then (r + 1) / 2 else -(r / 2)
  }

  lemma SeMappingInverse(v: int)
    requires SeToUe(v) < TWO_31
    ensures UeToSe(SeToUe(v)) == v
  {
  }
}
