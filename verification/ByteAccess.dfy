/** Whole bytes of a buffer as its u(8) fields, for the short cut of bs_read_u8 and bs_write_u8. */
module ByteAccess {
  import opened CArithmetic
  import opened Bits
  import opened ExpGolomb

  lemma Halve(b: byte)
    ensures b as int == 2 * ((b >> 1) as int) + (if GetBit(b, 0) then 1 else 0)
  {
  }

  lemma ShiftedBit(b: byte, k: nat)
    requires k < 7
    ensures GetBit(b >> 1, k) == GetBit(b, k + 1)
  {
  }

  lemma ShrStep(v: nat, k: nat)
    requires k > 0
    ensures BitOf(v, k) == BitOf(v / 2, k - 1)
  {
  }

  /** The bits of a byte are the digits of its value. */
  lemma {:induction false} DigitsOfByte(b: byte, k: nat)
    requires k < 8
    ensures GetBit(b, k) == BitOf(b as int, k)
  {
    hide GetBit;
    Halve(b);
    if k > 0 {
      ShrStep(b as int, k);
      DigitsOfByte(b >> 1, k - 1);
      ShiftedBit(b, k - 1);
      assert (b as int) / 2 == (b >> 1) as int;
    }
  }

  lemma HalfOfRemainder(v: nat, m: nat)
    requires m > 0
    ensures v % (2 * m) / 2 == v / 2 % m && v % (2 * m) % 2 == v % 2
  {
    var q, r := v / (2 * m), v % (2 * m);
    assert v == (2 * m) * q + r;
    var d := m * q;
    assert v == 2 * d + r;
    assert v / 2 == d + r / 2;
    assert v / 2 == q * m + r / 2;
    DivisionIsUnique(v / 2, m, q, r / 2);
  }

  /** The low m digits stay when the others are cut off. */
  lemma {:induction false} LowDigits(v: nat, m: nat, k: nat)
    requires k < m
    ensures BitOf(v % Pow2(m), k) == BitOf(v, k)
  {
    HalfOfRemainder(v, Pow2(m - 1));
    if k > 0 {
      ShrStep(v, k);
      ShrStep(v % Pow2(m), k);
      LowDigits(v / 2, m - 1, k - 1);
    }
  }

  lemma TwoToEight()
    ensures Pow2(8) == 256
  {
    assert Pow2(4) == 16;
  }

  /** What is left of v in a byte: its low eight digits. */
  function LowByte(v: nat): (b: byte)
    ensures forall k: nat :: k < 8 ==> GetBit(b, k) == BitOf(v, k)
  {
    hide PutBit, GetBit, BitOf;
    var b := PutBit(PutBit(PutBit(PutBit(0, 7, BitOf(v, 7)), 6, BitOf(v, 6)), 5, BitOf(v, 5)), 4, BitOf(v, 4));
    PutBit(PutBit(PutBit(PutBit(b, 3, BitOf(v, 3)), 2, BitOf(v, 2)), 1, BitOf(v, 1)), 0, BitOf(v, 0))
  }

  lemma {:induction false} DigitsDetermine(x: nat, y: nat, m: nat)
    requires x < Pow2(m) && y < Pow2(m) && forall k: nat :: k < m ==> BitOf(x, k) == BitOf(y, k)
    ensures x == y
  {
    if m > 0 {
      assert BitOf(x, 0) == BitOf(y, 0);
      forall k: nat | k < m - 1
        ensures BitOf(x / 2, k) == BitOf(y / 2, k)
      {
        ShrStep(x, k + 1);
        ShrStep(y, k + 1);
      }
      DigitsDetermine(x / 2, y / 2, m - 1);
    }
  }

  /** That is v modulo 256. */
  lemma LowByteIsRemainder(v: nat)
    ensures LowByte(v) as int == v % 256
  {
    hide GetBit, BitOf, LowByte;
    TwoToEight();
    forall k: nat | k < 8
      ensures BitOf(LowByte(v) as int, k) == BitOf(v % 256, k)
    {
      DigitsOfByte(LowByte(v), k);
      LowDigits(v, 8, k);
    }
    DigitsDetermine(LowByte(v) as int, v % 256, 8);
  }

  /** A byte with the low digits of v is v as a u(8) field. */
  lemma ByteIsField(s: seq<byte>, i: nat, v: nat)
    requires i < |s| && forall k: nat :: k < 8 ==> GetBit(s[i], k) == BitOf(v, k)
    ensures At(BitsOf(s), 8 * i, UBits(8, v))
  {
    hide GetBit, BitOf;
    forall j: nat | j < 8
      ensures BitsOf(s)[8 * i + j] == UBits(8, v)[j]
    {
      assert (8 * i + j) / 8 == i && (8 * i + j) % 8 == j;
      assert GetBit(s[i], 7 - j) == BitOf(v, 7 - j);
    }
    assert BitsOf(s)[8 * i..8 * i + 8] == UBits(8, v);
  }

  /** A u(8) field at a byte boundary is the byte. */
  lemma ReadOfByte(s: seq<byte>, i: nat)
    requires i < |s|
    ensures ReadU(BitsOf(s), 8 * i, 8) == s[i] as int
  {
    hide BitsOf, UBits, ReadU, Pow2, GetBit, BitOf;
    TwoToEight();
    forall k: nat | k < 8
      ensures GetBit(s[i], k) == BitOf(s[i] as int, k)
    {
      DigitsOfByte(s[i], k);
    }
    ByteIsField(s, i, s[i] as int);
    ReadUWritten(BitsOf(s), 8 * i, 8, s[i] as int);
  }

  lemma SameOtherBits(s: seq<byte>, i: nat, b: byte, k: nat)
    requires i < |s| && k < 8 * |s| && !(8 * i <= k < 8 * i + 8)
    ensures BitsOf(s[i := b])[k] == BitsOf(s)[k]
  {
  }

  /** Storing the low byte of v at a byte boundary writes v as a u(8) field. */
  lemma WriteOfByte(s: seq<byte>, i: nat, v: nat)
    requires i < |s|
    ensures BitsOf(s[i := LowByte(v)]) == Overwrite(BitsOf(s), 8 * i, UBits(8, v))
  {
    hide GetBit, LowByte, BitOf;
    var b := LowByte(v);
    var t, w := s[i := b], UBits(8, v);
    ByteIsField(t, i, v);
    hide UBits, BitsOf, Overwrite;
    forall k: nat | k < 8 * |s|
      ensures BitsOf(t)[k] == Overwrite(BitsOf(s), 8 * i, w)[k]
    {
      if 8 * i <= k < 8 * i + 8 {
        assert BitsOf(t)[8 * i..8 * i + 8][k - 8 * i] == w[k - 8 * i];
      } else {
        SameOtherBits(s, i, b, k);
      }
    }
  }
}
