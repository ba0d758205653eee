/**
  A picture parameter set that the rewriting does not keep. Its escaped payload
  has one escape byte, in the ids of its map units.
 */
module EscapedPps {
  import opened CArithmetic
  import opened Bits
  import opened ExpGolomb
  import opened Syntax
  import opened PictureParameterSet
  import opened Rbsp
  import opened HeaderRewrite
  import opened PpsEscapes
  import E = Emulation

  function Zeros(n: nat): (w: seq<bool>)
    ensures |w| == n && forall k :: 0 <= k < n ==> !w[k]
  {
    seq(n, _ => false)
  }

  /** Two slice groups, and 25 map units that are all in the first one. */
  const GROUPS: SliceGroups := Explicit(24, Cleared(25))

  function WithCoding(c: Coding): Pps {
    Pps(Identity(0, 0, false, false, 1), GROUPS, c, NO_EXTENSION)
  }

  /** What was written, what is read from its escaped bytes, and what a
      decoder makes of the result. */
  const SENT: Coding := Coding(0, 1, false, 0, 0, 0, 3, true, false, false)
  const RAW: Coding := Coding(0, 0, false, 0, 5, 6, 0, true, false, true)
  const DECODED: Coding := SENT.(constrainedIntraPred := true)

  /** The n low digits of v. */
  function Digits(n: nat, v: nat): (w: seq<bool>)
    ensures |w| == n
  {
    if n == 0 then [] else Digits(n - 1, v / 2) + [v % 2 == 1]
  }

  lemma {:induction false} DigitAt(n: nat, v: nat, i: nat)
    requires i < n
    ensures Digits(n, v)[i] == BitOf(v, n - 1 - i)
  {
    if i < n - 1 {
      DigitAt(n - 1, v / 2, i);
    }
  }

  lemma UBitsAreDigits(n: nat, v: nat)
    requires n <= 32
    ensures UBits(n, v) == Digits(n, v)
  {
    hide BitOf, Digits;
    forall i: nat | i < n
      ensures UBits(n, v)[i] == Digits(n, v)[i]
    {
      DigitAt(n, v, i);
    }
  }

  /** A ue(v) code is the digits of v + 1 in twice as many bits less one. */
  lemma CodeIs(v: nat, len: nat)
    requires 0 < len <= 9 && Pow2(len - 1) <= v + 1 < Pow2(len) && v < 512
    ensures UeBits(v) == Digits(2 * len - 1, v + 1)
  {
    hide Digits, UBits;
    Pow2Monotonic(len, 9);
    NinthPower();
    BitLenUnique(v + 1, len);
    UBitsAreDigits(2 * len - 1, v + 1);
    if v == 0 {
      BitLenUnique(1, 1);
      CodeOfZero();
      OneDigit();
    }
  }

  lemma OneDigit()
    ensures Digits(1, 1) == [true]
  {
    assert Digits(0, 0) == [];
  }

  const O := false
  const I := true

  lemma SmallPowers()
    ensures Pow2(0) == 1 && Pow2(1) == 2 && Pow2(2) == 4 && Pow2(3) == 8 && Pow2(4) == 16 && Pow2(5) == 32
  {
  }

  /** The codes that the example needs. */
  lemma Codes()
    ensures UeBits(0) == [I] && UeBits(1) == [O, I, O]
    ensures UeBits(5) == [O, O, I, I, O] && UeBits(6) == [O, O, I, I, I]
    ensures UeBits(9) == [O, O, O, I, O, I, O] && UeBits(11) == [O, O, O, I, I, O, O]
    ensures UeBits(24) == [O, O, O, O, I, I, O, O, I]
  {
    hide UeBits, Digits, Pow2;
    SmallPowers();
    CodeIs(0, 1);
    CodeIs(1, 2);
    CodeIs(5, 3);
    CodeIs(6, 3);
    CodeIs(9, 4);
    CodeIs(11, 4);
    CodeIs(24, 5);
    DigitsOfCodes();
  }

  lemma NextDigit(n: nat, v: nat, b: bool)
    ensures Digits(n + 1, 2 * v + (if b then 1 else 0)) == Digits(n, v) + [b]
  {
  }

  lemma NoDigits()
    ensures Digits(0, 0) == []
  {
  }

  lemma DigitsOfCodes()
    ensures Digits(1, 1) == [I] && Digits(3, 2) == [O, I, O]
    ensures Digits(5, 6) == [O, O, I, I, O] && Digits(5, 7) == [O, O, I, I, I]
    ensures Digits(7, 10) == [O, O, O, I, O, I, O] && Digits(7, 12) == [O, O, O, I, I, O, O]
    ensures Digits(9, 25) == [O, O, O, O, I, I, O, O, I]
  {
    hide Digits;
    NoDigits();
    NextDigit(0, 0, O);
    NextDigit(1, 0, O);
    NextDigit(2, 0, O);
    NextDigit(3, 0, O);
    NextDigit(0, 0, I);
    NextDigit(1, 0, I);
    NextDigit(2, 0, I);
    NextDigit(3, 0, I);
    NextDigit(4, 0, I);
    NextDigit(2, 1, O);
    NextDigit(3, 1, I);
    NextDigit(4, 1, O);
    NextDigit(4, 1, I);
    NextDigit(5, 1, I);
    NextDigit(4, 3, O);
    NextDigit(4, 3, I);
    NextDigit(5, 2, I);
    NextDigit(6, 5, O);
    NextDigit(5, 3, O);
    NextDigit(6, 6, O);
    NextDigit(6, 3, O);
    NextDigit(7, 6, O);
    NextDigit(8, 12, I);
  }

  lemma EncodeCons(e: Element, rest: seq<Element>)
    ensures EncodeAll([e] + rest) == Encode(e) + EncodeAll(rest)
  {
    hide EncodeAll;
    EncodeAppend([e], rest);
    EncodeSingle(e);
  }

  lemma SmallCodes(v: nat)
    requires v < 512
    ensures Encode(UeElement(v)) == UeBits(v)
    ensures forall x :: SeToUe(x) == v ==> Encode(SeElement(x)) == UeBits(v)
  {
  }

  lemma FlagsCode(a: bool, b: bool)
    ensures EncodeAll([Flag(a), Flag(b)]) == [a, b]
  {
    hide Encode, EncodeAll;
    EncodeCons(Flag(a), [Flag(b)]);
    EncodeSingle(Flag(b));
    FlagCode(a);
    FlagCode(b);
    assert [Flag(a)] + [Flag(b)] == [Flag(a), Flag(b)];
  }

  /** The identity of the example and the slice groups, but for the ids. */
  lemma HeadCode()
    ensures EncodeAll(IdentityElements(WithCoding(SENT).identity))
            == [I] + [I] + [O, O] + [O, I, O]
    ensures EncodeAll([UeElement(6)] + [UeElement(24)]) == [O, O, I, I, I] + [O, O, O, O, I, I, O, O, I]
  {
    hide Encode, EncodeAll, UeBits;
    Codes();
    var ue := [UeElement(1)];
    var flags := [Flag(O), Flag(O)];
    EncodeCons(UeElement(0), [UeElement(0)] + (flags + ue));
    EncodeCons(UeElement(0), flags + ue);
    EncodeAppend(flags, ue);
    FlagsCode(O, O);
    EncodeSingle(UeElement(1));
    SmallCodes(0);
    SmallCodes(1);
    assert IdentityElements(WithCoding(SENT).identity) == [UeElement(0)] + ([UeElement(0)] + (flags + ue));
    SmallCodes(6);
    SmallCodes(24);
    EncodeAppend([UeElement(6)], [UeElement(24)]);
    EncodeSingle(UeElement(6));
    EncodeSingle(UeElement(24));
  }

  lemma {:induction false} IdsCode(n: nat)
    ensures EncodeAll(Run(U(1), Cleared(n))) == Zeros(n)
  {
    hide Encode;
    if n > 0 {
      assert Run(U(1), Cleared(n)) == [Flag(false)] + Run(U(1), Cleared(n - 1));
      EncodeCons(Flag(false), Run(U(1), Cleared(n - 1)));
      IdsCode(n - 1);
      FlagCode(false);
    }
  }

  lemma TwoGroups()
    ensures IdWidth(1) == 1
  {
    assert BitLen(1) == 1;
  }

  const HEAD: seq<bool> := [I, I, O, O, O, I, O]
  const MAP: seq<bool> := [O, O, I, I, I, O, O, O, O, I, I, O, O, I]
  const FRONT: seq<bool> := HEAD + MAP

  /** The bits in front of the coding fields: the last 22 are zeros. */
  lemma FrontCode(c: Coding)
    ensures EncodeAll(IdentityElements(WithCoding(c).identity) + GroupsElements(1, GROUPS)) == FRONT + Zeros(25)
  {
    hide Encode, EncodeAll, UeBits, IdWidth, Run;
    HeadCode();
    TwoGroups();
    IdsCode(25);
    var head, ids := IdentityElements(WithCoding(c).identity), Run(U(1), Cleared(25));
    assert GroupsElements(1, GROUPS) == ([UeElement(6)] + [UeElement(24)]) + ids;
    EncodeAppend([UeElement(6)] + [UeElement(24)], ids);
    EncodeAppend(head, GroupsElements(1, GROUPS));
    FrontBits();
    MoveRun(HEAD, MAP, Zeros(25));
  }

  lemma FrontBits()
    ensures [I] + [I] + [O, O] + [O, I, O] == HEAD && [O, O, I, I, I] + [O, O, O, O, I, I, O, O, I] == MAP
  {
  }

  /** The code of the coding fields, field by field. */
  lemma CodingCode(c: Coding, l0: nat, l1: nat, qp: nat, qs: nat, chroma: nat)
    requires l0 == c.numRefIdxL0Minus1 < 512 && l1 == c.numRefIdxL1Minus1 < 512
    requires !c.weightedPred && c.weightedBipredIdc == 0
    requires qp == SeToUe(c.picInitQpMinus26) < 512 && qs == SeToUe(c.picInitQsMinus26) < 512
    requires chroma == SeToUe(c.chromaQpIndexOffset) < 512
    ensures EncodeAll(CodingElements(c))
            == UeBits(l0) + (UeBits(l1) + ([O] + ([O, O] + (UeBits(qp) + (UeBits(qs) + (UeBits(chroma)
               + [c.deblockingControlPresent, c.constrainedIntraPred, c.redundantPicCntPresent]))))))
  {
    hide Encode, EncodeAll, UeBits, SeToUe;
    SmallCodes(l0);
    SmallCodes(l1);
    SmallCodes(qp);
    SmallCodes(qs);
    SmallCodes(chroma);
    FlagCode(false);
    FlagCode(c.deblockingControlPresent);
    TwoZeros();
    var flags := [Flag(c.constrainedIntraPred), Flag(c.redundantPicCntPresent)];
    FlagsCode(c.constrainedIntraPred, c.redundantPicCntPresent);
    var r1 := [Flag(c.deblockingControlPresent)] + flags;
    EncodeCons(Flag(c.deblockingControlPresent), flags);
    EncodeCons(SeElement(c.chromaQpIndexOffset), r1);
    var r2 := [SeElement(c.chromaQpIndexOffset)] + r1;
    EncodeCons(SeElement(c.picInitQsMinus26), r2);
    var r3 := [SeElement(c.picInitQsMinus26)] + r2;
    EncodeCons(SeElement(c.picInitQpMinus26), r3);
    var r4 := [SeElement(c.picInitQpMinus26)] + r3;
    EncodeCons(UElement(2, 0), r4);
    EncodeCons(Flag(false), [UElement(2, 0)] + r4);
    var r5 := [Flag(false)] + ([UElement(2, 0)] + r4);
    EncodeCons(UeElement(l1), r5);
    EncodeCons(UeElement(l0), [UeElement(l1)] + r5);
    assert CodingElements(c) == [UeElement(l0)] + ([UeElement(l1)] + r5);
  }

  lemma TwoZeros()
    ensures Encode(UElement(2, 0)) == [O, O]
  {
  }

  function ByteBits(b: byte): (w: seq<bool>)
    ensures |w| == 8
  {
    [GetBit(b, 7), GetBit(b, 6), GetBit(b, 5), GetBit(b, 4), GetBit(b, 3), GetBit(b, 2), GetBit(b, 1), GetBit(b, 0)]
  }

  lemma BitsOfCons(b: byte, s: seq<byte>)
    ensures BitsOf([b] + s) == ByteBits(b) + BitsOf(s)
  {
    BitsOfAppend([b], s);
    hide GetBit;
    assert BitsOf([b]) == ByteBits(b);
  }

  lemma ExampleBytes()
    ensures ByteBits(0xC4) == [I, I, O, O, O, I, O, O] && ByteBits(0x70) == [O, I, I, I, O, O, O, O]
    ensures ByteBits(0xC8) == [I, I, O, O, I, O, O, O] && ByteBits(0x00) == [O, O, O, O, O, O, O, O]
    ensures ByteBits(0x03) == [O, O, O, O, O, O, I, I] && ByteBits(0x02) == [O, O, O, O, O, O, I, O]
    ensures ByteBits(0x86) == [I, O, O, O, O, I, I, O] && ByteBits(0x69) == [O, I, I, O, I, O, O, I]
    ensures ByteBits(0x6C) == [O, I, I, O, I, I, O, O]
  {
  }

  /** The five bytes that all strings of the example start with. */
  function Starting(rest: seq<byte>): seq<byte> {
    [0xC4] + ([0x70] + ([0xC8] + ([0x00] + ([0x00] + rest))))
  }

  lemma StartingBits(rest: seq<byte>)
    ensures BitsOf(Starting(rest)) == FRONT + (Zeros(19) + BitsOf(rest))
  {
    hide BitsOf, ByteBits;
    ExampleBytes();
    BitsOfCons(0x00, rest);
    BitsOfCons(0x00, [0x00] + rest);
    BitsOfCons(0xC8, [0x00] + ([0x00] + rest));
    BitsOfCons(0x70, [0xC8] + ([0x00] + ([0x00] + rest)));
    BitsOfCons(0xC4, [0x70] + ([0xC8] + ([0x00] + ([0x00] + rest))));
    FrontBytes(BitsOf(rest));
  }

  lemma FrontBytes(w: seq<bool>)
    ensures [I, I, O, O, O, I, O, O] + ([O, I, I, I, O, O, O, O] + ([I, I, O, O, I, O, O, O]
            + ([O, O, O, O, O, O, O, O] + ([O, O, O, O, O, O, O, O] + w)))) == FRONT + (Zeros(19) + w)
  {
    assert [O, O, O, O, O, O, O, O] == Zeros(8);
    assert [I, I, O, O, I, O, O, O] == [I, I, O, O, I] + Zeros(3);
    assert Zeros(3) + (Zeros(8) + (Zeros(8) + w)) == Zeros(19) + w;
    var a, b, c := [I, I, O, O, O, I, O, O], [O, I, I, I, O, O, O, O], [I, I, O, O, I];
    assert FRONT == a + (b + c);
    MoveRun(c, Zeros(3), Zeros(8) + (Zeros(8) + w));
    MoveRun(b, c, Zeros(19) + w);
    MoveRun(a, b + c, Zeros(19) + w);
  }

  /** The last three bytes of what was written, and of what a decoder gets. */
  lemma ThreeBytes(last: byte)
    ensures BitsOf([0x02, 0x86, last]) == Zeros(6) + ([I, O] + ([I, O, O, O, O, I, I, O] + ByteBits(last)))
  {
    hide BitsOf, ByteBits;
    ExampleBytes();
    BitsOfNothing();
    assert [last] == [last] + [] && [0x02, 0x86, last] == [0x02] + ([0x86] + [last]);
    BitsOfCons(last, []);
    BitsOfCons(0x86, [last]);
    BitsOfCons(0x02, [0x86] + [last]);
    assert [O, O, O, O, O, O, I, O] == Zeros(6) + [I, O];
    MoveRun(Zeros(6), [I, O], [I, O, O, O, O, I, I, O] + ByteBits(last));
    assert ByteBits(last) + [] == ByteBits(last);
  }

  lemma FourBytes(last: byte)
    ensures BitsOf([0x03, 0x02, 0x86, last])
            == Zeros(6) + ([I, I] + ([O, O, O, O, O, O, I, O] + ([I, O, O, O, O, I, I, O] + ByteBits(last))))
  {
    hide BitsOf, ByteBits;
    ExampleBytes();
    BitsOfNothing();
    assert [last] == [last] + [] && [0x03, 0x02, 0x86, last] == [0x03] + ([0x02] + ([0x86] + [last]));
    BitsOfCons(last, []);
    BitsOfCons(0x86, [last]);
    BitsOfCons(0x02, [0x86] + [last]);
    BitsOfCons(0x03, [0x02] + ([0x86] + [last]));
    assert [O, O, O, O, O, O, I, I] == Zeros(6) + [I, I];
    MoveRun(Zeros(6), [I, I], [O, O, O, O, O, O, I, O] + ([I, O, O, O, O, I, I, O] + ByteBits(last)));
    assert ByteBits(last) + [] == ByteBits(last);
  }

  lemma BitsOfNothing()
    ensures BitsOf([]) == []
  {
  }

  lemma SentTail(ci: bool, rp: bool)
    ensures [I] + ([O, I, O] + ([O] + ([O, O] + ([I] + ([I] + ([O, O, I, I, O] + [I, ci, rp]))))))
            == [I, O] + ([I, O, O, O, O, I, I, O] + [O, I, I, O, I, ci, rp])
  {
    assert [I] + ([I] + ([O, O, I, I, O] + [I, ci, rp])) == [I, I, O] + [O, I, I, O, I, ci, rp];
    assert [O] + ([O, O] + ([I, I, O] + [O, I, I, O, I, ci, rp])) == [O, O, O, I, I, O] + [O, I, I, O, I, ci, rp];
    assert [I] + ([O, I, O] + ([O, O, O, I, I, O] + [O, I, I, O, I, ci, rp]))
           == [I, O] + ([I, O, O, O, O, I, I, O] + [O, I, I, O, I, ci, rp]);
  }

  lemma RawTail(w: seq<bool>)
    ensures ([I] + ([I] + ([O] + ([O, O] + ([O, O, O, I, O, I, O] + ([O, O, O, I, I, O, O] + ([I] + [I, O, I]))))))) + w
            == [I, I] + ([O, O, O, O, O, O, I, O] + ([I, O, O, O, O, I, I, O] + ([O, I, I, O, I] + w)))
  {
    assert [O, O, O, I, I, O, O] + ([I] + [I, O, I]) == [O, O, O, I, I, O] + [O, I, I, O, I];
    assert [O, O, O, I, O, I, O] + ([O, O, O, I, I, O] + [O, I, I, O, I])
           == [O, O, O, I, O] + ([I, O, O, O, O, I, I, O] + [O, I, I, O, I]);
    assert [I] + ([I] + ([O] + ([O, O] + ([O, O, O, I, O] + ([I, O, O, O, O, I, I, O] + [O, I, I, O, I])))))
           == [I, I] + ([O, O, O, O, O, O, I, O] + ([I, O, O, O, O, I, I, O] + [O, I, I, O, I]));
  }

  /** Bytes that hold a record of the example, with w behind it. */
  lemma ExampleBits(c: Coding, rest: seq<byte>, w: seq<bool>)
    requires BitsOf(rest) == Zeros(6) + (EncodeAll(CodingElements(c)) + w)
    ensures BitsOf(Starting(rest)) == EncodeAll(BaseElements(WithCoding(c))) + w
  {
    hide *;
    var x := EncodeAll(CodingElements(c));
    StartingBits(rest);
    BaseCode(c);
    MoveZeros(x + w);
    MoveRun(FRONT + Zeros(25), x, w);
    MoveRun(FRONT, Zeros(25), x + w);
  }

  lemma MoveZeros(w: seq<bool>)
    ensures Zeros(19) + (Zeros(6) + w) == Zeros(25) + w
  {
  }

  lemma BaseCode(c: Coding)
    ensures EncodeAll(BaseElements(WithCoding(c))) == (FRONT + Zeros(25)) + EncodeAll(CodingElements(c))
  {
    hide EncodeAll, IdentityElements, GroupsElements, CodingElements;
    var s := WithCoding(c);
    FrontCode(c);
    MoveRun(IdentityElements(s.identity), GroupsElements(1, GROUPS), CodingElements(c));
    EncodeAppend(IdentityElements(s.identity) + GroupsElements(1, GROUPS), CodingElements(c));
  }

  lemma ExampleCodings(ci: bool)
    ensures EncodeAll(CodingElements(SENT.(constrainedIntraPred := ci)))
            == [I, O] + ([I, O, O, O, O, I, I, O] + [O, I, I, O, I, ci, O])
  {
    hide EncodeAll, CodingElements, UeBits;
    Codes();
    CodingCode(SENT.(constrainedIntraPred := ci), 0, 1, 0, 0, 5);
    SentTail(ci, O);
  }

  lemma RawCoding(w: seq<bool>)
    ensures EncodeAll(CodingElements(RAW)) + w
            == [I, I] + ([O, O, O, O, O, O, I, O] + ([I, O, O, O, O, I, I, O] + ([O, I, I, O, I] + w)))
  {
    hide EncodeAll, CodingElements, UeBits;
    Codes();
    CodingCode(RAW, 0, 0, 9, 11, 0);
    RawTail(w);
  }

  /** The four byte strings of the example and the records in them. */
  lemma ExampleStrings()
    ensures BitsOf(Starting([0x02, 0x86, 0x69])) == EncodeAll(BaseElements(WithCoding(SENT))) + [true]
    ensures BitsOf(Starting([0x03, 0x02, 0x86, 0x69]))
            == EncodeAll(BaseElements(WithCoding(RAW))) + EncodeAll(ZERO_EXTENSION)
    ensures BitsOf(Starting([0x03, 0x02, 0x86, 0x6C])) == EncodeAll(BaseElements(WithCoding(RAW))) + [true, false, false]
    ensures BitsOf(Starting([0x02, 0x86, 0x6C])) == EncodeAll(BaseElements(WithCoding(DECODED))) + [false]
  {
    hide EncodeAll, CodingElements, BaseElements, BitsOf, ByteBits, Starting, Zeros;
    ExampleBytes();
    ZeroExtensionCode();
    var a, b := [I, O], [I, O, O, O, O, I, I, O];
    ThreeBytes(0x69);
    ExampleCodings(false);
    assert [O, I, I, O, I, O, O, I] == [O, I, I, O, I, O, O] + [I];
    MoveRun(b, [O, I, I, O, I, O, O], [I]);
    MoveRun(a, b + [O, I, I, O, I, O, O], [I]);
    ExampleBits(SENT, [0x02, 0x86, 0x69], [I]);
    ThreeBytes(0x6C);
    ExampleCodings(true);
    assert [O, I, I, O, I, I, O, O] == [O, I, I, O, I, I, O] + [O];
    MoveRun(b, [O, I, I, O, I, I, O], [O]);
    MoveRun(a, b + [O, I, I, O, I, I, O], [O]);
    ExampleBits(DECODED, [0x02, 0x86, 0x6C], [O]);
    FourBytes(0x69);
    FourBytes(0x6C);
    RawCoding([O, O, I]);
    RawCoding([I, O, O]);
    assert [O, I, I, O, I, O, O, I] == [O, I, I, O, I] + [O, O, I] && [O, I, I, O, I, I, O, O] == [O, I, I, O, I] + [I, O, O];
    ExampleBits(RAW, [0x03, 0x02, 0x86, 0x69], [O, O, I]);
    ExampleBits(RAW, [0x03, 0x02, 0x86, 0x6C], [I, O, O]);
  }

  lemma ZeroExtensionCode()
    ensures EncodeAll(ZERO_EXTENSION) == [O, O, I]
  {
    hide EncodeAll, Encode, UeBits;
    Codes();
    SmallCodes(0);
    FlagsCode(O, O);
    EncodeSingle(SeElement(0));
    EncodeAppend([Flag(O), Flag(O)], [SeElement(0)]);
    assert ZERO_EXTENSION == [Flag(O), Flag(O)] + [SeElement(0)];
  }

  lemma EscapeOne(x: byte, rest: seq<byte>, count: nat)
    ensures E.EscapeFrom([x] + rest, count)
            == (if count == 2 && x <= 3 then [3, x] + E.EscapeFrom(rest, E.NextCount(0, x))
                else [x] + E.EscapeFrom(rest, E.NextCount(count, x)))
    ensures forall beyond :: !(count == 2 && x == 3) ==>
              E.UnescapeFrom([x] + rest, count, beyond) == [x] + E.UnescapeFrom(rest, E.NextCount(count, x), beyond)
  {
    E.SmallByte(x);
    assert ([x] + rest)[1..] == rest;
  }

  lemma StartEscaped(rest: seq<byte>, beyond: byte)
    ensures E.Escape(Starting(rest)) == Starting(E.EscapeFrom(rest, 2))
    ensures E.Unescape(Starting(rest), beyond) == Starting(E.UnescapeFrom(rest, 2, beyond))
  {
    hide E.EscapeFrom, E.UnescapeFrom;
    EscapeOne(0x00, rest, 1);
    EscapeOne(0x00, [0x00] + rest, 0);
    EscapeOne(0xC8, [0x00] + ([0x00] + rest), 0);
    EscapeOne(0x70, [0xC8] + ([0x00] + ([0x00] + rest)), 0);
    EscapeOne(0xC4, [0x70] + ([0xC8] + ([0x00] + ([0x00] + rest))), 0);
  }

  lemma ExampleEscapes(beyond: byte)
    ensures E.Escape(Starting([0x02, 0x86, 0x69])) == Starting([0x03, 0x02, 0x86, 0x69])
    ensures E.Unescape(Starting([0x03, 0x02, 0x86, 0x6C]), beyond) == Starting([0x02, 0x86, 0x6C])
  {
    hide Starting;
    var x: seq<byte>, y: seq<byte> := [0x02, 0x86, 0x69], [0x03, 0x02, 0x86, 0x6C];
    StartEscaped(x, beyond);
    StartEscaped(y, beyond);
    hide E.EscapeFrom;
    var a: seq<byte>, b: seq<byte> := [0x69], [0x6C];
    E.NothingToEscape(0);
    EscapeOne(0x69, [], 0);
    EscapeOne(0x86, a, 0);
    EscapeOne(0x02, [0x86] + a, 2);
    assert a == [0x69] + [] && x == [0x02] + ([0x86] + a);
    var z: seq<byte> := [0x03, 0x02, 0x86, 0x69];
    assert E.EscapeFrom(x, 2) == z by {
      assert z == [0x03, 0x02] + ([0x86] + a);
    }
    EscapeOne(0x86, b, 0);
    EscapeOne(0x6C, [], 0);
    assert b == [0x6C] + [] && y[2..] == [0x86] + b;
    assert E.UnescapeFrom([], 0, beyond) == [];
    var w: seq<byte> := [0x02, 0x86, 0x6C];
    assert E.UnescapeFrom(y, 2, beyond) == w by {
      assert w == [0x02] + ([0x86] + b);
    }
  }

  lemma PayloadIs(es: seq<Element>, s: seq<byte>, pad: nat)
    requires BitsOf(s) == EncodeAll(es) + ([true] + Zeros(pad)) && pad == 7 - |EncodeAll(es)| % 8
    ensures Payload(es) == s
  {
    hide *;
    RbspCode(es);
    PayloadBits(es);
    ZerosAre(pad);
    PackOfBits(s);
    PackOfBits(Payload(es));
  }

  lemma ZerosAre(n: nat)
    ensures Zeros(n) == seq(n, _ => false)
  {
  }

  lemma SmallIsWritable(e: Element)
    requires match e.descriptor case U(n) => n in {1, 2} && e.value in {0, 1} case _ => Short(e, MOST_CODE)
    ensures Writable(e)
  {
    assert Pow2(1) == 2 && Pow2(2) == 4;
    match e.descriptor
    case U(_) =>
    case Ue => SmallUeIsWritable(e.value);
    case Se => SmallUeIsWritable(SeToUe(e.value));
  }

  lemma ExampleFields(c: Coding)
    requires c == SENT || c == RAW || c == DECODED
    ensures AllWritable(IdentityElements(WithCoding(c).identity)) && AllWritable(CodingElements(c))
  {
    hide Writable;
    forall e | e in IdentityElements(WithCoding(c).identity) + CodingElements(c)
      ensures Writable(e)
    {
      SmallIsWritable(e);
    }
    WritableAppend(IdentityElements(WithCoding(c).identity), CodingElements(c));
  }

  lemma ExampleIds()
    ensures AllWritable(GroupsElements(1, GROUPS))
  {
    hide Writable, IdWidth;
    TwoGroups();
    forall e | e in GroupsElements(1, GROUPS)
      ensures Writable(e)
    {
      ExampleId(e);
      SmallIsWritable(e);
    }
  }

  lemma ExampleId(e: Element)
    requires e in GroupsElements(1, GROUPS)
    ensures e == Element(U(IdWidth(1)), 0) || e == UeElement(6) || e == UeElement(24)
  {
    hide IdWidth;
    var ids := Run(U(IdWidth(1)), Cleared(25));
    if e in ids {
      var i :| 0 <= i < |ids| && ids[i] == e;
      assert Descriptors(ids)[i] == e.descriptor && Values(ids)[i] == e.value;
    }
  }

  lemma ExampleIsPps(c: Coding)
    requires c == SENT || c == RAW || c == DECODED
    ensures CanonicalPps(WithCoding(c)) && AllWritable(PpsElements(WithCoding(c)))
    ensures PpsElements(WithCoding(c)) == BaseElements(WithCoding(c))
  {
    hide AllWritable, IdentityElements, CodingElements, GroupsElements;
    assert ExtensionElements(NO_EXTENSION) == [];
    assert BaseElements(WithCoding(c)) + [] == BaseElements(WithCoding(c));
    ExampleFields(c);
    ExampleIds();
    WritableAppend(GroupsElements(1, GROUPS), CodingElements(c));
    WritableAppend(IdentityElements(WithCoding(c).identity), GroupsElements(1, GROUPS) + CodingElements(c));
  }

  lemma HoldsInFront(bits: seq<bool>, es: seq<Element>, w: seq<bool>)
    requires bits == EncodeAll(es) + w
    ensures Holds(bits, 0, es)
  {
    hide EncodeAll;
    assert bits[0..|EncodeAll(es)|] == EncodeAll(es);
  }

  /** What a decoder makes of the bytes that hold a record of the example. */
  lemma ExampleIsRead(c: Coding, s: seq<byte>, w: seq<bool>)
    requires c == SENT || c == RAW || c == DECODED
    requires BitsOf(s) == EncodeAll(BaseElements(WithCoding(c))) + w
    ensures ParsePps(BitsOf(s), 0).0.coding == c
  {
    hide AllWritable, Holds, BaseElements, EncodeAll, ParseBase, ParseExtension, CanonicalPps, BitsOf, After;
    ExampleIsPps(c);
    HoldsInFront(BitsOf(s), BaseElements(WithCoding(c)), w);
    BaseRoundTrip(BitsOf(s), 0, WithCoding(c));
  }

  lemma StartingLength(rest: seq<byte>)
    ensures |Starting(rest)| == 5 + |rest|
  {
  }

  lemma StopBits()
    ensures [true] + Zeros(0) == [true] && [true] + Zeros(2) == [true, false, false]
  {
  }

  lemma ExamplePayloads()
    ensures PpsElements(WithCoding(SENT)) == BaseElements(WithCoding(SENT))
    ensures Payload(PpsElements(WithCoding(SENT))) == Starting([0x02, 0x86, 0x69])
    ensures Payload(PpsElements(WithCoding(RAW))) == Starting([0x03, 0x02, 0x86, 0x6C])
  {
    hide EncodeAll, BaseElements, ExtensionElements, BitsOf, Starting, Zeros, Payload, CanonicalPps;
    ExampleStrings();
    ExampleIsPps(SENT);
    ExampleIsPps(RAW);
    StopBits();
    StartingLength([0x02, 0x86, 0x69]);
    StartingLength([0x03, 0x02, 0x86, 0x6C]);
    PayloadIs(PpsElements(WithCoding(SENT)), Starting([0x02, 0x86, 0x69]), 0);
    PayloadIs(PpsElements(WithCoding(RAW)), Starting([0x03, 0x02, 0x86, 0x6C]), 2);
  }

  /** The raw bytes with the escape byte in them are read as another record,
      behind which an all-zero extension seems to follow. */
  lemma RawRecord()
    ensures ParsePps(BitsOf(Starting([0x03, 0x02, 0x86, 0x69])), 0).0 == WithCoding(RAW)
  {
    hide AllWritable, Holds, BaseElements, EncodeAll, ParseBase, ParseExtension, CanonicalPps, BitsOf, After, Starting;
    var bits, es := BitsOf(Starting([0x03, 0x02, 0x86, 0x69])), BaseElements(WithCoding(RAW));
    ExampleStrings();
    ExampleIsPps(RAW);
    EncodeAppend(es, ZERO_EXTENSION);
    assert bits == EncodeAll(es + ZERO_EXTENSION) + [];
    HoldsInFront(bits, es + ZERO_EXTENSION, []);
    HoldsAppend(bits, 0, es, ZERO_EXTENSION);
    BaseRoundTrip(bits, 0, WithCoding(RAW));
    ZeroExtensionRead(bits, After(0, es));
  }

  /** For a record with zero ids the rewriting changes what a decoder reads: the
      escape byte moves the raw reader by eight bits, its look-ahead takes the
      stop bit for an extension, and the new stop bit comes too late:
      constrained_intra_pred_flag flips. */
  lemma EscapedPpsIsNotKept(beyond: byte)
    ensures var s := WithCoding(SENT);
            var y := E.Escape(Payload(PpsElements(s)));
            && CanonicalPps(s) && AllWritable(PpsElements(s)) && ReadPps(y, beyond) == s
            && |RewrittenPps(y)| == |y|
            && ReadPps(RewrittenPps(y), beyond).coding == s.coding.(constrainedIntraPred := true)
  {
    hide AllWritable, BaseElements, ExtensionElements, EncodeAll, ParsePps, CanonicalPps, BitsOf, Starting, Payload,
         E.EscapeFrom, E.UnescapeFrom;
    ExamplePayloads();
    ExampleIsPps(SENT);
    ExampleEscapes(beyond);
    RawRecord();
    ExampleStrings();
    ExampleIsRead(DECODED, Starting([0x02, 0x86, 0x6C]), [false]);
    StartingLength([0x03, 0x02, 0x86, 0x69]);
    StartingLength([0x03, 0x02, 0x86, 0x6C]);
    WrittenPpsReadsBack(WithCoding(SENT), beyond);
  }
}
