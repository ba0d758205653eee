/** The byte strings that the writers leave in a cleared buffer, with their trailing bits. */
module Rbsp {
  import opened Bits
  import opened Syntax
  import opened SequenceParameterSet
  import opened PictureParameterSet
  import opened ParameterSets

  function PackByte(w: seq<bool>): (b: byte)
    requires |w| == 8
    ensures forall k: nat :: k < 8 ==> GetBit(b, 7 - k) == w[k]
  {
    hide PutBit, GetBit;
    var b1 := PutBit(PutBit(PutBit(PutBit(0, 7, w[0]), 6, w[1]), 5, w[2]), 4, w[3]);
    PutBit(PutBit(PutBit(PutBit(b1, 3, w[4]), 2, w[5]), 1, w[6]), 0, w[7])
  }

  /** The bytes whose bits are w. */
  function Pack(w: seq<bool>): (s: seq<byte>)
    requires |w| % 8 == 0
    ensures |s| == |w| / 8
  {
    seq(|w| / 8, i requires 0 <= i < |w| / 8 => PackByte(w[8 * i..8 * i + 8]))
  }

  lemma BitsOfPack(w: seq<bool>)
    requires |w| % 8 == 0
    ensures BitsOf(Pack(w)) == w
  {
    hide PackByte, GetBit;
    var s := Pack(w);
    forall k: nat | k < |w|
      ensures BitsOf(s)[k] == w[k]
    {
      var i := k / 8;
      assert s[i] == PackByte(w[8 * i..8 * i + 8]);
      assert w[8 * i..8 * i + 8][k - 8 * i] == w[k];
      assert k % 8 == k - 8 * i;
    }
  }

  lemma PackOfBits(s: seq<byte>)
    ensures Pack(BitsOf(s)) == s
  {
    BitsOfPack(BitsOf(s));
    BitsDetermineBytes(Pack(BitsOf(s)), s);
  }

  /** The bits of a parameter set: its elements and the trailing bits. */
  function RbspElements(es: seq<Element>): seq<Element> {
    es + TrailingBits(|EncodeAll(es)|)
  }

  lemma {:induction false} PaddingBits(n: nat)
    ensures EncodeAll(Padding(n)) == seq(n, _ => false)
  {
    hide Encode;
    if n > 0 {
      assert Padding(n) == [Flag(false)] + Padding(n - 1);
      PaddingBits(n - 1);
      FlagCode(false);
      assert [false] + seq(n - 1, _ => false) == seq(n, _ => false);
      assert EncodeAll(Padding(n)) == Encode(Flag(false)) + EncodeAll(Padding(n - 1));
    }
  }

  lemma FlagCode(f: bool)
    ensures Encode(Flag(f)) == [f]
  {
    FlagLength(f);
  }

  lemma TrailingCode(pos: nat)
    ensures EncodeAll(TrailingBits(pos)) == [true] + seq(7 - pos % 8, _ => false)
  {
    hide Encode;
    FlagCode(true);
    PaddingBits(7 - pos % 8);
  }

  lemma RbspCode(es: seq<Element>)
    ensures var n := |EncodeAll(es)|;
            && EncodeAll(RbspElements(es)) == EncodeAll(es) + ([true] + seq(7 - n % 8, _ => false))
            && |EncodeAll(RbspElements(es))| == AfterTrailing(n) == 8 * (n / 8 + 1)
  {
    hide EncodeAll;
    EncodeAppend(es, TrailingBits(|EncodeAll(es)|));
    TrailingCode(|EncodeAll(es)|);
  }

  lemma RbspLength(es: seq<Element>)
    ensures |EncodeAll(RbspElements(es))| % 8 == 0
    ensures |EncodeAll(RbspElements(es))| / 8 == |EncodeAll(es)| / 8 + 1
  {
    hide *;
    RbspCode(es);
  }

  /** The payload that holds the elements es. */
  function Payload(es: seq<Element>): (s: seq<byte>)
    ensures |s| == |EncodeAll(es)| / 8 + 1
  {
    hide *;
    RbspLength(es);
    Pack(EncodeAll(RbspElements(es)))
  }

  /** A payload holds its elements from the start, then a stop bit and zeros;
      it ends in a nonzero byte. */
  lemma PayloadHolds(es: seq<Element>)
    ensures Holds(BitsOf(Payload(es)), 0, es)
    ensures StopAt(BitsOf(Payload(es)), |EncodeAll(es)|)
    ensures Payload(es)[|Payload(es)| - 1] != 0
  {
    hide *;
    RbspCode(es);
    PayloadBits(es);
    var w, n := EncodeAll(es), |EncodeAll(es)|;
    CodeInFront(BitsOf(Payload(es)), w, 7 - n % 8);
    HoldsMeaning(BitsOf(Payload(es)), 0, es);
    LastByteNonzero(Payload(es), n);
  }

  lemma PayloadBits(es: seq<Element>)
    ensures BitsOf(Payload(es)) == EncodeAll(RbspElements(es))
  {
    hide EncodeAll, RbspElements, Pack, BitsOf;
    RbspLength(es);
    BitsOfPack(EncodeAll(RbspElements(es)));
  }

  lemma CodeInFront(all: seq<bool>, w: seq<bool>, pad: nat)
    requires all == w + ([true] + seq(pad, _ => false))
    ensures At(all, 0, w) && StopAt(all, |w|)
  {
    assert all[0..|w|] == w;
  }

  lemma LastByteNonzero(s: seq<byte>, n: nat)
    requires |s| == n / 8 + 1 && BitsOf(s)[n]
    ensures s[|s| - 1] != 0
  {
    assert GetBit(s[n / 8], 7 - n % 8);
  }
}
