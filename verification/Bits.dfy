/**
  Byte buffers seen as strings of bits, most significant bit of each byte
  first, as the cursor of bs.h walks over them.
 */
module Bits {

  type byte = bv8

  /** The value 1 << k of a byte. */
  function Mask(k: nat): byte
    requires k < 8
  {
    match k
    case 0 => 0x01
    case 1 => 0x02
    case 2 => 0x04
    case 3 => 0x08
    case 4 => 0x10
    case 5 => 0x20
    case 6 => 0x40
    case 7 => 0x80
  }

  predicate GetBit(b: byte, k: nat)
    requires k < 8
  {
    b & Mask(k) != 0
  }

  /** Clears bit k of b and then sets it to v. */
  function PutBit(b: byte, k: nat, v: bool): (r: byte)
    requires k < 8
    ensures forall j: nat :: j < 8 ==> GetBit(r, j) == if j == k then v else GetBit(b, j)
  {
    (b & !Mask(k)) | (if v then Mask(k) else 0)
  }

  lemma BytesEqualBitwise(a: byte, b: byte)
    requires forall k: nat :: k < 8 ==> GetBit(a, k) == GetBit(b, k)
    ensures a == b
  {
    assert GetBit(a, 0) == GetBit(b, 0);
    assert GetBit(a, 1) == GetBit(b, 1);
    assert GetBit(a, 2) == GetBit(b, 2);
    assert GetBit(a, 3) == GetBit(b, 3);
    assert GetBit(a, 4) == GetBit(b, 4);
    assert GetBit(a, 5) == GetBit(b, 5);
    assert GetBit(a, 6) == GetBit(b, 6);
    assert GetBit(a, 7) == GetBit(b, 7);
  }

  /** Bit k of a byte string: byte k/8, counting from its top bit. */
  predicate ByteStringBit(s: seq<byte>, k: nat)
    requires k < 8 * |s|
  {
    GetBit(s[k / 8], 7 - k % 8)
  }

  function BitsOf(s: seq<byte>): (bits: seq<bool>)
    ensures |bits| == 8 * |s|
    ensures forall k: nat :: k < |bits| ==> bits[k] == ByteStringBit(s, k)
  {
    seq(8 * |s|, k requires 0 <= k < 8 * |s| => ByteStringBit(s, k))
  }

  lemma BitsDetermineBytes(s: seq<byte>, t: seq<byte>)
    requires BitsOf(s) == BitsOf(t)
    ensures s == t
  {
    assert |s| == |t|;
    forall i | 0 <= i < |s|
      ensures s[i] == t[i]
    {
      forall k: nat | k < 8
        ensures GetBit(s[i], k) == GetBit(t[i], k)
      {
        assert (8 * i + (7 - k)) / 8 == i;
        assert BitsOf(s)[8 * i + (7 - k)] == BitsOf(t)[8 * i + (7 - k)];
      }
      BytesEqualBitwise(s[i], t[i]);
    }
  }

  lemma BitsOfAppend(s: seq<byte>, t: seq<byte>)
    ensures BitsOf(s + t) == BitsOf(s) + BitsOf(t)
  {
    forall k: nat | k < 8 * |s + t|
      ensures BitsOf(s + t)[k] == (BitsOf(s) + BitsOf(t))[k]
    {
      if k >= 8 * |s| {
        assert k / 8 == (k - 8 * |s|) / 8 + |s| && k % 8 == (k - 8 * |s|) % 8;
      }
    }
  }

  /** A read past the end of the buffer gives 0. */
  predicate BitAt(bits: seq<bool>, pos: nat) {
    pos < |bits| && bits[pos]
  }

  predicate Eof(bits: seq<bool>, pos: nat) {
    pos >= |bits|
  }

  /** The bit string w lies in bits at position pos. */
  predicate At(bits: seq<bool>, pos: nat, w: seq<bool>) {
    pos + |w| <= |bits| && bits[pos..pos + |w|] == w
  }

  lemma AtIndex(bits: seq<bool>, pos: nat, w: seq<bool>, i: nat)
    requires At(bits, pos, w) && i < |w|
    ensures BitAt(bits, pos + i) == w[i] && !Eof(bits, pos + i)
  {
    assert bits[pos..pos + |w|][i] == w[i];
  }

  lemma AtAppend(bits: seq<bool>, pos: nat, v: seq<bool>, w: seq<bool>)
    ensures At(bits, pos, v + w) <==> At(bits, pos, v) && At(bits, pos + |v|, w)
  {
    if At(bits, pos, v + w) {
      var all := bits[pos..pos + |v| + |w|];
      assert all[..|v|] == v && all[|v|..] == w;
      assert bits[pos..pos + |v|] == all[..|v|];
      assert bits[pos + |v|..pos + |v| + |w|] == all[|v|..];
    }
    if At(bits, pos, v) && At(bits, pos + |v|, w) {
      assert bits[pos..pos + |v| + |w|] == bits[pos..pos + |v|] + bits[pos + |v|..pos + |v| + |w|];
    }
  }

  /** bits after w was written at pos; what would fall past the end is dropped. */
  function Overwrite(bits: seq<bool>, pos: nat, w: seq<bool>): (r: seq<bool>)
    ensures |r| == |bits|
    ensures forall k: nat :: k < |bits| ==> r[k] == if pos <= k < pos + |w| then w[k - pos] else bits[k]
    ensures pos + |w| <= |bits| ==> At(r, pos, w)
  {
    var r := seq(|bits|, k requires 0 <= k < |bits| => if pos <= k < pos + |w| then w[k - pos] else bits[k]);
    assert pos + |w| <= |bits| ==> r[pos..pos + |w|] == w;
    r
  }

  lemma OverwriteAppend(bits: seq<bool>, pos: nat, v: seq<bool>, w: seq<bool>)
    ensures Overwrite(Overwrite(bits, pos, v), pos + |v|, w) == Overwrite(bits, pos, v + w)
  {
  }

  /** u(n) of section 7.2 of H.264: the next n bits, most significant first. */
  function ReadU(bits: seq<bool>, pos: nat, n: nat): (v: nat)
  {
    if n == 0 then 0
    else 2 * ReadU(bits, pos, n - 1) + (if BitAt(bits, pos + n - 1) then 1 else 0)
  }

  // ---------- byte buffers ----------

  /** s after the bytes t were stored over it from index at on. */
  function Splice(s: seq<byte>, at: nat, t: seq<byte>): (r: seq<byte>)
    requires at + |t| <= |s|
    ensures |r| == |s|
  {
    s[..at] + t + s[at + |t|..]
  }

  lemma SpliceAt(s: seq<byte>, at: nat, t: seq<byte>, x: nat)
    requires at + |t| <= |s| && x < |s|
    ensures Splice(s, at, t)[x] == if at <= x < at + |t| then t[x - at] else s[x]
  {
  }

  lemma SpliceParts(s: seq<byte>, at: nat, t: seq<byte>)
    requires at + |t| <= |s|
    ensures Splice(s, at, t)[..at] == s[..at] && Splice(s, at, t)[at..at + |t|] == t
    ensures Splice(s, at, t)[at + |t|..] == s[at + |t|..] && Splice(s, at, t)[..at + |t|] == s[..at] + t
  {
  }

  lemma SpliceNothing(s: seq<byte>, at: nat)
    requires at <= |s|
    ensures Splice(s, at, []) == s
  {
  }

  lemma SpliceNext(s: seq<byte>, at: nat, t: seq<byte>, x: byte)
    requires at + |t| < |s|
    ensures Splice(s, at, t)[at + |t| := x] == Splice(s, at, t + [x])
  {
  }

  /** memcpy. */
  method CopyBytes(dst: array<byte>, at: nat, src: array<byte>, from: nat, n: nat)
    requires dst != src && at + n <= dst.Length && from + n <= src.Length
    modifies dst
    ensures dst[..] == Splice(old(dst[..]), at, src[from..from + n])
  {
    hide Splice;
    assert src[from..from + 0] == [];
    SpliceNothing(dst[..], at);
    for i := 0 to n
      invariant dst[..] == Splice(old(dst[..]), at, src[from..from + i])
    {
      assert src[from..from + i + 1] == src[from..from + i] + [src[from + i]];
      SpliceNext(old(dst[..]), at, src[from..from + i], src[from + i]);
      dst[at + i] := src[from + i];
    }
  }
}
