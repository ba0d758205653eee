/** The bit cursor bs_t of bs.h, over a part of a byte buffer that it reads and updates in place. */
module BitStreams {
  import opened CArithmetic
  import opened Bits
  import opened ByteAccess
  import opened ExpGolomb
  import opened Syntax

  /** Setting one bit of one byte sets one bit of the byte string. */
  lemma PutBitInString(s: seq<byte>, i: nat, j: nat, v: bool)
    requires i < |s| && j < 8
    ensures BitsOf(s[i := PutBit(s[i], j, v)]) == Overwrite(BitsOf(s), 8 * i + 7 - j, [v])
  {
    var t := s[i := PutBit(s[i], j, v)];
    forall k: nat | k < 8 * |s|
      ensures ByteStringBit(t, k) == if k == 8 * i + 7 - j then v else BitsOf(s)[k]
    {
      assert k == 8 * (k / 8) + k % 8;
    }
  }

  lemma OverwritePastEnd(bits: seq<bool>, pos: nat, v: bool)
    requires pos >= |bits|
    ensures Overwrite(bits, pos, [v]) == bits
  {
  }

  class BitStream {
    const buf: array<byte>
    const start: nat
    const end: nat
    var p: nat
    var bitsLeft: nat

    /** What has been written since the cursor was set up or last read from:
        the bits and the position of that moment, and the elements written. */
    ghost var origin: seq<bool>
    ghost var base: nat
    ghost var log: seq<Element>

    ghost predicate Valid()
      reads this
    {
      start <= end <= buf.Length && start <= p && 1 <= bitsLeft <= 8
    }

    ghost function Bits(): seq<bool>
      reads this, buf
      requires Valid()
    {
      BitsOf(buf[start..end])
    }

    ghost function Pos(): nat
      reads this
      requires Valid()
    {
      8 * (p - start) + (8 - bitsLeft)
    }

    /** The buffer holds the logged elements and the cursor is behind them. */
    ghost predicate Logged()
      reads this, buf
    {
      && Valid()
      && Bits() == Overwrite(origin, base, EncodeAll(log))
      && Pos() == base + |EncodeAll(log)|
    }

    /** Nothing has been written since the last read. */
    ghost predicate Reading()
      reads this, buf
    {
      Logged() && log == []
    }

    /** Nothing outside the cursor's part of the buffer has changed. */
    twostate predicate Framed()
      reads this, buf
    {
      start <= end <= buf.Length && buf[..start] == old(buf[..start]) && buf[end..] == old(buf[end..])
    }

    /** The cursor has moved on by one bit. */
    twostate predicate Stepped()
      reads this
    {
      if old(bitsLeft) == 1 then p == old(p) + 1 && bitsLeft == 8 else p == old(p) && bitsLeft == old(bitsLeft) - 1
    }

    /** The elements es have been written, and nothing else has changed. */
    twostate predicate Appended(es: seq<Element>)
      reads this, buf
    {
      Logged() && Framed() && origin == old(origin) && base == old(base) && log == old(log) + es
    }

    /** bs_init on size bytes of buffer from offset on. */
    constructor (buffer: array<byte>, offset: nat, size: nat)
      requires offset + size <= buffer.Length
      ensures Logged() && buf == buffer && start == offset && end == offset + size
      ensures Pos() == 0 && base == 0 && log == [] && origin == Bits()
    {
      buf, start, end := buffer, offset, offset + size;
      p, bitsLeft := offset, 8;
      origin, base, log := BitsOf(buffer[offset..offset + size]), 0, [];
    }

    /** bs_clone: a second cursor at the same place. */
    constructor Clone(src: BitStream)
      requires src.Valid() && src.p <= src.end
      ensures Reading() && buf == src.buf && start == src.p && end == src.end
      ensures p == src.p && bitsLeft == src.bitsLeft
    {
      buf, start, end := src.buf, src.p, src.end;
      p, bitsLeft := src.p, src.bitsLeft;
      origin, base, log := BitsOf(src.buf[src.p..src.end]), 8 - src.bitsLeft, [];
    }

    /** bs_byte_aligned. */
    method ByteAligned() returns (r: bool)
      requires Valid()
      ensures r <==> bitsLeft == 8
    {
      r := bitsLeft == 8;
    }

    /** bs_eof. */
    method AtEof() returns (r: bool)
      requires Valid()
      ensures r <==> Eof(Bits(), Pos())
    {
      r := p >= end;
    }

    /** bs_skip_u1. */
    method SkipU1()
      requires Valid()
      modifies this
      ensures Stepped()
      ensures Reading() && Bits() == old(Bits()) && Pos() == old(Pos()) + 1
    {
      bitsLeft := bitsLeft - 1;
      if bitsLeft == 0 {
        p, bitsLeft := p + 1, 8;
      }
      origin, base, log := Bits(), Pos(), [];
    }

    /** bs_peek_u1. */
    method PeekU1() returns (r: nat)
      requires Valid()
      ensures r == if BitAt(Bits(), Pos()) then 1 else 0
    {
      r := 0;
      if p < end {
        assert buf[start..end][p - start] == buf[p];
        assert Pos() / 8 == p - start && Pos() % 8 == 8 - bitsLeft;
        r := if GetBit(buf[p], bitsLeft - 1) then 1 else 0;
      }
    }

    /** bs_read_u1. */
    method ReadU1() returns (r: nat)
      requires Valid()
      modifies this
      ensures Reading() && Bits() == old(Bits()) && Pos() == old(Pos()) + 1
      ensures r == if BitAt(Bits(), old(Pos())) then 1 else 0
    {
      r := PeekU1();
      SkipU1();
    }

    /** bs_read_u: the bits are or-ed into place from the top. */
    method ReadBits(n: nat) returns (r: nat)
      requires Reading() && n <= 32
      modifies this
      ensures Reading() && Pos() == old(Pos()) + n
      ensures Bits() == old(Bits()) && r == ReadU(Bits(), old(Pos()), n)
    {
      hide BitsOf, ByteStringBit, BitAt, EncodeAll;
      ghost var bits, pos := Bits(), Pos();
      r := 0;
      var i := 0;
      assert ReadU(bits, pos, 0) == 0 && Pow2(0) == 1;
      while i < n
        invariant i <= n && Reading() && Bits() == bits && Pos() == pos + i
        invariant r == ReadU(bits, pos, i) * Pow2(n - i)
      {
        var bit := ReadU1();
        PlaceBit(ReadU(bits, pos, i), bit, n - i);
        assert ReadU(bits, pos, i + 1) == 2 * ReadU(bits, pos, i) + bit;
        r := r + bit * Pow2(n - i - 1);
        i := i + 1;
      }
    }

    /** bs_read_u8: a whole byte at once where the cursor is at one. */
    method ReadU8() returns (r: nat)
      requires Reading()
      modifies this
      ensures Reading() && Pos() == old(Pos()) + 8 && Bits() == old(Bits()) && r == ReadU(Bits(), old(Pos()), 8)
    {
      hide BitsOf, ReadU, Overwrite;
      if bitsLeft == 8 && p < end {
        ReadOfByte(buf[start..end], p - start);
        r := buf[p] as int;
        p := p + 1;
        origin, base, log := Bits(), Pos(), [];
        NothingLogged(origin, base);
      } else {
        r := ReadBits(8);
      }
    }

    /** bs_read_ue. */
    method ReadUeCode() returns (r: nat)
      requires Valid()
      modifies this
      ensures Reading()
      ensures Bits() == old(Bits()) && (r, Pos()) == ReadUe(Bits(), old(Pos()))
    {
      hide BitsOf, ByteStringBit, EncodeAll, ReadU, UeZeros, BitAt, Eof, Overwrite, ReadUe;
      ghost var bits, pos := Bits(), Pos();
      var i := 0;
      var bit := ReadU1();
      var eof := AtEof();
      UeZerosStep(bits, pos, 0);
      while bit == 0 && i < 32 && !eof
        invariant i <= 32 && Reading() && Bits() == bits
        invariant bit == 0 && i < 32 && !eof ==> UeZeros(bits, pos, 0) == UeZeros(bits, Pos(), i + 1)
        invariant !(bit == 0 && i < 32 && !eof) ==> UeZeros(bits, pos, 0) == (i, Pos())
        decreases 32 - i
      {
        UeZerosStep(bits, Pos(), i + 1);
        i := i + 1;
        bit := ReadU1();
        eof := AtEof();
      }
      UeFromZeros(bits, pos, i, Pos());
      var v := ReadBits(i);
      r := Uint32(v + Pow2(i % 32) - 1);
    }

    /** bs_read_se. */
    method ReadSeCode() returns (r: int)
      requires Valid()
      modifies this
      ensures Reading()
      ensures Bits() == old(Bits()) && (r, Pos()) == ReadElement(Se, Bits(), old(Pos()))
    {
      var u := ReadUeCode();
      r := UeToSe(u);
    }

    /** The byte update of bs_write_u1, with bitsLeft already counted down. */
    method StoreBit(v: bool)
      requires start <= p < end <= buf.Length && bitsLeft < 8
      modifies buf
      ensures BitsOf(buf[start..end]) == Overwrite(BitsOf(old(buf[start..end])), 8 * (p - start) + 7 - bitsLeft, [v])
      ensures Framed()
    {
      hide Overwrite, PutBit, BitsOf;
      ghost var s := buf[start..end];
      PutBitInString(s, p - start, bitsLeft, v);
      ghost var b := PutBit(buf[p], bitsLeft, v);
      buf[p] := PutBit(buf[p], bitsLeft, v);
      assert buf[start..end] == s[p - start := b];
    }

    /** bs_write_u1. */
    method WriteU1(v: bool)
      requires Valid()
      modifies this, buf
      ensures Valid() && Stepped()
      ensures Bits() == Overwrite(old(Bits()), old(Pos()), [v])
      ensures Framed() && origin == old(origin) && base == old(base) && log == old(log)
    {
      hide Overwrite, PutBit, BitsOf;
      bitsLeft := bitsLeft - 1;
      if p < end {
        StoreBit(v);
      } else {
        OverwritePastEnd(old(Bits()), old(Pos()), v);
      }
      if bitsLeft == 0 {
        p, bitsLeft := p + 1, 8;
      }
    }

    /** bs_write_u: bit i is v >> (n - i - 1), the count taken modulo 32. */
    method WriteBits(n: nat, v: nat)
      requires Valid()
      modifies this, buf
      ensures Valid() && Pos() == old(Pos()) + n
      ensures Bits() == Overwrite(old(Bits()), old(Pos()), UBits(n, v))
      ensures Framed()
      ensures origin == old(origin) && base == old(base) && log == old(log)
    {
      var i := 0;
      while i < n
        invariant i <= n && Valid() && Pos() == old(Pos()) + i
        invariant Bits() == Overwrite(old(Bits()), old(Pos()), UBits(n, v)[..i])
        invariant Framed()
        invariant origin == old(origin) && base == old(base) && log == old(log)
      {
        OverwriteAppend(old(Bits()), old(Pos()), UBits(n, v)[..i], [WrittenBit(n, v, i)]);
        assert UBits(n, v)[..i + 1] == UBits(n, v)[..i] + [WrittenBit(n, v, i)];
        WriteU1(WrittenBit(n, v, i));
        i := i + 1;
      }
      assert UBits(n, v)[..n] == UBits(n, v);
    }

    /** The byte update of bs_write_u8. */
    method StoreByte(v: nat)
      requires start <= p < end <= buf.Length
      modifies buf
      ensures BitsOf(buf[start..end]) == Overwrite(BitsOf(old(buf[start..end])), 8 * (p - start), UBits(8, v))
      ensures Framed()
    {
      hide BitsOf, UBits, Overwrite, LowByte;
      ghost var s := buf[start..end];
      WriteOfByte(s, p - start, v);
      buf[p] := LowByte(v);
      assert buf[start..end] == s[p - start := LowByte(v)];
    }

    /** bs_write_u8: a whole byte at once where the cursor is at one. */
    method WriteU8(v: nat)
      requires Valid()
      modifies this, buf
      ensures Valid() && Pos() == old(Pos()) + 8
      ensures Bits() == Overwrite(old(Bits()), old(Pos()), UBits(8, v))
      ensures Framed()
      ensures origin == old(origin) && base == old(base) && log == old(log)
    {
      hide BitsOf, UBits, Overwrite;
      if bitsLeft == 8 && p < end {
        StoreByte(v);
        p := p + 1;
      } else {
        WriteBits(8, v);
      }
    }

    /** The writing of a u(n) field. */
    method WriteU(n: nat, v: nat)
      requires Valid()
      modifies this, buf
      ensures Valid() && Pos() == old(Pos()) + n
      ensures Bits() == Overwrite(old(Bits()), old(Pos()), UBits(n, v))
      ensures Framed()
      ensures origin == old(origin) && base == old(base) && log == old(log)
    {
      hide BitsOf, UBits, Overwrite;
      if n == 8 {
        WriteU8(v);
      } else {
        WriteBits(n, v);
      }
    }

    /** bs_write_ue. */
    method WriteUeCode(v: nat)
      requires Valid() && v < TWO_32
      modifies this, buf
      ensures Valid() && Pos() == old(Pos()) + |UeBits(v)|
      ensures Bits() == Overwrite(old(Bits()), old(Pos()), UeBits(v))
      ensures Framed()
      ensures origin == old(origin) && base == old(base) && log == old(log)
    {
      if v == 0 {
        WriteU1(true);
      } else {
        var w := Uint32(v + 1);
        var len := UeLength(w);
        WriteBits(2 * len - 1, w);
      }
    }

    /** The bs_write call that an element's descriptor asks for. */
    method Emit(e: Element)
      requires Valid()
      modifies this, buf
      ensures Valid() && Pos() == old(Pos()) + |Encode(e)|
      ensures Bits() == Overwrite(old(Bits()), old(Pos()), Encode(e))
      ensures Framed()
      ensures origin == old(origin) && base == old(base) && log == old(log)
    {
      hide BitsOf, Overwrite, UBits, UeBits;
      match e.descriptor {
        case U(n) => WriteU(n, Uint32(e.value));
        case Ue => WriteUeCode(Uint32(e.value));
        case Se => WriteUeCode(Uint32(SeToUe(e.value)));
      }
    }

    /** The writing of an element, and its place in the log. */
    method Put(e: Element)
      requires Logged()
      modifies this, buf
      ensures Appended([e])
    {
      hide BitsOf, Overwrite, EncodeAll, Encode;
      Emit(e);
      OverwriteAppend(origin, base, EncodeAll(log), Encode(e));
      EncodeAppend(log, [e]);
      EncodeSingle(e);
      log := log + [e];
    }

    /** bs_write_u1 of a flag. */
    method PutFlag(f: bool)
      requires Logged()
      modifies this, buf
      ensures Appended([Flag(f)]) && Stepped()
    {
      FlagLength(f);
      EncodeSingle(Flag(f));
      EncodeAppend(log, [Flag(f)]);
      Put(Flag(f));
    }

    /** A run of bs_write calls. */
    method PutAll(es: seq<Element>)
      requires Logged()
      modifies this, buf
      ensures Appended(es)
    {
      for i := 0 to |es|
        invariant Appended(es[..i])
      {
        Put(es[i]);
        assert es[..i + 1] == es[..i] + [es[i]];
      }
      assert es[..|es|] == es;
    }

    /** The bs_read call that a descriptor asks for. */
    method Get(d: Descriptor) returns (v: int)
      requires Reading() && (d.U? ==> d.n <= 32)
      modifies this
      ensures Reading() && Bits() == old(Bits()) && (v, Pos()) == ReadElement(d, Bits(), old(Pos()))
    {
      match d
      case U(n) =>
        if n == 8 {
          v := ReadU8();
        } else {
          v := ReadBits(n);
        }
      case Ue => v := ReadUeCode();
      case Se => v := ReadSeCode();
    }

    /** A run of bs_read calls. */
    method GetAll(ds: seq<Descriptor>) returns (vs: seq<int>)
      requires Reading() && (forall d :: d in ds && d.U? ==> d.n <= 32)
      modifies this
      ensures Reading() && Bits() == old(Bits()) && (vs, Pos()) == ReadAll(ds, Bits(), old(Pos()))
    {
      hide ReadElement, BitsOf, EncodeAll;
      vs := [];
      for i := 0 to |ds|
        invariant Reading() && Bits() == old(Bits())
        invariant (vs, Pos()) == ReadAll(ds[..i], Bits(), old(Pos()))
      {
        ReadAllAppend(ds[..i], [ds[i]], Bits(), old(Pos()));
        ReadAllSingle(ds[i], Bits(), Pos());
        assert ds[..i + 1] == ds[..i] + [ds[i]];
        var v := Get(ds[i]);
        vs := vs + [v];
      }
      assert ds[..|ds|] == ds;
    }

    /** A one-bit field that is used as a flag. */
    method GetFlag() returns (f: bool)
      requires Reading()
      modifies this
      ensures Reading() && Bits() == old(Bits()) && (f, Pos()) == ReadFlag(Bits(), old(Pos()))
    {
      var v := Get(U(1));
      f := v == 1;
    }
  }

  lemma NothingLogged(bits: seq<bool>, pos: nat)
    ensures EncodeAll([]) == [] && Overwrite(bits, pos, []) == bits
  {
  }

  lemma PlaceBit(hi: nat, bit: nat, k: nat)
    requires k > 0
    ensures hi * Pow2(k) + bit * Pow2(k - 1) == (2 * hi + bit) * Pow2(k - 1)
  {
    var w := Pow2(k - 1);
    assert hi * (2 * w) == (2 * hi) * w;
  }

  lemma UeZerosStep(bits: seq<bool>, pos: nat, i: nat)
    requires i <= 32
    ensures UeZeros(bits, pos, i)
            == if !BitAt(bits, pos) && i < 32 && !Eof(bits, pos + 1) then UeZeros(bits, pos + 1, i + 1) else (i, pos + 1)
  {
  }

  lemma UeFromZeros(bits: seq<bool>, pos: nat, i: nat, p: nat)
    requires i <= 32 && UeZeros(bits, pos, 0) == (i, p)
    ensures ReadUe(bits, pos) == (Uint32(ReadU(bits, p, i) + Pow2(i % 32) - 1), p + i)
  {
  }

  lemma ReadAllSingle(d: Descriptor, bits: seq<bool>, pos: nat)
    ensures ReadAll([d], bits, pos) == ([ReadElement(d, bits, pos).0], ReadElement(d, bits, pos).1)
  {
    hide ReadElement;
    var (v, p) := ReadElement(d, bits, pos);
    assert ReadAll([], bits, p) == ([], p);
    assert ReadAll([d], bits, pos) == ([v] + ReadAll([], bits, p).0, p);
    assert [v] + [] == [v];
  }
}
