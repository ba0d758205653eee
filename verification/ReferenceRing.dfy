/**
  The reference ring buffers of mini_test_reg.c. The frame being written and
  the frame it refers to share a ring that is larger than one frame by a fixed
  extension; the places move on by one frame size with every frame.
 */
module ReferenceRings {
  import opened CArithmetic

  // ---------- arithmetic modulo the ring size ----------

  /** A place in a ring of n bytes. */
  function Wrap(x: nat, n: nat): (r: nat)
    requires n > 0
    ensures r < n
    ensures x < n ==> r == x
  {
    x % n
  }

  lemma WrapOnce(x: nat, n: nat)
    requires 0 < n <= x < 2 * n
    ensures Wrap(x, n) == x - n
  {
    WrapTurns(x - n, 1, n);
  }

  lemma {:induction false} WrapTurns(x: nat, q: nat, n: nat)
    requires n > 0
    ensures Wrap(x + q * n, n) == Wrap(x, n)
  {
    if q > 0 {
      WrapTurns(x, q - 1, n);
      var y := x + (q - 1) * n;
      assert y + n == x + q * n;
      OneTurn(y, n);
    }
  }

  lemma OneTurn(y: nat, n: nat)
    requires n > 0
    ensures Wrap(y + n, n) == Wrap(y, n)
  {
    var q, r := y / n, y % n;
    assert y == n * q + r;
    assert y + n == (q + 1) * n + r;
    DivisionIsUnique(y + n, n, q + 1, r);
  }

  /** Wrapping first changes nothing. */
  lemma WrapWrapped(x: nat, y: nat, n: nat)
    requires n > 0
    ensures Wrap(Wrap(x, n) + y, n) == Wrap(x + y, n)
  {
    var q := x / n;
    assert x == Wrap(x, n) + q * n;
    WrapTurns(Wrap(x, n) + y, q, n);
    assert Wrap(x, n) + y + q * n == x + y;
  }

  // ---------- one plane ----------

  /** A plane: frames of size bytes in a ring of buf bytes. */
  datatype Plane = Plane(buf: nat, size: nat) {
    /** The extension. */
    function Gap(): int {
      buf - size
    }
  }

  predicate ValidPlane(p: Plane) {
    0 < p.size < p.buf
  }

  /** The place of the n-th frame after an intra frame at place first. */
  function PlaceOf(p: Plane, first: nat, n: nat): nat
    requires ValidPlane(p)
  {
    Wrap(first + n * p.size, p.buf)
  }

  /** The move of one address by one frame, in the source's two branches. */
  function Moved(p: Plane, place: nat): (r: int) {
    if place + p.size < p.buf then place + p.size else place + p.size - p.buf
  }

  lemma MovedIsNextPlace(p: Plane, first: nat, n: nat)
    requires ValidPlane(p)
    ensures Moved(p, PlaceOf(p, first, n)) == PlaceOf(p, first, n + 1)
  {
    var place := PlaceOf(p, first, n);
    WrapWrapped(first + n * p.size, p.size, p.buf);
    assert first + n * p.size + p.size == first + (n + 1) * p.size;
    if place + p.size >= p.buf {
      WrapOnce(place + p.size, p.buf);
    }
  }

  /** Byte k of a frame at place. */
  function ByteAt(p: Plane, place: nat, k: nat): nat
    requires ValidPlane(p)
  {
    Wrap(place + k, p.buf)
  }

  /** Byte k of the new frame lies on byte k - gap of the reference and on no
      other; for k < gap it lies on none. */
  lemma OverwritesOnlyBehind(p: Plane, first: nat, n: nat, k: nat, j: nat)
    requires ValidPlane(p) && n >= 1 && k < p.size && j < p.size
    ensures ByteAt(p, PlaceOf(p, first, n), k) == ByteAt(p, PlaceOf(p, first, n - 1), j) <==> j == k - p.Gap()
  {
    var ref := PlaceOf(p, first, n - 1);
    MovedIsNextPlace(p, first, n - 1);
    NewByteFromReference(p, ref, k);
    SamePlace(p, ref, p.size + k, j);
  }

  lemma NewByteFromReference(p: Plane, ref: nat, k: nat)
    requires ValidPlane(p) && ref < p.buf
    ensures Moved(p, ref) >= 0 && ByteAt(p, Moved(p, ref), k) == Wrap(ref + (p.size + k), p.buf)
  {
    if ref + p.size >= p.buf {
      var x := Moved(p, ref) + k;
      OneTurn(x, p.buf);
      assert x + p.buf == ref + (p.size + k);
    }
  }

  /** Two distances from one place, less than two turns and less than one turn. */
  lemma SamePlace(p: Plane, place: nat, far: nat, near: nat)
    requires ValidPlane(p) && place < p.buf && near < p.buf && near <= far < 2 * p.buf
    ensures Wrap(place + far, p.buf) == Wrap(place + near, p.buf) <==> far == near || far == near + p.buf
  {
    var a, b, n := place + far, place + near, p.buf;
    if a >= n {
      OneTurn(a - n, n);
      if a >= 2 * n {
        OneTurn(a - 2 * n, n);
      }
    }
    if b >= n {
      OneTurn(b - n, n);
    }
  }

  // ---------- the contents of a ring ----------

  /** The ring after the hardware wrote data at place. */
  function Written(p: Plane, ring: seq<nat>, place: nat, data: seq<nat>): (r: seq<nat>)
    requires ValidPlane(p) && |ring| == p.buf
    ensures |r| == p.buf
  {
    if data == [] then ring
    else Written(p, ring, place, data[..|data| - 1])[ByteAt(p, place, |data| - 1) := data[|data| - 1]]
  }

  /** The ring holds the frame data at place. */
  predicate HoldsFrame(p: Plane, ring: seq<nat>, place: nat, data: seq<nat>)
    requires ValidPlane(p) && |ring| == p.buf
  {
    |data| == p.size && forall k: nat :: k < p.size ==> ring[ByteAt(p, place, k)] == data[k]
  }

  lemma DistinctBytes(p: Plane, place: nat, j: nat, k: nat)
    requires ValidPlane(p) && j < p.buf && k < p.buf && j != k && place < p.buf
    ensures ByteAt(p, place, j) != ByteAt(p, place, k)
  {
    if j < k {
      SamePlace(p, place, k, j);
    } else {
      SamePlace(p, place, j, k);
    }
  }

  lemma {:induction false} WrittenBytes(p: Plane, ring: seq<nat>, place: nat, data: seq<nat>, k: nat)
    requires ValidPlane(p) && |ring| == p.buf && place < p.buf && |data| <= p.size && k < |data|
    ensures Written(p, ring, place, data)[ByteAt(p, place, k)] == data[k]
  {
    var last := |data| - 1;
    if k < last {
      WrittenBytes(p, ring, place, data[..last], k);
      DistinctBytes(p, place, k, last);
    }
  }

  /** While the first bytes of a new frame are written, byte j of the reference
      is still there as long as no more than j + gap bytes have come. */
  lemma {:induction false} ReferenceIntact(p: Plane, ring: seq<nat>, first: nat, n: nat, data: seq<nat>, j: nat)
    requires ValidPlane(p) && |ring| == p.buf && n >= 1 && |data| <= p.size && j < p.size
    requires |data| <= j + p.Gap()
    ensures var at := ByteAt(p, PlaceOf(p, first, n - 1), j);
            Written(p, ring, PlaceOf(p, first, n), data)[at] == ring[at]
    decreases |data|
  {
    if data != [] {
      ReferenceIntact(p, ring, first, n, data[..|data| - 1], j);
      OverwritesOnlyBehind(p, first, n, |data| - 1, j);
    }
  }

  /** Behind that, byte j has been overwritten by byte j + gap of the new frame. */
  lemma ReferenceOverwritten(p: Plane, ring: seq<nat>, first: nat, n: nat, data: seq<nat>, j: nat)
    requires ValidPlane(p) && |ring| == p.buf && n >= 1 && |data| <= p.size && j < p.size
    requires j + p.Gap() < |data|
    ensures Written(p, ring, PlaceOf(p, first, n), data)[ByteAt(p, PlaceOf(p, first, n - 1), j)] == data[j + p.Gap()]
  {
    hide PlaceOf, Wrap;
    var k := j + p.Gap();
    OverwritesOnlyBehind(p, first, n, k, j);
    PlaceInRing(p, first, n);
    WrittenBytes(p, ring, PlaceOf(p, first, n), data, k);
  }

  /** Writing frame n into a ring that holds frame n - 1: when c bytes have been
      written, byte j of the reference is still there if c is at most j + gap,
      and is byte j + gap of the new frame from then on; at the end the ring
      holds frame n. */
  lemma FrameStep(p: Plane, ring: seq<nat>, first: nat, n: nat, reference: seq<nat>, data: seq<nat>)
    requires ValidPlane(p) && |ring| == p.buf && n >= 1 && |data| == p.size
    requires HoldsFrame(p, ring, PlaceOf(p, first, n - 1), reference)
    ensures forall c: nat, j: nat :: c <= p.size && j < p.size ==>
              Written(p, ring, PlaceOf(p, first, n), data[..c])[ByteAt(p, PlaceOf(p, first, n - 1), j)]
              == if c <= j + p.Gap() then reference[j] else data[j + p.Gap()]
    ensures HoldsFrame(p, Written(p, ring, PlaceOf(p, first, n), data), PlaceOf(p, first, n), data)
  {
    hide PlaceOf, Wrap;
    forall c: nat, j: nat | c <= p.size && j < p.size
      ensures Written(p, ring, PlaceOf(p, first, n), data[..c])[ByteAt(p, PlaceOf(p, first, n - 1), j)]
              == if c <= j + p.Gap() then reference[j] else data[j + p.Gap()]
    {
      if c <= j + p.Gap() {
        ReferenceIntact(p, ring, first, n, data[..c], j);
      } else {
        ReferenceOverwritten(p, ring, first, n, data[..c], j);
      }
    }
    forall k: nat | k < p.size
      ensures Written(p, ring, PlaceOf(p, first, n), data)[ByteAt(p, PlaceOf(p, first, n), k)] == data[k]
    {
      PlaceInRing(p, first, n);
      WrittenBytes(p, ring, PlaceOf(p, first, n), data, k);
    }
  }

  lemma PlaceInRing(p: Plane, first: nat, n: nat)
    requires ValidPlane(p)
    ensures PlaceOf(p, first, n) < p.buf
  {
  }

  /** The ring after the frames from number n on were written in turn. */
  function AllWritten(p: Plane, ring: seq<nat>, first: nat, n: nat, frames: seq<seq<nat>>): (r: seq<nat>)
    requires ValidPlane(p) && |ring| == p.buf
    ensures |r| == p.buf
    decreases |frames|
  {
    if frames == [] then ring
    else AllWritten(p, Written(p, ring, PlaceOf(p, first, n), frames[0]), first, n + 1, frames[1..])
  }

  /** After any number of frames the ring holds the last one at its place. */
  lemma {:induction false} RunHoldsLastFrame(p: Plane, ring: seq<nat>, first: nat, n: nat, reference: seq<nat>,
                                             frames: seq<seq<nat>>)
    requires ValidPlane(p) && |ring| == p.buf && n >= 1 && HoldsFrame(p, ring, PlaceOf(p, first, n - 1), reference)
    requires forall f :: f in frames ==> |f| == p.size
    ensures HoldsFrame(p, AllWritten(p, ring, first, n, frames), PlaceOf(p, first, n - 1 + |frames|),
                       if frames == [] then reference else frames[|frames| - 1])
    decreases |frames|
  {
    hide PlaceOf, Written, HoldsFrame, ByteAt;
    if frames != [] {
      FrameStep(p, ring, first, n, reference, frames[0]);
      var next := Written(p, ring, PlaceOf(p, first, n), frames[0]);
      RunHoldsLastFrame(p, next, first, n + 1, frames[0], frames[1..]);
    }
  }

  // ---------- sizes ----------

  const EXTEND_HEIGHT: nat := 128

  /** STRIDE: x rounded up to a multiple of the alignment. */
  function Align(x: nat, to: nat): (r: nat)
    requires to > 0
    ensures x <= r < x + to
  {
    AlignBounds(x, to);
    (x + to - 1) / to * to
  }

  /** The result is a multiple, and the least one that is not smaller. */
  lemma AlignIsLeast(x: nat, to: nat, q: nat)
    requires to > 0 && x <= q * to
    ensures Align(x, to) == (x + to - 1) / to * to <= q * to
  {
    var n := (x + to - 1) / to;
    AlignBounds(x, to);
    MoreIsLarger(n, q, to);
  }

  lemma MoreIsLarger(n: nat, q: nat, to: nat)
    ensures if n > q then n * to >= q * to + to else n * to <= q * to
  {
    if n > q {
      Multiples(n - q, if to > 0 then to else 1);
    }
  }

  lemma AlignBounds(x: nat, to: nat)
    requires to > 0
    ensures x <= (x + to - 1) / to * to < x + to
  {
    var y := x + to - 1;
    assert y == y / to * to + y % to;
  }

  datatype Sizes = Sizes(internal: nat, luma: nat, chroma: nat, luma4N: nat, chromaHalf: nat, stride: nat)

  /** GetSizeAndSetRegs: the plane sizes of the frame aligned to 64, the 4N
      plane a sixteenth of the luma plane, and no padding between the two in
      the internal image. */
  method GetSizes(width: nat, height: nat) returns (s: Sizes)
    requires width > 0 && height > 0
    ensures s.luma == Align(width, 64) * Align(height, 64) && s.stride == 4 * Align(width, 64) && s.luma > 0
    ensures s.chroma == 2 * s.chromaHalf && 2 * s.chroma == s.luma
    ensures s.luma == 16 * s.luma4N && s.internal == s.luma + s.luma4N
  {
    hide Align;
    var w, h := Align(width, 64), Align(height, 64);
    var width4N, height4N := (width + 15) / 16 * 4, h / 4;
    Area(width, height, w * h);
    var chromaHalf := (w * h + w * h * 0 / 8) / 4;
    var stride := Align(Align(w * 4 * 8 / 8, 16), 64);
    var luma := stride * h / 4;
    StrideArea(w, h);
    var stride4N := Align(Align(width4N * 4 * 8 / 8, 16), 64);
    Stride4N(width);
    Sixteenth(w, h);
    var luma4N := stride4N * height4N / 4;
    InternalSize(luma + luma4N, luma4N);
    var internal := Align(Align(luma + luma4N, 16), 64);
    s := Sizes(internal, luma, luma / 2, luma4N, chromaHalf, stride);
  }

  /** The stride of the 4N plane is the aligned width. */
  lemma Stride4N(width: nat)
    ensures Align(Align((width + 15) / 16 * 4 * 4 * 8 / 8, 16), 64) == Align(width, 64)
  {
    var q := (width + 15) / 16;
    AlignExact(q * 4 * 4, 16, q);
    RoundTwice(width);
  }

  lemma RoundTwice(width: nat)
    ensures Align((width + 15) / 16 * 16, 64) == Align(width, 64)
  {
    var q, r := (width + 15) / 16, (width + 63) / 64;
    assert 16 * q < width + 16 && width <= 16 * q && 64 * r < width + 64 && width <= 64 * r;
    assert q <= 4 * r && 4 * r < q + 4;
    AlignIs(16 * q, 64, r);
    AlignIs(width, 64, r);
  }

  lemma AlignIs(x: nat, to: nat, q: nat)
    requires to > 0 && x <= q * to < x + to
    ensures Align(x, to) == q * to
  {
    DivisionIsUnique(x + to - 1, to, q, x + to - 1 - q * to);
  }

  lemma Sixteenth(w: nat, h: nat)
    requires w % 64 == 0 && h % 64 == 0
    ensures w * h == 16 * (w * (h / 4) / 4) && w * (h / 4) / 4 % 64 == 0
  {
    var a, b := w / 64, h / 64;
    var k := a * b;
    assert h / 4 == 16 * b;
    assert w * (h / 4) == (64 * a) * (16 * b) == 1024 * k;
    assert w * h == (64 * a) * (64 * b) == 4096 * k;
  }

  lemma InternalSize(n: nat, part: nat)
    requires n == 17 * part && part % 64 == 0
    ensures Align(Align(n, 16), 64) == n
  {
    hide Align;
    var k := part / 64;
    assert n == (68 * k) * 16 && n == (17 * k) * 64;
    AlignExact(n, 16, 68 * k);
    AlignExact(n, 64, 17 * k);
  }

  /** The area of the aligned frame, and the stride of its rows. */
  lemma Area(width: nat, height: nat, area: nat)
    requires width > 0 && height > 0 && area == Align(width, 64) * Align(height, 64)
    ensures area % 4 == 0 && area > 0
    ensures Align(Align(Align(width, 64) * 4, 16), 64) == 4 * Align(width, 64)
    ensures Align(width, 64) % 64 == 0 && Align(height, 64) % 64 == 0
  {
    hide Align;
    SixtyFourths(width);
    SixtyFourths(height);
    var w, a, b := Align(width, 64), Align(width, 64) / 64, Align(height, 64) / 64;
    Product(a, b);
    DivisionIsUnique(area, 4, 1024 * (a * b), 0);
    AlignExact(w * 4, 16, 16 * a);
    AlignExact(w * 4, 64, 4 * a);
  }

  lemma SixtyFourths(x: nat)
    requires x > 0
    ensures var y := Align(x, 64); y == 64 * (y / 64) && y / 64 > 0
  {
  }

  lemma Product(a: nat, b: nat)
    requires a > 0 && b > 0
    ensures (64 * a) * (64 * b) == 4096 * (a * b) && a * b > 0
  {
  }

  lemma AlignExact(x: nat, to: nat, q: nat)
    requires to > 0 && x == q * to
    ensures Align(x, to) == x
  {
    DivisionIsUnique(x + to - 1, to, q, to - 1);
  }

  lemma StrideArea(w: nat, h: nat)
    ensures 4 * w * h / 4 == w * h
  {
    assert 4 * w * h == 4 * (w * h);
  }

  // ---------- the ring buffer record ----------

  lemma ChromaStride(width: nat)
    ensures Align(width * 4, 64) == 4 * Align(width, 16)
  {
  }

  class RingBuffer {
    const base: nat
    const luma: Plane
    const chroma: Plane
    const luma4N: Plane
    const chromaHalf: nat
    var reconLuma: int
    var reconCb: int
    var reconCr: int
    var recon4N: int
    var lumaRead: int
    var cbRead: int
    var read4N: int
    var lumaWrite: int
    var cbWrite: int
    var write4N: int

    ghost predicate Valid()
      reads this
    {
      && ValidPlane(luma) && ValidPlane(chroma) && ValidPlane(luma4N) && 2 * chromaHalf == chroma.size
    }

    function ChromaBase(): nat {
      base + luma.buf
    }

    function Base4N(): nat {
      base + luma.buf + chroma.buf
    }

    /** The planes are at the places of the n-th frame since the last intra frame. */
    ghost predicate AtFrame(n: nat)
      reads this
    {
      && Valid()
      && reconLuma - base == PlaceOf(luma, 0, n) && lumaWrite == PlaceOf(luma, 0, n)
      && reconCb - ChromaBase() == PlaceOf(chroma, 0, n) && cbWrite == PlaceOf(chroma, 0, n)
      && reconCr - ChromaBase() == PlaceOf(chroma, chromaHalf, n)
      && recon4N - Base4N() == PlaceOf(luma4N, 0, n) && write4N == PlaceOf(luma4N, 0, n)
    }

    /** The set-up in mini_system_encoder_init, at the address that the
        allocator gave. The gaps are 128 luma rows, 64 chroma rows of the
        width aligned to 16, and 32 rows of the 4N plane. */
    constructor (width: nat, height: nat, base: nat)
      requires width > 0 && height > 0
      ensures Valid() && this.base == base
      ensures luma.size == Align(width, 64) * Align(height, 64) && 2 * chroma.size == luma.size == 16 * luma4N.size
      ensures luma.Gap() == 128 * Align(width, 64)
      ensures chroma.Gap() == 64 * Align(width, 16)
      ensures luma4N.Gap() == 32 * Align(width, 64) / 4
    {
      hide Align;
      var s := GetSizes(width, height);
      var stride4N := Align(Align((width + 15) / 16 * 4 * 4 * 8 / 8, 16), 64);
      var strideCh := Align(width * 4 * 8 / 8, 64);
      Stride4N(width);
      ChromaStride(width);
      this.base := base;
      luma := Plane(s.luma + EXTEND_HEIGHT * s.stride / 4, s.luma);
      chroma := Plane(s.chroma + EXTEND_HEIGHT / 2 * strideCh / 4, s.chroma);
      luma4N := Plane(s.luma4N + EXTEND_HEIGHT / 4 * stride4N / 4, s.luma4N);
      chromaHalf := s.chromaHalf;
      reconLuma, reconCb, reconCr, recon4N := 0, 0, 0, 0;
      lumaRead, cbRead, read4N, lumaWrite, cbWrite, write4N := 0, 0, 0, 0, 0, 0;
    }

    /** mini_InnerLoop_Update for an intra frame. */
    method UpdateIntra()
      requires Valid()
      modifies this
      ensures AtFrame(0)
    {
      reconLuma := base;
      reconCb := base + luma.buf;
      reconCr := reconCb + chromaHalf;
      recon4N := reconCb + chroma.buf;
      lumaWrite, cbWrite, write4N := reconLuma - base, reconCb - ChromaBase(), recon4N - Base4N();
    }

    /** mini_InnerLoop_Update for any other frame: the read offsets become the
        places of the frame before, the write offsets those of the new one. */
    method UpdateInter(ghost n: nat)
      requires AtFrame(n)
      modifies this
      ensures AtFrame(n + 1)
      ensures lumaRead == PlaceOf(luma, 0, n) && cbRead == PlaceOf(chroma, 0, n) && read4N == PlaceOf(luma4N, 0, n)
    {
      hide PlaceOf;
      MovedIsNextPlace(luma, 0, n);
      MovedIsNextPlace(chroma, 0, n);
      MovedIsNextPlace(chroma, chromaHalf, n);
      MovedIsNextPlace(luma4N, 0, n);
      lumaRead, cbRead, read4N := reconLuma - base, reconCb - ChromaBase(), recon4N - Base4N();
      var crRead := reconCr - ChromaBase();
      if lumaRead + luma.size < luma.buf {
        reconLuma := reconLuma + luma.size;
      } else {
        reconLuma := reconLuma + luma.size - luma.buf;
      }
      if cbRead + chroma.size < chroma.buf {
        reconCb := reconCb + chroma.size;
      } else {
        reconCb := reconCb + chroma.size - chroma.buf;
      }
      if crRead + chroma.size < chroma.buf {
        reconCr := reconCr + chroma.size;
      } else {
        reconCr := reconCr + chroma.size - chroma.buf;
      }
      if read4N + luma4N.size < luma4N.buf {
        recon4N := recon4N + luma4N.size;
      } else {
        recon4N := recon4N + luma4N.size - luma4N.buf;
      }
      lumaWrite, cbWrite, write4N := reconLuma - base, reconCb - ChromaBase(), recon4N - Base4N();
    }
  }

  /** The Cr half of a chroma frame always lies right behind its Cb half. */
  lemma CrFollowsCb(p: Plane, half: nat, n: nat)
    requires ValidPlane(p) && 2 * half == p.size
    ensures PlaceOf(p, half, n) == ByteAt(p, PlaceOf(p, 0, n), half)
  {
    WrapWrapped(0 + n * p.size, half, p.buf);
  }
}
