/** The copies of an image into the strided input buffer of jpegenc.c. */
module CanvasCopies {
  import opened Bits

  // ---------- rows ----------

  /** h rows of w bytes from index at on, stride bytes apart, have room in n bytes. */
  predicate Room(n: nat, at: nat, stride: nat, w: nat, h: nat) {
    h > 0 ==> at + (h - 1) * stride + w <= n
  }

  lemma RoomOfRest(n: nat, at: nat, stride: nat, w: nat, h: nat)
    requires h > 0 && Room(n, at, stride, w, h)
    ensures at + w <= n && Room(n, at + stride, stride, w, h - 1)
  {
    Steps(h - 1, stride);
  }

  lemma Steps(k: nat, stride: nat)
    ensures k * stride >= 0 && (k > 0 ==> k * stride == (k - 1) * stride + stride)
  {
  }

  /** dst after h rows of w bytes of src, packed from index from on, were
      copied to rows that begin stride bytes apart. */
  function PutRows(dst: seq<byte>, at: nat, stride: nat, src: seq<byte>, from: nat, w: nat, h: nat): (r: seq<byte>)
    requires Room(|dst|, at, stride, w, h) && Room(|src|, from, w, w, h)
    ensures |r| == |dst|
    decreases h
  {
    if h == 0 then dst
    else
      RoomOfRest(|dst|, at, stride, w, h);
      RoomOfRest(|src|, from, w, w, h);
      PutRows(Splice(dst, at, src[from..from + w]), at + stride, stride, src, from + w, w, h - 1)
  }

  /** Sample c of row r of a plane of the picture. */
  function Place(at: nat, stride: nat, r: nat, c: nat): nat {
    at + r * stride + c
  }

  lemma NextPlace(at: nat, stride: nat, r: nat, c: nat)
    requires r > 0
    ensures Place(at, stride, r, c) == Place(at + stride, stride, r - 1, c)
  {
    Steps(r, stride);
  }

  lemma PlaceInRoom(n: nat, at: nat, stride: nat, w: nat, h: nat, r: nat, c: nat)
    requires Room(n, at, stride, w, h) && r < h && c < w
    ensures at <= Place(at, stride, r, c) < n
  {
    MoreRows(r, h - 1, stride);
  }

  lemma MoreRows(a: nat, b: nat, stride: nat)
    requires a <= b
    ensures 0 <= a * stride <= b * stride
  {
  }

  /** Bytes below the first row, and behind the last one, stay. */
  lemma {:induction false} BytesOutsideStay(dst: seq<byte>, at: nat, stride: nat, src: seq<byte>, from: nat, w: nat, h: nat, x: nat)
    requires Room(|dst|, at, stride, w, h) && Room(|src|, from, w, w, h)
    requires x < |dst| && (x < at || (h > 0 ==> Place(at, stride, h - 1, w) <= x))
    ensures PutRows(dst, at, stride, src, from, w, h)[x] == dst[x]
    decreases h
  {
    if h > 0 {
      RoomOfRest(|dst|, at, stride, w, h);
      RoomOfRest(|src|, from, w, w, h);
      Steps(h - 1, stride);
      if h > 1 {
        NextPlace(at, stride, h - 1, w);
      }
      SpliceAt(dst, at, src[from..from + w], x);
      MoreRows(0, h - 1, stride);
      BytesOutsideStay(Splice(dst, at, src[from..from + w]), at + stride, stride, src, from + w, w, h - 1, x);
    }
  }

  /** Every sample lies at its row and column, if the rows do not overlap. */
  lemma {:induction false} SamplesLieInPlace(dst: seq<byte>, at: nat, stride: nat, src: seq<byte>, from: nat, w: nat, h: nat,
                                             r: nat, c: nat)
    requires Room(|dst|, at, stride, w, h) && Room(|src|, from, w, w, h) && w <= stride && r < h && c < w
    ensures Place(at, stride, r, c) < |dst| && Place(from, w, r, c) < |src|
    ensures PutRows(dst, at, stride, src, from, w, h)[Place(at, stride, r, c)] == src[Place(from, w, r, c)]
    decreases h
  {
    hide Splice, Room;
    PlaceInRoom(|dst|, at, stride, w, h, r, c);
    PlaceInRoom(|src|, from, w, w, h, r, c);
    RoomOfRest(|dst|, at, stride, w, h);
    RoomOfRest(|src|, from, w, w, h);
    var row := src[from..from + w];
    var next := Splice(dst, at, row);
    if r == 0 {
      SpliceAt(dst, at, row, at + c);
      assert row[c] == src[from + c];
      BytesOutsideStay(next, at + stride, stride, src, from + w, w, h - 1, at + c);
    } else {
      NextPlace(at, stride, r, c);
      NextPlace(from, w, r, c);
      SamplesLieInPlace(next, at + stride, stride, src, from + w, w, h - 1, r - 1, c);
    }
  }

  /** Index x is that of a sample. */
  predicate Covered(at: nat, stride: nat, w: nat, h: nat, x: nat)
    decreases h
  {
    h > 0 && (at <= x < at + w || Covered(at + stride, stride, w, h - 1, x))
  }

  lemma {:induction false} CoveredMeans(at: nat, stride: nat, w: nat, h: nat, x: nat)
    ensures Covered(at, stride, w, h, x) <==> exists r: nat, c: nat :: r < h && c < w && x == Place(at, stride, r, c)
    decreases h
  {
    if h > 0 {
      CoveredMeans(at + stride, stride, w, h - 1, x);
      if at <= x < at + w {
        assert x == Place(at, stride, 0, x - at);
      } else if Covered(at + stride, stride, w, h - 1, x) {
        var r: nat, c: nat :| r < h - 1 && c < w && x == Place(at + stride, stride, r, c);
        NextPlace(at, stride, r + 1, c);
      }
      if exists r: nat, c: nat :: r < h && c < w && x == Place(at, stride, r, c) {
        var r: nat, c: nat :| r < h && c < w && x == Place(at, stride, r, c);
        if r > 0 {
          NextPlace(at, stride, r, c);
        }
      }
    }
  }

  /** All other bytes stay, those between the rows too. */
  lemma {:induction false} OtherBytesStay(dst: seq<byte>, at: nat, stride: nat, src: seq<byte>, from: nat, w: nat, h: nat, x: nat)
    requires Room(|dst|, at, stride, w, h) && Room(|src|, from, w, w, h)
    requires x < |dst| && !Covered(at, stride, w, h, x)
    ensures PutRows(dst, at, stride, src, from, w, h)[x] == dst[x]
    decreases h
  {
    hide Splice, Room;
    if h > 0 {
      RoomOfRest(|dst|, at, stride, w, h);
      RoomOfRest(|src|, from, w, w, h);
      var row := src[from..from + w];
      SpliceAt(dst, at, row, x);
      OtherBytesStay(Splice(dst, at, row), at + stride, stride, src, from + w, w, h - 1, x);
    }
  }

  /** Without padding, one copy of all the rows does the same. */
  lemma {:induction false} OneCopyIsAllRows(dst: seq<byte>, at: nat, src: seq<byte>, from: nat, w: nat, h: nat)
    requires at + h * w <= |dst| && from + h * w <= |src|
    ensures Room(|dst|, at, w, w, h) && Room(|src|, from, w, w, h)
    ensures PutRows(dst, at, w, src, from, w, h) == Splice(dst, at, src[from..from + h * w])
    decreases h
  {
    hide Splice;
    Steps(h, w);
    if h == 0 {
      assert src[from..from + h * w] == [];
      SpliceNothing(dst, at);
    } else {
      RoomOfRest(|dst|, at, w, w, h);
      RoomOfRest(|src|, from, w, w, h);
      var n := (h - 1) * w;
      var first, rest := src[from..from + w], src[from + w..from + w + n];
      OneCopyIsAllRows(Splice(dst, at, first), at + w, src, from + w, w, h - 1);
      assert src[from..from + h * w] == first + rest;
      TwoCopies(dst, at, first, rest);
    }
  }

  lemma TwoCopies(dst: seq<byte>, at: nat, first: seq<byte>, rest: seq<byte>)
    requires at + |first| + |rest| <= |dst|
    ensures Splice(Splice(dst, at, first), at + |first|, rest) == Splice(dst, at, first + rest)
  {
  }

  // ---------- the copying methods ----------

  /** A copy row by row. */
  method CopyRows(dst: array<byte>, at: nat, stride: nat, src: array<byte>, from: nat, w: nat, h: nat)
    requires dst != src && Room(dst.Length, at, stride, w, h) && Room(src.Length, from, w, w, h)
    modifies dst
    ensures dst[..] == PutRows(old(dst[..]), at, stride, src[..], from, w, h)
  {
    hide Room, Splice;
    var to: nat, of: nat := at, from;
    for i := 0 to h
      invariant Room(dst.Length, to, stride, w, h - i) && Room(src.Length, of, w, w, h - i)
      invariant PutRows(old(dst[..]), at, stride, src[..], from, w, h) == PutRows(dst[..], to, stride, src[..], of, w, h - i)
    {
      RoomOfRest(dst.Length, to, stride, w, h - i);
      RoomOfRest(src.Length, of, w, w, h - i);
      assert src[..][of..of + w] == src[of..of + w];
      CopyBytes(dst, to, src, of, w);
      to, of := to + stride, of + w;
    }
  }

  /** The copy of a plane: row by row, or its n bytes in one go where the rows
      have no padding. */
  method CopyPlane(dst: array<byte>, at: nat, stride: nat, src: array<byte>, from: nat, w: nat, h: nat, n: nat)
    requires dst != src && Room(dst.Length, at, stride, w, h) && Room(src.Length, from, w, w, h)
    requires stride == w ==> n == h * w && at <= dst.Length && from <= src.Length
    modifies dst
    ensures dst[..] == PutRows(old(dst[..]), at, stride, src[..], from, w, h)
  {
    hide Splice, PutRows;
    if stride != w {
      CopyRows(dst, at, stride, src, from, w, h);
    } else {
      Steps(h, w);
      OneCopyIsAllRows(dst[..], at, src[..], from, w, h);
      assert src[..][from..from + n] == src[from..from + n];
      CopyBytes(dst, at, src, from, n);
    }
  }

  // ---------- whole pictures ----------

  datatype Format = Nv12 | Nv21 | Yuv420 | Yuv444Plane

  datatype Picture = Picture(format: Format, width: nat, height: nat, yStride: nat, hStride: nat)

  /** A plane of h rows of w bytes: packed at index from of the source, and at
      index at of the buffer with rows stride bytes apart. */
  datatype Plane = Plane(at: nat, stride: nat, from: nat, w: nat, h: nat)

  function LumaPlane(p: Picture): Plane {
    Plane(0, p.yStride, 0, p.width, p.height)
  }

  /** Interleaved chroma: half as many rows as luma; and half a row more where
      an odd number of rows is copied in one go. */
  function SemiPlanes(p: Picture): seq<Plane> {
    var offset, area, half := p.hStride * p.yStride, p.width * p.height, p.height / 2;
    [Plane(offset, p.yStride, area, p.width, half)]
    + if p.width == p.yStride && p.height % 2 == 1 then
        [Plane(offset + half * p.width, p.width / 2, area + half * p.width, p.width / 2, 1)]
      else
        []
  }

  function ChromaPlanes(p: Picture): seq<Plane> {
    var offset, area := p.hStride * p.yStride, p.width * p.height;
    match p.format
    case Nv12 => SemiPlanes(p)
    case Nv21 => SemiPlanes(p)
    case Yuv420 =>
      var stride := p.yStride / 2;
      [Plane(offset, stride, area, p.width / 2, p.height / 2),
       Plane(offset + stride * p.hStride / 2, stride, area * 5 / 4, p.width / 2, p.height / 2)]
    case Yuv444Plane =>
      [Plane(offset, p.yStride, area, p.width, p.height),
       Plane(offset * 2, p.yStride, area * 2, p.width, p.height)]
  }

  function Planes(p: Picture): seq<Plane> {
    [LumaPlane(p)] + ChromaPlanes(p)
  }

  /** Bits per pixel. */
  function Bpp(f: Format): nat {
    if f == Yuv444Plane then 24 else 12
  }

  function TotalSize(p: Picture): nat {
    p.yStride * p.hStride * Bpp(p.format) / 8
  }

  function SourceSize(p: Picture): nat {
    p.width * p.height * Bpp(p.format) / 8
  }

  predicate FitsIn(l: Plane, n: nat, m: nat) {
    Room(n, l.at, l.stride, l.w, l.h) && Room(m, l.from, l.w, l.w, l.h)
  }

  predicate AllFit(ls: seq<Plane>, n: nat, m: nat) {
    forall l :: l in ls ==> FitsIn(l, n, m)
  }

  /** Strides no smaller than the dimensions. */
  predicate Copyable(p: Picture) {
    p.width <= p.yStride && p.height <= p.hStride
  }

  function PutPlane(dst: seq<byte>, src: seq<byte>, l: Plane): (r: seq<byte>)
    requires FitsIn(l, |dst|, |src|)
    ensures |r| == |dst|
  {
    PutRows(dst, l.at, l.stride, src, l.from, l.w, l.h)
  }

  function PutPlanes(dst: seq<byte>, src: seq<byte>, ls: seq<Plane>): (r: seq<byte>)
    requires AllFit(ls, |dst|, |src|)
    ensures |r| == |dst|
    decreases |ls|
  {
    if ls == [] then dst
    else
      assert ls[0] in ls;
      PutPlanes(PutPlane(dst, src, ls[0]), src, ls[1..])
  }

  /** h rows of w bytes of src, packed from index from on, lie in dst from index
      at on, with stride bytes from row to row. */
  ghost predicate Placed(dst: seq<byte>, at: nat, stride: nat, src: seq<byte>, from: nat, w: nat, h: nat) {
    forall r: nat, c: nat :: r < h && c < w ==> SampleIsAt(dst, at, stride, src, from, w, r, c)
  }

  predicate SampleIsAt(dst: seq<byte>, at: nat, stride: nat, src: seq<byte>, from: nat, w: nat, r: nat, c: nat) {
    var x, y := at + r * stride + c, from + r * w + c;
    0 <= x < |dst| && 0 <= y < |src| && dst[x] == src[y]
  }

  /** Index x is the place of one of h rows of w bytes. */
  ghost predicate InRows(x: nat, at: nat, stride: nat, w: nat, h: nat) {
    exists r: nat, c: nat :: r < h && c < w && x == Place(at, stride, r, c)
  }

  /** Where copy_to_local puts the samples of a picture, format by format: luma
      at 0; interleaved chroma, or U and then V, behind the room for hStride
      rows of luma. In NV12 and NV21 without padding an odd row leaves half a
      row of chroma. */
  ghost predicate LaidOut(p: Picture, dst: seq<byte>, src: seq<byte>) {
    var w, h, yS, hS := p.width, p.height, p.yStride, p.hStride;
    && Placed(dst, 0, yS, src, 0, w, h)
    && match p.format
       case Nv12 =>
         && Placed(dst, hS * yS, yS, src, w * h, w, h / 2)
         && (w == yS && h % 2 == 1 ==> Placed(dst, hS * yS + h / 2 * w, w / 2, src, w * h + h / 2 * w, w / 2, 1))
       case Nv21 =>
         && Placed(dst, hS * yS, yS, src, w * h, w, h / 2)
         && (w == yS && h % 2 == 1 ==> Placed(dst, hS * yS + h / 2 * w, w / 2, src, w * h + h / 2 * w, w / 2, 1))
       case Yuv420 =>
         && Placed(dst, hS * yS, yS / 2, src, w * h, w / 2, h / 2)
         && Placed(dst, hS * yS + yS / 2 * hS / 2, yS / 2, src, w * h * 5 / 4, w / 2, h / 2)
       case Yuv444Plane =>
         && Placed(dst, hS * yS, yS, src, w * h, w, h)
         && Placed(dst, 2 * (hS * yS), yS, src, 2 * (w * h), w, h)
  }

  /** The bytes of the buffer that hold samples. */
  ghost predicate HoldsSample(p: Picture, x: nat) {
    var w, h, yS, hS := p.width, p.height, p.yStride, p.hStride;
    || InRows(x, 0, yS, w, h)
    || match p.format
       case Nv12 =>
         || InRows(x, hS * yS, yS, w, h / 2)
         || (w == yS && h % 2 == 1 && InRows(x, hS * yS + h / 2 * w, w / 2, w / 2, 1))
       case Nv21 =>
         || InRows(x, hS * yS, yS, w, h / 2)
         || (w == yS && h % 2 == 1 && InRows(x, hS * yS + h / 2 * w, w / 2, w / 2, 1))
       case Yuv420 =>
         || InRows(x, hS * yS, yS / 2, w / 2, h / 2)
         || InRows(x, hS * yS + yS / 2 * hS / 2, yS / 2, w / 2, h / 2)
       case Yuv444Plane =>
         || InRows(x, hS * yS, yS, w, h)
         || InRows(x, 2 * (hS * yS), yS, w, h)
  }

  class JpegInput {
    const picture: Picture
    const src: array<byte>
    const buf: array<byte>
    var uStride: nat
    var vStride: nat

    constructor (picture: Picture, src: array<byte>, buf: array<byte>)
      ensures this.picture == picture && this.src == src && this.buf == buf
    {
      this.picture, this.src, this.buf := picture, src, buf;
      uStride, vStride := picture.yStride, picture.yStride;
    }

    ghost predicate HasRoom() {
      src != buf && Copyable(picture) && TotalSize(picture) <= buf.Length && SourceSize(picture) <= src.Length
    }

    /** The luma plane. */
    method CopyLuma()
      requires HasRoom()
      modifies buf
      ensures FitsIn(LumaPlane(picture), |old(buf[..])|, src.Length)
      ensures buf[..] == PutPlane(old(buf[..]), src[..], LumaPlane(picture))
    {
      hide PutRows, Room;
      PlanesFit(picture, buf.Length, src.Length);
      assert LumaPlane(picture) in Planes(picture);
      CopyPlane(buf, 0, picture.yStride, src, 0, picture.width, picture.height, picture.height * picture.width);
    }

    /** The interleaved chroma plane. */
    method CopySemiPlanar()
      requires HasRoom() && picture.format in {Nv12, Nv21}
      modifies buf
      ensures AllFit(ChromaPlanes(picture), |old(buf[..])|, src.Length)
      ensures buf[..] == PutPlanes(old(buf[..]), src[..], ChromaPlanes(picture))
    {
      hide PutRows, Room, Splice, PutPlanes;
      var p := picture;
      var offset, area := p.hStride * p.yStride, p.width * p.height;
      ChromaFits(p, buf.Length, src.Length);
      if p.yStride != p.width {
        ghost var l := ChromaPlanes(p)[0];
        assert ChromaPlanes(p) == [l] && l in ChromaPlanes(p);
        OnePlane(buf[..], src[..], l);
        CopyRows(buf, offset, p.yStride, src, area, p.width, p.height / 2);
      } else {
        SemiPlanarBytes(p, buf[..], src[..]);
        assert src[..][area..area + area / 2] == src[area..area + area / 2];
        CopyBytes(buf, offset, src, area, area / 2);
      }
    }

    /** The chroma planes of the planar formats. */
    method CopyPlanar()
      requires HasRoom() && picture.format in {Yuv420, Yuv444Plane}
      modifies `uStride, `vStride, buf
      ensures AllFit(ChromaPlanes(picture), |old(buf[..])|, src.Length)
      ensures buf[..] == PutPlanes(old(buf[..]), src[..], ChromaPlanes(picture))
      ensures uStride == vStride == if picture.format == Yuv420 then picture.yStride / 2 else picture.yStride
    {
      hide PutRows, Room, PutPlanes;
      var p := picture;
      ChromaFits(p, buf.Length, src.Length);
      ghost var ls := ChromaPlanes(p);
      assert ls[0] in ls && ls[1] in ls;
      TwoPlanes(buf[..], src[..], ls);
      var offset, area := p.hStride * p.yStride, p.width * p.height;
      if p.format == Yuv420 {
        uStride, vStride := p.yStride / 2, p.yStride / 2;
        var stride := p.yStride / 2;
        CopyRows(buf, offset, stride, src, area, p.width / 2, p.height / 2);
        offset := p.hStride * p.yStride + stride * p.hStride / 2;
        CopyRows(buf, offset, stride, src, area * 5 / 4, p.width / 2, p.height / 2);
      } else {
        uStride, vStride := p.yStride, p.yStride;
        CopyRows(buf, offset, p.yStride, src, area, p.width, p.height);
        CopyRows(buf, offset * 2, p.yStride, src, area * 2, p.width, p.height);
      }
    }

    /** copy_to_local, for the semi-planar and planar formats. */
    method CopyToLocal() returns (totalSize: nat)
      requires HasRoom()
      modifies `uStride, `vStride, buf
      ensures AllFit(Planes(picture), |old(buf[..])|, src.Length)
      ensures buf[..] == PutPlanes(old(buf[..]), src[..], Planes(picture))
      ensures LaidOut(picture, buf[..], src[..])
      ensures forall x: nat :: x < buf.Length && !HoldsSample(picture, x) ==> buf[..][x] == old(buf[..])[x]
      ensures totalSize == picture.yStride * picture.hStride * (if picture.format == Yuv444Plane then 24 else 12) / 8
      ensures picture.format == Yuv420 ==> uStride == vStride == picture.yStride / 2
      ensures picture.format == Yuv444Plane ==> uStride == vStride == picture.yStride
      ensures picture.format in {Nv12, Nv21} ==> uStride == old(uStride) && vStride == old(vStride)
    {
      hide PutPlane, PutPlanes, FitsIn, Copyable, ChromaPlanes, LumaPlane, LaidOut, HoldsSample;
      ghost var before := buf[..];
      LayoutInNumbers(picture, before, src[..]);
      CopyLuma();
      if picture.format == Nv12 || picture.format == Nv21 {
        CopySemiPlanar();
      } else {
        CopyPlanar();
      }
      FirstPlane(before, src[..], LumaPlane(picture), ChromaPlanes(picture));
      totalSize := picture.yStride * picture.hStride * Bpp(picture.format) / 8;
    }
  }

  lemma FirstPlane(dst: seq<byte>, src: seq<byte>, l: Plane, ls: seq<Plane>)
    requires FitsIn(l, |dst|, |src|) && AllFit(ls, |dst|, |src|)
    ensures AllFit([l] + ls, |dst|, |src|)
    ensures PutPlanes(dst, src, [l] + ls) == PutPlanes(PutPlane(dst, src, l), src, ls)
  {
    hide PutPlane, FitsIn;
    assert ([l] + ls)[1..] == ls;
  }

  lemma OnePlane(dst: seq<byte>, src: seq<byte>, l: Plane)
    requires FitsIn(l, |dst|, |src|)
    ensures AllFit([l], |dst|, |src|) && PutPlanes(dst, src, [l]) == PutPlane(dst, src, l)
  {
    hide PutPlane, FitsIn;
    assert [l] + [] == [l];
    FirstPlane(dst, src, l, []);
  }

  lemma TwoPlanes(dst: seq<byte>, src: seq<byte>, ls: seq<Plane>)
    requires |ls| == 2 && FitsIn(ls[0], |dst|, |src|) && FitsIn(ls[1], |dst|, |src|)
    ensures AllFit(ls, |dst|, |src|)
    ensures PutPlanes(dst, src, ls) == PutPlane(PutPlane(dst, src, ls[0]), src, ls[1])
  {
    hide PutPlane, FitsIn, PutPlanes;
    var d := PutPlane(dst, src, ls[0]);
    OnePlane(d, src, ls[1]);
    FirstPlane(dst, src, ls[0], [ls[1]]);
    assert ls == [ls[0]] + [ls[1]];
  }

  lemma ChromaFits(p: Picture, n: nat, m: nat)
    requires Copyable(p) && TotalSize(p) <= n && SourceSize(p) <= m
    ensures AllFit(ChromaPlanes(p), n, m)
  {
    PlanesFit(p, n, m);
    hide FitsIn, ChromaPlanes;
    forall l | l in ChromaPlanes(p)
      ensures FitsIn(l, n, m)
    {
      assert l in Planes(p);
    }
  }

  /** n bytes of rows without padding, and part of a row behind them, in one copy. */
  lemma RowsAndPart(dst: seq<byte>, src: seq<byte>, rows: Plane, part: Plane, n: nat)
    requires rows.w == rows.stride && n == rows.h * rows.w && part.w == part.stride && part.h == 1
    requires part.at == rows.at + n && part.from == rows.from + n
    requires FitsIn(rows, |dst|, |src|) && FitsIn(part, |dst|, |src|)
    requires rows.at + n + part.w <= |dst| && rows.from + n + part.w <= |src|
    ensures PutPlane(PutPlane(dst, src, rows), src, part)
            == Splice(dst, rows.at, src[rows.from..rows.from + (n + part.w)])
  {
    RowsInOneCopy(dst, src, rows, n);
    RowsInOneCopy(PutPlane(dst, src, rows), src, part, part.w);
    hide PutPlane, FitsIn, Splice;
    SpliceTwice(dst, rows.at, src, rows.from, n, part.w);
  }

  lemma RowsInOneCopy(dst: seq<byte>, src: seq<byte>, l: Plane, n: nat)
    requires l.w == l.stride && n == l.h * l.w && FitsIn(l, |dst|, |src|)
    requires l.at + n <= |dst| && l.from + n <= |src|
    ensures PutPlane(dst, src, l) == Splice(dst, l.at, src[l.from..l.from + n])
  {
    hide PutRows, Room, Splice;
    OneCopyIsAllRows(dst, l.at, src, l.from, l.w, l.h);
  }

  lemma SpliceTwice(dst: seq<byte>, at: nat, src: seq<byte>, from: nat, n: nat, k: nat)
    requires at + n + k <= |dst| && from + n + k <= |src|
    ensures Splice(Splice(dst, at, src[from..from + n]), at + n, src[from + n..from + n + k])
            == Splice(dst, at, src[from..from + (n + k)])
  {
    var a, b := src[from..from + n], src[from + n..from + n + k];
    assert src[from..from + (n + k)] == a + b;
    assert Splice(dst, at, a)[..at + n] == dst[..at] + a;
  }

  /** Rows without padding, and part of a row behind them if there are two
      planes: n and then total bytes in a row. */
  predicate InARow(ls: seq<Plane>, n: nat, total: nat) {
    && 1 <= |ls| <= 2 && ls[0].w == ls[0].stride && n == ls[0].h * ls[0].w
    && (|ls| == 1 ==> total == n)
    && (|ls| == 2 ==> && ls[1].w == ls[1].stride && ls[1].h == 1 && total == n + ls[1].w
                      && ls[1].at == ls[0].at + n && ls[1].from == ls[0].from + n)
  }

  lemma SemiParts(p: Picture) returns (n: nat, total: nat)
    requires Copyable(p) && p.format in {Nv12, Nv21} && p.yStride == p.width
    ensures InARow(ChromaPlanes(p), n, total) && total == p.width * p.height / 2
    ensures ChromaPlanes(p)[0].at == p.hStride * p.yStride && ChromaPlanes(p)[0].from == p.width * p.height
    ensures p.hStride * p.yStride + total <= TotalSize(p) && p.width * p.height + total <= SourceSize(p)
  {
    ChromaBytes(p);
    n, total := p.height / 2 * p.width, p.width * p.height / 2;
  }

  /** The single copy of the chroma bytes. */
  lemma SemiPlanarBytes(p: Picture, dst: seq<byte>, src: seq<byte>)
    requires Copyable(p) && TotalSize(p) <= |dst| && SourceSize(p) <= |src|
    requires p.format in {Nv12, Nv21} && p.yStride == p.width
    requires AllFit(ChromaPlanes(p), |dst|, |src|)
    ensures var at, from := p.hStride * p.yStride, p.width * p.height;
            && at + from / 2 <= |dst| && from + from / 2 <= |src|
            && PutPlanes(dst, src, ChromaPlanes(p)) == Splice(dst, at, src[from..from + from / 2])
  {
    hide *;
    var n, total := SemiParts(p);
    PlanesInOneCopy(dst, src, ChromaPlanes(p), n, total);
  }

  lemma PlanesInOneCopy(dst: seq<byte>, src: seq<byte>, ls: seq<Plane>, n: nat, total: nat)
    requires InARow(ls, n, total) && AllFit(ls, |dst|, |src|)
    requires ls[0].at + total <= |dst| && ls[0].from + total <= |src|
    ensures PutPlanes(dst, src, ls) == Splice(dst, ls[0].at, src[ls[0].from..ls[0].from + total])
  {
    hide Splice, PutPlanes, PutPlane, FitsIn;
    assert ls[0] in ls;
    if |ls| == 2 {
      assert ls[1] in ls;
      TwoPlanes(dst, src, ls);
      RowsAndPart(dst, src, ls[0], ls[1], n);
    } else {
      assert ls == [ls[0]];
      OnePlane(dst, src, ls[0]);
      RowsInOneCopy(dst, src, ls[0], n);
    }
  }

  /** How many bytes that are. */
  lemma ChromaBytes(p: Picture)
    requires Copyable(p) && p.format in {Nv12, Nv21} && p.yStride == p.width
    ensures var from, half := p.width * p.height, p.height / 2 * p.width;
            && from / 2 == half + (if p.height % 2 == 1 then p.width / 2 else 0)
            && p.hStride * p.yStride + from / 2 <= TotalSize(p) && from + from / 2 <= SourceSize(p)
  {
    var d := p.height / 2;
    HalfOf(d * p.width, p.width);
    Smaller(p.width, p.height, p.width, p.hStride);
    if p.height % 2 == 0 {
      assert p.width * p.height == p.width * (2 * d) == 2 * (d * p.width);
    } else {
      assert p.width * p.height == p.width * (2 * d + 1) == 2 * (d * p.width) + p.width;
    }
    OneAndAHalf(p.width * p.height, p.width * p.height);
    OneAndAHalf(p.width * p.hStride, p.width * p.height);
  }

  lemma OneAndAHalf(x: nat, y: nat)
    requires y <= x
    ensures x + y / 2 <= x * 12 / 8
  {
  }

  /** Half the bytes of a plane are those of half its rows, exactly if there
      is an even number of rows or they are at most one byte wide: the single
      copy of the chroma plane is the row loop only then. */
  lemma HalfOfRows(w: nat, h: nat)
    ensures w * h / 2 == h / 2 * w <==> h % 2 == 0 || w <= 1
  {
    var d := h / 2;
    HalfOf(d * w, w);
    if h % 2 == 0 {
      assert w * h == w * (2 * d) == 2 * (d * w);
    } else {
      assert w * h == w * (2 * d + 1) == 2 * (d * w) + w;
    }
  }

  lemma HalfOf(m: nat, w: nat)
    ensures 2 * m / 2 == m && (2 * m + w) / 2 == m + w / 2
  {
  }

  // ---------- the layout ----------

  /** The first byte behind the rows of a plane. */
  function End(l: Plane): nat {
    l.at + l.h * l.stride
  }

  lemma RowsFit(n: nat, at: nat, stride: nat, w: nat, h: nat)
    requires at + h * stride <= n && w <= stride
    ensures Room(n, at, stride, w, h)
  {
    Steps(h, stride);
  }

  lemma Smaller(a: nat, b: nat, c: nat, d: nat)
    requires a <= c && b <= d
    ensures a * b <= c * d
  {
    MoreRows(a, c, b);
    MoreRows(b, d, c);
  }

  lemma HalfTimes(x: nat, k: nat)
    ensures 2 * (x / 2 * k) <= x * k
  {
    Smaller(x / 2 + x / 2, k, x, k);
  }

  lemma QuarterTimes(x: nat, y: nat)
    ensures 4 * (x / 2 * (y / 2)) <= y * x
  {
    HalfTimes(x, y / 2);
    HalfTimes(y, x);
    assert x * (y / 2) == y / 2 * x;
  }

  lemma LumaBounds(yS: nat, hS: nat, h: nat)
    requires h <= hS
    ensures h * yS <= hS * yS == yS * hS && yS * hS <= yS * hS * 12 / 8
  {
    Smaller(h, yS, hS, yS);
  }

  lemma HalfRowsBounds(yS: nat, hS: nat, h: nat)
    requires h <= hS
    ensures hS * yS + h / 2 * yS <= yS * hS * 12 / 8
  {
    LumaBounds(yS, hS, h);
    HalfTimes(h, yS);
  }

  /** The two planes of half width and height, a being half the luma stride. */
  lemma QuarterPlaneBounds(yS: nat, hS: nat, h: nat, a: nat)
    requires h <= hS && a == yS / 2
    ensures h / 2 * a <= a * hS / 2
    ensures hS * yS + a * hS / 2 + h / 2 * a <= yS * hS * 12 / 8
  {
    LumaBounds(yS, hS, h);
    HalfTimes(yS, hS);
    HalfTimes(h, a);
    Smaller(h, a, hS, a);
    assert a * hS == hS * a;
  }

  lemma QuarterSourceBounds(w: nat, h: nat)
    ensures w * h * 5 / 4 + h / 2 * (w / 2) <= w * h * 12 / 8 && w * h <= w * h * 5 / 4
  {
    QuarterTimes(h, w);
  }

  lemma SemiPlaneFits(p: Picture, l: Plane)
    requires Copyable(p) && p.format in {Nv12, Nv21} && l in Planes(p)
    ensures l.w <= l.stride && End(l) <= TotalSize(p) && l.from + l.h * l.w <= SourceSize(p)
  {
    LumaBounds(p.yStride, p.hStride, p.height);
    LumaBounds(p.width, p.height, p.height);
    HalfRowsBounds(p.yStride, p.hStride, p.height);
    HalfRowsBounds(p.width, p.height, p.height);
    if p.width == p.yStride && p.height % 2 == 1 {
      ChromaBytes(p);
    }
  }

  lemma PlaneFits(p: Picture, l: Plane)
    requires Copyable(p) && l in Planes(p)
    ensures l.w <= l.stride && End(l) <= TotalSize(p) && l.from + l.h * l.w <= SourceSize(p)
  {
    var yS, hS, w, h := p.yStride, p.hStride, p.width, p.height;
    LumaBounds(yS, hS, h);
    LumaBounds(w, h, h);
    match p.format
    case Nv12 => SemiPlaneFits(p, l);
    case Nv21 => SemiPlaneFits(p, l);
    case Yuv420 =>
      QuarterPlaneBounds(yS, hS, h, yS / 2);
      QuarterSourceBounds(w, h);
    case Yuv444Plane =>
  }

  lemma SemiPlanesInOrder(p: Picture)
    requires Copyable(p)
    ensures var l, ls := LumaPlane(p), SemiPlanes(p);
            1 <= |ls| <= 2 && End(l) <= ls[0].at && (|ls| == 2 ==> End(l) <= ls[1].at && End(ls[0]) <= ls[1].at)
  {
    MoreRows(p.height, p.hStride, p.yStride);
  }

  lemma QuarterPlanesInOrder(p: Picture)
    requires Copyable(p) && p.format == Yuv420
    ensures var l, ls := LumaPlane(p), ChromaPlanes(p);
            |ls| == 2 && End(l) <= ls[0].at && End(l) <= ls[1].at && End(ls[0]) <= ls[1].at
  {
    MoreRows(p.height, p.hStride, p.yStride);
    HalfRowsOfHalf(p.hStride, p.height, p.yStride / 2);
  }

  lemma HalfRowsOfHalf(hS: nat, h: nat, a: nat)
    requires h <= hS
    ensures 0 <= h / 2 * a <= a * hS / 2
  {
    HalfTimes(h, a);
    Smaller(h, a, hS, a);
    assert a * hS == hS * a;
  }

  lemma FullPlanesInOrder(p: Picture)
    requires Copyable(p) && p.format == Yuv444Plane
    ensures var l, ls := LumaPlane(p), ChromaPlanes(p);
            |ls| == 2 && End(l) <= ls[0].at && End(l) <= ls[1].at && End(ls[0]) <= ls[1].at
  {
    MoreRows(p.height, p.hStride, p.yStride);
  }

  lemma PlanesInOrder(p: Picture)
    requires Copyable(p)
    ensures forall i: nat, j: nat :: i < j < |Planes(p)| ==> End(Planes(p)[i]) <= Planes(p)[j].at
  {
    match p.format
    case Nv12 => SemiPlanesInOrder(p);
    case Nv21 => SemiPlanesInOrder(p);
    case Yuv420 => QuarterPlanesInOrder(p);
    case Yuv444Plane => FullPlanesInOrder(p);
    hide SemiPlanes, End, LumaPlane;
  }

  /** Planes lie inside the buffer and the source, in order and apart: each
      ends before the next begins, and the last at the size that is returned. */
  lemma PlanesFit(p: Picture, n: nat, m: nat)
    requires Copyable(p) && TotalSize(p) <= n && SourceSize(p) <= m
    ensures AllFit(Planes(p), n, m)
    ensures forall l :: l in Planes(p) ==> l.w <= l.stride && End(l) <= TotalSize(p) && l.from <= m
    ensures forall i: nat, j: nat :: i < j < |Planes(p)| ==> End(Planes(p)[i]) <= Planes(p)[j].at
  {
    PlanesInOrder(p);
    hide Planes, TotalSize, SourceSize, FitsIn, End;
    forall l | l in Planes(p)
      ensures FitsIn(l, n, m) && l.w <= l.stride && End(l) <= TotalSize(p) && l.from <= m
    {
      PlaneFits(p, l);
      PlaneHasRoom(l, n, m);
    }
  }

  lemma PlaneHasRoom(l: Plane, n: nat, m: nat)
    requires l.w <= l.stride && End(l) <= n && l.from + l.h * l.w <= m
    ensures FitsIn(l, n, m) && l.from <= m
  {
    RowsFit(n, l.at, l.stride, l.w, l.h);
    RowsFit(m, l.from, l.w, l.w, l.h);
    Steps(l.h, l.w);
  }

  /** Planes in order and apart, with rows that do not overlap. */
  predicate Apart(ls: seq<Plane>) {
    && (forall l :: l in ls ==> l.w <= l.stride)
    && forall i: nat, j: nat :: i < j < |ls| ==> End(ls[i]) <= ls[j].at
  }

  lemma ApartRest(ls: seq<Plane>)
    requires Apart(ls) && ls != []
    ensures Apart(ls[1..]) && ls[0].w <= ls[0].stride
    ensures forall l :: l in ls[1..] ==> End(ls[0]) <= l.at
  {
    var rest := ls[1..];
    forall i: nat, j: nat | i < j < |rest|
      ensures End(rest[i]) <= rest[j].at
    {
      assert rest[i] == ls[i + 1] && rest[j] == ls[j + 1];
    }
    forall l | l in rest
      ensures End(ls[0]) <= l.at
    {
      var j: nat :| j < |rest| && rest[j] == l;
      assert ls[j + 1] == l;
    }
  }

  predicate IsSample(l: Plane, x: nat) {
    Covered(l.at, l.stride, l.w, l.h, x)
  }

  /** Bytes that are samples of none of the planes stay. */
  lemma {:induction false} OtherBytesOfPicture(dst: seq<byte>, src: seq<byte>, ls: seq<Plane>, x: nat)
    requires AllFit(ls, |dst|, |src|) && x < |dst| && forall l :: l in ls ==> !IsSample(l, x)
    ensures PutPlanes(dst, src, ls)[x] == dst[x]
    decreases |ls|
  {
    hide FitsIn, PutRows, Covered;
    if ls != [] {
      assert ls[0] in ls && !IsSample(ls[0], x);
      KeptByPlane(dst, src, ls[0], x);
      OtherBytesOfPicture(PutPlane(dst, src, ls[0]), src, ls[1..], x);
    }
  }

  lemma KeptByPlane(dst: seq<byte>, src: seq<byte>, l: Plane, x: nat)
    requires FitsIn(l, |dst|, |src|) && x < |dst| && !IsSample(l, x)
    ensures PutPlane(dst, src, l)[x] == dst[x]
  {
    OtherBytesStay(dst, l.at, l.stride, src, l.from, l.w, l.h, x);
  }

  /** A sample lies inside its plane, and so outside all planes behind it. */
  lemma SampleInPlane(l: Plane, r: nat, c: nat)
    requires r < l.h && c < l.w <= l.stride
    ensures l.at <= Place(l.at, l.stride, r, c) < End(l)
  {
    MoreRows(r, l.h - 1, l.stride);
    Steps(l.h, l.stride);
  }

  lemma {:induction false} NotBelow(at: nat, stride: nat, w: nat, h: nat, x: nat)
    requires x < at
    ensures !Covered(at, stride, w, h, x)
    decreases h
  {
    if h > 0 {
      NotBelow(at + stride, stride, w, h - 1, x);
    }
  }

  /** Every sample of every plane lies at its row and column. */
  lemma {:induction false} SamplesOfPicture(dst: seq<byte>, src: seq<byte>, ls: seq<Plane>, k: nat, r: nat, c: nat)
    requires AllFit(ls, |dst|, |src|) && Apart(ls) && k < |ls| && r < ls[k].h && c < ls[k].w
    ensures Place(ls[k].at, ls[k].stride, r, c) < |dst| && Place(ls[k].from, ls[k].w, r, c) < |src|
    ensures PutPlanes(dst, src, ls)[Place(ls[k].at, ls[k].stride, r, c)] == src[Place(ls[k].from, ls[k].w, r, c)]
    decreases |ls|
  {
    hide PutRows, Covered, Place, Room, Apart;
    ApartRest(ls);
    var l, rest := ls[0], ls[1..];
    assert l in ls && FitsIn(l, |dst|, |src|);
    if k == 0 {
      SamplesLieInPlace(dst, l.at, l.stride, src, l.from, l.w, l.h, r, c);
      SampleInPlane(l, r, c);
      var x := Place(l.at, l.stride, r, c);
      forall m | m in rest
        ensures !IsSample(m, x)
      {
        NotBelow(m.at, m.stride, m.w, m.h, x);
      }
      OtherBytesOfPicture(PutPlane(dst, src, l), src, rest, x);
    } else {
      assert rest[k - 1] == ls[k];
      SamplesOfPicture(PutPlane(dst, src, l), src, rest, k - 1, r, c);
    }
  }

  /** The layout that copy_to_local makes of a picture: samples in their places
      inside the returned size, nothing else touched. */
  lemma PictureLayout(p: Picture, dst: seq<byte>, src: seq<byte>)
    requires Copyable(p) && TotalSize(p) <= |dst| && SourceSize(p) <= |src|
    ensures AllFit(Planes(p), |dst|, |src|)
    ensures forall k: nat, r: nat, c: nat :: k < |Planes(p)| && r < Planes(p)[k].h && c < Planes(p)[k].w ==>
              var l := Planes(p)[k];
              && Place(l.at, l.stride, r, c) < TotalSize(p) && Place(l.from, l.w, r, c) < |src|
              && PutPlanes(dst, src, Planes(p))[Place(l.at, l.stride, r, c)] == src[Place(l.from, l.w, r, c)]
    ensures forall x: nat :: x < |dst| && (forall l :: l in Planes(p) ==> !IsSample(l, x)) ==>
              PutPlanes(dst, src, Planes(p))[x] == dst[x]
  {
    PlanesFit(p, |dst|, |src|);
    var ls := Planes(p);
    assert Apart(ls);
    hide PutPlanes, Planes, IsSample, FitsIn, Place, TotalSize, SourceSize, Copyable, Apart;
    forall k: nat, r: nat, c: nat | k < |ls| && r < ls[k].h && c < ls[k].w
      ensures Place(ls[k].at, ls[k].stride, r, c) < TotalSize(p) && Place(ls[k].from, ls[k].w, r, c) < |src|
      ensures PutPlanes(dst, src, ls)[Place(ls[k].at, ls[k].stride, r, c)] == src[Place(ls[k].from, ls[k].w, r, c)]
    {
      assert ls[k] in ls;
      SamplesOfPicture(dst, src, ls, k, r, c);
      SampleInPlane(ls[k], r, c);
    }
    forall x: nat | x < |dst| && forall l :: l in ls ==> !IsSample(l, x)
      ensures PutPlanes(dst, src, ls)[x] == dst[x]
    {
      OtherBytesOfPicture(dst, src, ls, x);
    }
  }

  /** A plane of the list is in place. */
  lemma PlaneIsPlaced(dst: seq<byte>, src: seq<byte>, ls: seq<Plane>, k: nat)
    requires AllFit(ls, |dst|, |src|) && Apart(ls) && k < |ls|
    ensures var l := ls[k]; Placed(PutPlanes(dst, src, ls), l.at, l.stride, src, l.from, l.w, l.h)
  {
    hide PutPlanes, Apart, FitsIn;
    var l := ls[k];
    forall r: nat, c: nat | r < l.h && c < l.w
      ensures SampleIsAt(PutPlanes(dst, src, ls), l.at, l.stride, src, l.from, l.w, r, c)
    {
      SamplesOfPicture(dst, src, ls, k, r, c);
    }
  }

  /** The planes of a picture, in numbers. */
  lemma PlanesInNumbers(p: Picture, dst: seq<byte>, src: seq<byte>)
    requires forall k: nat :: k < |Planes(p)| ==>
               var l := Planes(p)[k]; Placed(dst, l.at, l.stride, src, l.from, l.w, l.h)
    ensures LaidOut(p, dst, src)
  {
    hide Placed;
    var ls := Planes(p);
    assert ls[0] == Plane(0, p.yStride, 0, p.width, p.height);
    assert |ls| >= 2 && ls[1] == ChromaPlanes(p)[0];
    if |ls| == 3 {
      assert ls[2] == ChromaPlanes(p)[1];
    }
  }

  lemma SamplesInNumbers(p: Picture, x: nat)
    requires !HoldsSample(p, x)
    ensures forall l :: l in Planes(p) ==> !IsSample(l, x)
  {
    hide Covered;
    forall l | l in Planes(p)
      ensures !IsSample(l, x)
    {
      CoveredMeans(l.at, l.stride, l.w, l.h, x);
    }
  }

  /** What copy_to_local leaves in the buffer: every sample in its place, and
      all other bytes as they were. */
  lemma LayoutInNumbers(p: Picture, dst: seq<byte>, src: seq<byte>)
    requires Copyable(p) && TotalSize(p) <= |dst| && SourceSize(p) <= |src|
    ensures AllFit(Planes(p), |dst|, |src|)
    ensures LaidOut(p, PutPlanes(dst, src, Planes(p)), src)
    ensures forall x: nat :: x < |dst| && !HoldsSample(p, x) ==> PutPlanes(dst, src, Planes(p))[x] == dst[x]
  {
    PlanesFit(p, |dst|, |src|);
    var ls := Planes(p);
    assert Apart(ls);
    hide PutPlanes, Planes, IsSample, FitsIn, TotalSize, SourceSize, Copyable, Apart, LaidOut, HoldsSample, Placed;
    forall k: nat | k < |ls|
      ensures var l := ls[k]; Placed(PutPlanes(dst, src, ls), l.at, l.stride, src, l.from, l.w, l.h)
    {
      PlaneIsPlaced(dst, src, ls, k);
    }
    PlanesInNumbers(p, PutPlanes(dst, src, ls), src);
    forall x: nat | x < |dst| && !HoldsSample(p, x)
      ensures PutPlanes(dst, src, ls)[x] == dst[x]
    {
      SamplesInNumbers(p, x);
      OtherBytesOfPicture(dst, src, ls, x);
    }
  }

  // ---------- packed pictures ----------

  /** n rounded up to a multiple of 32. */
  function Align32(n: nat): (r: nat)
    ensures n <= r < n + 32 && r % 32 == 0
  {
    (n + 31) / 32 * 32
  }

  /** RGB24_To_RGB24Canvas with 3 bytes per pixel, and YUV422_To_Canvas with 2. */
  method PackedToCanvas(src: array<byte>, dst: array<byte>, width: nat, height: nat, pixel: nat) returns (size: nat)
    requires src != dst
    requires Room(dst.Length, 0, Align32(width * pixel), width * pixel, height)
    requires Room(src.Length, 0, width * pixel, width * pixel, height)
    modifies dst
    ensures dst[..] == PutRows(old(dst[..]), 0, Align32(width * pixel), src[..], 0, width * pixel, height)
    ensures size == Align32(width * pixel) * height
  {
    hide Room, PutRows;
    var bytesPerLine := width * pixel;
    var canvas := Align32(bytesPerLine);
    CopyPlane(dst, 0, canvas, src, 0, bytesPerLine, height, height * bytesPerLine);
    size := canvas * height;
  }

  /** The first three bytes of every pixel of four. */
  function Packed(s: seq<byte>): (r: seq<byte>)
    ensures |r| == |s| / 4 * 3
  {
    if |s| < 4 then [] else [s[0], s[1], s[2]] + Packed(s[4..])
  }

  /** Byte j of pixel k. */
  lemma {:induction false} PackedAt(s: seq<byte>, k: nat, j: nat)
    requires 4 * k + 4 <= |s| && j < 3
    ensures 3 * k + j < |Packed(s)| && Packed(s)[3 * k + j] == s[4 * k + j]
    decreases k
  {
    if k > 0 {
      PackedAt(s[4..], k - 1, j);
    }
  }

  lemma {:induction false} PackedAppend(s: seq<byte>, t: seq<byte>)
    requires |s| % 4 == 0
    ensures Packed(s + t) == Packed(s) + Packed(t)
  {
    if s == [] {
      assert s + t == t;
    } else {
      var u := s + t;
      assert u[4..] == s[4..] + t && u[0] == s[0] && u[1] == s[1] && u[2] == s[2];
      PackedAppend(s[4..], t);
      var head := [s[0], s[1], s[2]];
      assert head + (Packed(s[4..]) + Packed(t)) == (head + Packed(s[4..])) + Packed(t);
    }
  }

  /** One turn of rgb32to24. */
  method StorePixel(src: array<byte>, from: nat, dst: array<byte>, ghost before: seq<byte>, at: nat, ghost done: seq<byte>, to: nat)
    requires src != dst && from + 4 <= src.Length && to == at + |done| && to + 3 <= dst.Length == |before|
    requires dst[..] == Splice(before, at, done)
    modifies dst
    ensures dst[..] == Splice(before, at, done + [src[from], src[from + 1], src[from + 2]])
  {
    hide Splice;
    OnePixel(before, at, done, src[from], src[from + 1], src[from + 2]);
    dst[to] := src[from];
    dst[to + 1] := src[from + 1];
    dst[to + 2] := src[from + 2];
  }

  /** rgb32to24 on size bytes. */
  method Rgb32To24(src: array<byte>, from: nat, dst: array<byte>, at: nat, size: nat)
    requires src != dst && from + size <= src.Length && at + size / 4 * 3 <= dst.Length
    modifies dst
    ensures dst[..] == Splice(old(dst[..]), at, Packed(src[from..from + size]))
  {
    hide Splice, Packed;
    var pixels := size / 4;
    ghost var s := src[..];
    SpliceNothing(dst[..], at);
    NoPixels(s[from..from + 0]);
    for i := 0 to pixels
      invariant dst[..] == Splice(old(dst[..]), at, Packed(s[from..from + 4 * i]))
    {
      NextPixel(s, from, i);
      StorePixel(src, from + 4 * i, dst, old(dst[..]), at, Packed(s[from..from + 4 * i]), at + 3 * i);
    }
    assert src[..] == s;
    AllPixels(s, from, size);
  }

  lemma AllPixels(s: seq<byte>, from: nat, size: nat)
    requires from + size <= |s|
    ensures Packed(s[from..from + 4 * (size / 4)]) == Packed(s[from..from + size])
  {
    hide Packed;
    var all, n := s[from..from + size], 4 * (size / 4);
    LastBytes(all, n);
    assert all[..n] == s[from..from + n];
  }

  lemma NoPixels(s: seq<byte>)
    requires |s| < 4
    ensures Packed(s) == []
  {
  }

  lemma NextPixel(s: seq<byte>, from: nat, i: nat)
    requires from + 4 * (i + 1) <= |s|
    ensures var k := from + 4 * i;
            Packed(s[from..from + 4 * (i + 1)]) == Packed(s[from..k]) + [s[k], s[k + 1], s[k + 2]]
  {
    hide Packed;
    var k := from + 4 * i;
    var pixel := s[k..k + 4];
    assert s[from..k + 4] == s[from..k] + pixel;
    PackedAppend(s[from..k], pixel);
    PackedPixel(pixel);
  }

  lemma PackedPixel(pixel: seq<byte>)
    requires |pixel| == 4
    ensures Packed(pixel) == [pixel[0], pixel[1], pixel[2]]
  {
    assert pixel[4..] == [];
  }

  lemma OnePixel(dst: seq<byte>, at: nat, done: seq<byte>, x: byte, y: byte, z: byte)
    requires at + |done| + 3 <= |dst|
    ensures var k := at + |done|;
            Splice(dst, at, done)[k := x][k + 1 := y][k + 2 := z] == Splice(dst, at, done + [x, y, z])
  {
  }

  lemma LastBytes(s: seq<byte>, n: nat)
    requires n % 4 == 0 && n <= |s| < n + 4
    ensures Packed(s) == Packed(s[..n])
  {
    hide Packed;
    PackedAppend(s[..n], s[n..]);
    NoPixels(s[n..]);
    assert s == s[..n] + s[n..];
    assert Packed(s[..n]) + [] == Packed(s[..n]);
  }

  /** RGBA32_To_RGB24Canvas: what comes out is what RGB24_To_RGB24Canvas makes
      of the picture without its fourth bytes. */
  method RgbaToCanvas(src: array<byte>, dst: array<byte>, width: nat, height: nat) returns (size: nat)
    requires src != dst && height * (width * 4) <= src.Length
    requires Room(dst.Length, 0, Align32(width * 3), width * 3, height)
    modifies dst
    ensures Room(|Packed(src[..])|, 0, width * 3, width * 3, height)
    ensures dst[..] == PutRows(old(dst[..]), 0, Align32(width * 3), Packed(src[..]), 0, width * 3, height)
    ensures size == Align32(width * 3) * height
  {
    hide Splice, PutRows, Packed;
    var bytesPerLine := width * 4;
    var canvas := Align32(width * 3);
    PackedRoom(src.Length, width, height);
    if canvas != width * 3 {
      RgbaRows(src, dst, canvas, width, height);
    } else {
      PackedPart(src[..], 0, width, height);
      Steps(height, width * 3);
      OneCopyIsAllRows(dst[..], 0, Packed(src[..]), 0, width * 3, height);
      assert src[..][0..0 + height * bytesPerLine] == src[0..0 + bytesPerLine * height];
      Rgb32To24(src, 0, dst, 0, bytesPerLine * height);
    }
    size := canvas * height;
  }

  lemma PackedRoom(n: nat, width: nat, height: nat)
    requires height * (width * 4) <= n
    ensures height * (width * 3) <= n / 4 * 3 && Room(n / 4 * 3, 0, width * 3, width * 3, height)
    ensures height * (width * 4) / 4 * 3 == height * (width * 3)
  {
    var area := height * width;
    assert height * (width * 4) == 4 * area && height * (width * 3) == 3 * area;
    RowsFit(n / 4 * 3, 0, width * 3, width * 3, height);
  }

  lemma RowBytes(row: nat, width: nat, h: nat)
    ensures row * (width * 4) == 4 * (row * width) && row * (width * 3) == 3 * (row * width)
    ensures (row + h) * (width * 4) == row * (width * 4) + h * (width * 4)
  {
  }

  /** h rows of the packed picture come from h rows of the picture. */
  lemma PackedPart(s: seq<byte>, row: nat, width: nat, h: nat)
    requires (row + h) * (width * 4) <= |s|
    ensures row * (width * 4) + h * (width * 4) <= |s| && row * (width * 3) + h * (width * 3) <= |Packed(s)|
    ensures Packed(s)[row * (width * 3)..row * (width * 3) + h * (width * 3)]
            == Packed(s[row * (width * 4)..row * (width * 4) + h * (width * 4)])
  {
    hide Packed;
    var a, b := row * width, h * width;
    RowBytes(row, width, h);
    RowBytes(h, width, 0);
    FourToThree(a);
    FourToThree(b);
    PackedSlice(s, 4 * a, 4 * b);
  }

  lemma FourToThree(a: nat)
    ensures 4 * a / 4 * 3 == 3 * a && 4 * a % 4 == 0
  {
  }

  lemma PackedSlice(s: seq<byte>, i: nat, n: nat)
    requires i % 4 == 0 && n % 4 == 0 && i + n <= |s|
    ensures i / 4 * 3 + n / 4 * 3 <= |Packed(s)|
    ensures Packed(s)[i / 4 * 3..i / 4 * 3 + n / 4 * 3] == Packed(s[i..i + n])
  {
    hide Packed;
    var head, part, tail := s[..i], s[i..i + n], s[i + n..];
    assert s == head + (part + tail);
    PackedAppend(head, part + tail);
    PackedAppend(part, tail);
    Middle(Packed(head), Packed(part), Packed(tail));
  }

  lemma Middle(head: seq<byte>, part: seq<byte>, tail: seq<byte>)
    ensures (head + (part + tail))[|head|..|head| + |part|] == part
  {
  }

  method RgbaRows(src: array<byte>, dst: array<byte>, canvas: nat, width: nat, height: nat)
    requires src != dst && height * (width * 4) <= src.Length && width * 3 <= canvas
    requires Room(dst.Length, 0, canvas, width * 3, height)
    requires Room(|Packed(src[..])|, 0, width * 3, width * 3, height)
    modifies dst
    ensures dst[..] == PutRows(old(dst[..]), 0, canvas, Packed(src[..]), 0, width * 3, height)
  {
    hide Room, Splice, Packed;
    ghost var s := Packed(src[..]);
    var to: nat, of: nat := 0, 0;
    ghost var packed: nat := 0;
    for i := 0 to height
      invariant of == i * (width * 4) && packed == i * (width * 3)
      invariant Room(dst.Length, to, canvas, width * 3, height - i) && Room(|s|, packed, width * 3, width * 3, height - i)
      invariant PutRows(old(dst[..]), 0, canvas, s, 0, width * 3, height)
                == PutRows(dst[..], to, canvas, s, packed, width * 3, height - i)
    {
      RoomOfRest(dst.Length, to, canvas, width * 3, height - i);
      RoomOfRest(|s|, packed, width * 3, width * 3, height - i);
      OneRow(src[..], i, width, height);
      assert src[..][of..of + width * 4] == src[of..of + width * 4];
      Rgb32To24(src, of, dst, to, width * 4);
      Steps(i + 1, width * 4);
      Steps(i + 1, width * 3);
      to, of, packed := to + canvas, of + width * 4, packed + width * 3;
    }
  }

  lemma OneRow(s: seq<byte>, i: nat, width: nat, height: nat)
    requires i < height && height * (width * 4) <= |s|
    ensures var a, b := i * (width * 4), i * (width * 3);
            && a + width * 4 <= |s| && b + width * 3 <= |Packed(s)|
            && Packed(s)[b..b + width * 3] == Packed(s[a..a + width * 4])
  {
    hide Packed;
    RowFits(|s|, i, width, height);
    FourToThree(i * width);
    FourToThree(width);
    PackedSlice(s, i * (width * 4), width * 4);
  }

  lemma RowFits(n: nat, i: nat, width: nat, height: nat)
    requires i < height && height * (width * 4) <= n
    ensures i * (width * 4) + width * 4 <= n
    ensures i * (width * 4) == 4 * (i * width) && i * (width * 3) == 3 * (i * width)
  {
    MoreRows(i + 1, height, width * 4);
    Steps(i + 1, width * 4);
    RowBytes(i, width, 0);
  }
}
