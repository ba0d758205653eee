/** What vl_multi_encoder_adjust_h264_sps assigns in a sequence parameter set. */
module SpsEdit {
  import opened CArithmetic
  import opened Bits
  import opened ExpGolomb
  import opened Syntax
  import opened ScalingLists
  import opened VuiParameters
  import opened SequenceParameterSet

  datatype GopPreset =
    | NoPreset | AllIntra | Ip | Ibbbp | Svc1 | Svc2 | Svc3 | Svc4 | CustomP | CustomPRefOne | Svc5

  datatype VuiInfo = VuiInfo(present: bool, fullRange: bool, primaries: byte, transfer: byte, matrix: byte)

  /** The fields of the encoder handle that the rewriter looks at. level 0 is AVC_LEVEL_AUTO. */
  datatype Params = Params(
    idrPeriod: int,
    preset: GopPreset,
    level: nat,
    width: int,
    height: int,
    cropEnable: bool,
    cropLeft: int,
    cropTop: int,
    cropRight: int,
    cropBottom: int,
    vui: VuiInfo)

  // ---------- what is edited ----------

  predicate LowDelay(h: Params) {
    h.idrPeriod != 1 && h.preset in {NoPreset, Ip, Svc5}
  }

  predicate NeedsEdit(h: Params) {
    h.vui.present || LowDelay(h)
  }

  /** bitstream_restriction of a stream that never reorders frames. */
  const NO_REORDERING: FieldGroup := FieldGroup(true, [1, 0, 0, 16, 16, 0, 2])

  predicate NamesColours(v: VuiInfo) {
    v.primaries != 0 && v.transfer != 0 && v.matrix != 0
  }

  function EditedSignal(v: VuiInfo, s: VideoSignal): VideoSignal {
    VideoSignal(true, s.format, v.fullRange,
                if NamesColours(v) then FieldGroup(true, [v.primaries as int, v.transfer as int, v.matrix as int]) else s.colour)
  }

  function EditedVui(h: Params, v: Vui): Vui {
    v.(restriction := if LowDelay(h) then NO_REORDERING else v.restriction,
       signal := if h.vui.present then EditedSignal(h.vui, v.signal) else v.signal)
  }

  /** The coded size in luma samples, as the rewriter computes it. */
  function CodedWidth(c: Picture): int {
    16 * (c.widthInMbsMinus1 + 1)
  }

  function CodedHeight(c: Picture): int {
    16 * (c.heightInMapUnitsMinus1 + 1)
  }

  predicate Cropped(h: Params, c: Picture) {
    h.cropEnable || CodedWidth(c) != h.width || CodedHeight(c) != h.height
  }

  /** The new left, right, top and bottom offsets. */
  function CropOffsets(h: Params, c: Picture): (r: seq<int>)
    ensures |r| == 4
  {
    var explicit := h.cropRight != 0 || h.cropBottom != 0;
    [TruncDiv(h.cropLeft, 2),
     if explicit then TruncDiv(h.width - h.cropRight, 2) else TruncDiv(CodedWidth(c) - h.width, 2),
     TruncDiv(h.cropTop, 2),
     if explicit then TruncDiv(h.height - h.cropBottom, 2) else TruncDiv(CodedHeight(c) - h.height, 2)]
  }

  function EditedCropping(h: Params, c: Picture, cropping: FieldGroup): FieldGroup {
    if cropping.present || Cropped(h, c) then FieldGroup(true, CropOffsets(h, c)) else cropping
  }

  /** The parameter set with the level, cropping and VUI fields assigned. */
  function Edit(h: Params, s: Sps): (r: Sps) {
    Sps(s.header.(levelIdc := if h.level != 0 then h.level else s.header.levelIdc),
        s.chroma, s.poc, s.picture,
        EditedCropping(h, s.picture, s.cropping),
        s.vuiPresent || NeedsEdit(h),
        EditedVui(h, s.vui))
  }

  /** The assignments to the video signal type. */
  method EditSignal(info: VuiInfo, signal: VideoSignal) returns (s: VideoSignal)
    ensures s == EditedSignal(info, signal)
  {
    s := signal.(fullRange := info.fullRange);
    s := s.(present := true);
    if info.primaries != 0 && info.transfer != 0 && info.matrix != 0 {
      s := s.(colour := FieldGroup(true, [info.primaries as int, info.transfer as int, info.matrix as int]));
    }
  }

  /** The assignments to the VUI fields. */
  method EditVui(h: Params, vuiPresent: bool, vui: Vui) returns (present: bool, v: Vui)
    ensures present == (vuiPresent || NeedsEdit(h)) && v == EditedVui(h, vui)
  {
    hide EditedSignal;
    present, v := vuiPresent, vui;
    if h.idrPeriod != 1 && (h.preset == NoPreset || h.preset == Ip || h.preset == Svc5) {
      present, v := true, v.(restriction := NO_REORDERING);
    }
    if h.vui.present {
      var signal := EditSignal(h.vui, v.signal);
      present, v := true, v.(signal := signal);
    }
  }

  /** The assignments to the cropping fields. */
  method EditCropping(h: Params, pic: Picture, cropping: FieldGroup) returns (c: FieldGroup)
    ensures c == EditedCropping(h, pic, cropping)
  {
    hide TruncDiv;
    c := cropping;
    if h.cropEnable || (pic.widthInMbsMinus1 + 1) * 16 != h.width || (pic.heightInMapUnitsMinus1 + 1) * 16 != h.height {
      c := c.(present := true);
    }
    if c.present {
      var top, left := TruncDiv(h.cropTop, 2), TruncDiv(h.cropLeft, 2);
      var right, bottom;
      if h.cropRight != 0 || h.cropBottom != 0 {
        right, bottom := TruncDiv(h.width - h.cropRight, 2), TruncDiv(h.height - h.cropBottom, 2);
      } else {
        right := TruncDiv((pic.widthInMbsMinus1 + 1) * 16 - h.width, 2);
        bottom := TruncDiv((pic.heightInMapUnitsMinus1 + 1) * 16 - h.height, 2);
      }
      c := c.(values := [left, right, top, bottom]);
    }
  }

  /** The assignments of vl_multi_encoder_adjust_h264_sps, in order. */
  method EditSps(h: Params, sps: Sps) returns (s: Sps)
    ensures s == Edit(h, sps) && Assigned(h, sps, s)
  {
    EditAssigns(h, sps, Edit(h, sps));
    hide EditedVui, EditedCropping, Assigned;
    var present, vui := EditVui(h, sps.vuiPresent, sps.vui);
    s := sps.(vuiPresent := present, vui := vui);
    if h.level != 0 {
      s := s.(header := s.header.(levelIdc := h.level));
    }
    var cropping := EditCropping(h, s.picture, s.cropping);
    s := s.(cropping := cropping);
  }

  // ---------- what is assigned ----------

  /** q is half of d, rounded toward zero. */
  predicate IsHalf(q: int, d: int) {
    if d >= 0 then 2 * q <= d <= 2 * q + 1 else 2 * q - 1 <= d <= 2 * q
  }

  /** The level: AVC_LEVEL_AUTO, which is 0, keeps the old one. */
  predicate LevelAssigned(h: Params, s: Sps, r: Sps) {
    && r.header == s.header.(levelIdc := r.header.levelIdc)
    && r.header.levelIdc == if h.level == 0 then s.header.levelIdc else h.level
  }

  /** Cropping is on if it was, is asked for, or the picture is not the coded
      one. The crop values count from the left and from the top; the right and
      bottom offsets are what the coded size has more than the picture, or are
      measured from crop_right and crop_bottom. */
  predicate CroppingAssigned(h: Params, s: Sps, r: Sps) {
    var moreWidth := 16 * s.picture.widthInMbsMinus1 + 16 - h.width;
    var moreHeight := 16 * s.picture.heightInMapUnitsMinus1 + 16 - h.height;
    if s.cropping.present || h.cropEnable || moreWidth != 0 || moreHeight != 0 then
      && r.cropping.present && |r.cropping.values| == 4
      && IsHalf(r.cropping.values[0], h.cropLeft)
      && IsHalf(r.cropping.values[2], h.cropTop)
      && (if h.cropRight == 0 && h.cropBottom == 0 then
            IsHalf(r.cropping.values[1], moreWidth) && IsHalf(r.cropping.values[3], moreHeight)
          else
            && IsHalf(r.cropping.values[1], h.width - h.cropRight)
            && IsHalf(r.cropping.values[3], h.height - h.cropBottom))
    else
      r.cropping == s.cropping
  }

  /** bitstream_restriction, field by field: motion vectors may point outside,
      no limits of bytes and bits, vectors of up to 2^16 quarter samples, no
      reordering, two frames of buffering. */
  predicate RestrictionAssigned(h: Params, s: Sps, r: Sps) {
    if h.idrPeriod != 1 && (h.preset == NoPreset || h.preset == Ip || h.preset == Svc5) then
      && r.vui.restriction.present && |r.vui.restriction.values| == 7
      && r.vui.restriction.values[0] == 1
      && r.vui.restriction.values[1] == 0 && r.vui.restriction.values[2] == 0
      && r.vui.restriction.values[3] == 16 && r.vui.restriction.values[4] == 16
      && r.vui.restriction.values[5] == 0 && r.vui.restriction.values[6] == 2
    else
      r.vui.restriction == s.vui.restriction
  }

  /** The video signal type: the range always, the three colour codes only when
      none of them is 0. */
  predicate SignalAssigned(h: Params, s: Sps, r: Sps) {
    if h.vui.present then
      && r.vui.signal.present && r.vui.signal.format == s.vui.signal.format
      && r.vui.signal.fullRange == h.vui.fullRange
      && (if h.vui.primaries != 0 && h.vui.transfer != 0 && h.vui.matrix != 0 then
            && r.vui.signal.colour.present && |r.vui.signal.colour.values| == 3
            && r.vui.signal.colour.values[0] == h.vui.primaries as int
            && r.vui.signal.colour.values[1] == h.vui.transfer as int
            && r.vui.signal.colour.values[2] == h.vui.matrix as int
          else
            r.vui.signal.colour == s.vui.signal.colour)
    else
      r.vui.signal == s.vui.signal
  }

  /** All fields of the edited record r of s. */
  predicate Assigned(h: Params, s: Sps, r: Sps) {
    && LevelAssigned(h, s, r) && CroppingAssigned(h, s, r) && RestrictionAssigned(h, s, r) && SignalAssigned(h, s, r)
    && r.chroma == s.chroma && r.poc == s.poc && r.picture == s.picture
    && (r.vuiPresent <==> s.vuiPresent || h.vui.present
                          || (h.idrPeriod != 1 && (h.preset == NoPreset || h.preset == Ip || h.preset == Svc5)))
    && r.vui == s.vui.(restriction := r.vui.restriction, signal := r.vui.signal)
  }

  lemma HalfIsExact(q: int, d: int)
    ensures IsHalf(q, d) <==> q == TruncDiv(d, 2)
  {
  }

  lemma FourValues(vs: seq<int>, a: int, b: int, c: int, d: int)
    requires |vs| == 4 && vs[0] == a && vs[1] == b && vs[2] == c && vs[3] == d
    ensures vs == [a, b, c, d]
  {
  }

  lemma CroppingExactly(h: Params, s: Sps, r: Sps)
    ensures CroppingAssigned(h, s, r) <==> r.cropping == EditedCropping(h, s.picture, s.cropping)
  {
    hide TruncDiv, IsHalf;
    forall q: int, d: int
      ensures IsHalf(q, d) <==> q == TruncDiv(d, 2)
    {
      HalfIsExact(q, d);
    }
    var vs := CropOffsets(h, s.picture);
    if |r.cropping.values| == 4 && r.cropping.values[0] == vs[0] && r.cropping.values[1] == vs[1]
       && r.cropping.values[2] == vs[2] && r.cropping.values[3] == vs[3] {
      FourValues(r.cropping.values, vs[0], vs[1], vs[2], vs[3]);
    }
  }

  lemma VuiExactly(h: Params, s: Sps, r: Sps)
    ensures RestrictionAssigned(h, s, r) <==> r.vui.restriction == EditedVui(h, s.vui).restriction
    ensures SignalAssigned(h, s, r) <==> r.vui.signal == EditedVui(h, s.vui).signal
  {
    var c, t := r.vui.signal.colour, r.vui.restriction;
    if |c.values| == 3 {
      assert c.values == [c.values[0], c.values[1], c.values[2]];
    }
    if |t.values| == 7 {
      assert t.values == [t.values[0], t.values[1], t.values[2], t.values[3], t.values[4], t.values[5], t.values[6]];
    }
  }

  /** The edited record is the one and only record with these fields. */
  lemma EditAssigns(h: Params, s: Sps, r: Sps)
    ensures Assigned(h, s, r) <==> r == Edit(h, s)
  {
    CroppingExactly(h, s, r);
    VuiExactly(h, s, r);
    hide CroppingAssigned, RestrictionAssigned, SignalAssigned, EditedCropping;
    EditedVuiKeeps(h, s.vui);
    hide EditedVui;
  }

  lemma EditedVuiKeeps(h: Params, v: Vui)
    ensures var r := EditedVui(h, v); r == v.(restriction := r.restriction, signal := r.signal)
  {
  }

  /** Without crop values the picture that is shown has the size of the handle,
      if that is even in both directions. */
  lemma ShownSize(h: Params, s: Sps, r: Sps)
    requires Assigned(h, s, r) && r.cropping.present && |r.cropping.values| == 4
    requires h.cropLeft == 0 && h.cropTop == 0 && h.cropRight == 0 && h.cropBottom == 0
    requires h.width % 2 == 0 && h.height % 2 == 0
    ensures 16 * (r.picture.widthInMbsMinus1 + 1) - 2 * (r.cropping.values[0] + r.cropping.values[1]) == h.width
    ensures 16 * (r.picture.heightInMapUnitsMinus1 + 1) - 2 * (r.cropping.values[2] + r.cropping.values[3]) == h.height
  {
    hide LevelAssigned, RestrictionAssigned, SignalAssigned, IsHalf, EditedVui;
    var c := s.picture;
    if s.cropping.present || Cropped(h, c) {
      ShownDimension(r.cropping.values[0], r.cropping.values[1], c.widthInMbsMinus1, h.width);
      ShownDimension(r.cropping.values[2], r.cropping.values[3], c.heightInMapUnitsMinus1, h.height);
    }
  }

  lemma ShownDimension(near: int, far: int, units: int, size: int)
    requires IsHalf(near, 0) && IsHalf(far, 16 * units + 16 - size) && size % 2 == 0
    ensures 16 * (units + 1) - 2 * (near + far) == size
  {
    hide IsHalf;
    var half := size / 2;
    assert size == 2 * half;
    assert 16 * units + 16 - size == 2 * (8 * units + 8 - half);
    HalfOfEven(far, 8 * units + 8 - half);
    HalfOfEven(near, 0);
  }

  lemma HalfOfEven(q: int, e: int)
    requires IsHalf(q, 2 * e)
    ensures q == e
  {
  }

  // ---------- what the edit keeps ----------

  /** Nothing but the level, the cropping and the two VUI parts is touched, the
      restriction and the signal only when the handle asks for them. */
  lemma EditTouchesOnly(h: Params, s: Sps)
    ensures var r := Edit(h, s);
            && s == r.(header := r.header.(levelIdc := s.header.levelIdc), cropping := s.cropping,
                       vuiPresent := s.vuiPresent,
                       vui := r.vui.(restriction := s.vui.restriction, signal := s.vui.signal))
            && (h.level == 0 ==> r.header == s.header)
            && (!Cropped(h, s.picture) && !s.cropping.present ==> r.cropping == s.cropping)
            && (!h.vui.present ==> r.vui.signal == s.vui.signal)
            && (!LowDelay(h) ==> r.vui.restriction == s.vui.restriction)
            && (!h.vui.present && !LowDelay(h) ==> r.vuiPresent == s.vuiPresent && r.vui == s.vui)
  {
    hide CropOffsets, EditedSignal, CodedWidth, CodedHeight;
  }

  lemma EditIsIdempotent(h: Params, s: Sps)
    ensures Edit(h, Edit(h, s)) == Edit(h, s)
  {
    hide CropOffsets, CodedWidth, CodedHeight, Cropped;
    VuiEditIsIdempotent(h, s.vui);
    hide EditedVui;
  }

  lemma VuiEditIsIdempotent(h: Params, v: Vui)
    ensures EditedVui(h, EditedVui(h, v)) == EditedVui(h, v)
  {
  }

  lemma EditKeepsWellFormed(h: Params, s: Sps)
    requires WellFormed(s)
    ensures WellFormed(Edit(h, s))
  {
    hide CanonicalVui, CropOffsets, Cropped;
    VuiEditKeepsCanonical(h, s.vui);
  }

  /** The edit fills absent fields only together with their flags. */
  lemma EditKeepsCanonical(h: Params, s: Sps)
    requires Canonical(s)
    ensures Canonical(Edit(h, s))
  {
    hide CanonicalChroma, CanonicalPoc, CropOffsets, Cropped, CanonicalVui;
    VuiEditKeepsCanonical(h, s.vui);
  }

  lemma EditKeepsShaped(h: Params, s: Sps)
    requires Shaped(s)
    ensures Shaped(Edit(h, s)) && Edit(h, s).chroma == s.chroma
  {
    hide ShapedChroma, CanonicalPoc, CropOffsets, Cropped, CanonicalVui;
    VuiEditKeepsCanonical(h, s.vui);
  }

  lemma VuiEditKeepsCanonical(h: Params, v: Vui)
    requires CanonicalVui(v)
    ensures CanonicalVui(EditedVui(h, v))
  {
    hide CanonicalHrd, CanonicalAspect;
  }

  // ---------- what the writer can write ----------

  /** Values that the writer can put into the edited fields. */
  predicate ParamsFit(h: Params, s: Sps) {
    && h.level < 256
    && (s.cropping.present || Cropped(h, s.picture) ==>
          forall o :: o in CropOffsets(h, s.picture) ==> Writable(UeElement(o)))
  }

  lemma FlagsWritable(f: bool)
    ensures AllWritable([Flag(f)])
  {
    FlagIsWritable(f);
  }

  ghost predicate PartsWritable(v: Vui)
    requires CanonicalVui(v)
  {
    && AllWritable(AspectElements(v.aspect)) && AllWritable(GroupElements(OVERSCAN, v.overscan))
    && AllWritable(SignalElements(v.signal)) && AllWritable(GroupElements(CHROMA_LOC, v.chromaLoc))
    && AllWritable(GroupElements(TIMING, v.timing))
    && AllWritable(OptionalHrdElements(v.nalHrdPresent, v.nalHrd))
    && AllWritable(OptionalHrdElements(v.vclHrdPresent, v.vclHrd))
    && AllWritable(HrdFlags(v)) && AllWritable(GroupElements(RESTRICTION, v.restriction))
  }

  lemma VuiWritableByParts(v: Vui)
    requires CanonicalVui(v)
    ensures AllWritable(VuiElements(v)) <==> PartsWritable(v)
  {
    hide AllWritable, AspectElements, GroupElements, SignalElements, OptionalHrdElements, HrdFlags, CanonicalHrd;
    var e5 := GroupElements(TIMING, v.timing);
    var e4 := GroupElements(CHROMA_LOC, v.chromaLoc);
    var e3 := SignalElements(v.signal);
    var e2 := GroupElements(OVERSCAN, v.overscan);
    WritableAppend(e4, e5);
    WritableAppend(e3, e4 + e5);
    WritableAppend(e2, e3 + (e4 + e5));
    WritableAppend(AspectElements(v.aspect), e2 + (e3 + (e4 + e5)));
    var f3 := GroupElements(RESTRICTION, v.restriction);
    var f2 := HrdFlags(v);
    var f1 := OptionalHrdElements(v.vclHrdPresent, v.vclHrd);
    WritableAppend(f2, f3);
    WritableAppend(f1, f2 + f3);
    WritableAppend(OptionalHrdElements(v.nalHrdPresent, v.nalHrd), f1 + (f2 + f3));
    WritableAppend(DisplayElements(v), BufferElements(v));
  }

  lemma AbsentPartsWritable()
    ensures PartsWritable(NO_VUI)
  {
    hide Writable;
    FlagsWritable(false);
    assert [Flag(false)] + [] == [Flag(false)];
    assert [] + [Flag(false)] == [Flag(false)];
  }

  lemma RestrictionWritable()
    ensures AllWritable(GroupElements(RESTRICTION, NO_REORDERING))
  {
    hide WritableUe;
    FlagsWritable(true);
    SmallUeIsWritable(0);
    SmallUeIsWritable(16);
    SmallUeIsWritable(2);
    var es := Fields(RESTRICTION, NO_REORDERING.values);
    assert Pow2(1) == 2;
    assert Values(es) == NO_REORDERING.values && Descriptors(es) == RESTRICTION;
    forall e | e in es
      ensures Writable(e)
    {
      var i :| 0 <= i < |es| && es[i] == e;
      assert e.value == Values(es)[i] && e.descriptor == Descriptors(es)[i];
    }
    WritableAppend([Flag(true)], es);
  }

  lemma ColourWritable(info: VuiInfo)
    ensures var g := FieldGroup(true, [info.primaries as int, info.transfer as int, info.matrix as int]);
            AllWritable(GroupElements(COLOUR, g))
  {
    FlagsWritable(true);
    Pow2Of8();
    var vs := [info.primaries as int, info.transfer as int, info.matrix as int];
    var es := Fields(COLOUR, vs);
    assert Values(es) == vs && Descriptors(es) == COLOUR;
    forall e | e in es
      ensures Writable(e)
    {
      var i :| 0 <= i < |es| && es[i] == e;
      assert e.value == Values(es)[i] && e.descriptor == Descriptors(es)[i];
    }
    WritableAppend([Flag(true)], es);
  }

  lemma Pow2Of8()
    ensures Pow2(8) == 256 && Pow2(3) == 8 && Pow2(1) == 2
  {
    assert Pow2(4) == 16;
  }

  lemma SignalEditWritable(info: VuiInfo, s: VideoSignal)
    requires CanonicalSignal(s) && AllWritable(SignalElements(s))
    ensures AllWritable(SignalElements(EditedSignal(info, s)))
  {
    hide Writable, GroupElements;
    var r := EditedSignal(info, s);
    FlagsWritable(true);
    FlagsWritable(false);
    FlagIsWritable(info.fullRange);
    ColourWritable(info);
    FormatWritable();
    if s.present {
      WritableAppend([Flag(true)], SignalHead(s) + GroupElements(COLOUR, s.colour));
      WritableAppend(SignalHead(s), GroupElements(COLOUR, s.colour));
      assert UElement(3, s.format) in SignalHead(s);
    } else {
      NoColours(s.colour);
    }
    assert AllWritable(SignalHead(r));
    WritableAppend(SignalHead(r), GroupElements(COLOUR, r.colour));
    WritableAppend([Flag(true)], SignalHead(r) + GroupElements(COLOUR, r.colour));
  }

  lemma FormatWritable()
    ensures Writable(UElement(3, 0))
  {
    Pow2Of8();
  }

  lemma NoColours(g: FieldGroup)
    requires !g.present && |g.values| == 3
    ensures AllWritable(GroupElements(COLOUR, g))
  {
    FlagsWritable(false);
    assert [Flag(false)] + [] == [Flag(false)];
  }

  lemma VuiEditWritable(h: Params, v: Vui)
    requires CanonicalVui(v) && AllWritable(VuiElements(v))
    ensures CanonicalVui(EditedVui(h, v)) && AllWritable(VuiElements(EditedVui(h, v)))
  {
    hide AllWritable, AspectElements, GroupElements, SignalElements, OptionalHrdElements, EditedSignal, VuiElements,
         CanonicalAspect, CanonicalHrd;
    VuiEditKeepsCanonical(h, v);
    VuiWritableByParts(v);
    VuiWritableByParts(EditedVui(h, v));
    RestrictionWritable();
    SignalEditWritable(h.vui, v.signal);
  }

  lemma CroppingWritable(offsets: seq<int>)
    requires |offsets| == 4 && forall o :: o in offsets ==> Writable(UeElement(o))
    ensures AllWritable(GroupElements(CROPPING, FieldGroup(true, offsets)))
  {
    hide WritableUe;
    FlagsWritable(true);
    var es := Fields(CROPPING, offsets);
    forall e | e in es
      ensures Writable(e)
    {
      var i :| 0 <= i < |es| && es[i] == e;
      assert e.value == Values(es)[i] && e.descriptor == Descriptors(es)[i];
      assert offsets[i] in offsets;
    }
    WritableAppend([Flag(true)], es);
  }

  lemma LevelWritable(c: Header, level: nat)
    requires AllWritable(HeaderElements(c)) && level < 256
    ensures AllWritable(HeaderElements(c.(levelIdc := level)))
  {
    hide Writable;
    LevelFits(level);
    forall e | e in HeaderElements(c.(levelIdc := level))
      ensures Writable(e)
    {
      assert e in HeaderElements(c) || e == UElement(8, level);
    }
  }

  lemma LevelFits(level: nat)
    requires level < 256
    ensures Writable(UElement(8, level))
  {
    Pow2Of8();
  }

  lemma SpsWritableByParts(s: Sps)
    requires WellFormed(s)
    ensures AllWritable(SpsElements(s)) <==>
            && AllWritable(HeaderElements(s.header))
            && AllWritable(ChromaElements(HighProfile(s.header.profileIdc), s.chroma))
            && AllWritable(PocElements(s.poc)) && AllWritable(PictureElements(s.picture))
            && AllWritable(GroupElements(CROPPING, s.cropping))
            && AllWritable(OptionalVuiElements(s.vuiPresent, s.vui))
  {
    hide AllWritable, HeaderElements, ChromaElements, PocElements, PictureElements, GroupElements, OptionalVuiElements,
         CanonicalVui;
    var f := OptionalVuiElements(s.vuiPresent, s.vui);
    var e := GroupElements(CROPPING, s.cropping);
    var d := PictureElements(s.picture);
    WritableAppend(e, f);
    WritableAppend(d, e + f);
    WritableAppend(PocElements(s.poc), d + (e + f));
    WritableAppend(HeaderElements(s.header), ChromaElements(HighProfile(s.header.profileIdc), s.chroma));
    WritableAppend(LeadingElements(s), TrailingElements(s));
  }

  lemma OptionalVuiEditWritable(h: Params, present: bool, v: Vui)
    requires CanonicalVui(v) && (!present ==> v == NO_VUI) && AllWritable(OptionalVuiElements(present, v))
    requires NeedsEdit(h)
    ensures CanonicalVui(EditedVui(h, v)) && AllWritable(OptionalVuiElements(true, EditedVui(h, v)))
  {
    hide AllWritable, VuiElements, CanonicalVui, EditedVui, PartsWritable;
    if present {
      WritableAppend([Flag(true)], VuiElements(v));
    } else {
      AbsentPartsWritable();
      VuiWritableByParts(v);
    }
    VuiEditWritable(h, v);
    FlagsWritable(true);
    WritableAppend([Flag(true)], VuiElements(EditedVui(h, v)));
  }

  /** If the parameter set that was read can be written and the new values fit
      their fields, the edited one can be written. */
  lemma EditWritable(h: Params, s: Sps)
    requires Canonical(s) && AllWritable(SpsElements(s)) && NeedsEdit(h) && ParamsFit(h, s)
    ensures Canonical(Edit(h, s)) && AllWritable(SpsElements(Edit(h, s)))
  {
    EditKeepsCanonical(h, s);
    hide AllWritable, HeaderElements, ChromaElements, PocElements, PictureElements, GroupElements, OptionalVuiElements,
         CanonicalVui, SpsElements, Cropped, CropOffsets, EditedVui, CanonicalChroma, CanonicalPoc;
    SpsWritableByParts(s);
    SpsWritableByParts(Edit(h, s));
    if h.level != 0 {
      LevelWritable(s.header, h.level);
    }
    if s.cropping.present || Cropped(h, s.picture) {
      CroppingWritable(CropOffsets(h, s.picture));
    }
    OptionalVuiEditWritable(h, s.vuiPresent, s.vui);
  }
}
