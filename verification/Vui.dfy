/** HRD and VUI parameters, Annex E.1 of H.264, as h264bitstream.c writes and reads them. */
module VuiParameters {
  import opened CArithmetic
  import opened Bits
  import opened ExpGolomb
  import opened Syntax

  // ---------- HRD parameters ----------

  datatype Schedule = Schedule(bitRateValueMinus1: int, cpbSizeValueMinus1: int, cbr: bool)

  datatype Hrd = Hrd(
    cpbCntMinus1: int,
    bitRateScale: int,
    cpbSizeScale: int,
    schedules: seq<Schedule>,
    initialCpbRemovalDelayLengthMinus1: int,
    cpbRemovalDelayLengthMinus1: int,
    dpbOutputDelayLengthMinus1: int,
    timeOffsetLength: int)

  const NO_HRD: Hrd := Hrd(0, 0, 0, [], 0, 0, 0, 0)

  predicate CanonicalHrd(present: bool, h: Hrd) {
    if present then h.cpbCntMinus1 >= 0 && |h.schedules| == h.cpbCntMinus1 + 1 else h == NO_HRD
  }

  function ScheduleElements(s: Schedule): (es: seq<Element>) {
    [UeElement(s.bitRateValueMinus1), UeElement(s.cpbSizeValueMinus1), Flag(s.cbr)]
  }

  function SchedulesElements(ss: seq<Schedule>): (es: seq<Element>) {
    if ss == [] then [] else ScheduleElements(ss[0]) + SchedulesElements(ss[1..])
  }

  function HrdHead(h: Hrd): (es: seq<Element>) {
    [UeElement(h.cpbCntMinus1), UElement(4, h.bitRateScale), UElement(4, h.cpbSizeScale)]
  }

  function HrdTail(h: Hrd): (es: seq<Element>) {
    [UElement(5, h.initialCpbRemovalDelayLengthMinus1), UElement(5, h.cpbRemovalDelayLengthMinus1),
     UElement(5, h.dpbOutputDelayLengthMinus1), UElement(5, h.timeOffsetLength)]
  }

  function HrdElements(h: Hrd): (es: seq<Element>) {
    HrdHead(h) + (SchedulesElements(h.schedules) + HrdTail(h))
  }

  function ParseSchedule(bits: seq<bool>, pos: nat): (r: (Schedule, nat))
    ensures r.1 >= pos
  {
    var (v, p) := ReadAll([Ue, Ue, U(1)], bits, pos);
    (Schedule(v[0], v[1], v[2] == 1), p)
  }

  /** A bit rate of 65537 units is one that the writer cannot send: it reads
      back as 1 unit. */
  lemma BigBitRateIsMisread(bits: seq<bool>, pos: nat, s: Schedule)
    requires s.bitRateValueMinus1 == 65536 && Holds(bits, pos, ScheduleElements(s))
    ensures ParseSchedule(bits, pos).0.bitRateValueMinus1 == 0
  {
    hide Encode, EncodeAll, ReadUe, ReadU, UeBits, At, WritableUe;
    var first := UeElement(65536);
    assert ScheduleElements(s) == [first] + ScheduleElements(s)[1..];
    HoldsAppend(bits, pos, [first], ScheduleElements(s)[1..]);
    EncodeSingle(first);
    assert At(bits, pos, UeBits(65536)) by {
      EncodeOfUe(65536);
    }
    UeFailsAt65536(bits, pos);
  }

  lemma EncodeOfUe(v: nat)
    requires v < TWO_32
    ensures Encode(UeElement(v)) == UeBits(v)
  {
  }

  function ParseSchedules(bits: seq<bool>, pos: nat, n: nat): (r: (seq<Schedule>, nat))
    ensures |r.0| == n && r.1 >= pos
    decreases n
  {
    if n == 0 then ([], pos)
    else
      var (s, p) := ParseSchedule(bits, pos);
      var (ss, q) := ParseSchedules(bits, p, n - 1);
      ([s] + ss, q)
  }

  lemma UeIsNatural(bits: seq<bool>, pos: nat, ds: seq<Descriptor>)
    requires ds != [] && ds[0].Ue?
    ensures ReadAll(ds, bits, pos).0[0] >= 0
  {
  }

  function ParseHrd(bits: seq<bool>, pos: nat): (r: (Hrd, nat))
    ensures CanonicalHrd(true, r.0) && r.1 >= pos
  {
    UeIsNatural(bits, pos, [Ue, U(4), U(4)]);
    var (h, p) := ReadAll([Ue, U(4), U(4)], bits, pos);
    var (ss, q) := ParseSchedules(bits, p, h[0] + 1);
    var (t, r) := ReadAll([U(5), U(5), U(5), U(5)], bits, q);
    (Hrd(h[0], h[1], h[2], ss, t[0], t[1], t[2], t[3]), r)
  }

  lemma ScheduleRoundTrip(bits: seq<bool>, pos: nat, s: Schedule)
    requires Holds(bits, pos, ScheduleElements(s)) && AllWritable(ScheduleElements(s))
    ensures ParseSchedule(bits, pos) == (s, After(pos, ScheduleElements(s)))
  {
    hide ReadElement, Encode, Writable, ReadAll, EncodeAll, Holds, After, AllWritable;
    assert Descriptors(ScheduleElements(s)) == [Ue, Ue, U(1)];
    ReadAllWritten([Ue, Ue, U(1)], bits, pos, ScheduleElements(s));
  }

  lemma {:induction false} SchedulesRoundTrip(bits: seq<bool>, pos: nat, ss: seq<Schedule>)
    requires Holds(bits, pos, SchedulesElements(ss)) && AllWritable(SchedulesElements(ss))
    ensures ParseSchedules(bits, pos, |ss|) == (ss, After(pos, SchedulesElements(ss)))
    decreases |ss|
  {
    hide ReadElement, Encode, Writable, ReadAll, EncodeAll, Holds, After, AllWritable, ParseSchedule;
    if ss == [] {
      NothingAfter(pos);
    } else {
      TakeRun(bits, pos, ScheduleElements(ss[0]), SchedulesElements(ss[1..]));
      ScheduleRoundTrip(bits, pos, ss[0]);
      var p := After(pos, ScheduleElements(ss[0]));
      SchedulesRoundTrip(bits, p, ss[1..]);
      assert ss == [ss[0]] + ss[1..];
      assert ParseSchedules(bits, pos, |ss|) == ([ss[0]] + ParseSchedules(bits, p, |ss| - 1).0, ParseSchedules(bits, p, |ss| - 1).1);
    }
  }

  lemma HrdHeadRoundTrip(bits: seq<bool>, pos: nat, h: Hrd)
    requires Holds(bits, pos, HrdHead(h)) && AllWritable(HrdHead(h))
    ensures ReadAll([Ue, U(4), U(4)], bits, pos)
            == ([h.cpbCntMinus1, h.bitRateScale, h.cpbSizeScale], After(pos, HrdHead(h)))
  {
    hide ReadElement, Encode, Writable, ReadAll, EncodeAll, Holds, After, AllWritable;
    assert Descriptors(HrdHead(h)) == [Ue, U(4), U(4)];
    ReadAllWritten([Ue, U(4), U(4)], bits, pos, HrdHead(h));
    assert Values(HrdHead(h)) == [h.cpbCntMinus1, h.bitRateScale, h.cpbSizeScale];
  }

  lemma HrdTailRoundTrip(bits: seq<bool>, pos: nat, h: Hrd)
    requires Holds(bits, pos, HrdTail(h)) && AllWritable(HrdTail(h))
    ensures ReadAll([U(5), U(5), U(5), U(5)], bits, pos)
            == ([h.initialCpbRemovalDelayLengthMinus1, h.cpbRemovalDelayLengthMinus1,
                 h.dpbOutputDelayLengthMinus1, h.timeOffsetLength], After(pos, HrdTail(h)))
  {
    hide ReadElement, Encode, Writable, ReadAll, EncodeAll, Holds, After, AllWritable;
    assert Descriptors(HrdTail(h)) == [U(5), U(5), U(5), U(5)];
    ReadAllWritten([U(5), U(5), U(5), U(5)], bits, pos, HrdTail(h));
    assert Values(HrdTail(h)) == [h.initialCpbRemovalDelayLengthMinus1, h.cpbRemovalDelayLengthMinus1,
                                  h.dpbOutputDelayLengthMinus1, h.timeOffsetLength];
  }

  lemma HrdRoundTrip(bits: seq<bool>, pos: nat, h: Hrd)
    requires CanonicalHrd(true, h)
    requires Holds(bits, pos, HrdElements(h)) && AllWritable(HrdElements(h))
    ensures ParseHrd(bits, pos) == (h, After(pos, HrdElements(h)))
  {
    hide ReadElement, Encode, Writable, ReadAll, EncodeAll, Holds, After, AllWritable, ParseSchedules,
         SchedulesElements, HrdHead, HrdTail;
    TakeRun(bits, pos, HrdHead(h), SchedulesElements(h.schedules) + HrdTail(h));
    HrdHeadRoundTrip(bits, pos, h);
    var p := After(pos, HrdHead(h));
    TakeRun(bits, p, SchedulesElements(h.schedules), HrdTail(h));
    SchedulesRoundTrip(bits, p, h.schedules);
    HrdTailRoundTrip(bits, After(p, SchedulesElements(h.schedules)), h);
  }

  /** A presence flag and the HRD parameters it announces. */
  function OptionalHrdElements(present: bool, h: Hrd): (es: seq<Element>) {
    [Flag(present)] + if present then HrdElements(h) else []
  }

  function ParseOptionalHrd(bits: seq<bool>, pos: nat): (r: (bool, Hrd, nat))
    ensures CanonicalHrd(r.0, r.1) && r.2 >= pos
  {
    var (f, p) := ReadFlag(bits, pos);
    if f then
      var (h, q) := ParseHrd(bits, p);
      (true, h, q)
    else
      (false, NO_HRD, p)
  }

  lemma OptionalHrdRoundTrip(bits: seq<bool>, pos: nat, present: bool, h: Hrd)
    requires CanonicalHrd(present, h)
    requires Holds(bits, pos, OptionalHrdElements(present, h)) && AllWritable(OptionalHrdElements(present, h))
    ensures ParseOptionalHrd(bits, pos) == (present, h, After(pos, OptionalHrdElements(present, h)))
  {
    hide ReadElement, Encode, Writable, ReadAll, EncodeAll, Holds, After, AllWritable, ReadFlag, ParseHrd, HrdElements;
    var es := if present then HrdElements(h) else [];
    FlagRoundTrip(bits, pos, present, es);
    WritableAppend([Flag(present)], es);
    if present {
      HrdRoundTrip(bits, After(pos, [Flag(true)]), h);
    } else {
      NothingAfter(After(pos, [Flag(false)]));
    }
  }

  // ---------- VUI parameters ----------

  const SAR_EXTENDED := 255

  datatype AspectRatio = AspectRatio(present: bool, idc: int, sarWidth: int, sarHeight: int)

  datatype VideoSignal = VideoSignal(present: bool, format: int, fullRange: bool, colour: FieldGroup)

  /** overscan: overscan_appropriate_flag.
      signal.colour: colour_primaries, transfer_characteristics, matrix_coefficients.
      chromaLoc: the sample location types of the top and the bottom field.
      timing: num_units_in_tick, time_scale, fixed_frame_rate_flag.
      restriction: motion_vectors_over_pic_boundaries_flag, max_bytes_per_pic_denom,
      max_bits_per_mb_denom, log2_max_mv_length_horizontal and _vertical,
      num_reorder_frames, max_dec_frame_buffering. */
  datatype Vui = Vui(
    aspect: AspectRatio,
    overscan: FieldGroup,
    signal: VideoSignal,
    chromaLoc: FieldGroup,
    timing: FieldGroup,
    nalHrdPresent: bool,
    nalHrd: Hrd,
    vclHrdPresent: bool,
    vclHrd: Hrd,
    lowDelayHrd: bool,
    picStructPresent: bool,
    restriction: FieldGroup)

  const OVERSCAN: seq<Descriptor> := [U(1)]
  const COLOUR: seq<Descriptor> := [U(8), U(8), U(8)]
  const CHROMA_LOC: seq<Descriptor> := [Ue, Ue]
  const TIMING: seq<Descriptor> := [U(32), U(32), U(1)]
  const RESTRICTION: seq<Descriptor> := [U(1), Ue, Ue, Ue, Ue, Ue, Ue]

  const NO_ASPECT: AspectRatio := AspectRatio(false, 0, 0, 0)
  const NO_SIGNAL: VideoSignal := VideoSignal(false, 0, false, FieldGroup(false, Cleared(3)))
  const NO_VUI: Vui := Vui(
    NO_ASPECT, FieldGroup(false, Cleared(1)), NO_SIGNAL, FieldGroup(false, Cleared(2)), FieldGroup(false, Cleared(3)),
    false, NO_HRD, false, NO_HRD, false, false, FieldGroup(false, Cleared(7)))

  predicate CanonicalAspect(a: AspectRatio) {
    && (!a.present ==> a.idc == 0)
    && (a.idc != SAR_EXTENDED ==> a.sarWidth == 0 && a.sarHeight == 0)
  }

  predicate CanonicalSignal(s: VideoSignal) {
    CanonicalGroup(s.colour, 3) && (!s.present ==> s == NO_SIGNAL)
  }

  /** The records whose absent fields are those of a cleared record. */
  predicate CanonicalVui(v: Vui) {
    && CanonicalAspect(v.aspect) && CanonicalGroup(v.overscan, 1) && CanonicalSignal(v.signal)
    && CanonicalGroup(v.chromaLoc, 2) && CanonicalGroup(v.timing, 3)
    && CanonicalHrd(v.nalHrdPresent, v.nalHrd) && CanonicalHrd(v.vclHrdPresent, v.vclHrd)
    && (!v.nalHrdPresent && !v.vclHrdPresent ==> !v.lowDelayHrd)
    && CanonicalGroup(v.restriction, 7)
  }

  function SarElements(a: AspectRatio): (es: seq<Element>) {
    if a.idc == SAR_EXTENDED then [UElement(16, a.sarWidth), UElement(16, a.sarHeight)] else []
  }

  function AspectElements(a: AspectRatio): (es: seq<Element>) {
    [Flag(a.present)] + if a.present then [UElement(8, a.idc)] + SarElements(a) else []
  }

  function ParseAspect(bits: seq<bool>, pos: nat): (r: (AspectRatio, nat))
    ensures CanonicalAspect(r.0) && r.1 >= pos
  {
    var (f, p) := ReadFlag(bits, pos);
    if !f then (NO_ASPECT, p)
    else
      var (i, q) := ReadAll([U(8)], bits, p);
      if i[0] == SAR_EXTENDED then
        var (s, r) := ReadAll([U(16), U(16)], bits, q);
        (AspectRatio(true, i[0], s[0], s[1]), r)
      else
        (AspectRatio(true, i[0], 0, 0), q)
  }

  lemma AspectRoundTrip(bits: seq<bool>, pos: nat, a: AspectRatio)
    requires CanonicalAspect(a)
    requires Holds(bits, pos, AspectElements(a)) && AllWritable(AspectElements(a))
    ensures ParseAspect(bits, pos) == (a, After(pos, AspectElements(a)))
  {
    hide ReadElement, Encode, Writable, ReadAll, EncodeAll, Holds, After, AllWritable, ReadFlag;
    var es := if a.present then [UElement(8, a.idc)] + SarElements(a) else [];
    FlagRoundTrip(bits, pos, a.present, es);
    WritableAppend([Flag(a.present)], es);
    var p := After(pos, [Flag(a.present)]);
    NothingAfter(p);
    if a.present {
      TakeRun(bits, p, [UElement(8, a.idc)], SarElements(a));
      assert Descriptors([UElement(8, a.idc)]) == [U(8)];
      ReadAllWritten([U(8)], bits, p, [UElement(8, a.idc)]);
      var q := After(p, [UElement(8, a.idc)]);
      NothingAfter(q);
      if a.idc == SAR_EXTENDED {
        assert Descriptors(SarElements(a)) == [U(16), U(16)];
        ReadAllWritten([U(16), U(16)], bits, q, SarElements(a));
      }
    }
  }

  function SignalHead(s: VideoSignal): (es: seq<Element>) {
    [UElement(3, s.format), Flag(s.fullRange)]
  }

  function SignalElements(s: VideoSignal): (es: seq<Element>)
    requires |s.colour.values| == 3
  {
    [Flag(s.present)] + if s.present then SignalHead(s) + GroupElements(COLOUR, s.colour) else []
  }

  function ParseSignal(bits: seq<bool>, pos: nat): (r: (VideoSignal, nat))
    ensures CanonicalSignal(r.0) && r.1 >= pos
  {
    var (f, p) := ReadFlag(bits, pos);
    if !f then (NO_SIGNAL, p)
    else
      var (v, q) := ReadAll([U(3), U(1)], bits, p);
      var (c, r) := ParseGroup(COLOUR, bits, q);
      (VideoSignal(true, v[0], v[1] == 1, c), r)
  }

  lemma SignalRoundTrip(bits: seq<bool>, pos: nat, s: VideoSignal)
    requires CanonicalSignal(s)
    requires Holds(bits, pos, SignalElements(s)) && AllWritable(SignalElements(s))
    ensures ParseSignal(bits, pos) == (s, After(pos, SignalElements(s)))
  {
    hide ReadElement, Encode, Writable, ReadAll, EncodeAll, Holds, After, AllWritable, ReadFlag, ParseGroup, GroupElements;
    var es := if s.present then SignalHead(s) + GroupElements(COLOUR, s.colour) else [];
    FlagRoundTrip(bits, pos, s.present, es);
    WritableAppend([Flag(s.present)], es);
    var p := After(pos, [Flag(s.present)]);
    NothingAfter(p);
    if s.present {
      TakeRun(bits, p, SignalHead(s), GroupElements(COLOUR, s.colour));
      assert Descriptors(SignalHead(s)) == [U(3), U(1)];
      ReadAllWritten([U(3), U(1)], bits, p, SignalHead(s));
      GroupRoundTrip(COLOUR, bits, After(p, SignalHead(s)), s.colour);
    }
  }

  /** low_delay_hrd_flag, sent when either HRD is, and pic_struct_present_flag. */
  function HrdFlags(v: Vui): (es: seq<Element>) {
    (if v.nalHrdPresent || v.vclHrdPresent then [Flag(v.lowDelayHrd)] else []) + [Flag(v.picStructPresent)]
  }

  /** The first half of vui_parameters: up to the timing information. */
  function DisplayElements(v: Vui): (es: seq<Element>)
    requires CanonicalVui(v)
  {
    AspectElements(v.aspect) + (GroupElements(OVERSCAN, v.overscan) + (SignalElements(v.signal)
    + (GroupElements(CHROMA_LOC, v.chromaLoc) + GroupElements(TIMING, v.timing))))
  }

  /** The second half: from the HRD parameters on. */
  function BufferElements(v: Vui): (es: seq<Element>)
    requires CanonicalVui(v)
  {
    OptionalHrdElements(v.nalHrdPresent, v.nalHrd) + (OptionalHrdElements(v.vclHrdPresent, v.vclHrd)
    + (HrdFlags(v) + GroupElements(RESTRICTION, v.restriction)))
  }

  /** vui_parameters() as write_vui_parameters sends it. */
  function VuiElements(v: Vui): (es: seq<Element>)
    requires CanonicalVui(v)
  {
    DisplayElements(v) + BufferElements(v)
  }

  function ParseDisplay(bits: seq<bool>, pos: nat): (r: (AspectRatio, FieldGroup, VideoSignal, FieldGroup, FieldGroup, nat))
    ensures CanonicalAspect(r.0) && CanonicalGroup(r.1, 1) && CanonicalSignal(r.2)
    ensures CanonicalGroup(r.3, 2) && CanonicalGroup(r.4, 3) && r.5 >= pos
  {
    var (a, p1) := ParseAspect(bits, pos);
    var (o, p2) := ParseGroup(OVERSCAN, bits, p1);
    var (s, p3) := ParseSignal(bits, p2);
    var (c, p4) := ParseGroup(CHROMA_LOC, bits, p3);
    var (t, p5) := ParseGroup(TIMING, bits, p4);
    (a, o, s, c, t, p5)
  }

  function ParseHrdFlags(bits: seq<bool>, pos: nat, anyHrd: bool): (r: (bool, bool, nat))
    ensures r.2 >= pos && (!anyHrd ==> !r.0)
  {
    var (low, p) := if anyHrd then ReadFlag(bits, pos) else (false, pos);
    var (pic, q) := ReadFlag(bits, p);
    (low, pic, q)
  }

  function ParseVui(bits: seq<bool>, pos: nat): (r: (Vui, nat))
    ensures CanonicalVui(r.0) && r.1 >= pos
  {
    var (a, o, s, c, t, p) := ParseDisplay(bits, pos);
    var (nf, nh, p1) := ParseOptionalHrd(bits, p);
    var (vf, vh, p2) := ParseOptionalHrd(bits, p1);
    var (low, pic, p3) := ParseHrdFlags(bits, p2, nf || vf);
    var (r, p4) := ParseGroup(RESTRICTION, bits, p3);
    (Vui(a, o, s, c, t, nf, nh, vf, vh, low, pic, r), p4)
  }

  lemma HrdFlagsRoundTrip(bits: seq<bool>, pos: nat, v: Vui)
    requires CanonicalVui(v) && Holds(bits, pos, HrdFlags(v))
    ensures ParseHrdFlags(bits, pos, v.nalHrdPresent || v.vclHrdPresent)
            == (v.lowDelayHrd, v.picStructPresent, After(pos, HrdFlags(v)))
  {
    hide ReadElement, Encode, Writable, ReadAll, EncodeAll, Holds, After, AllWritable, ReadFlag;
    var p := pos;
    if v.nalHrdPresent || v.vclHrdPresent {
      FlagRoundTrip(bits, pos, v.lowDelayHrd, [Flag(v.picStructPresent)]);
      p := After(pos, [Flag(v.lowDelayHrd)]);
    } else {
      assert HrdFlags(v) == [Flag(v.picStructPresent)];
    }
    assert [Flag(v.picStructPresent)] + [] == [Flag(v.picStructPresent)];
    FlagRoundTrip(bits, p, v.picStructPresent, []);
    NothingAfter(After(p, [Flag(v.picStructPresent)]));
  }

  lemma DisplayRoundTrip(bits: seq<bool>, pos: nat, v: Vui)
    requires CanonicalVui(v)
    requires Holds(bits, pos, DisplayElements(v)) && AllWritable(DisplayElements(v))
    ensures ParseDisplay(bits, pos)
            == (v.aspect, v.overscan, v.signal, v.chromaLoc, v.timing, After(pos, DisplayElements(v)))
  {
    hide ReadElement, Encode, Writable, ReadAll, EncodeAll, Holds, After, AllWritable, AspectElements, GroupElements, SignalElements,
         ParseAspect, ParseGroup, ParseSignal;
    var e5 := GroupElements(TIMING, v.timing);
    var e4 := GroupElements(CHROMA_LOC, v.chromaLoc) + e5;
    var e3 := SignalElements(v.signal) + e4;
    var e2 := GroupElements(OVERSCAN, v.overscan) + e3;
    TakeRun(bits, pos, AspectElements(v.aspect), e2);
    AspectRoundTrip(bits, pos, v.aspect);
    var p1 := After(pos, AspectElements(v.aspect));
    TakeRun(bits, p1, GroupElements(OVERSCAN, v.overscan), e3);
    GroupRoundTrip(OVERSCAN, bits, p1, v.overscan);
    var p2 := After(p1, GroupElements(OVERSCAN, v.overscan));
    TakeRun(bits, p2, SignalElements(v.signal), e4);
    SignalRoundTrip(bits, p2, v.signal);
    var p3 := After(p2, SignalElements(v.signal));
    TakeRun(bits, p3, GroupElements(CHROMA_LOC, v.chromaLoc), e5);
    GroupRoundTrip(CHROMA_LOC, bits, p3, v.chromaLoc);
    var p4 := After(p3, GroupElements(CHROMA_LOC, v.chromaLoc));
    GroupRoundTrip(TIMING, bits, p4, v.timing);
  }

  /** VUI parameters with both HRDs read back as they were written. */
  lemma VuiRoundTrip(bits: seq<bool>, pos: nat, v: Vui)
    requires CanonicalVui(v)
    requires Holds(bits, pos, VuiElements(v)) && AllWritable(VuiElements(v))
    ensures ParseVui(bits, pos) == (v, After(pos, VuiElements(v)))
  {
    hide ReadElement, Encode, Writable, ReadAll, EncodeAll, Holds, After, AllWritable, DisplayElements, ParseDisplay, OptionalHrdElements, ParseOptionalHrd,
         GroupElements, ParseGroup, HrdFlags, ParseHrdFlags;
    TakeRun(bits, pos, DisplayElements(v), BufferElements(v));
    DisplayRoundTrip(bits, pos, v);
    var p := After(pos, DisplayElements(v));
    var e3 := HrdFlags(v) + GroupElements(RESTRICTION, v.restriction);
    var e2 := OptionalHrdElements(v.vclHrdPresent, v.vclHrd) + e3;
    TakeRun(bits, p, OptionalHrdElements(v.nalHrdPresent, v.nalHrd), e2);
    OptionalHrdRoundTrip(bits, p, v.nalHrdPresent, v.nalHrd);
    var p1 := After(p, OptionalHrdElements(v.nalHrdPresent, v.nalHrd));
    TakeRun(bits, p1, OptionalHrdElements(v.vclHrdPresent, v.vclHrd), e3);
    OptionalHrdRoundTrip(bits, p1, v.vclHrdPresent, v.vclHrd);
    var p2 := After(p1, OptionalHrdElements(v.vclHrdPresent, v.vclHrd));
    TakeRun(bits, p2, HrdFlags(v), GroupElements(RESTRICTION, v.restriction));
    HrdFlagsRoundTrip(bits, p2, v);
    GroupRoundTrip(RESTRICTION, bits, After(p2, HrdFlags(v)), v.restriction);
  }
}
