/** The sequence parameter set, section 7.3.2.1.1 of H.264, as h264bitstream.c writes and reads it. */
module SequenceParameterSet {
  import opened CArithmetic
  import opened Bits
  import opened ExpGolomb
  import opened Syntax
  import opened ScalingLists
  import opened VuiParameters

  // ---------- profile, level and identifier ----------

  datatype Header = Header(
    profileIdc: int,
    constraint0: bool, constraint1: bool, constraint2: bool, constraint3: bool, constraint4: bool, constraint5: bool,
    levelIdc: int,
    id: int)

  const HEADER: seq<Descriptor> := [U(8), U(1), U(1), U(1), U(1), U(1), U(1), U(2), U(8), Ue]

  function HeaderElements(h: Header): (es: seq<Element>) {
    [UElement(8, h.profileIdc), Flag(h.constraint0), Flag(h.constraint1), Flag(h.constraint2), Flag(h.constraint3),
     Flag(h.constraint4), Flag(h.constraint5), UElement(2, 0), UElement(8, h.levelIdc), UeElement(h.id)]
  }

  function ParseHeader(bits: seq<bool>, pos: nat): (r: (Header, nat))
    ensures r.1 >= pos
  {
    var (v, p) := ReadAll(HEADER, bits, pos);
    (Header(v[0], v[1] == 1, v[2] == 1, v[3] == 1, v[4] == 1, v[5] == 1, v[6] == 1, v[8], v[9]), p)
  }

  lemma HeaderRoundTrip(bits: seq<bool>, pos: nat, h: Header)
    requires Holds(bits, pos, HeaderElements(h)) && AllWritable(HeaderElements(h))
    ensures ParseHeader(bits, pos) == (h, After(pos, HeaderElements(h)))
  {
    hide ReadElement, Encode, Writable, ReadAll, EncodeAll, Holds, After, AllWritable;
    assert Descriptors(HeaderElements(h)) == HEADER;
    ReadAllWritten(HEADER, bits, pos, HeaderElements(h));
  }

  // ---------- scaling matrix ----------

  function ListSize(i: nat): nat {
    if i < 6 then 16 else 64
  }

  function AbsentLists(i: nat, n: nat): (ls: seq<ScalingList>)
    requires i <= n
    ensures |ls| == n - i
    decreases n - i
  {
    if i == n then [] else [Absent(ListSize(i))] + AbsentLists(i + 1, n)
  }

  predicate CanonicalSlot(l: ScalingList, size: nat) {
    if l.present then |l.entries| == size && CanonicalList(l.entries, l.useDefault) else l == Absent(size)
  }

  predicate CanonicalLists(ls: seq<ScalingList>, i: nat) {
    forall k: nat :: k < |ls| ==> CanonicalSlot(ls[k], ListSize(i + k))
  }

  function SlotElements(l: ScalingList): (es: seq<Element>) {
    [Flag(l.present)] + if l.present then ScalingElements(l.entries, l.useDefault) else []
  }

  /** The flags and lists of ls, the slots of a matrix from some slot on. */
  function ListsElements(ls: seq<ScalingList>): (es: seq<Element>) {
    if ls == [] then [] else SlotElements(ls[0]) + ListsElements(ls[1..])
  }

  function ParseSlot(bits: seq<bool>, pos: nat, size: nat): (r: (ScalingList, nat))
    ensures !r.0.present ==> r.0 == Absent(size)
    ensures |r.0.entries| == size && r.1 >= pos
  {
    var (f, p) := ReadFlag(bits, pos);
    if f then
      var (l, ud, q) := ParseScalingList(bits, p, size);
      (ScalingList(true, l, ud), q)
    else
      (Absent(size), p)
  }

  /** Slots i up to n of a matrix. */
  function ParseLists(bits: seq<bool>, pos: nat, i: nat, n: nat): (r: (seq<ScalingList>, nat))
    requires i <= n
    ensures |r.0| == n - i && r.1 >= pos
    ensures forall k: nat :: k < n - i ==> |r.0[k].entries| == ListSize(i + k)
    ensures forall k: nat :: k < n - i && !r.0[k].present ==> r.0[k] == Absent(ListSize(i + k))
    decreases n - i
  {
    if i == n then ([], pos)
    else
      var (l, p) := ParseSlot(bits, pos, ListSize(i));
      var (ls, q) := ParseLists(bits, p, i + 1, n);
      assert forall k: nat :: 0 < k < n - i ==> ([l] + ls)[k] == ls[k - 1];
      ([l] + ls, q)
  }

  lemma SlotRoundTrip(bits: seq<bool>, pos: nat, l: ScalingList, size: nat)
    requires size > 0 && CanonicalSlot(l, size)
    requires Holds(bits, pos, SlotElements(l))
    ensures ParseSlot(bits, pos, size) == (l, After(pos, SlotElements(l)))
  {
    hide ReadElement, Encode, Writable, ReadAll, EncodeAll, Holds, After, AllWritable, ReadFlag, ScalingElements, ParseScalingList;
    var es := if l.present then ScalingElements(l.entries, l.useDefault) else [];
    FlagRoundTrip(bits, pos, l.present, es);
    if l.present {
      ScalingListRoundTrip(bits, After(pos, [Flag(true)]), l.entries, l.useDefault);
    } else {
      NothingAfter(After(pos, [Flag(false)]));
    }
  }

  lemma {:induction false} ListsRoundTrip(bits: seq<bool>, pos: nat, ls: seq<ScalingList>, i: nat)
    requires CanonicalLists(ls, i) && Holds(bits, pos, ListsElements(ls))
    ensures ParseLists(bits, pos, i, i + |ls|) == (ls, After(pos, ListsElements(ls)))
    decreases |ls|
  {
    hide ReadElement, Encode, Writable, ReadAll, EncodeAll, Holds, After, AllWritable, SlotElements, ParseSlot, CanonicalSlot;
    if ls == [] {
      NothingAfter(pos);
    } else {
      HoldsAppend(bits, pos, SlotElements(ls[0]), ListsElements(ls[1..]));
      assert CanonicalSlot(ls[0], ListSize(i + 0));
      SlotRoundTrip(bits, pos, ls[0], ListSize(i));
      var p := After(pos, SlotElements(ls[0]));
      forall k: nat | k < |ls| - 1
        ensures CanonicalSlot(ls[1..][k], ListSize(i + 1 + k))
      {
        assert CanonicalSlot(ls[k + 1], ListSize(i + (k + 1)));
      }
      ListsRoundTrip(bits, p, ls[1..], i + 1);
      assert ls == [ls[0]] + ls[1..];
    }
  }

  // ---------- chroma format and scaling matrix ----------

  datatype Chroma = Chroma(
    formatIdc: int,
    residualColourTransform: bool,
    bitDepthLumaMinus8: int,
    bitDepthChromaMinus8: int,
    qpprimeYZeroTransformBypass: bool,
    matrixPresent: bool,
    lists: seq<ScalingList>)

  /** What the reader starts from: chroma_format_idc 1, all else cleared. */
  const DEFAULT_CHROMA: Chroma := Chroma(1, false, 0, 0, false, false, AbsentLists(0, 12))

  predicate HighProfile(profileIdc: int) {
    profileIdc in {100, 110, 122, 244, 44, 83, 86, 118, 128, 138, 139, 134}
  }

  /** How many lists the reader expects; the writer always sends 8. */
  function ListsRead(formatIdc: int): nat {
    if formatIdc != 3 then 8 else 12
  }

  predicate CanonicalChroma(high: bool, c: Chroma) {
    && |c.lists| == 12
    && (!high ==> c == DEFAULT_CHROMA)
    && (c.formatIdc != 3 ==> !c.residualColourTransform)
    && (!c.matrixPresent ==> c.lists == AbsentLists(0, 12))
    && (c.matrixPresent ==> CanonicalLists(c.lists[..8], 0) && c.lists[8..] == AbsentLists(8, 12))
  }

  const DEPTHS: seq<Descriptor> := [Ue, Ue, U(1), U(1)]

  function FormatElements(c: Chroma): (es: seq<Element>) {
    [UeElement(c.formatIdc)] + if c.formatIdc == 3 then [Flag(c.residualColourTransform)] else []
  }

  function DepthElements(c: Chroma): (es: seq<Element>) {
    [UeElement(c.bitDepthLumaMinus8), UeElement(c.bitDepthChromaMinus8),
     Flag(c.qpprimeYZeroTransformBypass), Flag(c.matrixPresent)]
  }

  function MatrixElements(c: Chroma): (es: seq<Element>)
    requires |c.lists| == 12
  {
    if c.matrixPresent then ListsElements(c.lists[..8]) else []
  }

  function ChromaElements(high: bool, c: Chroma): (es: seq<Element>)
    requires |c.lists| == 12
  {
    if high then FormatElements(c) + (DepthElements(c) + MatrixElements(c)) else []
  }

  function ParseFormat(bits: seq<bool>, pos: nat): (r: (int, bool, nat))
    ensures r.2 >= pos && (r.0 != 3 ==> !r.1)
  {
    var (f, p) := ReadAll([Ue], bits, pos);
    var (res, q) := if f[0] == 3 then ReadFlag(bits, p) else (false, p);
    (f[0], res, q)
  }

  function ParseMatrix(bits: seq<bool>, pos: nat, present: bool, formatIdc: int): (r: (seq<ScalingList>, nat))
    ensures |r.0| == 12 && r.1 >= pos
    ensures !present ==> r.0 == AbsentLists(0, 12)
    ensures present && formatIdc != 3 ==> r.0[8..] == AbsentLists(8, 12)
  {
    if present then
      var n := ListsRead(formatIdc);
      var (ls, p) := ParseLists(bits, pos, 0, n);
      (ls + AbsentLists(n, 12), p)
    else
      (AbsentLists(0, 12), pos)
  }

  function ParseChroma(bits: seq<bool>, pos: nat, high: bool): (r: (Chroma, nat))
    ensures |r.0.lists| == 12 && r.1 >= pos
  {
    if !high then (DEFAULT_CHROMA, pos)
    else
      var (f, res, p1) := ParseFormat(bits, pos);
      var (v, p2) := ReadAll(DEPTHS, bits, p1);
      var (ls, p3) := ParseMatrix(bits, p2, v[3] == 1, f);
      (Chroma(f, res, v[0], v[1], v[2] == 1, v[3] == 1, ls), p3)
  }

  lemma FormatRoundTrip(bits: seq<bool>, pos: nat, c: Chroma)
    requires c.formatIdc != 3 ==> !c.residualColourTransform
    requires Holds(bits, pos, FormatElements(c)) && AllWritable(FormatElements(c))
    ensures ParseFormat(bits, pos) == (c.formatIdc, c.residualColourTransform, After(pos, FormatElements(c)))
  {
    hide ReadElement, Encode, Writable, ReadAll, EncodeAll, Holds, After, AllWritable, ReadFlag;
    var rest := if c.formatIdc == 3 then [Flag(c.residualColourTransform)] else [];
    TakeRun(bits, pos, [UeElement(c.formatIdc)], rest);
    assert Descriptors([UeElement(c.formatIdc)]) == [Ue];
    ReadAllWritten([Ue], bits, pos, [UeElement(c.formatIdc)]);
    var p := After(pos, [UeElement(c.formatIdc)]);
    NothingAfter(p);
    if c.formatIdc == 3 {
      assert rest == [Flag(c.residualColourTransform)] + [];
      FlagRoundTrip(bits, p, c.residualColourTransform, []);
    }
  }

  lemma DepthsRoundTrip(bits: seq<bool>, pos: nat, c: Chroma)
    requires Holds(bits, pos, DepthElements(c)) && AllWritable(DepthElements(c))
    ensures var (v, p) := ReadAll(DEPTHS, bits, pos);
            && v[0] == c.bitDepthLumaMinus8 && v[1] == c.bitDepthChromaMinus8
            && (v[2] == 1) == c.qpprimeYZeroTransformBypass && (v[3] == 1) == c.matrixPresent
            && p == After(pos, DepthElements(c))
  {
    hide ReadElement, Encode, Writable, ReadAll, EncodeAll, Holds, After, AllWritable;
    assert Descriptors(DepthElements(c)) == DEPTHS;
    ReadAllWritten(DEPTHS, bits, pos, DepthElements(c));
  }

  lemma ChromaRoundTrip(bits: seq<bool>, pos: nat, high: bool, c: Chroma)
    requires CanonicalChroma(high, c) && !(c.formatIdc == 3 && c.matrixPresent)
    requires Holds(bits, pos, ChromaElements(high, c)) && AllWritable(ChromaElements(high, c))
    ensures ParseChroma(bits, pos, high) == (c, After(pos, ChromaElements(high, c)))
  {
    hide ReadElement, Encode, Writable, ReadAll, EncodeAll, Holds, After, AllWritable, ReadFlag, ParseFormat, FormatElements, DepthElements, ParseLists, CanonicalLists;
    NothingAfter(pos);
    if high {
      TakeRun(bits, pos, FormatElements(c), DepthElements(c) + MatrixElements(c));
      FormatRoundTrip(bits, pos, c);
      var p1 := After(pos, FormatElements(c));
      TakeRun(bits, p1, DepthElements(c), MatrixElements(c));
      DepthsRoundTrip(bits, p1, c);
      var p2 := After(p1, DepthElements(c));
      NothingAfter(p2);
      if c.matrixPresent {
        ListsRoundTrip(bits, p2, c.lists[..8], 0);
        assert c.lists == c.lists[..8] + c.lists[8..];
      }
    }
  }

  // ---------- frame numbers and picture order count ----------

  datatype Poc = Poc(
    log2MaxFrameNumMinus4: int,
    kind: int,
    log2MaxLsbMinus4: int,
    deltaAlwaysZero: bool,
    offsetForNonRefPic: int,
    offsetForTopToBottomField: int,
    numRefFramesInCycle: int,
    offsetForRefFrame: seq<int>)

  predicate CanonicalPoc(c: Poc) {
    && (c.kind != 0 ==> c.log2MaxLsbMinus4 == 0)
    && (c.kind != 1 ==> !c.deltaAlwaysZero && c.offsetForNonRefPic == 0 && c.offsetForTopToBottomField == 0
                        && c.numRefFramesInCycle == 0)
    && c.numRefFramesInCycle == |c.offsetForRefFrame|
  }

  function Offsets(vs: seq<int>): (es: seq<Element>)
    ensures Values(es) == vs && Descriptors(es) == seq(|vs|, _ => Se)
  {
    Fields(seq(|vs|, _ => Se), vs)
  }

  const CYCLE: seq<Descriptor> := [U(1), Se, Se, Ue]

  function PocHead(c: Poc): (es: seq<Element>) {
    [UeElement(c.log2MaxFrameNumMinus4), UeElement(c.kind)]
  }

  function CycleElements(c: Poc): (es: seq<Element>) {
    [Flag(c.deltaAlwaysZero), SeElement(c.offsetForNonRefPic), SeElement(c.offsetForTopToBottomField),
     UeElement(c.numRefFramesInCycle)]
  }

  function PocTail(c: Poc): (es: seq<Element>) {
    if c.kind == 0 then [UeElement(c.log2MaxLsbMinus4)]
    else if c.kind == 1 then CycleElements(c) + Offsets(c.offsetForRefFrame)
    else []
  }

  function PocElements(c: Poc): (es: seq<Element>) {
    PocHead(c) + PocTail(c)
  }

  function ParseCycle(bits: seq<bool>, pos: nat): (r: (seq<int>, seq<int>, nat))
    ensures |r.0| == 4 && r.0[3] == |r.1| && r.2 >= pos
  {
    var (v, p) := ReadAll(CYCLE, bits, pos);
    FourthIsNatural(bits, pos);
    var (os, q) := ReadAll(seq(v[3], _ => Se), bits, p);
    (v, os, q)
  }

  lemma FourthIsNatural(bits: seq<bool>, pos: nat)
    ensures ReadAll(CYCLE, bits, pos).0[3] >= 0
  {
    hide ReadUe, ReadU, UeToSe;
    ReadAllAppend([U(1), Se, Se], [Ue], bits, pos);
    assert CYCLE == [U(1), Se, Se] + [Ue];
    UeIsNatural(bits, ReadAll([U(1), Se, Se], bits, pos).1, [Ue]);
  }

  function ParsePoc(bits: seq<bool>, pos: nat): (r: (Poc, nat))
    ensures CanonicalPoc(r.0) && r.1 >= pos
  {
    var (h, p) := ReadAll([Ue, Ue], bits, pos);
    if h[1] == 0 then
      var (l, q) := ReadAll([Ue], bits, p);
      (Poc(h[0], 0, l[0], false, 0, 0, 0, []), q)
    else if h[1] == 1 then
      var (v, os, q) := ParseCycle(bits, p);
      (Poc(h[0], 1, 0, v[0] == 1, v[1], v[2], v[3], os), q)
    else
      (Poc(h[0], h[1], 0, false, 0, 0, 0, []), p)
  }

  lemma CycleRoundTrip(bits: seq<bool>, pos: nat, c: Poc)
    requires CanonicalPoc(c)
    requires Holds(bits, pos, CycleElements(c) + Offsets(c.offsetForRefFrame))
    requires AllWritable(CycleElements(c) + Offsets(c.offsetForRefFrame))
    ensures ParseCycle(bits, pos) == (Values(CycleElements(c)), c.offsetForRefFrame,
                                      After(pos, CycleElements(c) + Offsets(c.offsetForRefFrame)))
  {
    hide ReadElement, Encode, Writable, ReadAll, EncodeAll, Holds, After, AllWritable;
    TakeRun(bits, pos, CycleElements(c), Offsets(c.offsetForRefFrame));
    assert Descriptors(CycleElements(c)) == CYCLE;
    ReadAllWritten(CYCLE, bits, pos, CycleElements(c));
    var p := After(pos, CycleElements(c));
    assert Values(CycleElements(c))[3] == c.numRefFramesInCycle;
    ReadAllWritten(seq(|c.offsetForRefFrame|, _ => Se), bits, p, Offsets(c.offsetForRefFrame));
  }

  lemma PocRoundTrip(bits: seq<bool>, pos: nat, c: Poc)
    requires CanonicalPoc(c)
    requires Holds(bits, pos, PocElements(c)) && AllWritable(PocElements(c))
    ensures ParsePoc(bits, pos) == (c, After(pos, PocElements(c)))
  {
    hide ReadElement, Encode, Writable, ReadAll, EncodeAll, Holds, After, AllWritable, ParseCycle;
    TakeRun(bits, pos, PocHead(c), PocTail(c));
    assert Descriptors(PocHead(c)) == [Ue, Ue];
    ReadAllWritten([Ue, Ue], bits, pos, PocHead(c));
    var p := After(pos, PocHead(c));
    NothingAfter(p);
    if c.kind == 0 {
      assert Descriptors(PocTail(c)) == [Ue];
      ReadAllWritten([Ue], bits, p, PocTail(c));
    } else if c.kind == 1 {
      CycleRoundTrip(bits, p, c);
    }
  }

  // ---------- picture size and cropping ----------

  datatype Picture = Picture(
    numRefFrames: int,
    gapsAllowed: bool,
    widthInMbsMinus1: int,
    heightInMapUnitsMinus1: int,
    frameMbsOnly: bool,
    mbAdaptiveFrameField: bool,
    direct8x8Inference: bool)

  /** cropping: the left, right, top and bottom offsets. */
  const CROPPING: seq<Descriptor> := [Ue, Ue, Ue, Ue]
  const SIZE: seq<Descriptor> := [Ue, U(1), Ue, Ue, U(1)]

  predicate CanonicalPicture(c: Picture) {
    c.frameMbsOnly ==> !c.mbAdaptiveFrameField
  }

  function SizeElements(c: Picture): (es: seq<Element>) {
    [UeElement(c.numRefFrames), Flag(c.gapsAllowed), UeElement(c.widthInMbsMinus1),
     UeElement(c.heightInMapUnitsMinus1), Flag(c.frameMbsOnly)]
  }

  function FieldElements(c: Picture): (es: seq<Element>) {
    (if c.frameMbsOnly then [] else [Flag(c.mbAdaptiveFrameField)]) + [Flag(c.direct8x8Inference)]
  }

  function PictureElements(c: Picture): (es: seq<Element>) {
    SizeElements(c) + FieldElements(c)
  }

  function ParsePicture(bits: seq<bool>, pos: nat): (r: (Picture, nat))
    ensures CanonicalPicture(r.0) && r.1 >= pos
  {
    var (v, p) := ReadAll(SIZE, bits, pos);
    var (mbaff, q) := if v[4] == 1 then (false, p) else ReadFlag(bits, p);
    var (direct, r) := ReadFlag(bits, q);
    (Picture(v[0], v[1] == 1, v[2], v[3], v[4] == 1, mbaff, direct), r)
  }

  lemma PictureRoundTrip(bits: seq<bool>, pos: nat, c: Picture)
    requires CanonicalPicture(c)
    requires Holds(bits, pos, PictureElements(c)) && AllWritable(PictureElements(c))
    ensures ParsePicture(bits, pos) == (c, After(pos, PictureElements(c)))
  {
    hide ReadElement, Encode, Writable, ReadAll, EncodeAll, Holds, After, AllWritable, ReadFlag;
    TakeRun(bits, pos, SizeElements(c), FieldElements(c));
    assert Descriptors(SizeElements(c)) == SIZE;
    ReadAllWritten(SIZE, bits, pos, SizeElements(c));
    var p := After(pos, SizeElements(c));
    var q := p;
    if c.frameMbsOnly {
      assert FieldElements(c) == [Flag(c.direct8x8Inference)];
    } else {
      FlagRoundTrip(bits, p, c.mbAdaptiveFrameField, [Flag(c.direct8x8Inference)]);
      q := After(p, [Flag(c.mbAdaptiveFrameField)]);
    }
    assert [Flag(c.direct8x8Inference)] + [] == [Flag(c.direct8x8Inference)];
    FlagRoundTrip(bits, q, c.direct8x8Inference, []);
    NothingAfter(After(q, [Flag(c.direct8x8Inference)]));
  }

  // ---------- the whole parameter set ----------

  datatype Sps = Sps(
    header: Header,
    chroma: Chroma,
    poc: Poc,
    picture: Picture,
    cropping: FieldGroup,
    vuiPresent: bool,
    vui: Vui)

  predicate WellFormed(s: Sps) {
    && |s.chroma.lists| == 12 && |s.cropping.values| == 4
    && CanonicalVui(s.vui) && (!s.vuiPresent ==> s.vui == NO_VUI)
  }

  /** The records whose absent fields are the reader's defaults. */
  predicate Canonical(s: Sps) {
    && CanonicalChroma(HighProfile(s.header.profileIdc), s.chroma)
    && CanonicalPoc(s.poc) && CanonicalPicture(s.picture)
    && CanonicalGroup(s.cropping, 4)
    && CanonicalVui(s.vui) && (!s.vuiPresent ==> s.vui == NO_VUI)
  }

  function OptionalVuiElements(present: bool, v: Vui): (es: seq<Element>)
    requires CanonicalVui(v)
  {
    [Flag(present)] + if present then VuiElements(v) else []
  }

  function LeadingElements(s: Sps): (es: seq<Element>)
    requires WellFormed(s)
  {
    HeaderElements(s.header) + ChromaElements(HighProfile(s.header.profileIdc), s.chroma)
  }

  function TrailingElements(s: Sps): (es: seq<Element>)
    requires WellFormed(s)
  {
    PocElements(s.poc) + (PictureElements(s.picture)
    + (GroupElements(CROPPING, s.cropping) + OptionalVuiElements(s.vuiPresent, s.vui)))
  }

  /** The elements that write_seq_parameter_set_rbsp sends, in order. */
  function SpsElements(s: Sps): (es: seq<Element>)
    requires WellFormed(s)
  {
    LeadingElements(s) + TrailingElements(s)
  }

  function ParseOptionalVui(bits: seq<bool>, pos: nat): (r: (bool, Vui, nat))
    ensures CanonicalVui(r.1) && (!r.0 ==> r.1 == NO_VUI) && r.2 >= pos
  {
    var (f, p) := ReadFlag(bits, pos);
    if f then
      var (v, q) := ParseVui(bits, p);
      (true, v, q)
    else
      (false, NO_VUI, p)
  }

  /** read_seq_parameter_set_rbsp: the record, and the position after it. */
  function ParseSps(bits: seq<bool>, pos: nat): (r: (Sps, nat))
    ensures WellFormed(r.0) && r.1 >= pos
  {
    var (h, p1) := ParseHeader(bits, pos);
    var (c, p2) := ParseChroma(bits, p1, HighProfile(h.profileIdc));
    var (poc, p3) := ParsePoc(bits, p2);
    var (pic, p4) := ParsePicture(bits, p3);
    var (crop, p5) := ParseGroup(CROPPING, bits, p4);
    var (f, v, p6) := ParseOptionalVui(bits, p5);
    (Sps(h, c, poc, pic, crop, f, v), p6)
  }

  lemma OptionalVuiRoundTrip(bits: seq<bool>, pos: nat, present: bool, v: Vui)
    requires CanonicalVui(v) && (!present ==> v == NO_VUI)
    requires Holds(bits, pos, OptionalVuiElements(present, v)) && AllWritable(OptionalVuiElements(present, v))
    ensures ParseOptionalVui(bits, pos) == (present, v, After(pos, OptionalVuiElements(present, v)))
  {
    hide ReadElement, Encode, Writable, ReadAll, EncodeAll, Holds, After, AllWritable, ReadFlag, ParseVui, VuiElements;
    var es := if present then VuiElements(v) else [];
    FlagRoundTrip(bits, pos, present, es);
    WritableAppend([Flag(present)], es);
    if present {
      VuiRoundTrip(bits, After(pos, [Flag(true)]), v);
    } else {
      NothingAfter(After(pos, [Flag(false)]));
    }
  }

  /** Reading a sequence parameter set that was written at any position gives
      the same record and leaves the cursor where the writer stopped. */
  lemma SpsRoundTrip(bits: seq<bool>, pos: nat, s: Sps)
    requires Canonical(s) && !(s.chroma.formatIdc == 3 && s.chroma.matrixPresent)
    requires Holds(bits, pos, SpsElements(s)) && AllWritable(SpsElements(s))
    ensures ParseSps(bits, pos) == (s, After(pos, SpsElements(s)))
  {
    assert WellFormed(s);
    hide ReadElement, Encode, Writable, ReadAll, EncodeAll, Holds, After, AllWritable, HeaderElements, ParseHeader, ChromaElements, ParseChroma, PocElements, ParsePoc,
         PictureElements, ParsePicture, GroupElements, ParseGroup, OptionalVuiElements, ParseOptionalVui,
         CanonicalChroma, CanonicalPoc, CanonicalVui;
    var high := HighProfile(s.header.profileIdc);
    var e6 := OptionalVuiElements(s.vuiPresent, s.vui);
    var e5 := GroupElements(CROPPING, s.cropping) + e6;
    var e4 := PictureElements(s.picture) + e5;
    TakeRun(bits, pos, LeadingElements(s), TrailingElements(s));
    TakeRun(bits, pos, HeaderElements(s.header), ChromaElements(high, s.chroma));
    HeaderRoundTrip(bits, pos, s.header);
    var p1 := After(pos, HeaderElements(s.header));
    ChromaRoundTrip(bits, p1, high, s.chroma);
    var p2 := After(p1, ChromaElements(high, s.chroma));
    TakeRun(bits, p2, PocElements(s.poc), e4);
    PocRoundTrip(bits, p2, s.poc);
    var p3 := After(p2, PocElements(s.poc));
    TakeRun(bits, p3, PictureElements(s.picture), e5);
    PictureRoundTrip(bits, p3, s.picture);
    var p4 := After(p3, PictureElements(s.picture));
    TakeRun(bits, p4, GroupElements(CROPPING, s.cropping), e6);
    GroupRoundTrip(CROPPING, bits, p4, s.cropping);
    OptionalVuiRoundTrip(bits, After(p4, GroupElements(CROPPING, s.cropping)), s.vuiPresent, s.vui);
  }

  // ---------- what the reader yields ----------

  /** The records whose matrix the reader takes for 12 lists. */
  predicate Has12Lists(s: Sps) {
    s.chroma.formatIdc == 3 && s.chroma.matrixPresent
  }

  /** The lists that were sent are lists the writer can reproduce. */
  predicate ListsInRange(s: Sps)
    requires |s.chroma.lists| == 12
  {
    forall k: nat :: k < 8 && s.chroma.lists[k].present
      ==> CanonicalList(s.chroma.lists[k].entries, s.chroma.lists[k].useDefault)
  }

  /** A slot with any entries. */
  predicate ShapedSlot(l: ScalingList, size: nat) {
    |l.entries| == size && (!l.present ==> l == Absent(size))
  }

  predicate ShapedLists(ls: seq<ScalingList>, i: nat) {
    forall k: nat :: k < |ls| ==> ShapedSlot(ls[k], ListSize(i + k))
  }

  predicate ShapedChroma(high: bool, c: Chroma) {
    && |c.lists| == 12
    && (!high ==> c == DEFAULT_CHROMA)
    && (c.formatIdc != 3 ==> !c.residualColourTransform)
    && (!c.matrixPresent ==> c.lists == AbsentLists(0, 12))
    && (c.matrixPresent ==> ShapedLists(c.lists[..8], 0) && c.lists[8..] == AbsentLists(8, 12))
  }

  /** The records whose absent fields are the reader's defaults, whatever the
      entries of their lists are. */
  predicate Shaped(s: Sps) {
    && ShapedChroma(HighProfile(s.header.profileIdc), s.chroma)
    && CanonicalPoc(s.poc) && CanonicalPicture(s.picture)
    && CanonicalGroup(s.cropping, 4)
    && CanonicalVui(s.vui) && (!s.vuiPresent ==> s.vui == NO_VUI)
  }

  lemma {:induction false} AbsentAreAbsent(i: nat, n: nat)
    requires i <= n
    ensures forall k: nat :: k < n - i ==> !AbsentLists(i, n)[k].present
    decreases n - i
  {
    if i < n {
      AbsentAreAbsent(i + 1, n);
    }
  }

  lemma SlotInRange(l: ScalingList, size: nat)
    ensures CanonicalSlot(l, size) <==> ShapedSlot(l, size) && (l.present ==> CanonicalList(l.entries, l.useDefault))
  {
  }

  lemma ListsAreInRange(ls: seq<ScalingList>, i: nat)
    ensures CanonicalLists(ls, i)
            <==> ShapedLists(ls, i) && forall k: nat :: k < |ls| && ls[k].present ==> CanonicalList(ls[k].entries, ls[k].useDefault)
  {
    hide CanonicalSlot, ShapedSlot, CanonicalList;
    forall k: nat | k < |ls|
      ensures CanonicalSlot(ls[k], ListSize(i + k))
              <==> ShapedSlot(ls[k], ListSize(i + k)) && (ls[k].present ==> CanonicalList(ls[k].entries, ls[k].useDefault))
    {
      SlotInRange(ls[k], ListSize(i + k));
    }
  }

  /** Such a record is canonical if and only if its lists are in range. */
  lemma CanonicalExactly(s: Sps)
    requires Shaped(s)
    ensures Canonical(s) <==> ListsInRange(s)
  {
    hide CanonicalPoc, CanonicalVui, CanonicalLists, ShapedLists, CanonicalList;
    var c := s.chroma;
    if c.matrixPresent {
      ListsAreInRange(c.lists[..8], 0);
      assert forall k: nat :: k < 8 ==> c.lists[..8][k] == c.lists[k];
    } else {
      AbsentAreAbsent(0, 12);
    }
  }

  // ---------- chroma_format_idc 3 with a scaling matrix ----------

  lemma {:induction false} ParseListsSplit(bits: seq<bool>, pos: nat, i: nat, m: nat, n: nat)
    requires i <= m <= n
    ensures var a := ParseLists(bits, pos, i, m);
            var b := ParseLists(bits, a.1, m, n);
            ParseLists(bits, pos, i, n) == (a.0 + b.0, b.1)
    decreases m - i
  {
    hide ParseSlot;
    if i == m {
      assert [] + ParseLists(bits, pos, m, n).0 == ParseLists(bits, pos, m, n).0;
    } else {
      var s := ParseSlot(bits, pos, ListSize(i));
      ParseListsSplit(bits, s.1, i + 1, m, n);
      var a := ParseLists(bits, s.1, i + 1, m);
      var b := ParseLists(bits, a.1, m, n);
      assert [s.0] + (a.0 + b.0) == ([s.0] + a.0) + b.0;
    }
  }

  /** No list is present that the writer does not send. */
  predicate NoLastLists(s: Sps)
    requires |s.chroma.lists| == 12
  {
    Has12Lists(s) ==> s.chroma.lists[8..] == AbsentLists(8, 12)
  }

  /** On any bits at all the reader yields such a record, unless it met one of
      lists 8 to 11. */
  lemma ParsedIsShaped(bits: seq<bool>, pos: nat)
    requires NoLastLists(ParseSps(bits, pos).0)
    ensures Shaped(ParseSps(bits, pos).0)
  {
    hide ReadElement, ReadFlag, ParsePoc, ParsePicture, ParseGroup, ParseOptionalVui, ParseFormat, ParseHeader;
    var h := ParseHeader(bits, pos);
    ChromaIsShaped(bits, h.1, HighProfile(h.0.profileIdc));
  }

  lemma ChromaIsShaped(bits: seq<bool>, pos: nat, high: bool)
    requires var c := ParseChroma(bits, pos, high).0;
             c.formatIdc == 3 && c.matrixPresent ==> c.lists[8..] == AbsentLists(8, 12)
    ensures ShapedChroma(high, ParseChroma(bits, pos, high).0)
  {
    hide ReadElement, ReadFlag, ParseFormat, ParseLists;
    if high {
      var f := ParseFormat(bits, pos);
      var v := ReadAll(DEPTHS, bits, f.2);
      var c := ParseChroma(bits, pos, high).0;
      if c.matrixPresent {
        var n := ListsRead(c.formatIdc);
        var ls := ParseLists(bits, v.1, 0, n).0;
        assert c.lists == ls + AbsentLists(n, 12);
        assert forall k: nat :: k < 8 ==> c.lists[..8][k] == ls[k];
      }
    }
  }

  /** On any bits at all the reader then yields a canonical record if and only
      if the scaling lists it met are in range. */
  lemma ParsedIsCanonical(bits: seq<bool>, pos: nat)
    requires NoLastLists(ParseSps(bits, pos).0)
    ensures Canonical(ParseSps(bits, pos).0) <==> ListsInRange(ParseSps(bits, pos).0)
  {
    hide ParseSps, Canonical, ListsInRange, Shaped, NoLastLists;
    ParsedIsShaped(bits, pos);
    CanonicalExactly(ParseSps(bits, pos).0);
  }

  lemma FlagIsBit(bits: seq<bool>, pos: nat)
    ensures ReadFlag(bits, pos).0 == BitAt(bits, pos)
  {
    assert ReadU(bits, pos, 0) == 0;
  }

  /** Slots that read as absent are zero bits. */
  lemma {:induction false} AbsentAreZeros(bits: seq<bool>, pos: nat, i: nat, n: nat)
    requires i <= n && forall k: nat :: k < n - i ==> !ParseLists(bits, pos, i, n).0[k].present
    ensures forall j: nat :: pos <= j < pos + n - i ==> !BitAt(bits, j)
    ensures ParseLists(bits, pos, i, n).1 == pos + n - i
    decreases n - i
  {
    hide ReadFlag, ParseScalingList;
    if i < n {
      FlagIsBit(bits, pos);
      var all := ParseLists(bits, pos, i, n).0;
      assert !all[0].present;
      var rest := ParseLists(bits, pos + 1, i + 1, n).0;
      forall k: nat | k < n - i - 1
        ensures !rest[k].present
      {
        assert all[k + 1] == rest[k];
      }
      AbsentAreZeros(bits, pos + 1, i + 1, n);
    }
  }

  /** With chroma_format_idc 3 the reader takes the four bits that follow the
      eight lists for the flags of four more. If they are zeros the chroma part
      comes out right, but the cursor is behind them. */
  lemma TwelveListsEatFourZeros(bits: seq<bool>, pos: nat, c: Chroma)
    requires CanonicalChroma(true, c) && c.formatIdc == 3 && c.matrixPresent
    requires Holds(bits, pos, ChromaElements(true, c)) && AllWritable(ChromaElements(true, c))
    requires ParseChroma(bits, pos, true).0 == c
    ensures var p := After(pos, ChromaElements(true, c));
            ParseChroma(bits, pos, true).1 == p + 4 && forall j: nat :: p <= j < p + 4 ==> !BitAt(bits, j)
  {
    hide ReadElement, Encode, Writable, ReadAll, EncodeAll, Holds, After, AllWritable, ReadFlag, ParseFormat, FormatElements, DepthElements, ParseLists, CanonicalLists,
         ListsElements;
    TakeRun(bits, pos, FormatElements(c), DepthElements(c) + MatrixElements(c));
    FormatRoundTrip(bits, pos, c);
    var p1 := After(pos, FormatElements(c));
    TakeRun(bits, p1, DepthElements(c), MatrixElements(c));
    DepthsRoundTrip(bits, p1, c);
    var p2 := After(p1, DepthElements(c));
    ListsRoundTrip(bits, p2, c.lists[..8], 0);
    ParseListsSplit(bits, p2, 0, 8, 12);
    var p3 := After(p2, MatrixElements(c));
    var tail := ParseLists(bits, p3, 8, 12).0;
    assert AbsentLists(12, 12) == [];
    assert c.lists == c.lists[..8] + tail;
    assert tail == AbsentLists(8, 12);
    AbsentAreAbsent(8, 12);
    AbsentAreZeros(bits, p3, 8, 12);
  }

  /** Behind four zero bits that begin log2_max_frame_num_minus4 the reader
      finds another value. */
  lemma PocBehindFourZeros(bits: seq<bool>, pos: nat, poc: Poc)
    requires Holds(bits, pos, PocElements(poc)) && poc.log2MaxFrameNumMinus4 != TWO_32 - 1
    requires forall j: nat :: pos <= j < pos + 4 ==> !BitAt(bits, j)
    ensures ParsePoc(bits, pos + 4).0.log2MaxFrameNumMinus4 != poc.log2MaxFrameNumMinus4
  {
    hide PocTail, WritableUe, UeBits, At, BitAt, ReadU, ReadUe, ParseCycle, EncodeAll;
    var v := poc.log2MaxFrameNumMinus4;
    var first := UeElement(v);
    assert PocElements(poc) == [first] + ([UeElement(poc.kind)] + PocTail(poc));
    HoldsAppend(bits, pos, [first], [UeElement(poc.kind)] + PocTail(poc));
    EncodeSingle(first);
    FirstOfPoc(bits, pos + 4);
    if 0 <= v < TWO_32 {
      LateReadIsSmaller(bits, pos, v, 4);
    }
  }

  lemma FirstOfPoc(bits: seq<bool>, pos: nat)
    ensures ParsePoc(bits, pos).0.log2MaxFrameNumMinus4 == ReadUe(bits, pos).0
  {
    hide ReadUe, ReadU, ParseCycle, UeToSe;
  }
}
