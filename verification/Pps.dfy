/** The picture parameter set, section 7.3.2.2 of H.264, as h264bitstream.c writes and reads it. */
module PictureParameterSet {
  import opened CArithmetic
  import opened Bits
  import opened ExpGolomb
  import opened Syntax
  import opened ScalingLists
  import opened VuiParameters
  import opened SequenceParameterSet

  // ---------- intlog2 ----------

  /** The least n with 2^n >= x; 0 for x <= 0. */
  function CeilLog2(x: int): (n: nat)
    ensures x <= Pow2(n)
    ensures n > 0 ==> Pow2(n - 1) < x
  {
    if x <= 1 then 0
    else
      BitLenBounds(x - 1);
      BitLen(x - 1)
  }

  /** intlog2: counts the digits of x, and takes one off for a power of two. */
  method IntLog2(x: int) returns (log: nat)
    ensures log == CeilLog2(x)
    ensures x <= Pow2(log) && (log > 0 ==> Pow2(log - 1) < x)
  {
    hide CeilLog2, Shr, BitLen, Pow2;
    var v := if x < 0 then 0 else x;
    log := 0;
    while Shr(v, log) > 0
      invariant log <= BitLen(v)
      invariant log == 0 || Shr(v, log - 1) > 0
      decreases BitLen(v) - log
    {
      ShrPositive(v, log);
      log := log + 1;
    }
    DigitsCounted(v, log);
    if log > 0 && v == Pow2(log - 1) {
      log := log - 1;
      PowerBelow(log);
    }
    LeastPower(x, log, CeilLog2(x));
  }

  lemma DigitsCounted(v: nat, log: nat)
    requires Shr(v, log) == 0 && (log == 0 || Shr(v, log - 1) > 0)
    ensures v <= Pow2(log) && (log > 0 ==> Pow2(log - 1) <= v)
  {
    ShrPositive(v, log);
    if log > 0 {
      ShrPositive(v, log - 1);
      BitLenBounds(v);
    }
  }

  lemma PowerBelow(n: nat)
    ensures n > 0 ==> Pow2(n - 1) < Pow2(n)
  {
  }

  lemma {:induction false} ShrPositive(v: nat, k: nat)
    ensures Shr(v, k) > 0 <==> k < BitLen(v)
  {
    if k > 0 {
      ShrPositive(v / 2, k - 1);
    }
  }

  lemma LeastPower(x: int, m: nat, n: nat)
    requires x <= Pow2(m) && (m > 0 ==> Pow2(m - 1) < x)
    requires x <= Pow2(n) && (n > 0 ==> Pow2(n - 1) < x)
    ensures m == n
  {
    if m < n {
      Pow2Monotonic(m, n - 1);
    } else if n < m {
      Pow2Monotonic(n, m - 1);
    }
  }

  // ---------- slice groups ----------

  /** The slice group syntax that the map type selects; `Other` stands for
      the types 1 and above 6, which have none. */
  datatype SliceGroups =
    | Single
    | RunLengths(runLengthMinus1: seq<int>)
    | Rectangles(corners: seq<int>)
    | Evolving(mapType: int, changeDirection: bool, changeRateMinus1: int)
    | Explicit(picSizeInMapUnitsMinus1: int, groupIds: seq<int>)
    | Other(mapType: int)

  /** corners: top_left and bottom_right of each rectangle in turn. */
  predicate CanonicalGroups(n: int, g: SliceGroups) {
    match g
    case Single => n <= 0
    case RunLengths(rs) => n > 0 && |rs| == n + 1
    case Rectangles(cs) => n > 0 && |cs| == 2 * n
    case Evolving(t, _, _) => n > 0 && 3 <= t <= 5
    case Explicit(size, ids) => n > 0 && |ids| == size + 1
    case Other(t) => n > 0 && t !in {0, 2, 3, 4, 5, 6}
  }

  /** slice_group_map_type. */
  function MapType(g: SliceGroups): int {
    match g
    case Single => 0
    case RunLengths(_) => 0
    case Rectangles(_) => 2
    case Evolving(t, _, _) => t
    case Explicit(_, _) => 6
    case Other(t) => t
  }

  function Repeat(d: Descriptor, n: nat): (ds: seq<Descriptor>)
    ensures |ds| == n
  {
    seq(n, _ => d)
  }

  function Run(d: Descriptor, vs: seq<int>): (es: seq<Element>)
    ensures Descriptors(es) == Repeat(d, |vs|) && Values(es) == vs
  {
    Fields(Repeat(d, |vs|), vs)
  }

  /** The width of a slice_group_id for n + 1 slice groups. */
  function IdWidth(n: int): nat {
    CeilLog2(n + 1)
  }

  function MapElements(n: int, g: SliceGroups): (es: seq<Element>) {
    match g
    case Single => []
    case RunLengths(rs) => Run(Ue, rs)
    case Rectangles(cs) => Run(Ue, cs)
    case Evolving(_, direction, rate) => [Flag(direction), UeElement(rate)]
    case Explicit(size, ids) => [UeElement(size)] + Run(U(IdWidth(n)), ids)
    case Other(_) => []
  }

  function GroupsElements(n: int, g: SliceGroups): (es: seq<Element>) {
    if n > 0 then [UeElement(MapType(g))] + MapElements(n, g) else []
  }

  function ParseExplicit(bits: seq<bool>, pos: nat, n: nat): (r: (SliceGroups, nat))
    ensures r.1 >= pos && r.0.Explicit? && |r.0.groupIds| == r.0.picSizeInMapUnitsMinus1 + 1
  {
    UeIsNatural(bits, pos, [Ue]);
    var (s, p) := ReadAll([Ue], bits, pos);
    var (ids, q) := ReadAll(Repeat(U(IdWidth(n)), s[0] + 1), bits, p);
    (Explicit(s[0], ids), q)
  }

  function ParseMap(bits: seq<bool>, pos: nat, n: nat, mapType: int): (r: (SliceGroups, nat))
    requires n > 0
    ensures r.1 >= pos && CanonicalGroups(n, r.0)
  {
    if mapType == 0 then
      var (rs, p) := ReadAll(Repeat(Ue, n + 1), bits, pos);
      (RunLengths(rs), p)
    else if mapType == 2 then
      var (cs, p) := ReadAll(Repeat(Ue, 2 * n), bits, pos);
      (Rectangles(cs), p)
    else if mapType == 3 || mapType == 4 || mapType == 5 then
      var (v, p) := ReadAll([U(1), Ue], bits, pos);
      (Evolving(mapType, v[0] == 1, v[1]), p)
    else if mapType == 6 then
      ParseExplicit(bits, pos, n)
    else
      (Other(mapType), pos)
  }

  function ParseGroups(bits: seq<bool>, pos: nat, n: int): (r: (SliceGroups, nat))
    ensures r.1 >= pos && CanonicalGroups(n, r.0)
  {
    if n > 0 then
      var (t, p) := ReadAll([Ue], bits, pos);
      ParseMap(bits, p, n, t[0])
    else
      (Single, pos)
  }

  lemma ExplicitRoundTrip(bits: seq<bool>, pos: nat, n: nat, g: SliceGroups)
    requires n > 0 && g.Explicit? && CanonicalGroups(n, g)
    requires Holds(bits, pos, MapElements(n, g)) && AllWritable(MapElements(n, g))
    ensures ParseExplicit(bits, pos, n) == (g, After(pos, MapElements(n, g)))
  {
    hide ReadElement, Encode, Writable, ReadAll, EncodeAll, Holds, After, AllWritable, IdWidth;
    var ids := Run(U(IdWidth(n)), g.groupIds);
    TakeRun(bits, pos, [UeElement(g.picSizeInMapUnitsMinus1)], ids);
    assert Descriptors([UeElement(g.picSizeInMapUnitsMinus1)]) == [Ue];
    ReadAllWritten([Ue], bits, pos, [UeElement(g.picSizeInMapUnitsMinus1)]);
    var p := After(pos, [UeElement(g.picSizeInMapUnitsMinus1)]);
    ReadAllWritten(Repeat(U(IdWidth(n)), |g.groupIds|), bits, p, ids);
  }

  lemma MapRoundTrip(bits: seq<bool>, pos: nat, n: nat, g: SliceGroups)
    requires n > 0 && CanonicalGroups(n, g)
    requires Holds(bits, pos, MapElements(n, g)) && AllWritable(MapElements(n, g))
    ensures ParseMap(bits, pos, n, MapType(g)) == (g, After(pos, MapElements(n, g)))
  {
    hide ReadElement, Encode, Writable, ReadAll, EncodeAll, Holds, After, AllWritable, IdWidth, ParseExplicit, Repeat;
    match g
    case RunLengths(rs) => ReadAllWritten(Repeat(Ue, n + 1), bits, pos, Run(Ue, rs));
    case Rectangles(cs) => ReadAllWritten(Repeat(Ue, 2 * n), bits, pos, Run(Ue, cs));
    case Evolving(_, direction, rate) =>
      assert Descriptors([Flag(direction), UeElement(rate)]) == [U(1), Ue];
      ReadAllWritten([U(1), Ue], bits, pos, [Flag(direction), UeElement(rate)]);
    case Explicit(_, _) => ExplicitRoundTrip(bits, pos, n, g);
    case Other(_) => NothingAfter(pos);
  }

  lemma GroupsRoundTrip(bits: seq<bool>, pos: nat, n: int, g: SliceGroups)
    requires CanonicalGroups(n, g)
    requires Holds(bits, pos, GroupsElements(n, g)) && AllWritable(GroupsElements(n, g))
    ensures ParseGroups(bits, pos, n) == (g, After(pos, GroupsElements(n, g)))
  {
    hide ReadElement, Encode, Writable, ReadAll, EncodeAll, Holds, After, AllWritable, MapElements, ParseMap;
    NothingAfter(pos);
    if n > 0 {
      TakeRun(bits, pos, [UeElement(MapType(g))], MapElements(n, g));
      assert Descriptors([UeElement(MapType(g))]) == [Ue];
      ReadAllWritten([Ue], bits, pos, [UeElement(MapType(g))]);
      MapRoundTrip(bits, After(pos, [UeElement(MapType(g))]), n, g);
    }
  }

  /** The ids of n + 1 slice groups are exactly the values that fit their fields
      in all but the unused codes: nothing is lost by the width. */
  lemma GroupIdsFit(n: nat, id: int)
    requires 0 <= id <= n && IdWidth(n) <= 32
    ensures Writable(UElement(IdWidth(n), id))
    ensures n > 0 ==> Pow2(IdWidth(n) - 1) <= n
  {
  }

  // ---------- the parts of the parameter set ----------

  datatype Identity = Identity(
    id: int, spsId: int, entropyCodingMode: bool, picOrderPresent: bool, numSliceGroupsMinus1: int)

  const IDENTITY: seq<Descriptor> := [Ue, Ue, U(1), U(1), Ue]

  function IdentityElements(h: Identity): (es: seq<Element>) {
    [UeElement(h.id), UeElement(h.spsId), Flag(h.entropyCodingMode), Flag(h.picOrderPresent),
     UeElement(h.numSliceGroupsMinus1)]
  }

  function ParseIdentity(bits: seq<bool>, pos: nat): (r: (Identity, nat))
    ensures r.1 >= pos
  {
    var (v, p) := ReadAll(IDENTITY, bits, pos);
    (Identity(v[0], v[1], v[2] == 1, v[3] == 1, v[4]), p)
  }

  lemma IdentityRoundTrip(bits: seq<bool>, pos: nat, h: Identity)
    requires Holds(bits, pos, IdentityElements(h)) && AllWritable(IdentityElements(h))
    ensures ParseIdentity(bits, pos) == (h, After(pos, IdentityElements(h)))
  {
    hide ReadElement, Encode, Writable, ReadAll, EncodeAll, Holds, After, AllWritable;
    assert Descriptors(IdentityElements(h)) == IDENTITY;
    ReadAllWritten(IDENTITY, bits, pos, IdentityElements(h));
  }

  datatype Coding = Coding(
    numRefIdxL0Minus1: int, numRefIdxL1Minus1: int, weightedPred: bool, weightedBipredIdc: int,
    picInitQpMinus26: int, picInitQsMinus26: int, chromaQpIndexOffset: int,
    deblockingControlPresent: bool, constrainedIntraPred: bool, redundantPicCntPresent: bool)

  const CODING: seq<Descriptor> := [Ue, Ue, U(1), U(2), Se, Se, Se, U(1), U(1), U(1)]

  function CodingElements(c: Coding): (es: seq<Element>) {
    [UeElement(c.numRefIdxL0Minus1), UeElement(c.numRefIdxL1Minus1), Flag(c.weightedPred),
     UElement(2, c.weightedBipredIdc), SeElement(c.picInitQpMinus26), SeElement(c.picInitQsMinus26),
     SeElement(c.chromaQpIndexOffset), Flag(c.deblockingControlPresent), Flag(c.constrainedIntraPred),
     Flag(c.redundantPicCntPresent)]
  }

  function ParseCoding(bits: seq<bool>, pos: nat): (r: (Coding, nat))
    ensures r.1 >= pos
  {
    var (v, p) := ReadAll(CODING, bits, pos);
    (Coding(v[0], v[1], v[2] == 1, v[3], v[4], v[5], v[6], v[7] == 1, v[8] == 1, v[9] == 1), p)
  }

  lemma CodingRoundTrip(bits: seq<bool>, pos: nat, c: Coding)
    requires Holds(bits, pos, CodingElements(c)) && AllWritable(CodingElements(c))
    ensures ParseCoding(bits, pos) == (c, After(pos, CodingElements(c)))
  {
    hide ReadElement, Encode, Writable, ReadAll, EncodeAll, Holds, After, AllWritable;
    assert Descriptors(CodingElements(c)) == CODING;
    ReadAllWritten(CODING, bits, pos, CodingElements(c));
  }

  // ---------- the optional extension ----------

  datatype Extension = Extension(
    transform8x8: bool, matrixPresent: bool, lists: seq<ScalingList>, secondChromaQpIndexOffset: int)

  /** What the reader leaves where no extension was sent. */
  const NO_EXTENSION: Extension := Extension(false, false, AbsentLists(0, 8), 0)

  function ListsSent(transform8x8: bool): nat {
    if transform8x8 then 8 else 6
  }

  predicate CanonicalExtension(x: Extension) {
    && |x.lists| == 8
    && if x.matrixPresent then
         var n := ListsSent(x.transform8x8);
         CanonicalLists(x.lists[..n], 0) && x.lists[n..] == AbsentLists(n, 8)
       else
         x.lists == AbsentLists(0, 8)
  }

  /** The writer's test for sending the extension. */
  predicate HasExtension(x: Extension) {
    x.transform8x8 || x.matrixPresent || x.secondChromaQpIndexOffset != 0
  }

  function ExtensionBody(x: Extension): (es: seq<Element>)
    requires |x.lists| == 8
  {
    (if x.matrixPresent then ListsElements(x.lists[..ListsSent(x.transform8x8)]) else [])
    + [SeElement(x.secondChromaQpIndexOffset)]
  }

  function ExtensionElements(x: Extension): (es: seq<Element>)
    requires |x.lists| == 8
  {
    if HasExtension(x) then [Flag(x.transform8x8)] + ([Flag(x.matrixPresent)] + ExtensionBody(x)) else []
  }

  /** more_rbsp_data: a zero bit is no stop bit, and a one bit is the stop bit
      only if nothing but zeros follows it. */
  predicate MoreRbspData(bits: seq<bool>, pos: nat) {
    && !Eof(bits, pos)
    && (bits[pos] ==> exists k: nat :: pos < k < |bits| && bits[k])
  }

  function ParseExtensionLists(bits: seq<bool>, pos: nat, present: bool, transform8x8: bool): (r: (seq<ScalingList>, nat))
    ensures |r.0| == 8 && r.1 >= pos
  {
    if present then
      var n := ListsSent(transform8x8);
      var (ls, p) := ParseLists(bits, pos, 0, n);
      (ls + AbsentLists(n, 8), p)
    else
      (AbsentLists(0, 8), pos)
  }

  function ParseExtension(bits: seq<bool>, pos: nat): (r: (Extension, nat))
    ensures |r.0.lists| == 8 && r.1 >= pos
  {
    if MoreRbspData(bits, pos) then
      var (t, p1) := ReadFlag(bits, pos);
      var (m, p2) := ReadFlag(bits, p1);
      var (ls, p3) := ParseExtensionLists(bits, p2, m, t);
      var (s, p4) := ReadElement(Se, bits, p3);
      (Extension(t, m, ls, s), p4)
    else
      (NO_EXTENSION, pos)
  }

  lemma ExtensionBodyRoundTrip(bits: seq<bool>, pos: nat, x: Extension)
    requires CanonicalExtension(x)
    requires Holds(bits, pos, ExtensionBody(x)) && AllWritable(ExtensionBody(x))
    ensures var (ls, p) := ParseExtensionLists(bits, pos, x.matrixPresent, x.transform8x8);
            ls == x.lists && ReadElement(Se, bits, p) == (x.secondChromaQpIndexOffset, After(pos, ExtensionBody(x)))
  {
    hide ReadElement, Encode, Writable, ReadAll, EncodeAll, Holds, After, ParseLists, ListsElements, CanonicalLists;
    var n := ListsSent(x.transform8x8);
    var lists := if x.matrixPresent then ListsElements(x.lists[..n]) else [];
    var last := SeElement(x.secondChromaQpIndexOffset);
    TakeRun(bits, pos, lists, [last]);
    NothingAfter(pos);
    if x.matrixPresent {
      ListsRoundTrip(bits, pos, x.lists[..n], 0);
      assert x.lists == x.lists[..n] + x.lists[n..];
    }
    assert [last] + [] == [last] && last in [last];
    ReadFirst(bits, After(pos, lists), last, []);
  }

  /** After the last element comes the stop bit, and then only zeros. */
  ghost predicate StopAt(bits: seq<bool>, pos: nat) {
    pos < |bits| && bits[pos] && forall k: nat :: pos < k < |bits| ==> !bits[k]
  }

  /** The reader's look-ahead agrees with the writer's test. */
  lemma LookaheadAgrees(bits: seq<bool>, pos: nat, x: Extension)
    requires |x.lists| == 8
    requires Holds(bits, pos, ExtensionElements(x)) && StopAt(bits, After(pos, ExtensionElements(x)))
    ensures MoreRbspData(bits, pos) <==> HasExtension(x)
  {
    hide ReadElement, Encode, Writable, ReadAll, EncodeAll, Holds, After, ExtensionBody, ReadFlag;
    var stop := After(pos, ExtensionElements(x));
    NothingAfter(pos);
    if HasExtension(x) {
      var rest := [Flag(x.matrixPresent)] + ExtensionBody(x);
      FlagRoundTrip(bits, pos, x.transform8x8, rest);
      FlagWidth(pos, x.transform8x8);
      AfterGrows(pos + 1, rest);
      assert pos < stop < |bits| && bits[stop];
    }
  }

  lemma AfterGrows(pos: nat, es: seq<Element>)
    ensures After(pos, es) >= pos
  {
  }

  lemma FlagWidth(pos: nat, f: bool)
    ensures After(pos, [Flag(f)]) == pos + 1
  {
    EncodeSingle(Flag(f));
    FlagLength(f);
  }

  lemma ExtensionRoundTrip(bits: seq<bool>, pos: nat, x: Extension)
    requires CanonicalExtension(x)
    requires Holds(bits, pos, ExtensionElements(x)) && AllWritable(ExtensionElements(x))
    requires StopAt(bits, After(pos, ExtensionElements(x)))
    ensures ParseExtension(bits, pos) == (x, After(pos, ExtensionElements(x)))
  {
    hide ReadElement, Encode, Writable, ReadAll, EncodeAll, Holds, After, AllWritable, ExtensionBody, ReadFlag,
         ParseExtensionLists, MoreRbspData, StopAt;
    LookaheadAgrees(bits, pos, x);
    NothingAfter(pos);
    if HasExtension(x) {
      var rest := [Flag(x.matrixPresent)] + ExtensionBody(x);
      FlagRoundTrip(bits, pos, x.transform8x8, rest);
      WritableAppend([Flag(x.transform8x8)], rest);
      var p := After(pos, [Flag(x.transform8x8)]);
      FlagRoundTrip(bits, p, x.matrixPresent, ExtensionBody(x));
      WritableAppend([Flag(x.matrixPresent)], ExtensionBody(x));
      ExtensionBodyRoundTrip(bits, After(p, [Flag(x.matrixPresent)]), x);
    }
  }

  // ---------- the whole parameter set ----------

  datatype Pps = Pps(identity: Identity, groups: SliceGroups, coding: Coding, extension: Extension)

  predicate CanonicalPps(s: Pps) {
    CanonicalGroups(s.identity.numSliceGroupsMinus1, s.groups) && CanonicalExtension(s.extension)
  }

  function BaseElements(s: Pps): (es: seq<Element>) {
    IdentityElements(s.identity) + (GroupsElements(s.identity.numSliceGroupsMinus1, s.groups) + CodingElements(s.coding))
  }

  /** The elements that write_pic_parameter_set_rbsp sends, in order. */
  function PpsElements(s: Pps): (es: seq<Element>)
    requires |s.extension.lists| == 8
  {
    BaseElements(s) + ExtensionElements(s.extension)
  }

  function ParseBase(bits: seq<bool>, pos: nat): (r: (Identity, SliceGroups, Coding, nat))
    ensures r.3 >= pos && CanonicalGroups(r.0.numSliceGroupsMinus1, r.1)
  {
    var (h, p1) := ParseIdentity(bits, pos);
    var (g, p2) := ParseGroups(bits, p1, h.numSliceGroupsMinus1);
    var (c, p3) := ParseCoding(bits, p2);
    (h, g, c, p3)
  }

  /** read_pic_parameter_set_rbsp: the record, and the position after it. */
  function ParsePps(bits: seq<bool>, pos: nat): (r: (Pps, nat))
    ensures |r.0.extension.lists| == 8 && r.1 >= pos
  {
    var (h, g, c, p) := ParseBase(bits, pos);
    var (x, q) := ParseExtension(bits, p);
    (Pps(h, g, c, x), q)
  }

  lemma BaseRoundTrip(bits: seq<bool>, pos: nat, s: Pps)
    requires CanonicalPps(s)
    requires Holds(bits, pos, BaseElements(s)) && AllWritable(BaseElements(s))
    ensures ParseBase(bits, pos) == (s.identity, s.groups, s.coding, After(pos, BaseElements(s)))
  {
    hide ReadElement, Encode, Writable, ReadAll, EncodeAll, Holds, After, AllWritable, IdentityElements, ParseIdentity,
         GroupsElements, ParseGroups, CodingElements, ParseCoding;
    var groups := GroupsElements(s.identity.numSliceGroupsMinus1, s.groups);
    TakeRun(bits, pos, IdentityElements(s.identity), groups + CodingElements(s.coding));
    IdentityRoundTrip(bits, pos, s.identity);
    var p := After(pos, IdentityElements(s.identity));
    TakeRun(bits, p, groups, CodingElements(s.coding));
    GroupsRoundTrip(bits, p, s.identity.numSliceGroupsMinus1, s.groups);
    CodingRoundTrip(bits, After(p, groups), s.coding);
  }

  /** A picture parameter set that was written at any position, with trailing
      bits behind it, reads back as the same record. */
  lemma PpsRoundTrip(bits: seq<bool>, pos: nat, s: Pps)
    requires CanonicalPps(s)
    requires Holds(bits, pos, PpsElements(s)) && AllWritable(PpsElements(s))
    requires StopAt(bits, After(pos, PpsElements(s)))
    ensures ParsePps(bits, pos) == (s, After(pos, PpsElements(s)))
  {
    hide ReadElement, Encode, Writable, ReadAll, EncodeAll, Holds, After, AllWritable, BaseElements, ParseBase,
         ExtensionElements, ParseExtension, StopAt;
    TakeRun(bits, pos, BaseElements(s), ExtensionElements(s.extension));
    BaseRoundTrip(bits, pos, s);
    ExtensionRoundTrip(bits, After(pos, BaseElements(s)), s.extension);
  }

  // ---------- the inferred second chroma QP offset ----------

  /** second_chroma_qp_index_offset as section 7.4.2.2 gives it: inferred from
      chroma_qp_index_offset when the extension was not sent. */
  function SecondChromaOffset(bits: seq<bool>, pos: nat): int {
    var (h, g, c, p) := ParseBase(bits, pos);
    if MoreRbspData(bits, p) then ParseExtension(bits, p).0.secondChromaQpIndexOffset else c.chromaQpIndexOffset
  }

  /** Reading a parameter set and writing it again keeps the inferred offset
      unless an all-zero extension was sent beside a non-zero
      chroma_qp_index_offset: that extension is dropped on the way. */
  lemma RewriteKeepsSecondOffset(bits: seq<bool>, pos: nat, bits': seq<bool>, pos': nat)
    requires var s := ParsePps(bits, pos).0;
             && CanonicalPps(s) && AllWritable(PpsElements(s))
             && Holds(bits', pos', PpsElements(s)) && StopAt(bits', After(pos', PpsElements(s)))
    ensures var s := ParsePps(bits, pos).0;
            SecondChromaOffset(bits', pos') == SecondChromaOffset(bits, pos)
            <==> !(MoreRbspData(bits, ParseBase(bits, pos).3) && !HasExtension(s.extension)
                   && s.coding.chromaQpIndexOffset != 0)
  {
    hide ReadElement, Encode, Writable, ReadAll, EncodeAll, Holds, After, AllWritable, BaseElements, ParseBase,
         ExtensionElements, StopAt, MoreRbspData, ParseExtensionLists, ReadFlag;
    var s := ParsePps(bits, pos).0;
    TakeRun(bits', pos', BaseElements(s), ExtensionElements(s.extension));
    BaseRoundTrip(bits', pos', s);
    var p := After(pos', BaseElements(s));
    ExtensionRoundTrip(bits', p, s.extension);
    LookaheadAgrees(bits', p, s.extension);
  }

  /** The three elements of an all-zero extension. */
  const ZERO_EXTENSION: seq<Element> := [Flag(false), Flag(false), SeElement(0)]

  lemma ZeroExtensionRead(bits: seq<bool>, pos: nat)
    requires Holds(bits, pos, ZERO_EXTENSION)
    ensures MoreRbspData(bits, pos) && ParseExtension(bits, pos).0 == NO_EXTENSION
  {
    hide ReadElement, Encode, ReadAll, EncodeAll, Holds, After, AbsentLists;
    var last := SeElement(0);
    var rest := [Flag(false)] + [last];
    assert ZERO_EXTENSION == [Flag(false)] + rest;
    FlagRoundTrip(bits, pos, false, rest);
    ZeroFlagBit(bits, pos, rest);
    var p := After(pos, [Flag(false)]);
    FlagRoundTrip(bits, p, false, [last]);
    SmallUeIsWritable(0);
    assert [last] + [] == [last];
    ReadFirst(bits, After(p, [Flag(false)]), last, []);
  }

  lemma ZeroFlagBit(bits: seq<bool>, pos: nat, rest: seq<Element>)
    requires Holds(bits, pos, [Flag(false)] + rest)
    ensures pos < |bits| && !bits[pos]
  {
    HoldsAppend(bits, pos, [Flag(false)], rest);
    EncodeSingle(Flag(false));
    assert Encode(Flag(false)) == [false];
    AtIndex(bits, pos, [false], 0);
  }

  /** For every record without an extension and with a nonzero
      chroma_qp_index_offset: sent with an all-zero extension its second offset
      is 0, and read and written again it is the first offset. */
  lemma ZeroExtensionIsDropped(bits: seq<bool>, pos: nat, s: Pps, bits': seq<bool>, pos': nat)
    requires CanonicalPps(s) && s.extension == NO_EXTENSION && AllWritable(PpsElements(s))
    requires Holds(bits, pos, BaseElements(s) + ZERO_EXTENSION)
    requires Holds(bits', pos', PpsElements(s)) && StopAt(bits', After(pos', PpsElements(s)))
    ensures ParsePps(bits, pos).0 == s && SecondChromaOffset(bits, pos) == 0
    ensures SecondChromaOffset(bits', pos') == s.coding.chromaQpIndexOffset
  {
    hide ReadElement, Encode, Writable, ReadAll, EncodeAll, Holds, After, AllWritable, BaseElements, ParseBase,
         ExtensionElements, StopAt, MoreRbspData, ParseExtension, CanonicalGroups, CanonicalExtension;
    WritableAppend(BaseElements(s), ExtensionElements(s.extension));
    HoldsAppend(bits, pos, BaseElements(s), ZERO_EXTENSION);
    BaseRoundTrip(bits, pos, s);
    ZeroExtensionRead(bits, After(pos, BaseElements(s)));
    TakeRun(bits', pos', BaseElements(s), ExtensionElements(s.extension));
    BaseRoundTrip(bits', pos', s);
    LookaheadAgrees(bits', After(pos', BaseElements(s)), s.extension);
  }
}
