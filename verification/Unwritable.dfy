/**
  Records with values that bs_write_ue gets wrong: such a value reads back
  smaller, and so no parameter set that holds one comes back as it was.
 */
module UnwritableRecords {
  import opened CArithmetic
  import opened Bits
  import opened ExpGolomb
  import opened Syntax
  import opened ScalingLists
  import opened VuiParameters
  import opened SequenceParameterSet

  // ---------- runs ----------

  ghost predicate AllRepresentable(es: seq<Element>) {
    forall e :: e in es ==> Representable(e)
  }

  /** Two runs in turn. */
  lemma SplitRun(bits: seq<bool>, pos: nat, a: seq<Element>, b: seq<Element>)
    requires Holds(bits, pos, a + b) && AllRepresentable(a + b)
    ensures Holds(bits, pos, a) && AllRepresentable(a)
    ensures Holds(bits, After(pos, a), b) && AllRepresentable(b)
    ensures AllWritable(a + b) <==> AllWritable(a) && AllWritable(b)
  {
    hide Representable, Holds;
    HoldsAppend(bits, pos, a, b);
    WritableAppend(a, b);
    forall e | e in a || e in b
      ensures Representable(e)
    {
      assert e in a + b;
    }
  }

  /** The first unwritable element of a run is read as another value. */
  lemma {:induction false} FirstUnwritable(ds: seq<Descriptor>, bits: seq<bool>, pos: nat, es: seq<Element>) returns (i: nat)
    requires ds == Descriptors(es) && Holds(bits, pos, es) && AllRepresentable(es) && !AllWritable(es)
    ensures i < |es| && !Writable(es[i]) && ReadAll(ds, bits, pos).0[i] != es[i].value
    decreases |es|
  {
    hide ReadElement, Encode, Writable, Representable, EncodeAll, Holds;
    var e, rest := es[0], es[1..];
    assert es == [e] + rest && e in es;
    SplitRun(bits, pos, [e], rest);
    HoldsMeaning(bits, pos, [e]);
    EncodeSingle(e);
    ValueExactly(bits, pos, e);
    assert ds[1..] == Descriptors(rest);
    if Writable(e) {
      ReadFirst(bits, pos, e, rest);
      var k := FirstUnwritable(ds[1..], bits, After(pos, [e]), rest);
      i := k + 1;
    } else {
      i := 0;
    }
  }

  lemma WritableIsRepresentable(es: seq<Element>)
    requires AllWritable(es)
    ensures AllRepresentable(es)
  {
    forall e | e in es
      ensures Representable(e)
    {
      assert Writable(e);
    }
  }

  lemma FlagsAreWritable()
    ensures forall f :: Writable(Flag(f))
    ensures Writable(UElement(2, 0))
  {
    assert Pow2(1) == 2 && Pow2(2) == 4;
  }

  lemma OneWritable(e: Element)
    ensures AllWritable([e]) <==> Writable(e)
  {
    assert e in [e];
  }

  lemma NothingIsWritable()
    ensures AllWritable([])
  {
  }

  lemma GroupExactly(ds: seq<Descriptor>, bits: seq<bool>, pos: nat, g: FieldGroup)
    requires CanonicalGroup(g, |ds|)
    requires Holds(bits, pos, GroupElements(ds, g)) && AllRepresentable(GroupElements(ds, g))
    ensures ParseGroup(ds, bits, pos).0 == g ==> AllWritable(GroupElements(ds, g))
  {
    hide ReadElement, Encode, Writable, ReadFlag, Representable, Holds, After;
    var es := if g.present then Fields(ds, g.values) else [];
    SplitRun(bits, pos, [Flag(g.present)], es);
    FlagRoundTrip(bits, pos, g.present, es);
    FlagsAreWritable();
    OneWritable(Flag(g.present));
    NothingIsWritable();
    if g.present {
      RunExactly(ds, bits, After(pos, [Flag(true)]), es);
    }
  }

  // ---------- HRD and VUI parameters ----------

  lemma ScheduleExactly(bits: seq<bool>, pos: nat, s: Schedule)
    requires Holds(bits, pos, ScheduleElements(s)) && AllRepresentable(ScheduleElements(s))
    ensures ParseSchedule(bits, pos).0 == s ==> AllWritable(ScheduleElements(s))
  {
    hide ReadElement, Encode, Writable, ReadAll, EncodeAll, Holds, After, AllWritable, AllRepresentable;
    assert Descriptors(ScheduleElements(s)) == [Ue, Ue, U(1)];
    FlagsAreWritable();
    if !AllWritable(ScheduleElements(s)) {
      var i := FirstUnwritable([Ue, Ue, U(1)], bits, pos, ScheduleElements(s));
    }
  }

  lemma {:induction false} SchedulesExactly(bits: seq<bool>, pos: nat, ss: seq<Schedule>)
    requires Holds(bits, pos, SchedulesElements(ss)) && AllRepresentable(SchedulesElements(ss))
    ensures ParseSchedules(bits, pos, |ss|).0 == ss ==> AllWritable(SchedulesElements(ss))
    decreases |ss|
  {
    hide ReadElement, Encode, Writable, ReadAll, EncodeAll, Holds, After, AllWritable, AllRepresentable, ParseSchedule,
         ScheduleElements;
    if ss == [] {
      NothingIsWritable();
    } else if ParseSchedules(bits, pos, |ss|).0 == ss {
      SplitRun(bits, pos, ScheduleElements(ss[0]), SchedulesElements(ss[1..]));
      var (s, p) := ParseSchedule(bits, pos);
      assert s == ss[0] && ParseSchedules(bits, p, |ss| - 1).0 == ss[1..];
      ScheduleExactly(bits, pos, ss[0]);
      ScheduleRoundTrip(bits, pos, ss[0]);
      SchedulesExactly(bits, p, ss[1..]);
    }
  }

  lemma HrdExactly(bits: seq<bool>, pos: nat, h: Hrd)
    requires CanonicalHrd(true, h)
    requires Holds(bits, pos, HrdElements(h)) && AllRepresentable(HrdElements(h))
    ensures ParseHrd(bits, pos).0 == h ==> AllWritable(HrdElements(h))
  {
    hide ReadElement, Encode, Writable, ReadAll, EncodeAll, Holds, After, AllWritable, AllRepresentable, ParseSchedules,
         SchedulesElements;
    if ParseHrd(bits, pos).0 == h {
      SplitRun(bits, pos, HrdHead(h), SchedulesElements(h.schedules) + HrdTail(h));
      assert Descriptors(HrdHead(h)) == [Ue, U(4), U(4)];
      if !AllWritable(HrdHead(h)) {
        var i := FirstUnwritable([Ue, U(4), U(4)], bits, pos, HrdHead(h));
      }
      HrdHeadRoundTrip(bits, pos, h);
      var p := After(pos, HrdHead(h));
      SplitRun(bits, p, SchedulesElements(h.schedules), HrdTail(h));
      SchedulesExactly(bits, p, h.schedules);
      SchedulesRoundTrip(bits, p, h.schedules);
      var q := After(p, SchedulesElements(h.schedules));
      assert Descriptors(HrdTail(h)) == [U(5), U(5), U(5), U(5)];
      if !AllWritable(HrdTail(h)) {
        var i := FirstUnwritable([U(5), U(5), U(5), U(5)], bits, q, HrdTail(h));
      }
    }
  }

  lemma OptionalHrdExactly(bits: seq<bool>, pos: nat, present: bool, h: Hrd)
    requires CanonicalHrd(present, h)
    requires Holds(bits, pos, OptionalHrdElements(present, h)) && AllRepresentable(OptionalHrdElements(present, h))
    ensures var (f, r, _) := ParseOptionalHrd(bits, pos);
            f == present && r == h ==> AllWritable(OptionalHrdElements(present, h))
  {
    hide ReadElement, Encode, Writable, ReadAll, EncodeAll, Holds, After, AllWritable, AllRepresentable, ReadFlag,
         ParseHrd, HrdElements;
    var es := if present then HrdElements(h) else [];
    SplitRun(bits, pos, [Flag(present)], es);
    FlagRoundTrip(bits, pos, present, es);
    FlagsAreWritable();
    OneWritable(Flag(present));
    NothingIsWritable();
    if present {
      HrdExactly(bits, After(pos, [Flag(true)]), h);
    }
  }

  lemma AspectExactly(bits: seq<bool>, pos: nat, a: AspectRatio)
    requires CanonicalAspect(a)
    requires Holds(bits, pos, AspectElements(a)) && AllRepresentable(AspectElements(a))
    ensures ParseAspect(bits, pos).0 == a ==> AllWritable(AspectElements(a))
  {
    hide ReadElement, Encode, Writable, ReadAll, EncodeAll, Holds, After, AllWritable, AllRepresentable, ReadFlag;
    var es := if a.present then [UElement(8, a.idc)] + SarElements(a) else [];
    SplitRun(bits, pos, [Flag(a.present)], es);
    FlagRoundTrip(bits, pos, a.present, es);
    FlagsAreWritable();
    OneWritable(Flag(a.present));
    NothingIsWritable();
    if a.present && ParseAspect(bits, pos).0 == a {
      var p := After(pos, [Flag(true)]);
      SplitRun(bits, p, [UElement(8, a.idc)], SarElements(a));
      assert Descriptors([UElement(8, a.idc)]) == [U(8)];
      if !AllWritable([UElement(8, a.idc)]) {
        var i := FirstUnwritable([U(8)], bits, p, [UElement(8, a.idc)]);
      }
      ReadAllWritten([U(8)], bits, p, [UElement(8, a.idc)]);
      var q := After(p, [UElement(8, a.idc)]);
      if a.idc == SAR_EXTENDED && !AllWritable(SarElements(a)) {
        assert Descriptors(SarElements(a)) == [U(16), U(16)];
        var i := FirstUnwritable([U(16), U(16)], bits, q, SarElements(a));
      }
    }
  }

  lemma SignalExactly(bits: seq<bool>, pos: nat, s: VideoSignal)
    requires CanonicalSignal(s)
    requires Holds(bits, pos, SignalElements(s)) && AllRepresentable(SignalElements(s))
    ensures ParseSignal(bits, pos).0 == s ==> AllWritable(SignalElements(s))
  {
    hide ReadElement, Encode, Writable, ReadAll, EncodeAll, Holds, After, AllWritable, AllRepresentable, ReadFlag,
         ParseGroup, GroupElements;
    var es := if s.present then SignalHead(s) + GroupElements(COLOUR, s.colour) else [];
    SplitRun(bits, pos, [Flag(s.present)], es);
    FlagRoundTrip(bits, pos, s.present, es);
    FlagsAreWritable();
    OneWritable(Flag(s.present));
    NothingIsWritable();
    if s.present && ParseSignal(bits, pos).0 == s {
      var p := After(pos, [Flag(true)]);
      SplitRun(bits, p, SignalHead(s), GroupElements(COLOUR, s.colour));
      assert Descriptors(SignalHead(s)) == [U(3), U(1)];
      if !AllWritable(SignalHead(s)) {
        var i := FirstUnwritable([U(3), U(1)], bits, p, SignalHead(s));
      }
      ReadAllWritten([U(3), U(1)], bits, p, SignalHead(s));
      GroupExactly(COLOUR, bits, After(p, SignalHead(s)), s.colour);
    }
  }

  lemma DisplayExactly(bits: seq<bool>, pos: nat, v: Vui)
    requires CanonicalVui(v)
    requires Holds(bits, pos, DisplayElements(v)) && AllRepresentable(DisplayElements(v))
    ensures var (a, o, s, c, t, _) := ParseDisplay(bits, pos);
            a == v.aspect && o == v.overscan && s == v.signal && c == v.chromaLoc && t == v.timing
            ==> AllWritable(DisplayElements(v))
  {
    hide ReadElement, Encode, Writable, ReadAll, EncodeAll, Holds, After, AllWritable, AllRepresentable, AspectElements,
         GroupElements, SignalElements, ParseAspect, ParseGroup, ParseSignal;
    var (a, o, s, c, t, _) := ParseDisplay(bits, pos);
    if a == v.aspect && o == v.overscan && s == v.signal && c == v.chromaLoc && t == v.timing {
      var e5 := GroupElements(TIMING, v.timing);
      var e4 := GroupElements(CHROMA_LOC, v.chromaLoc) + e5;
      var e3 := SignalElements(v.signal) + e4;
      var e2 := GroupElements(OVERSCAN, v.overscan) + e3;
      SplitRun(bits, pos, AspectElements(v.aspect), e2);
      AspectExactly(bits, pos, v.aspect);
      AspectRoundTrip(bits, pos, v.aspect);
      var p1 := After(pos, AspectElements(v.aspect));
      SplitRun(bits, p1, GroupElements(OVERSCAN, v.overscan), e3);
      GroupExactly(OVERSCAN, bits, p1, v.overscan);
      GroupRoundTrip(OVERSCAN, bits, p1, v.overscan);
      var p2 := After(p1, GroupElements(OVERSCAN, v.overscan));
      SplitRun(bits, p2, SignalElements(v.signal), e4);
      SignalExactly(bits, p2, v.signal);
      SignalRoundTrip(bits, p2, v.signal);
      var p3 := After(p2, SignalElements(v.signal));
      SplitRun(bits, p3, GroupElements(CHROMA_LOC, v.chromaLoc), e5);
      GroupExactly(CHROMA_LOC, bits, p3, v.chromaLoc);
      GroupRoundTrip(CHROMA_LOC, bits, p3, v.chromaLoc);
      GroupExactly(TIMING, bits, After(p3, GroupElements(CHROMA_LOC, v.chromaLoc)), v.timing);
    }
  }

  lemma HrdFlagsAreWritable(v: Vui)
    ensures AllWritable(HrdFlags(v))
  {
    hide Writable;
    FlagsAreWritable();
  }

  lemma VuiExactly(bits: seq<bool>, pos: nat, v: Vui)
    requires CanonicalVui(v)
    requires Holds(bits, pos, VuiElements(v)) && AllRepresentable(VuiElements(v))
    ensures ParseVui(bits, pos).0 == v ==> AllWritable(VuiElements(v))
  {
    hide ReadElement, Encode, Writable, ReadAll, EncodeAll, Holds, After, AllWritable, AllRepresentable, DisplayElements,
         ParseDisplay, OptionalHrdElements, ParseOptionalHrd, GroupElements, ParseGroup, HrdFlags, ParseHrdFlags;
    if ParseVui(bits, pos).0 == v {
      SplitRun(bits, pos, DisplayElements(v), BufferElements(v));
      DisplayExactly(bits, pos, v);
      DisplayRoundTrip(bits, pos, v);
      var p := After(pos, DisplayElements(v));
      var e3 := HrdFlags(v) + GroupElements(RESTRICTION, v.restriction);
      var e2 := OptionalHrdElements(v.vclHrdPresent, v.vclHrd) + e3;
      SplitRun(bits, p, OptionalHrdElements(v.nalHrdPresent, v.nalHrd), e2);
      OptionalHrdExactly(bits, p, v.nalHrdPresent, v.nalHrd);
      OptionalHrdRoundTrip(bits, p, v.nalHrdPresent, v.nalHrd);
      var p1 := After(p, OptionalHrdElements(v.nalHrdPresent, v.nalHrd));
      SplitRun(bits, p1, OptionalHrdElements(v.vclHrdPresent, v.vclHrd), e3);
      OptionalHrdExactly(bits, p1, v.vclHrdPresent, v.vclHrd);
      OptionalHrdRoundTrip(bits, p1, v.vclHrdPresent, v.vclHrd);
      var p2 := After(p1, OptionalHrdElements(v.vclHrdPresent, v.vclHrd));
      SplitRun(bits, p2, HrdFlags(v), GroupElements(RESTRICTION, v.restriction));
      HrdFlagsAreWritable(v);
      HrdFlagsRoundTrip(bits, p2, v);
      GroupExactly(RESTRICTION, bits, After(p2, HrdFlags(v)), v.restriction);
    }
  }

  // ---------- the sequence parameter set ----------

  lemma HeaderExactly(bits: seq<bool>, pos: nat, h: Header)
    requires Holds(bits, pos, HeaderElements(h)) && AllRepresentable(HeaderElements(h))
    ensures ParseHeader(bits, pos).0 == h ==> AllWritable(HeaderElements(h))
  {
    hide ReadElement, Encode, Writable, ReadAll, EncodeAll, Holds, After, AllWritable, AllRepresentable;
    assert Descriptors(HeaderElements(h)) == HEADER;
    FlagsAreWritable();
    if !AllWritable(HeaderElements(h)) {
      var i := FirstUnwritable(HEADER, bits, pos, HeaderElements(h));
    }
  }

  lemma FormatExactly(bits: seq<bool>, pos: nat, c: Chroma)
    requires Holds(bits, pos, FormatElements(c)) && AllRepresentable(FormatElements(c))
    ensures ParseFormat(bits, pos).0 == c.formatIdc ==> AllWritable(FormatElements(c))
  {
    hide ReadElement, Encode, Writable, ReadAll, EncodeAll, Holds, After, AllWritable, AllRepresentable, ReadFlag;
    var rest := if c.formatIdc == 3 then [Flag(c.residualColourTransform)] else [];
    SplitRun(bits, pos, [UeElement(c.formatIdc)], rest);
    FlagsAreWritable();
    OneWritable(Flag(c.residualColourTransform));
    NothingIsWritable();
    assert Descriptors([UeElement(c.formatIdc)]) == [Ue];
    if !AllWritable([UeElement(c.formatIdc)]) {
      var i := FirstUnwritable([Ue], bits, pos, [UeElement(c.formatIdc)]);
    }
  }

  lemma DepthsExactly(bits: seq<bool>, pos: nat, c: Chroma)
    requires Holds(bits, pos, DepthElements(c)) && AllRepresentable(DepthElements(c))
    ensures var v := ReadAll(DEPTHS, bits, pos).0;
            v[0] == c.bitDepthLumaMinus8 && v[1] == c.bitDepthChromaMinus8 ==> AllWritable(DepthElements(c))
  {
    hide ReadElement, Encode, Writable, ReadAll, EncodeAll, Holds, After, AllWritable, AllRepresentable;
    assert Descriptors(DepthElements(c)) == DEPTHS;
    FlagsAreWritable();
    if !AllWritable(DepthElements(c)) {
      var i := FirstUnwritable(DEPTHS, bits, pos, DepthElements(c));
    }
  }

  lemma {:induction false} ListsAreWritable(ls: seq<ScalingList>)
    ensures AllWritable(ListsElements(ls))
    decreases |ls|
  {
    hide Writable, ScalingElements;
    FlagsAreWritable();
    if ls != [] {
      ListsAreWritable(ls[1..]);
      OneWritable(Flag(ls[0].present));
      WritableAppend([Flag(ls[0].present)], if ls[0].present then ScalingElements(ls[0].entries, ls[0].useDefault) else []);
      WritableAppend(SlotElements(ls[0]), ListsElements(ls[1..]));
    }
  }

  lemma SlotExactly(bits: seq<bool>, pos: nat, l: ScalingList, size: nat)
    requires size > 0 && ShapedSlot(l, size) && Holds(bits, pos, SlotElements(l))
    ensures ParseSlot(bits, pos, size).0 == l ==> CanonicalSlot(l, size)
  {
    hide ReadElement, EncodeAll, Holds, ReadFlag, ScalingElements, ParseScalingList, CanonicalList;
    if l.present {
      var es := ScalingElements(l.entries, l.useDefault);
      FlagRoundTrip(bits, pos, true, es);
      ScalingListRoundTrip(bits, After(pos, [Flag(true)]), l.entries, l.useDefault);
    }
  }

  /** Lists that read back as they were written are in range. */
  lemma {:induction false} ListsExactly(bits: seq<bool>, pos: nat, ls: seq<ScalingList>, i: nat)
    requires ShapedLists(ls, i) && Holds(bits, pos, ListsElements(ls))
    ensures ParseLists(bits, pos, i, i + |ls|).0 == ls ==> CanonicalLists(ls, i)
    decreases |ls|
  {
    hide ReadElement, EncodeAll, Holds, SlotElements, ParseSlot, CanonicalSlot, ShapedSlot;
    if ls != [] && ParseLists(bits, pos, i, i + |ls|).0 == ls {
      var l, rest := ls[0], ls[1..];
      HoldsAppend(bits, pos, SlotElements(l), ListsElements(rest));
      assert ShapedSlot(l, ListSize(i + 0));
      FirstOfLists(bits, pos, ls, i);
      hide ParseLists, ShapedLists, CanonicalLists;
      var p := ParseSlot(bits, pos, ListSize(i)).1;
      SlotExactly(bits, pos, l, ListSize(i));
      SlotRoundTrip(bits, pos, l, ListSize(i));
      ShapedRest(ls, i);
      ListsExactly(bits, p, rest, i + 1);
      CanonicalFirst(ls, i);
    }
  }

  lemma FirstOfLists(bits: seq<bool>, pos: nat, ls: seq<ScalingList>, i: nat)
    requires ls != [] && ParseLists(bits, pos, i, i + |ls|).0 == ls
    ensures var (l, p) := ParseSlot(bits, pos, ListSize(i));
            l == ls[0] && ParseLists(bits, p, i + 1, i + |ls|).0 == ls[1..]
  {
    hide ParseSlot;
  }

  lemma ShapedRest(ls: seq<ScalingList>, i: nat)
    requires ls != [] && ShapedLists(ls, i)
    ensures ShapedLists(ls[1..], i + 1)
  {
    hide ShapedSlot;
    forall k: nat | k < |ls| - 1
      ensures ShapedSlot(ls[1..][k], ListSize(i + 1 + k))
    {
      assert ShapedSlot(ls[k + 1], ListSize(i + (k + 1)));
    }
  }

  lemma CanonicalFirst(ls: seq<ScalingList>, i: nat)
    requires ls != [] && CanonicalSlot(ls[0], ListSize(i)) && CanonicalLists(ls[1..], i + 1)
    ensures CanonicalLists(ls, i)
  {
    hide CanonicalSlot;
    forall k: nat | k < |ls|
      ensures CanonicalSlot(ls[k], ListSize(i + k))
    {
      if k > 0 {
        assert CanonicalSlot(ls[1..][k - 1], ListSize(i + 1 + (k - 1)));
      }
    }
  }

  lemma MatrixExactly(bits: seq<bool>, pos: nat, c: Chroma)
    requires ShapedChroma(true, c) && c.matrixPresent && Holds(bits, pos, MatrixElements(c))
    requires ParseMatrix(bits, pos, true, c.formatIdc).0 == c.lists
    ensures CanonicalChroma(true, c)
  {
    hide ReadElement, EncodeAll, Holds, ListsElements, ParseLists, CanonicalLists, ShapedLists;
    var n := ListsRead(c.formatIdc);
    var (ls, p) := ParseLists(bits, pos, 0, n);
    ParseListsSplit(bits, pos, 0, 8, n);
    var first := ParseLists(bits, pos, 0, 8).0;
    assert ls[..8] == first && c.lists == ls + AbsentLists(n, 12);
    assert c.lists[..8] == first;
    ListsExactly(bits, pos, c.lists[..8], 0);
  }

  /** A chroma part that reads back was in range and writable. */
  lemma ChromaExactly(bits: seq<bool>, pos: nat, high: bool, c: Chroma)
    requires ShapedChroma(high, c) && ParseChroma(bits, pos, high).0 == c
    requires Holds(bits, pos, ChromaElements(high, c)) && AllRepresentable(ChromaElements(high, c))
    ensures CanonicalChroma(high, c) && AllWritable(ChromaElements(high, c))
  {
    hide ReadElement, Encode, Writable, ReadAll, EncodeAll, Holds, After, AllWritable, AllRepresentable, ReadFlag,
         ParseFormat, FormatElements, DepthElements, ListsElements, CanonicalLists, ShapedLists, ParseMatrix;
    NothingIsWritable();
    if high {
      SplitRun(bits, pos, FormatElements(c), DepthElements(c) + MatrixElements(c));
      FormatExactly(bits, pos, c);
      FormatRoundTrip(bits, pos, c);
      var p := After(pos, FormatElements(c));
      SplitRun(bits, p, DepthElements(c), MatrixElements(c));
      DepthsExactly(bits, p, c);
      DepthsRoundTrip(bits, p, c);
      ListsAreWritable(if c.matrixPresent then c.lists[..8] else []);
      if c.matrixPresent {
        MatrixExactly(bits, After(p, DepthElements(c)), c);
      }
    }
  }

  lemma PocHeadExactly(bits: seq<bool>, pos: nat, c: Poc)
    requires Holds(bits, pos, PocHead(c)) && AllRepresentable(PocHead(c))
    requires var v := ReadAll([Ue, Ue], bits, pos).0; v[0] == c.log2MaxFrameNumMinus4 && v[1] == c.kind
    ensures AllWritable(PocHead(c))
  {
    hide ReadElement, Encode, Writable, ReadAll, EncodeAll, Holds, After, AllWritable, AllRepresentable;
    assert Descriptors(PocHead(c)) == [Ue, Ue];
    if !AllWritable(PocHead(c)) {
      var i := FirstUnwritable([Ue, Ue], bits, pos, PocHead(c));
    }
  }

  lemma CycleExactly(bits: seq<bool>, pos: nat, c: Poc)
    requires CanonicalPoc(c)
    requires Holds(bits, pos, CycleElements(c) + Offsets(c.offsetForRefFrame))
    requires AllRepresentable(CycleElements(c) + Offsets(c.offsetForRefFrame))
    requires var (v, os, _) := ParseCycle(bits, pos);
             v[1] == c.offsetForNonRefPic && v[2] == c.offsetForTopToBottomField
             && v[3] == c.numRefFramesInCycle && os == c.offsetForRefFrame
    ensures AllWritable(CycleElements(c) + Offsets(c.offsetForRefFrame))
  {
    hide ReadElement, Encode, Writable, ReadAll, EncodeAll, Holds, After, AllWritable, AllRepresentable;
    SplitRun(bits, pos, CycleElements(c), Offsets(c.offsetForRefFrame));
    assert Descriptors(CycleElements(c)) == CYCLE;
    FlagsAreWritable();
    if !AllWritable(CycleElements(c)) {
      var i := FirstUnwritable(CYCLE, bits, pos, CycleElements(c));
    }
    ReadAllWritten(CYCLE, bits, pos, CycleElements(c));
    var ds, os := seq(|c.offsetForRefFrame|, _ => Se), Offsets(c.offsetForRefFrame);
    assert Values(os) == c.offsetForRefFrame;
    if !AllWritable(os) {
      var i := FirstUnwritable(ds, bits, After(pos, CycleElements(c)), os);
    }
  }

  lemma PocExactly(bits: seq<bool>, pos: nat, c: Poc)
    requires CanonicalPoc(c)
    requires Holds(bits, pos, PocElements(c)) && AllRepresentable(PocElements(c))
    ensures ParsePoc(bits, pos).0 == c ==> AllWritable(PocElements(c))
  {
    hide ReadElement, Encode, Writable, ReadAll, EncodeAll, Holds, After, AllWritable, AllRepresentable, ParseCycle;
    if ParsePoc(bits, pos).0 == c {
      SplitRun(bits, pos, PocHead(c), PocTail(c));
      PocHeadExactly(bits, pos, c);
      assert Descriptors(PocHead(c)) == [Ue, Ue];
      ReadAllWritten([Ue, Ue], bits, pos, PocHead(c));
      var p := After(pos, PocHead(c));
      NothingIsWritable();
      if c.kind == 0 {
        assert Descriptors(PocTail(c)) == [Ue];
        if !AllWritable(PocTail(c)) {
          var i := FirstUnwritable([Ue], bits, p, PocTail(c));
        }
      } else if c.kind == 1 {
        CycleExactly(bits, p, c);
      }
    }
  }

  lemma PictureExactly(bits: seq<bool>, pos: nat, c: Picture)
    requires Holds(bits, pos, PictureElements(c)) && AllRepresentable(PictureElements(c))
    ensures ParsePicture(bits, pos).0 == c ==> AllWritable(PictureElements(c))
  {
    hide ReadElement, Encode, Writable, ReadAll, EncodeAll, Holds, After, AllRepresentable, ReadFlag;
    SplitRun(bits, pos, SizeElements(c), FieldElements(c));
    assert Descriptors(SizeElements(c)) == SIZE;
    FlagsAreWritable();
    if !AllWritable(SizeElements(c)) {
      var i := FirstUnwritable(SIZE, bits, pos, SizeElements(c));
    }
  }

  lemma OptionalVuiExactly(bits: seq<bool>, pos: nat, present: bool, v: Vui)
    requires CanonicalVui(v)
    requires Holds(bits, pos, OptionalVuiElements(present, v)) && AllRepresentable(OptionalVuiElements(present, v))
    ensures var (f, r, _) := ParseOptionalVui(bits, pos);
            f == present && r == v ==> AllWritable(OptionalVuiElements(present, v))
  {
    hide ReadElement, Encode, Writable, ReadAll, EncodeAll, Holds, After, AllWritable, AllRepresentable, ReadFlag,
         ParseVui, VuiElements;
    var es := if present then VuiElements(v) else [];
    SplitRun(bits, pos, [Flag(present)], es);
    FlagRoundTrip(bits, pos, present, es);
    FlagsAreWritable();
    OneWritable(Flag(present));
    NothingIsWritable();
    if present {
      VuiExactly(bits, After(pos, [Flag(true)]), v);
    }
  }

  lemma LeadingExactly(bits: seq<bool>, pos: nat, s: Sps)
    requires Shaped(s) && WellFormed(s)
    requires Holds(bits, pos, LeadingElements(s)) && AllRepresentable(LeadingElements(s))
    requires var (h, p) := ParseHeader(bits, pos);
             h == s.header && ParseChroma(bits, p, HighProfile(s.header.profileIdc)).0 == s.chroma
    ensures Canonical(s) && AllWritable(LeadingElements(s))
  {
    hide ReadElement, Encode, Writable, ReadAll, EncodeAll, Holds, After, AllWritable, AllRepresentable, HeaderElements,
         ParseHeader, ChromaElements, ParseChroma, CanonicalChroma, ShapedChroma, CanonicalPoc, CanonicalVui;
    SplitRun(bits, pos, HeaderElements(s.header), ChromaElements(HighProfile(s.header.profileIdc), s.chroma));
    HeaderExactly(bits, pos, s.header);
    HeaderRoundTrip(bits, pos, s.header);
    ChromaExactly(bits, After(pos, HeaderElements(s.header)), HighProfile(s.header.profileIdc), s.chroma);
  }

  lemma TrailingExactly(bits: seq<bool>, pos: nat, s: Sps)
    requires Canonical(s) && WellFormed(s)
    requires Holds(bits, pos, TrailingElements(s)) && AllRepresentable(TrailingElements(s))
    requires var (poc, p3) := ParsePoc(bits, pos);
             var (pic, p4) := ParsePicture(bits, p3);
             var (crop, p5) := ParseGroup(CROPPING, bits, p4);
             var (f, v, _) := ParseOptionalVui(bits, p5);
             poc == s.poc && pic == s.picture && crop == s.cropping && f == s.vuiPresent && v == s.vui
    ensures AllWritable(TrailingElements(s))
  {
    hide ReadElement, Encode, Writable, ReadAll, EncodeAll, Holds, After, AllWritable, AllRepresentable, PocElements,
         ParsePoc, PictureElements, ParsePicture, GroupElements, ParseGroup, OptionalVuiElements, ParseOptionalVui,
         CanonicalPoc, CanonicalVui;
    var e6 := OptionalVuiElements(s.vuiPresent, s.vui);
    var e5 := GroupElements(CROPPING, s.cropping) + e6;
    SplitRun(bits, pos, PocElements(s.poc), PictureElements(s.picture) + e5);
    PocExactly(bits, pos, s.poc);
    PocRoundTrip(bits, pos, s.poc);
    var p3 := After(pos, PocElements(s.poc));
    SplitRun(bits, p3, PictureElements(s.picture), e5);
    PictureExactly(bits, p3, s.picture);
    PictureRoundTrip(bits, p3, s.picture);
    var p4 := After(p3, PictureElements(s.picture));
    SplitRun(bits, p4, GroupElements(CROPPING, s.cropping), e6);
    GroupExactly(CROPPING, bits, p4, s.cropping);
    GroupRoundTrip(CROPPING, bits, p4, s.cropping);
    OptionalVuiExactly(bits, After(p4, GroupElements(CROPPING, s.cropping)), s.vuiPresent, s.vui);
  }

  /** With chroma_format_idc 3 and a matrix, the chroma part or the part behind
      it comes out wrong. */
  lemma MisreadSps(bits: seq<bool>, pos: nat, s: Sps)
    requires Shaped(s) && WellFormed(s) && Has12Lists(s)
    requires Holds(bits, pos, SpsElements(s)) && AllRepresentable(SpsElements(s))
    ensures ParseSps(bits, pos).0 != s
  {
    hide ReadElement, Encode, Writable, ReadAll, EncodeAll, Holds, After, AllWritable, AllRepresentable, HeaderElements,
         ParseHeader, ParseChroma, ChromaElements, PocElements, ParsePoc, PictureElements, ParsePicture, GroupElements,
         ParseGroup, OptionalVuiElements, ParseOptionalVui, CanonicalPoc, CanonicalVui, ShapedChroma;
    if ParseSps(bits, pos).0 == s {
      var chroma, poc := ChromaElements(true, s.chroma), PocElements(s.poc);
      SplitRun(bits, pos, LeadingElements(s), TrailingElements(s));
      LeadingExactly(bits, pos, s);
      TakeRun(bits, pos, HeaderElements(s.header), chroma);
      HeaderRoundTrip(bits, pos, s.header);
      var p1 := After(pos, HeaderElements(s.header));
      TwelveListsEatFourZeros(bits, p1, s.chroma);
      var p2 := After(p1, chroma);
      SplitRun(bits, p2, poc, PictureElements(s.picture)
        + (GroupElements(CROPPING, s.cropping) + OptionalVuiElements(s.vuiPresent, s.vui)));
      FirstIsRepresentable(s.poc);
      PocBehindFourZeros(bits, p2, s.poc);
    }
  }

  lemma FirstIsRepresentable(poc: Poc)
    requires AllRepresentable(PocElements(poc))
    ensures poc.log2MaxFrameNumMinus4 != TWO_32 - 1
  {
    assert UeElement(poc.log2MaxFrameNumMinus4) in PocElements(poc);
  }

  /** What the writer can send and the reader take back. */
  ghost predicate Kept(s: Sps)
    requires WellFormed(s)
  {
    AllWritable(SpsElements(s)) && ListsInRange(s) && !Has12Lists(s)
  }

  /** A parameter set survives a write and a read exactly when all its values
      can be written, its lists are in range, and it is not one with
      chroma_format_idc 3 and a scaling matrix. */
  lemma SpsRoundTripExactly(bits: seq<bool>, pos: nat, s: Sps)
    requires Shaped(s) && WellFormed(s)
    requires Holds(bits, pos, SpsElements(s)) && AllRepresentable(SpsElements(s))
    ensures ParseSps(bits, pos).0 == s <==> Kept(s)
    ensures ParseSps(bits, pos).0 == s ==> ParseSps(bits, pos).1 == After(pos, SpsElements(s))
  {
    hide *;
    if ParseSps(bits, pos).0 == s {
      AllIsRead(bits, pos, s);
    }
    if Kept(s) {
      WrittenIsRead(bits, pos, s);
    }
  }

  lemma WrittenIsRead(bits: seq<bool>, pos: nat, s: Sps)
    requires Shaped(s) && WellFormed(s) && Holds(bits, pos, SpsElements(s)) && Kept(s)
    ensures ParseSps(bits, pos) == (s, After(pos, SpsElements(s)))
  {
    hide Canonical, Shaped, WellFormed, Holds, SpsElements, AllWritable, ParseSps, After, ListsInRange;
    CanonicalExactly(s);
    SpsRoundTrip(bits, pos, s);
  }

  /** Lists 8 to 11 are never sent. */
  lemma LastListsAreNotSent(s: Sps, lists: seq<ScalingList>)
    requires WellFormed(s) && |lists| == 12 && lists[..8] == s.chroma.lists[..8]
    ensures var t := s.(chroma := s.chroma.(lists := lists)); WellFormed(t) && SpsElements(t) == SpsElements(s)
  {
    hide HeaderElements, ListsElements, PocElements, PictureElements, GroupElements, OptionalVuiElements, CanonicalVui;
    var t := s.(chroma := s.chroma.(lists := lists));
    assert MatrixElements(t.chroma) == MatrixElements(s.chroma);
    assert LeadingElements(t) == LeadingElements(s) && TrailingElements(t) == TrailingElements(s);
  }

  /** What reads back was writable and in range. */
  lemma AllIsRead(bits: seq<bool>, pos: nat, s: Sps)
    requires Shaped(s) && WellFormed(s) && ParseSps(bits, pos).0 == s
    requires Holds(bits, pos, SpsElements(s)) && AllRepresentable(SpsElements(s))
    ensures Kept(s)
  {
    hide ReadElement, Encode, Writable, ReadAll, EncodeAll, Holds, After, AllWritable, AllRepresentable, HeaderElements,
         ParseHeader, ParseChroma, ChromaElements, TrailingElements, ParsePoc, ParsePicture, ParseGroup, ListsInRange,
         ParseOptionalVui, CanonicalChroma, CanonicalPoc, CanonicalVui, ShapedChroma;
    if Has12Lists(s) {
      MisreadSps(bits, pos, s);
    }
    SplitRun(bits, pos, LeadingElements(s), TrailingElements(s));
    LeadingExactly(bits, pos, s);
    CanonicalExactly(s);
    var high := HighProfile(s.header.profileIdc);
    TakeRun(bits, pos, HeaderElements(s.header), ChromaElements(high, s.chroma));
    HeaderRoundTrip(bits, pos, s.header);
    ChromaRoundTrip(bits, After(pos, HeaderElements(s.header)), high, s.chroma);
    TrailingExactly(bits, After(pos, LeadingElements(s)), s);
  }
}
