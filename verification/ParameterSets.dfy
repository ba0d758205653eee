/** The readers and writers of h264bitstream.c as they run over a bit cursor. */
module ParameterSets {
  import opened CArithmetic
  import opened Bits
  import opened ExpGolomb
  import opened Syntax
  import opened ScalingLists
  import opened VuiParameters
  import opened SequenceParameterSet
  import opened PictureParameterSet
  import opened BitStreams

  // ---------- trailing bits ----------

  /** n alignment bits. */
  function Padding(n: nat): (es: seq<Element>) {
    seq(n, _ => Flag(false))
  }

  /** rbsp_trailing_bits at position pos: a one, and zeros up to a byte boundary. */
  function TrailingBits(pos: nat): (es: seq<Element>) {
    [Flag(true)] + Padding(7 - pos % 8)
  }

  /** The first byte boundary after the stop bit at pos. */
  function AfterTrailing(pos: nat): nat {
    (pos / 8 + 1) * 8
  }

  method ReadTrailingBits(b: BitStream)
    requires b.Valid()
    modifies b
    ensures b.Reading() && b.Bits() == old(b.Bits()) && b.Pos() == AfterTrailing(old(b.Pos()))
    ensures b.p == old(b.p) + 1 && b.bitsLeft == 8
  {
    hide BitsOf, Overwrite, EncodeAll;
    b.SkipU1();
    var aligned := b.ByteAligned();
    while !aligned
      invariant b.Reading() && b.Bits() == old(b.Bits()) && (aligned <==> b.bitsLeft == 8)
      invariant b.p == if aligned then old(b.p) + 1 else old(b.p)
      decreases if aligned then 0 else b.bitsLeft
    {
      b.SkipU1();
      aligned := b.ByteAligned();
    }
  }

  lemma PaddingNext(n: nat)
    ensures ([Flag(true)] + Padding(n)) + [Flag(false)] == [Flag(true)] + Padding(n + 1)
  {
    hide Flag;
  }

  method WriteTrailingBits(b: BitStream)
    requires b.Logged()
    modifies b, b.buf
    ensures b.Appended(TrailingBits(old(b.Pos()))) && b.Pos() == AfterTrailing(old(b.Pos()))
    ensures b.p == old(b.p) + 1 && b.bitsLeft == 8
  {
    hide BitsOf, Overwrite, EncodeAll, Encode, Padding, Flag, TrailingBits, AfterTrailing;
    b.PutFlag(true);
    ghost var n := 0;
    NoPadding();
    var aligned := b.ByteAligned();
    while !aligned
      invariant b.Appended([Flag(true)] + Padding(n)) && (aligned <==> b.bitsLeft == 8)
      invariant b.p == if aligned then old(b.p) + 1 else old(b.p)
      invariant n == old(b.bitsLeft) - 1 - if aligned then 0 else b.bitsLeft
      decreases if aligned then 0 else b.bitsLeft
    {
      PaddingNext(n);
      b.PutFlag(false);
      n := n + 1;
      aligned := b.ByteAligned();
    }
    TrailingPlace(old(b.Pos()), old(b.p) - b.start, old(b.bitsLeft));
  }

  lemma TrailingPlace(pos: nat, q: nat, left: nat)
    requires 1 <= left <= 8 && pos == 8 * q + (8 - left)
    ensures TrailingBits(pos) == [Flag(true)] + Padding(left - 1) && AfterTrailing(pos) == 8 * (q + 1)
  {
  }

  lemma NoPadding()
    ensures [Flag(true)] + Padding(0) == [Flag(true)]
  {
  }

  /** The loop of more_rbsp_data: is any of the bits from the cursor on a one? */
  method OneFollows(b: BitStream) returns (found: bool)
    requires b.Valid()
    modifies b
    ensures found <==> exists k: nat :: old(b.Pos()) <= k < |old(b.Bits())| && old(b.Bits())[k]
  {
    hide BitsOf, Overwrite, EncodeAll;
    ghost var bits, pos := b.Bits(), b.Pos();
    var eof := b.AtEof();
    while !eof
      invariant b.Valid() && b.Bits() == bits && pos <= b.Pos()
      invariant eof <==> b.Pos() >= |bits|
      invariant forall k: nat :: pos <= k < b.Pos() && k < |bits| ==> !bits[k]
      decreases |bits| - b.Pos(), if eof then 0 else 1
    {
      var bit := b.ReadU1();
      if bit == 1 {
        return true;
      }
      eof := b.AtEof();
    }
    return false;
  }

  /** The look-ahead of more_rbsp_data behind a one bit, on a copy of the cursor. */
  method OneAhead(b: BitStream) returns (found: bool)
    requires b.Valid() && !Eof(b.Bits(), b.Pos()) && BitAt(b.Bits(), b.Pos())
    ensures found <==> MoreRbspData(b.Bits(), b.Pos())
  {
    hide BitsOf, Overwrite, EncodeAll, MoreRbspData;
    ghost var bits, pos := b.Bits(), b.Pos();
    var tmp := new BitStream.Clone(b);
    ghost var first := 8 * (b.p - b.start);
    SuffixBits(b.buf[b.start..b.end], b.p - b.start);
    assert b.buf[b.start..b.end][b.p - b.start..] == b.buf[b.p..b.end];
    ghost var rest := tmp.Bits();
    assert rest == bits[first..];
    tmp.SkipU1();
    found := OneFollows(tmp);
    OneIsDataIfFollowed(bits, pos, first, rest, found);
  }

  method MoreData(b: BitStream) returns (more: bool)
    requires b.Valid()
    ensures more <==> MoreRbspData(b.Bits(), b.Pos())
  {
    hide BitsOf, MoreRbspData;
    var eof := b.AtEof();
    if eof {
      NoDataAtEnd(b.Bits(), b.Pos());
      return false;
    }
    var bit := b.PeekU1();
    if bit == 0 {
      ZeroIsData(b.Bits(), b.Pos());
      return true;
    }
    more := OneAhead(b);
  }

  lemma NoDataAtEnd(bits: seq<bool>, pos: nat)
    requires Eof(bits, pos)
    ensures !MoreRbspData(bits, pos)
  {
  }

  lemma ZeroIsData(bits: seq<bool>, pos: nat)
    requires !Eof(bits, pos) && !BitAt(bits, pos)
    ensures MoreRbspData(bits, pos)
  {
  }

  lemma OneIsDataIfFollowed(bits: seq<bool>, pos: nat, first: nat, rest: seq<bool>, found: bool)
    requires first <= pos < |bits| && bits[pos] && rest == bits[first..]
    requires found <==> exists k: nat :: pos - first + 1 <= k < |rest| && rest[k]
    ensures found <==> MoreRbspData(bits, pos)
  {
    if found {
      var k: nat :| pos - first + 1 <= k < |rest| && rest[k];
      assert bits[first + k];
    }
    if exists k: nat :: pos < k < |bits| && bits[k] {
      var k: nat :| pos < k < |bits| && bits[k];
      assert rest[k - first];
    }
  }

  lemma SuffixBits(s: seq<byte>, d: nat)
    requires d <= |s|
    ensures BitsOf(s[d..]) == BitsOf(s)[8 * d..]
  {
    BitsOfAppend(s[..d], s[d..]);
    assert s == s[..d] + s[d..];
  }

  // ---------- scaling lists ----------

  method ReadScalingList(b: BitStream, scalingList: array<int>) returns (useDefault: bool)
    requires b.Reading() && b.buf as object != scalingList
    modifies b, scalingList
    ensures b.Reading() && b.Bits() == old(b.Bits())
    ensures (scalingList[..], useDefault, b.Pos()) == ParseScalingList(b.Bits(), old(b.Pos()), scalingList.Length)
  {
    hide ReadElement, BitsOf, EncodeAll, NextScale, ParseFrom, Overwrite;
    ghost var bits, pos := b.Bits(), b.Pos();
    var lastScale, nextScale := 8, 8;
    useDefault := false;
    var n := scalingList.Length;
    assert scalingList[..0] + ParseScalingList(bits, pos, n).0 == ParseScalingList(bits, pos, n).0;
    for j := 0 to n
      invariant b.Reading() && b.Bits() == bits
      invariant var r := ParseFrom(bits, b.Pos(), n - j, j == 0, lastScale, nextScale, useDefault);
                ParseScalingList(bits, pos, n) == (scalingList[..j] + r.0, r.1, r.2)
    {
      ghost var before, done := b.Pos(), scalingList[..j];
      ghost var r := ParseFrom(bits, before, n - j, j == 0, lastScale, nextScale, useDefault);
      if nextScale != 0 {
        var delta := b.ReadSeCode();
        ParseStep(bits, before, n - j, j == 0, lastScale, delta, b.Pos());
        nextScale := NextScale(lastScale, delta);
        useDefault := j == 0 && nextScale == 0;
      } else {
        ParseRepeat(bits, before, n - j, j == 0, lastScale, useDefault);
      }
      scalingList[j] := if nextScale == 0 then lastScale else nextScale;
      lastScale := scalingList[j];
      assert scalingList[..j + 1] == done + [lastScale];
      ghost var rest := ParseFrom(bits, b.Pos(), n - j - 1, false, lastScale, nextScale, useDefault);
      assert r == ([lastScale] + rest.0, rest.1, rest.2);
      MoveOne(done, lastScale, rest.0);
    }
    NothingLeft(bits, b.Pos(), lastScale, nextScale, useDefault);
    assert scalingList[..n] + [] == scalingList[..];
  }

  lemma NothingLeft(bits: seq<bool>, pos: nat, last: int, next: int, useDefault: bool)
    ensures forall first :: ParseFrom(bits, pos, 0, first, last, next, useDefault) == ([], useDefault, pos)
  {
  }

  method WriteScalingList(b: BitStream, scalingList: seq<int>, useDefault: bool)
    requires b.Logged()
    modifies b, b.buf
    ensures b.Appended(ScalingElements(scalingList, useDefault))
  {
    hide Encode, BitsOf, EncodeAll, Overwrite;
    var lastScale, nextScale := 8, 8;
    ghost var sent: seq<Element> := [];
    for j := 0 to |scalingList|
      invariant b.Appended(sent)
      invariant ScalingElements(scalingList, useDefault)
                == sent + ElementsFrom(scalingList[j..], useDefault, lastScale, nextScale)
    {
      assert scalingList[j..][1..] == scalingList[j + 1..];
      if nextScale != 0 {
        nextScale := if useDefault then 0 else scalingList[j];
        var delta := TruncMod(nextScale - lastScale, 256);
        b.Put(SeElement(delta));
        sent := sent + [SeElement(delta)];
      }
      lastScale := scalingList[j];
    }
    assert sent + [] == sent;
  }

  // ---------- HRD and VUI parameters ----------

  method ReadHrd(b: BitStream) returns (h: Hrd)
    requires b.Reading()
    modifies b
    ensures b.Reading() && b.Bits() == old(b.Bits()) && (h, b.Pos()) == ParseHrd(b.Bits(), old(b.Pos()))
  {
    hide BitsOf, EncodeAll, Overwrite, ReadAll, ParseSchedule;
    ghost var bits := b.Bits();
    UeIsNatural(bits, b.Pos(), [Ue, U(4), U(4)]);
    var head := b.GetAll([Ue, U(4), U(4)]);
    ghost var pos := b.Pos();
    var n := head[0] + 1;
    var schedules: seq<Schedule> := [];
    assert schedules + ParseSchedules(bits, pos, n).0 == ParseSchedules(bits, pos, n).0;
    for i := 0 to n
      invariant b.Reading() && b.Bits() == bits && |schedules| == i
      invariant var r := ParseSchedules(bits, b.Pos(), n - i);
                ParseSchedules(bits, pos, n) == (schedules + r.0, r.1)
    {
      ghost var r := ParseSchedules(bits, b.Pos(), n - i);
      ScheduleStep(bits, b.Pos());
      var v := b.GetAll([Ue, Ue, U(1)]);
      var s := Schedule(v[0], v[1], v[2] == 1);
      ghost var rest := ParseSchedules(bits, b.Pos(), n - i - 1);
      assert r == ([s] + rest.0, rest.1);
      MoveOne(schedules, s, rest.0);
      schedules := schedules + [s];
    }
    assert schedules + [] == schedules;
    var tail := b.GetAll([U(5), U(5), U(5), U(5)]);
    h := Hrd(head[0], head[1], head[2], schedules, tail[0], tail[1], tail[2], tail[3]);
  }

  lemma ScheduleStep(bits: seq<bool>, pos: nat)
    ensures var r := ReadAll([Ue, Ue, U(1)], bits, pos);
            ParseSchedule(bits, pos) == (Schedule(r.0[0], r.0[1], r.0[2] == 1), r.1)
  {
  }

  method WriteSchedules(b: BitStream, schedules: seq<Schedule>)
    requires b.Logged()
    modifies b, b.buf
    ensures b.Appended(SchedulesElements(schedules))
  {
    hide Encode, BitsOf, EncodeAll, Overwrite, ScheduleElements;
    ghost var sent: seq<Element> := [];
    assert schedules[0..] == schedules && [] + SchedulesElements(schedules) == SchedulesElements(schedules);
    for i := 0 to |schedules|
      invariant b.Appended(sent)
      invariant SchedulesElements(schedules) == sent + SchedulesElements(schedules[i..])
    {
      ghost var es, rest := ScheduleElements(schedules[i]), SchedulesElements(schedules[i + 1..]);
      assert schedules[i..][1..] == schedules[i + 1..];
      b.PutAll(ScheduleElements(schedules[i]));
      MoveRun(sent, es, rest);
      sent := sent + es;
    }
    assert sent + [] == sent;
  }

  method WriteHrd(b: BitStream, h: Hrd)
    requires b.Logged()
    modifies b, b.buf
    ensures b.Appended(HrdElements(h))
  {
    hide Encode, BitsOf, EncodeAll, Overwrite, BitStream.Logged, SchedulesElements, HrdHead, HrdTail;
    b.PutAll(HrdHead(h));
    WriteSchedules(b, h.schedules);
    b.PutAll(HrdTail(h));
    MoveRun(HrdHead(h), SchedulesElements(h.schedules), HrdTail(h));
  }

  method ReadOptionalHrd(b: BitStream) returns (present: bool, h: Hrd)
    requires b.Reading()
    modifies b
    ensures b.Reading() && b.Bits() == old(b.Bits())
    ensures (present, h, b.Pos()) == ParseOptionalHrd(b.Bits(), old(b.Pos()))
  {
    hide BitsOf, EncodeAll, Overwrite, ReadFlag, ParseHrd;
    present := b.GetFlag();
    h := NO_HRD;
    if present {
      h := ReadHrd(b);
    }
  }

  method WriteOptionalHrd(b: BitStream, present: bool, h: Hrd)
    requires b.Logged()
    modifies b, b.buf
    ensures b.Appended(OptionalHrdElements(present, h))
  {
    hide Encode, BitsOf, EncodeAll, Overwrite, BitStream.Logged, HrdElements;
    b.PutFlag(present);
    if present {
      WriteHrd(b, h);
    }
  }

  method ReadGroup(b: BitStream, ds: seq<Descriptor>) returns (g: FieldGroup)
    requires b.Reading() && (forall d :: d in ds && d.U? ==> d.n <= 32)
    modifies b
    ensures b.Reading() && b.Bits() == old(b.Bits()) && (g, b.Pos()) == ParseGroup(ds, b.Bits(), old(b.Pos()))
  {
    hide BitsOf, EncodeAll, Overwrite, ReadFlag, ReadAll;
    var present := b.GetFlag();
    g := FieldGroup(false, Cleared(|ds|));
    if present {
      var vs := b.GetAll(ds);
      g := FieldGroup(true, vs);
    }
  }

  method WriteGroup(b: BitStream, ds: seq<Descriptor>, g: FieldGroup)
    requires b.Logged() && |ds| == |g.values|
    modifies b, b.buf
    ensures b.Appended(GroupElements(ds, g))
  {
    hide Encode, BitsOf, EncodeAll, Overwrite, BitStream.Logged, Fields;
    b.PutFlag(g.present);
    if g.present {
      b.PutAll(Fields(ds, g.values));
    }
  }

  method ReadAspect(b: BitStream) returns (a: AspectRatio)
    requires b.Reading()
    modifies b
    ensures b.Reading() && b.Bits() == old(b.Bits()) && (a, b.Pos()) == ParseAspect(b.Bits(), old(b.Pos()))
  {
    hide BitsOf, EncodeAll, Overwrite, ReadFlag, ReadAll;
    var present := b.GetFlag();
    a := NO_ASPECT;
    if present {
      var v := b.GetAll([U(8)]);
      a := AspectRatio(true, v[0], 0, 0);
      if a.idc == SAR_EXTENDED {
        var sar := b.GetAll([U(16), U(16)]);
        a := a.(sarWidth := sar[0], sarHeight := sar[1]);
      }
    }
  }

  method WriteAspect(b: BitStream, a: AspectRatio)
    requires b.Logged()
    modifies b, b.buf
    ensures b.Appended(AspectElements(a))
  {
    hide Encode, BitsOf, EncodeAll, Overwrite, BitStream.Logged;
    b.PutFlag(a.present);
    if a.present {
      b.Put(UElement(8, a.idc));
      if a.idc == SAR_EXTENDED {
        b.PutAll([UElement(16, a.sarWidth), UElement(16, a.sarHeight)]);
        assert [Flag(true)] + [UElement(8, a.idc)] + SarElements(a) == AspectElements(a);
      }
    }
  }

  method ReadSignal(b: BitStream) returns (s: VideoSignal)
    requires b.Reading()
    modifies b
    ensures b.Reading() && b.Bits() == old(b.Bits()) && (s, b.Pos()) == ParseSignal(b.Bits(), old(b.Pos()))
  {
    hide BitsOf, EncodeAll, Overwrite, ReadFlag, ReadAll, ParseGroup;
    var present := b.GetFlag();
    s := NO_SIGNAL;
    if present {
      var v := b.GetAll([U(3), U(1)]);
      var colour := ReadGroup(b, COLOUR);
      s := VideoSignal(true, v[0], v[1] == 1, colour);
    }
  }

  method WriteSignal(b: BitStream, s: VideoSignal)
    requires b.Logged() && |s.colour.values| == 3
    modifies b, b.buf
    ensures b.Appended(SignalElements(s))
  {
    hide Encode, BitsOf, EncodeAll, Overwrite, BitStream.Logged, GroupElements;
    b.PutFlag(s.present);
    if s.present {
      b.PutAll(SignalHead(s));
      WriteGroup(b, COLOUR, s.colour);
      assert [Flag(true)] + SignalHead(s) + GroupElements(COLOUR, s.colour) == SignalElements(s);
    }
  }

  /** read_vui_parameters. */
  method ReadVui(b: BitStream) returns (v: Vui)
    requires b.Reading()
    modifies b
    ensures b.Reading() && b.Bits() == old(b.Bits()) && (v, b.Pos()) == ParseVui(b.Bits(), old(b.Pos()))
  {
    hide BitsOf, EncodeAll, Overwrite, ReadFlag, ReadAll, ParseAspect, ParseGroup, ParseSignal, ParseOptionalHrd;
    var aspect := ReadAspect(b);
    var overscan := ReadGroup(b, OVERSCAN);
    var signal := ReadSignal(b);
    var chromaLoc := ReadGroup(b, CHROMA_LOC);
    var timing := ReadGroup(b, TIMING);
    var nalPresent, nal := ReadOptionalHrd(b);
    var vclPresent, vcl := ReadOptionalHrd(b);
    var lowDelay := false;
    if nalPresent || vclPresent {
      lowDelay := b.GetFlag();
    }
    var picStruct := b.GetFlag();
    var restriction := ReadGroup(b, RESTRICTION);
    v := Vui(aspect, overscan, signal, chromaLoc, timing, nalPresent, nal, vclPresent, vcl,
             lowDelay, picStruct, restriction);
  }

  /** The first half of write_vui_parameters. */
  method WriteDisplay(b: BitStream, v: Vui)
    requires b.Logged() && CanonicalVui(v)
    modifies b, b.buf
    ensures b.Appended(DisplayElements(v))
  {
    hide Encode, BitsOf, EncodeAll, Overwrite, BitStream.Logged, AspectElements, GroupElements, SignalElements;
    WriteAspect(b, v.aspect);
    WriteGroup(b, OVERSCAN, v.overscan);
    WriteSignal(b, v.signal);
    WriteGroup(b, CHROMA_LOC, v.chromaLoc);
    WriteGroup(b, TIMING, v.timing);
  }

  method WriteHrdFlags(b: BitStream, v: Vui)
    requires b.Logged()
    modifies b, b.buf
    ensures b.Appended(HrdFlags(v))
  {
    hide Encode, BitsOf, EncodeAll, Overwrite, BitStream.Logged;
    if v.nalHrdPresent || v.vclHrdPresent {
      b.PutFlag(v.lowDelayHrd);
    }
    b.PutFlag(v.picStructPresent);
  }

  /** The second half of write_vui_parameters. */
  method WriteBuffer(b: BitStream, v: Vui)
    requires b.Logged() && CanonicalVui(v)
    modifies b, b.buf
    ensures b.Appended(BufferElements(v))
  {
    hide Encode, BitsOf, EncodeAll, Overwrite, BitStream.Logged, GroupElements, OptionalHrdElements, HrdFlags;
    WriteOptionalHrd(b, v.nalHrdPresent, v.nalHrd);
    WriteOptionalHrd(b, v.vclHrdPresent, v.vclHrd);
    WriteHrdFlags(b, v);
    WriteGroup(b, RESTRICTION, v.restriction);
  }

  /** write_vui_parameters. */
  method WriteVui(b: BitStream, v: Vui)
    requires b.Logged() && CanonicalVui(v)
    modifies b, b.buf
    ensures b.Appended(VuiElements(v))
  {
    hide Encode, BitsOf, EncodeAll, Overwrite, BitStream.Logged, DisplayElements, BufferElements, CanonicalVui;
    WriteDisplay(b, v);
    WriteBuffer(b, v);
  }

  // ---------- scaling matrices ----------

  method ReadSlot(b: BitStream, size: nat) returns (l: ScalingList)
    requires b.Reading()
    modifies b
    ensures b.Reading() && b.Bits() == old(b.Bits()) && (l, b.Pos()) == ParseSlot(b.Bits(), old(b.Pos()), size)
  {
    hide BitsOf, EncodeAll, Overwrite, ReadFlag, ParseScalingList;
    l := Absent(size);
    var present := b.GetFlag();
    if present {
      var entries := new int[size];
      var useDefault := ReadScalingList(b, entries);
      l := ScalingList(true, entries[..], useDefault);
    }
  }

  /** The loop over the slots of a scaling matrix, slots 0 to n. */
  method ReadLists(b: BitStream, n: nat) returns (lists: seq<ScalingList>)
    requires b.Reading()
    modifies b
    ensures b.Reading() && b.Bits() == old(b.Bits()) && (lists, b.Pos()) == ParseLists(b.Bits(), old(b.Pos()), 0, n)
  {
    hide BitsOf, EncodeAll, Overwrite, ParseSlot;
    ghost var bits, pos := b.Bits(), b.Pos();
    lists := [];
    assert lists + ParseLists(bits, pos, 0, n).0 == ParseLists(bits, pos, 0, n).0;
    for i := 0 to n
      invariant b.Reading() && b.Bits() == bits && |lists| == i
      invariant var r := ParseLists(bits, b.Pos(), i, n);
                ParseLists(bits, pos, 0, n) == (lists + r.0, r.1)
    {
      ghost var r := ParseLists(bits, b.Pos(), i, n);
      var l := ReadSlot(b, ListSize(i));
      ghost var rest := ParseLists(bits, b.Pos(), i + 1, n);
      assert r == ([l] + rest.0, rest.1);
      MoveOne(lists, l, rest.0);
      lists := lists + [l];
    }
    assert lists + [] == lists;
  }

  method WriteSlot(b: BitStream, l: ScalingList)
    requires b.Logged()
    modifies b, b.buf
    ensures b.Appended(SlotElements(l))
  {
    hide Encode, BitsOf, EncodeAll, Overwrite, BitStream.Logged, ScalingElements;
    b.PutFlag(l.present);
    if l.present {
      WriteScalingList(b, l.entries, l.useDefault);
    }
  }

  method WriteLists(b: BitStream, lists: seq<ScalingList>)
    requires b.Logged()
    modifies b, b.buf
    ensures b.Appended(ListsElements(lists))
  {
    hide Encode, BitsOf, EncodeAll, Overwrite, SlotElements;
    ghost var sent: seq<Element> := [];
    for i := 0 to |lists|
      invariant b.Appended(sent)
      invariant ListsElements(lists) == sent + ListsElements(lists[i..])
    {
      ghost var es, rest := SlotElements(lists[i]), ListsElements(lists[i + 1..]);
      assert lists[i..][1..] == lists[i + 1..];
      WriteSlot(b, lists[i]);
      MoveRun(sent, es, rest);
      sent := sent + es;
    }
    assert sent + [] == sent;
  }

  // ---------- the sequence parameter set ----------

  method ReadHeader(b: BitStream) returns (h: Header)
    requires b.Reading()
    modifies b
    ensures b.Reading() && b.Bits() == old(b.Bits()) && (h, b.Pos()) == ParseHeader(b.Bits(), old(b.Pos()))
  {
    hide BitsOf, EncodeAll, Overwrite, ReadAll;
    var v := b.GetAll(HEADER);
    h := Header(v[0], v[1] == 1, v[2] == 1, v[3] == 1, v[4] == 1, v[5] == 1, v[6] == 1, v[8], v[9]);
  }

  method ReadChroma(b: BitStream, high: bool) returns (c: Chroma)
    requires b.Reading()
    modifies b
    ensures b.Reading() && b.Bits() == old(b.Bits()) && (c, b.Pos()) == ParseChroma(b.Bits(), old(b.Pos()), high)
  {
    hide BitsOf, EncodeAll, Overwrite, ReadFlag, ReadAll, ParseLists, AbsentLists;
    c := DEFAULT_CHROMA;
    if high {
      var f := b.GetAll([Ue]);
      var residual := false;
      if f[0] == 3 {
        residual := b.GetFlag();
      }
      var v := b.GetAll(DEPTHS);
      var lists := AbsentLists(0, 12);
      if v[3] == 1 {
        var n := ListsRead(f[0]);
        var sent := ReadLists(b, n);
        lists := sent + AbsentLists(n, 12);
      }
      c := Chroma(f[0], residual, v[0], v[1], v[2] == 1, v[3] == 1, lists);
    }
  }

  method WriteFormat(b: BitStream, c: Chroma)
    requires b.Logged()
    modifies b, b.buf
    ensures b.Appended(FormatElements(c))
  {
    hide Encode, BitsOf, EncodeAll, Overwrite, BitStream.Logged;
    b.Put(UeElement(c.formatIdc));
    if c.formatIdc == 3 {
      b.PutFlag(c.residualColourTransform);
    }
  }

  method WriteChroma(b: BitStream, high: bool, c: Chroma)
    requires b.Logged() && |c.lists| == 12
    modifies b, b.buf
    ensures b.Appended(ChromaElements(high, c))
  {
    hide Encode, BitsOf, EncodeAll, Overwrite, ListsElements, FormatElements, DepthElements;
    if high {
      WriteFormat(b, c);
      b.PutAll(DepthElements(c));
      if c.matrixPresent {
        WriteLists(b, c.lists[..8]);
      }
      MoveRun(FormatElements(c), DepthElements(c), MatrixElements(c));
    }
  }

  method ReadPoc(b: BitStream) returns (c: Poc)
    requires b.Reading()
    modifies b
    ensures b.Reading() && b.Bits() == old(b.Bits()) && (c, b.Pos()) == ParsePoc(b.Bits(), old(b.Pos()))
  {
    hide BitsOf, EncodeAll, Overwrite, ReadAll;
    var h := b.GetAll([Ue, Ue]);
    c := Poc(h[0], h[1], 0, false, 0, 0, 0, []);
    if h[1] == 0 {
      var l := b.GetAll([Ue]);
      c := c.(log2MaxLsbMinus4 := l[0]);
    } else if h[1] == 1 {
      FourthIsNatural(b.Bits(), b.Pos());
      var v := b.GetAll(CYCLE);
      var offsets := b.GetAll(seq(v[3], _ => Se));
      c := Poc(h[0], 1, 0, v[0] == 1, v[1], v[2], v[3], offsets);
    }
  }

  method WritePoc(b: BitStream, c: Poc)
    requires b.Logged()
    modifies b, b.buf
    ensures b.Appended(PocElements(c))
  {
    hide Encode, BitsOf, EncodeAll, Overwrite, BitStream.Logged, Offsets;
    b.PutAll(PocHead(c));
    if c.kind == 0 {
      b.Put(UeElement(c.log2MaxLsbMinus4));
    } else if c.kind == 1 {
      b.PutAll(CycleElements(c));
      b.PutAll(Offsets(c.offsetForRefFrame));
      assert PocHead(c) + CycleElements(c) + Offsets(c.offsetForRefFrame) == PocElements(c);
    }
  }

  method ReadPicture(b: BitStream) returns (c: Picture)
    requires b.Reading()
    modifies b
    ensures b.Reading() && b.Bits() == old(b.Bits()) && (c, b.Pos()) == ParsePicture(b.Bits(), old(b.Pos()))
  {
    hide BitsOf, EncodeAll, Overwrite, ReadAll, ReadFlag;
    var v := b.GetAll(SIZE);
    var mbaff := false;
    if v[4] != 1 {
      mbaff := b.GetFlag();
    }
    var direct := b.GetFlag();
    c := Picture(v[0], v[1] == 1, v[2], v[3], v[4] == 1, mbaff, direct);
  }

  method WritePicture(b: BitStream, c: Picture)
    requires b.Logged()
    modifies b, b.buf
    ensures b.Appended(PictureElements(c))
  {
    hide Encode, BitsOf, EncodeAll, Overwrite, BitStream.Logged;
    b.PutAll(SizeElements(c));
    if !c.frameMbsOnly {
      b.PutFlag(c.mbAdaptiveFrameField);
    }
    b.PutFlag(c.direct8x8Inference);
  }

  /** read_seq_parameter_set_rbsp. */
  method ReadSps(b: BitStream) returns (s: Sps)
    requires b.Reading()
    modifies b
    ensures b.Reading() && b.Bits() == old(b.Bits()) && (s, b.Pos()) == ParseSps(b.Bits(), old(b.Pos()))
  {
    hide BitsOf, EncodeAll, Overwrite, ReadFlag, ParseHeader, ParseChroma, ParsePoc, ParsePicture, ParseGroup, ParseVui,
         CanonicalVui;
    var h := ReadHeader(b);
    var c := ReadChroma(b, HighProfile(h.profileIdc));
    var poc := ReadPoc(b);
    var pic := ReadPicture(b);
    var crop := ReadGroup(b, CROPPING);
    var present := b.GetFlag();
    var v := NO_VUI;
    if present {
      v := ReadVui(b);
    }
    s := Sps(h, c, poc, pic, crop, present, v);
  }

  /** write_seq_parameter_set_rbsp, from the POC syntax on. */
  method WriteSpsTail(b: BitStream, s: Sps)
    requires b.Logged() && WellFormed(s)
    modifies b, b.buf
    ensures b.Appended(TrailingElements(s))
  {
    hide Encode, BitsOf, EncodeAll, Overwrite, BitStream.Logged, PocElements, PictureElements, GroupElements, VuiElements, CanonicalVui;
    WritePoc(b, s.poc);
    WritePicture(b, s.picture);
    WriteGroup(b, CROPPING, s.cropping);
    b.PutFlag(s.vuiPresent);
    if s.vuiPresent {
      WriteVui(b, s.vui);
    }
  }

  /** write_seq_parameter_set_rbsp. */
  method WriteSps(b: BitStream, s: Sps)
    requires b.Logged() && WellFormed(s)
    modifies b, b.buf
    ensures b.Appended(SpsElements(s))
  {
    hide Encode, BitsOf, EncodeAll, Overwrite, BitStream.Logged, HeaderElements, ChromaElements, TrailingElements, CanonicalVui;
    b.PutAll(HeaderElements(s.header));
    WriteChroma(b, HighProfile(s.header.profileIdc), s.chroma);
    WriteSpsTail(b, s);
  }

  // ---------- the picture parameter set ----------

  method ReadMap(b: BitStream, n: nat, mapType: int) returns (g: SliceGroups)
    requires b.Reading() && n > 0 && IdWidth(n) <= 32
    modifies b
    ensures b.Reading() && b.Bits() == old(b.Bits()) && (g, b.Pos()) == ParseMap(b.Bits(), old(b.Pos()), n, mapType)
  {
    hide BitsOf, EncodeAll, Overwrite, ReadAll, CeilLog2;
    if mapType == 0 {
      var rs := b.GetAll(Repeat(Ue, n + 1));
      g := RunLengths(rs);
    } else if mapType == 2 {
      var cs := b.GetAll(Repeat(Ue, 2 * n));
      g := Rectangles(cs);
    } else if mapType == 3 || mapType == 4 || mapType == 5 {
      var v := b.GetAll([U(1), Ue]);
      g := Evolving(mapType, v[0] == 1, v[1]);
    } else if mapType == 6 {
      UeIsNatural(b.Bits(), b.Pos(), [Ue]);
      var size := b.GetAll([Ue]);
      var width := IntLog2(n + 1);
      var ids := b.GetAll(Repeat(U(width), size[0] + 1));
      g := Explicit(size[0], ids);
    } else {
      g := Other(mapType);
    }
  }

  method WriteExplicit(b: BitStream, n: nat, size: int, ids: seq<int>)
    requires b.Logged()
    modifies b, b.buf
    ensures b.Appended([UeElement(size)] + Run(U(IdWidth(n)), ids))
  {
    hide Encode, BitsOf, EncodeAll, Overwrite, BitStream.Logged, CeilLog2, Run;
    b.Put(UeElement(size));
    var width := IntLog2(n + 1);
    b.PutAll(Run(U(width), ids));
  }

  method WriteMap(b: BitStream, n: nat, g: SliceGroups)
    requires b.Logged() && n > 0
    modifies b, b.buf
    ensures b.Appended(MapElements(n, g))
  {
    hide Encode, BitsOf, EncodeAll, Overwrite, CeilLog2, Run, Fields;
    match g {
      case RunLengths(rs) =>
        b.PutAll(Run(Ue, rs));
      case Rectangles(cs) =>
        b.PutAll(Run(Ue, cs));
      case Evolving(_, direction, rate) =>
        b.PutAll([Flag(direction), UeElement(rate)]);
      case Explicit(size, ids) =>
        WriteExplicit(b, n, size, ids);
      case Single =>
      case Other(_) =>
    }
  }

  lemma WidthOfGroupIds(n: nat)
    requires n < TWO_32
    ensures IdWidth(n) <= 32
  {
    if IdWidth(n) > 32 {
      Pow2Values();
      Pow2Monotonic(32, IdWidth(n) - 1);
    }
  }

  lemma UeIsWord(bits: seq<bool>, pos: nat)
    ensures ReadAll(IDENTITY, bits, pos).0[4] < TWO_32
  {
    hide ReadUe, ReadU, UeToSe;
    ReadAllAppend([Ue, Ue, U(1), U(1)], [Ue], bits, pos);
    assert IDENTITY == [Ue, Ue, U(1), U(1)] + [Ue];
  }

  method ReadExtension(b: BitStream) returns (x: Extension)
    requires b.Reading()
    modifies b
    ensures b.Reading() && b.Bits() == old(b.Bits()) && (x, b.Pos()) == ParseExtension(b.Bits(), old(b.Pos()))
  {
    hide BitsOf, EncodeAll, Overwrite, ReadFlag, ParseLists, AbsentLists, MoreRbspData, ReadElement;
    var more := MoreData(b);
    x := NO_EXTENSION;
    if more {
      var transform := b.GetFlag();
      var matrix := b.GetFlag();
      var lists := AbsentLists(0, 8);
      if matrix {
        var n := ListsSent(transform);
        var sent := ReadLists(b, n);
        lists := sent + AbsentLists(n, 8);
      }
      var second := b.Get(Se);
      x := Extension(transform, matrix, lists, second);
    }
  }

  method WriteExtension(b: BitStream, x: Extension)
    requires b.Logged() && |x.lists| == 8
    modifies b, b.buf
    ensures b.Appended(ExtensionElements(x))
  {
    hide Encode, BitsOf, EncodeAll, Overwrite, ListsElements;
    if x.transform8x8 || x.matrixPresent || x.secondChromaQpIndexOffset != 0 {
      b.PutFlag(x.transform8x8);
      b.PutFlag(x.matrixPresent);
      if x.matrixPresent {
        WriteLists(b, x.lists[..ListsSent(x.transform8x8)]);
      }
      b.Put(SeElement(x.secondChromaQpIndexOffset));
      assert b.log == old(b.log) + ([Flag(x.transform8x8)] + ([Flag(x.matrixPresent)] + ExtensionBody(x)));
    }
  }

  /** read_pic_parameter_set_rbsp. */
  method ReadPps(b: BitStream) returns (s: Pps)
    requires b.Reading()
    modifies b
    ensures b.Reading() && b.Bits() == old(b.Bits()) && (s, b.Pos()) == ParsePps(b.Bits(), old(b.Pos()))
  {
    hide BitsOf, EncodeAll, Overwrite, ReadAll, ParseMap, ParseExtension, IdWidth, CanonicalGroups;
    UeIsWord(b.Bits(), b.Pos());
    var v := b.GetAll(IDENTITY);
    var identity := Identity(v[0], v[1], v[2] == 1, v[3] == 1, v[4]);
    var n := identity.numSliceGroupsMinus1;
    var groups := Single;
    if n > 0 {
      var t := b.GetAll([Ue]);
      WidthOfGroupIds(n);
      groups := ReadMap(b, n, t[0]);
    }
    var c := b.GetAll(CODING);
    var coding := Coding(c[0], c[1], c[2] == 1, c[3], c[4], c[5], c[6], c[7] == 1, c[8] == 1, c[9] == 1);
    var extension := ReadExtension(b);
    s := Pps(identity, groups, coding, extension);
  }

  /** write_pic_parameter_set_rbsp. */
  method WritePps(b: BitStream, s: Pps)
    requires b.Logged() && |s.extension.lists| == 8
    modifies b, b.buf
    ensures b.Appended(PpsElements(s))
  {
    hide Encode, BitsOf, EncodeAll, Overwrite, BitStream.Logged, IdentityElements, MapElements, CodingElements, ExtensionElements;
    b.PutAll(IdentityElements(s.identity));
    if s.identity.numSliceGroupsMinus1 > 0 {
      b.Put(UeElement(MapType(s.groups)));
      WriteMap(b, s.identity.numSliceGroupsMinus1, s.groups);
    }
    b.PutAll(CodingElements(s.coding));
    assert b.log == old(b.log) + BaseElements(s);
    WriteExtension(b, s.extension);
  }
}
