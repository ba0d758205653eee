/** What the rewritten header means to a reader of it. */
module HeaderMeaning {
  import opened Bits
  import opened Syntax
  import opened SequenceParameterSet
  import opened PictureParameterSet
  import opened Rbsp
  import opened SpsEdit
  import opened UnwritableRecords
  import opened HeaderRewrite
  import opened PpsEscapes
  import E = Emulation

  // ---------- the sequence parameter set ----------

  /** What the writer can send: the record that was read has scaling lists in
      range, it and the new fields fit their codes. */
  ghost predicate Rewritable(h: Params, s: Sps)
    requires WellFormed(s)
  {
    ListsInRange(s) && AllWritable(SpsElements(s)) && ParamsFit(h, s)
  }

  /** The escaped payload of a parameter set that the writer writes. */
  function Written(s: Sps): seq<byte>
    requires WellFormed(s)
  {
    E.Escape(Payload(SpsElements(s)))
  }

  lemma WrittenMeans(s: Sps, beyond: byte)
    requires WellFormed(s)
    ensures ReadPayload(Written(s), beyond) == ParseSps(BitsOf(Payload(SpsElements(s))), 0).0
  {
    hide ParseSps, BitsOf, E.EscapeFrom, E.UnescapeFrom, SpsElements, Payload, WellFormed;
    E.UnescapeEscape(Payload(SpsElements(s)), beyond);
  }

  lemma RewrittenMeans(h: Params, y: seq<byte>, beyond: byte)
    requires NeedsEdit(h)
    ensures WellFormed(Edit(h, ReadPayload(y, beyond)))
    ensures RewrittenSps(h, y, beyond) == Written(Edit(h, ReadPayload(y, beyond)))
  {
    hide ParseSps, BitsOf, E.EscapeFrom, E.UnescapeFrom, SpsElements, Payload, WellFormed, Edit;
    EditKeepsWellFormed(h, ReadPayload(y, beyond));
  }

  /** Behind a written payload comes the stop bit, where the reader stops. */
  lemma WrittenReadsBack(s: Sps, beyond: byte)
    requires WellFormed(s) && Canonical(s) && AllWritable(SpsElements(s)) && !Has12Lists(s)
    ensures ReadPayload(Written(s), beyond) == s
  {
    hide AllWritable, Canonical, WellFormed, SpsElements, Payload, Holds, ParseSps, BitsOf, StopAt, Written, ReadPayload;
    WrittenMeans(s, beyond);
    PayloadHolds(SpsElements(s));
    SpsRoundTrip(BitsOf(Payload(SpsElements(s))), 0, s);
  }

  lemma WrittenReadsBackExactly(s: Sps, beyond: byte)
    requires WellFormed(s) && Shaped(s) && AllRepresentable(SpsElements(s))
    ensures ReadPayload(Written(s), beyond) == s <==> Kept(s)
  {
    hide Kept, AllRepresentable, Shaped, WellFormed, SpsElements, Payload, Holds, ParseSps, BitsOf, StopAt, Written,
         ReadPayload;
    WrittenMeans(s, beyond);
    PayloadHolds(SpsElements(s));
    SpsRoundTripExactly(BitsOf(Payload(SpsElements(s))), 0, s);
  }

  lemma ReadIsCanonical(y: seq<byte>, beyond: byte)
    requires ListsInRange(ReadPayload(y, beyond)) && !Has12Lists(ReadPayload(y, beyond))
    ensures Canonical(ReadPayload(y, beyond))
  {
    hide ParseSps, Canonical, ListsInRange, Has12Lists;
    ParsedIsCanonical(BitsOf(E.Unescape(y, beyond)), 0);
  }

  /** An escaped payload as the standard wants it behind a start code. */
  predicate UnitPayload(y: seq<byte>) {
    E.Legal(y) && y != [] && y[|y| - 1] != 0
  }

  lemma WrittenIsUnitPayload(s: Sps)
    requires WellFormed(s)
    ensures UnitPayload(Written(s))
  {
    hide WellFormed, SpsElements, Payload, E.EscapeFrom, E.Legal, Holds, StopAt;
    var p := Payload(SpsElements(s));
    E.EscapeIsLegal(p);
    PayloadHolds(SpsElements(s));
    E.EscapeKeepsLast(p, 0);
  }

  lemma EditKeepsLists(h: Params, s: Sps)
    ensures Has12Lists(Edit(h, s)) == Has12Lists(s)
  {
  }

  /** Unescaping and reading the rewritten payload yields the record of the old
      one with only the assigned fields changed; and what is written is legal,
      ends in a nonzero byte, and is what a second rewriting would write. */
  lemma RewriteKeepsMeaning(h: Params, y: seq<byte>, beyond: byte, beyond': byte)
    requires NeedsEdit(h) && Rewritable(h, ReadPayload(y, beyond)) && !Has12Lists(ReadPayload(y, beyond))
    ensures var out := RewrittenSps(h, y, beyond);
            && ReadPayload(out, beyond') == Edit(h, ReadPayload(y, beyond))
            && Assigned(h, ReadPayload(y, beyond), ReadPayload(out, beyond'))
            && UnitPayload(out)
            && RewrittenSps(h, out, beyond') == out
  {
    hide ReadPayload, Canonical, AllWritable, ListsInRange, WellFormed, Edit, SpsElements, UnitPayload, NeedsEdit,
         ParamsFit, RewrittenSps, Written, Has12Lists, Assigned;
    var s := ReadPayload(y, beyond);
    EditAssigns(h, s, Edit(h, s));
    ReadIsCanonical(y, beyond);
    EditWritable(h, s);
    EditKeepsLists(h, s);
    RewrittenMeans(h, y, beyond);
    WrittenReadsBack(Edit(h, s), beyond');
    WrittenIsUnitPayload(Edit(h, s));
    EditIsIdempotent(h, s);
    RewrittenMeans(h, Written(Edit(h, s)), beyond');
  }

  lemma ReadIsShaped(y: seq<byte>, beyond: byte)
    requires NoLastLists(ReadPayload(y, beyond))
    ensures Shaped(ReadPayload(y, beyond))
  {
    hide ParseSps, Shaped, NoLastLists;
    ParsedIsShaped(BitsOf(E.Unescape(y, beyond)), 0);
  }

  /** The elements of the edited record. */
  function EditedElements(h: Params, s: Sps): seq<Element>
    requires WellFormed(s)
  {
    EditKeepsWellFormed(h, s);
    SpsElements(Edit(h, s))
  }

  lemma KeptByEdit(h: Params, s: Sps)
    requires Shaped(s) && WellFormed(s)
    ensures WellFormed(Edit(h, s)) && EditedElements(h, s) == SpsElements(Edit(h, s))
    ensures Kept(Edit(h, s)) <==> AllWritable(EditedElements(h, s)) && ListsInRange(s) && !Has12Lists(s)
  {
    hide SpsElements, AllWritable, Edit, Shaped, WellFormed;
    EditKeepsWellFormed(h, s);
    EditKeepsShaped(h, s);
  }

  /** Whatever bytes were read: the rewriting keeps the meaning exactly when the
      edited record can be written, the scaling lists that were read are in
      range, and it is not one with chroma_format_idc 3 and a scaling matrix. */
  lemma RewriteKeepsMeaningExactly(h: Params, y: seq<byte>, beyond: byte, beyond': byte)
    requires NeedsEdit(h) && NoLastLists(ReadPayload(y, beyond))
    requires AllRepresentable(EditedElements(h, ReadPayload(y, beyond)))
    ensures var s := ReadPayload(y, beyond);
            ReadPayload(RewrittenSps(h, y, beyond), beyond') == Edit(h, s)
            <==> AllWritable(EditedElements(h, s)) && ListsInRange(s) && !Has12Lists(s)
  {
    hide ReadPayload, EditedElements, Kept, AllWritable, AllRepresentable, WellFormed, Edit, SpsElements, NeedsEdit, RewrittenSps,
         Written, Has12Lists, Shaped, ListsInRange, NoLastLists;
    var s := ReadPayload(y, beyond);
    ReadIsShaped(y, beyond);
    EditKeepsShaped(h, s);
    RewrittenMeans(h, y, beyond);
    KeptByEdit(h, s);
    WrittenReadsBackExactly(Edit(h, s), beyond');
  }

  // ---------- splitting ----------

  /** A unit: the start code, its first byte and an escaped payload. */
  function Unit(first: byte, y: seq<byte>): seq<byte> {
    [0, 0, 0, 1, first] + y
  }

  /** No start code of four bytes lies across or inside a legal payload. */
  lemma NoStartInside(first: byte, y: seq<byte>, rest: seq<byte>, i: nat)
    requires UnitPayload(y) && first != 0
    requires 0 < i < |Unit(first, y)| && i + 4 < |Unit(first, y) + rest|
    ensures forall kind :: !StartsNal(Unit(first, y) + rest, i, kind)
  {
    var s := Unit(first, y) + rest;
    assert s[3] == 1 && s[4] == first && s[|y| + 4] == y[|y| - 1];
    if i >= NAL_HEADER && i + 2 < NAL_HEADER + |y| {
      assert E.LegalAt(y, i - NAL_HEADER);
      assert s[i] == y[i - 5] && s[i + 1] == y[i - 4] && s[i + 2] == y[i - 3];
    }
  }

  /** A header of two units. */
  function Header(first: byte, y: seq<byte>, second: byte, x: seq<byte>): (s: seq<byte>)
    ensures |s| == 2 * NAL_HEADER + |y| + |x|
  {
    Unit(first, y) + Unit(second, x)
  }

  /** The scans stop exactly at the two units, if and only if the second is
      longer than its five header bytes. */
  lemma SplitsExactly(first: byte, y: seq<byte>, second: byte, x: seq<byte>)
    requires UnitPayload(y) && first & 0x1F == 7 && second & 0x1F == 8
    ensures var s := Header(first, y, second, x);
            && Found(s, SPS_TYPE, 0)
            && (Found(s, PPS_TYPE, NAL_HEADER + |y|) <==> x != [])
            && (Found(s, PPS_TYPE, -1) <==> x == [])
  {
    hide E.Legal;
    var u, s := Unit(first, y), Header(first, y, second, x);
    assert first != 0 && StartsNal(s, 0, SPS_TYPE) && !StartsNal(s, 0, PPS_TYPE);
    forall i: nat | 0 < i < |u| && i < |s| - NAL_HEADER
      ensures !StartsNal(s, i, PPS_TYPE)
    {
      NoStartInside(first, y, Unit(second, x), i);
    }
    assert StartsNal(s, |u|, PPS_TYPE);
  }

  /** What the rewriter makes of a header of two units. */
  function HeaderOut(h: Params, first: byte, y: seq<byte>, second: byte, x: seq<byte>): (out: seq<byte>)
  {
    RewrittenHeader(h, Header(first, y, second, x), 0, NAL_HEADER + |y|)
  }

  lemma RewrittenUnits(h: Params, first: byte, y: seq<byte>, second: byte, x: seq<byte>)
    ensures HeaderOut(h, first, y, second, x) == Header(first, RewrittenSps(h, y, 0), second, RewrittenPps(x))
  {
    hide RewrittenSps, RewrittenPps;
    HeaderSlices(Header(first, y, second, x), [0, 0, 0, 1, first], y, [0, 0, 0, 1, second], x);
  }

  lemma HeaderSlices(s: seq<byte>, a: seq<byte>, y: seq<byte>, b: seq<byte>, x: seq<byte>)
    requires s == (a + y) + (b + x) && |a| == NAL_HEADER && |b| == NAL_HEADER
    ensures s[..0 + NAL_HEADER] == a && s[0 + NAL_HEADER..NAL_HEADER + |y|] == y
    ensures s[NAL_HEADER + |y|..NAL_HEADER + |y| + NAL_HEADER] == b && s[NAL_HEADER + |y| + NAL_HEADER..] == x
  {
  }

  /** A header of two units is rewritten to a header of two units that the
      scans split at the right place again. The first one means what the old
      one meant but for the assigned fields; the second one means what the old
      one meant, if neither has a place for an escape byte and its record can be
      written. */
  lemma HeaderKeepsMeaning(h: Params, first: byte, y: seq<byte>, second: byte, x: seq<byte>, beyond: byte)
    requires UnitPayload(y) && first & 0x1F == 7 && second & 0x1F == 8 && x != []
    requires NeedsEdit(h) ==> Rewritable(h, ReadPayload(y, 0)) && !Has12Lists(ReadPayload(y, 0))
    ensures var s, out := Header(first, y, second, x), HeaderOut(h, first, y, second, x);
            var sps, pps := RewrittenSps(h, y, 0), RewrittenPps(x);
            && out == Header(first, sps, second, pps)
            && Found(s, SPS_TYPE, 0) && Found(s, PPS_TYPE, NAL_HEADER + |y|)
            && Found(out, SPS_TYPE, 0) && Found(out, PPS_TYPE, NAL_HEADER + |sps|)
            && UnitPayload(sps)
            && ReadPayload(sps, beyond) == (if NeedsEdit(h) then Edit(h, ReadPayload(y, 0)) else ReadPayload(y, 0))
            && (Keepable(x, beyond) ==> ReadPps(pps, beyond) == ReadPps(x, beyond))
  {
    hide *;
    if Keepable(x, beyond) {
      KeepableIsKept(x, beyond, beyond);
    }
    RewrittenUnits(h, first, y, second, x);
    SplitsExactly(first, y, second, x);
    PpsIsNotEmpty(x);
    SpsKeepsMeaning(h, y, beyond);
    SplitsExactly(first, RewrittenSps(h, y, 0), second, RewrittenPps(x));
  }

  lemma SpsKeepsMeaning(h: Params, y: seq<byte>, beyond: byte)
    requires UnitPayload(y)
    requires NeedsEdit(h) ==> Rewritable(h, ReadPayload(y, 0)) && !Has12Lists(ReadPayload(y, 0))
    ensures var sps := RewrittenSps(h, y, 0);
            && UnitPayload(sps)
            && ReadPayload(sps, beyond) == if NeedsEdit(h) then Edit(h, ReadPayload(y, 0)) else ReadPayload(y, 0)
  {
    hide *;
    if NeedsEdit(h) {
      RewriteKeepsMeaning(h, y, 0, beyond);
    } else {
      NotEdited(h, y, beyond);
    }
  }

  /** A header of two units is one that the rewriter may be given, if what it
      makes of it has room. */
  lemma HeaderIsAccepted(h: Params, first: byte, y: seq<byte>, second: byte, x: seq<byte>, capacity: nat)
    requires UnitPayload(y) && first & 0x1F == 7 && second & 0x1F == 8 && x != []
    requires SpsFits(h, y, 0, 2 * NAL_HEADER + |y| + |x|) && |RewrittenPps(x)| <= |x|
    requires |HeaderOut(h, first, y, second, x)| <= capacity
    ensures HeaderFits(h, Header(first, y, second, x), 0, NAL_HEADER + |y|, capacity)
  {
    hide UnitPayload, SpsFits, RewrittenPps, RewrittenSps, HeaderOut, Header, Found, HeaderFits, E.NeedsBeyond;
    HeaderParts(first, y, second, x);
    PayloadStandsAlone(y);
    SplitsExactly(first, y, second, x);
    RewrittenUnits(h, first, y, second, x);
    HeaderHasRoom(h, Header(first, y, second, x), NAL_HEADER + |y|, y, x, capacity);
  }

  /** And nothing of what it makes of it is left to the bytes that malloc gave it. */
  lemma HeaderIsDetermined(h: Params, first: byte, y: seq<byte>, second: byte, x: seq<byte>, beyond: byte, pps: seq<byte>)
    requires UnitPayload(y) && |RewrittenPps(x)| <= |x| && FitsOver(x, pps)
    ensures Joined(Header(first, y, second, x), 0, NAL_HEADER + |y|, RewrittenSps(h, y, beyond), pps)
            == HeaderOut(h, first, y, second, x)
  {
    hide UnitPayload, RewrittenPps, RewrittenSps, RewrittenHeader, HeaderOut, Header, FitsOver, Joined, E.NeedsBeyond;
    HeaderParts(first, y, second, x);
    PayloadStandsAlone(y);
    JoinedIsRewritten(h, Header(first, y, second, x), 0, NAL_HEADER + |y|, beyond, pps);
    OutIsRewritten(h, first, y, second, x);
  }

  lemma OutIsRewritten(h: Params, first: byte, y: seq<byte>, second: byte, x: seq<byte>)
    ensures HeaderOut(h, first, y, second, x) == RewrittenHeader(h, Header(first, y, second, x), 0, NAL_HEADER + |y|)
  {
    hide RewrittenHeader, Header;
  }

  lemma HeaderHasRoom(h: Params, s: seq<byte>, p: nat, y: seq<byte>, x: seq<byte>, capacity: nat)
    requires NAL_HEADER <= p && p + NAL_HEADER <= |s| && s[0 + NAL_HEADER..p] == y && s[p + NAL_HEADER..] == x
    requires Found(s, SPS_TYPE, 0) && Found(s, PPS_TYPE, p) && !E.NeedsBeyond(y, 0)
    requires SpsFits(h, y, 0, |s|) && |RewrittenPps(x)| <= |x|
    requires 2 * NAL_HEADER + |RewrittenSps(h, y, 0)| + |RewrittenPps(x)| <= capacity
    ensures HeaderFits(h, s, 0, p, capacity)
  {
    hide RewrittenPps, RewrittenSps, SpsFits, Found, E.NeedsBeyond;
    forall beyond: byte
      ensures SpsFits(h, y, beyond, |s|) && RewrittenSps(h, y, beyond) == RewrittenSps(h, y, 0)
    {
      BeyondDoesNotMatter(h, y, beyond, |s|);
    }
  }

  lemma HeaderParts(first: byte, y: seq<byte>, second: byte, x: seq<byte>)
    ensures var s, p := Header(first, y, second, x), NAL_HEADER + |y|;
            s[0 + NAL_HEADER..p] == y && s[p + NAL_HEADER..] == x
  {
  }

  lemma PayloadStandsAlone(y: seq<byte>)
    requires UnitPayload(y)
    ensures !E.NeedsBeyond(y, 0)
  {
    hide E.NeedsBeyond, E.UnescapeFrom;
    E.LegalStandsAlone(y, 0, 0);
  }

  lemma PpsIsNotEmpty(x: seq<byte>)
    ensures RewrittenPps(x) != []
  {
    hide ParsePps, PpsElements, EncodeAll;
  }

  lemma NotEdited(h: Params, y: seq<byte>, beyond: byte)
    requires !NeedsEdit(h) && UnitPayload(y)
    ensures RewrittenSps(h, y, 0) == y && ReadPayload(y, beyond) == ReadPayload(y, 0)
  {
    hide ParseSps, E.Legal;
    E.LegalStandsAlone(y, beyond, 0);
  }
}
