/** The picture parameter sets that do not come back, as UnwritableRecords has it for sequence parameter sets. */
module UnwritablePps {
  import opened CArithmetic
  import opened Bits
  import opened ExpGolomb
  import opened Syntax
  import opened ScalingLists
  import opened SequenceParameterSet
  import opened PictureParameterSet
  import opened UnwritableRecords

  // ---------- scaling lists with any entries ----------

  predicate ShapedExtension(x: Extension) {
    && |x.lists| == 8
    && if x.matrixPresent then
         var n := ListsSent(x.transform8x8);
         ShapedLists(x.lists[..n], 0) && x.lists[n..] == AbsentLists(n, 8)
       else
         x.lists == AbsentLists(0, 8)
  }

  /** The records whose absent fields are those of a cleared record, whatever
      the entries of their lists are. */
  predicate ShapedPps(s: Pps) {
    CanonicalGroups(s.identity.numSliceGroupsMinus1, s.groups) && ShapedExtension(s.extension)
  }

  /** The lists that were sent are lists the writer can reproduce. */
  predicate PpsListsInRange(s: Pps) {
    forall l :: l in s.extension.lists && l.present ==> CanonicalList(l.entries, l.useDefault)
  }

  lemma AbsentHasNone(i: nat, n: nat)
    requires i <= n
    ensures forall l :: l in AbsentLists(i, n) ==> !l.present
  {
    AbsentAreAbsent(i, n);
  }

  /** Such a record is canonical if and only if its lists are in range. */
  lemma CanonicalPpsExactly(s: Pps)
    requires ShapedPps(s)
    ensures CanonicalPps(s) <==> PpsListsInRange(s)
  {
    hide CanonicalGroups, CanonicalLists, ShapedLists, CanonicalList;
    var x := s.extension;
    if x.matrixPresent {
      var n := ListsSent(x.transform8x8);
      ListsAreInRange(x.lists[..n], 0);
      AbsentHasNone(n, 8);
      assert x.lists == x.lists[..n] + x.lists[n..];
      assert forall k: nat :: k < n ==> x.lists[..n][k] in x.lists[..n];
    } else {
      AbsentHasNone(0, 8);
    }
  }

  /** On any bits at all the reader yields such a record. */
  lemma ParsedPpsIsShaped(bits: seq<bool>, pos: nat)
    ensures ShapedPps(ParsePps(bits, pos).0)
  {
    hide ParseBase, MoreRbspData, ReadFlag, ReadElement, ParseLists, CanonicalGroups;
    var (h, g, c, p) := ParseBase(bits, pos);
    var x := ParseExtension(bits, p).0;
    if x.matrixPresent {
      var n := ListsSent(x.transform8x8);
      var p2 := ReadFlag(bits, ReadFlag(bits, p).1).1;
      var ls := ParseLists(bits, p2, 0, n).0;
      assert x.lists == ls + AbsentLists(n, 8);
      assert x.lists[..n] == ls;
    }
  }

  // ---------- the parts ----------

  lemma IdentityExactly(bits: seq<bool>, pos: nat, h: Identity)
    requires Holds(bits, pos, IdentityElements(h)) && AllRepresentable(IdentityElements(h))
    ensures ParseIdentity(bits, pos).0 == h ==> AllWritable(IdentityElements(h))
  {
    hide ReadElement, Encode, Writable, ReadAll, EncodeAll, Holds, After, AllWritable, AllRepresentable;
    assert Descriptors(IdentityElements(h)) == IDENTITY;
    FlagsAreWritable();
    if !AllWritable(IdentityElements(h)) {
      var i := FirstUnwritable(IDENTITY, bits, pos, IdentityElements(h));
    }
  }

  lemma CodingExactly(bits: seq<bool>, pos: nat, c: Coding)
    requires Holds(bits, pos, CodingElements(c)) && AllRepresentable(CodingElements(c))
    ensures ParseCoding(bits, pos).0 == c ==> AllWritable(CodingElements(c))
  {
    hide ReadElement, Encode, Writable, ReadAll, EncodeAll, Holds, After, AllWritable, AllRepresentable;
    assert Descriptors(CodingElements(c)) == CODING;
    FlagsAreWritable();
    if !AllWritable(CodingElements(c)) {
      var i := FirstUnwritable(CODING, bits, pos, CodingElements(c));
    }
  }

  lemma ExplicitExactly(bits: seq<bool>, pos: nat, n: nat, g: SliceGroups)
    requires n > 0 && g.Explicit? && CanonicalGroups(n, g) && ParseExplicit(bits, pos, n).0 == g
    requires Holds(bits, pos, MapElements(n, g)) && AllRepresentable(MapElements(n, g))
    ensures AllWritable(MapElements(n, g))
  {
    hide ReadElement, Encode, Writable, ReadAll, EncodeAll, Holds, After, AllWritable, Representable, IdWidth, Repeat;
    var size, ids := [UeElement(g.picSizeInMapUnitsMinus1)], Run(U(IdWidth(n)), g.groupIds);
    SplitRun(bits, pos, size, ids);
    assert Descriptors(size) == [Ue];
    if !AllWritable(size) {
      var i := FirstUnwritable([Ue], bits, pos, size);
    }
    ReadAllWritten([Ue], bits, pos, size);
    RunExactly(Repeat(U(IdWidth(n)), |g.groupIds|), bits, After(pos, size), ids);
  }

  lemma MapExactly(bits: seq<bool>, pos: nat, n: nat, g: SliceGroups)
    requires n > 0 && CanonicalGroups(n, g) && ParseMap(bits, pos, n, MapType(g)).0 == g
    requires Holds(bits, pos, MapElements(n, g)) && AllRepresentable(MapElements(n, g))
    ensures AllWritable(MapElements(n, g))
  {
    hide ReadElement, Encode, Writable, ReadAll, EncodeAll, Holds, After, IdWidth, ParseExplicit, Repeat, Representable;
    match g
    case RunLengths(rs) => RunExactly(Repeat(Ue, n + 1), bits, pos, Run(Ue, rs));
    case Rectangles(cs) => RunExactly(Repeat(Ue, 2 * n), bits, pos, Run(Ue, cs));
    case Evolving(_, direction, rate) =>
      var es := [Flag(direction), UeElement(rate)];
      assert Descriptors(es) == [U(1), Ue];
      FlagsAreWritable();
      if !AllWritable(es) {
        var i := FirstUnwritable([U(1), Ue], bits, pos, es);
      }
    case Explicit(_, _) => ExplicitExactly(bits, pos, n, g);
    case Other(_) =>
  }

  lemma TypeOfMap(bits: seq<bool>, pos: nat, n: nat, mapType: int)
    requires n > 0
    ensures MapType(ParseMap(bits, pos, n, mapType).0) == mapType
  {
    hide ReadAll, ParseExplicit, Repeat;
  }

  lemma GroupsExactly(bits: seq<bool>, pos: nat, n: int, g: SliceGroups)
    requires CanonicalGroups(n, g) && ParseGroups(bits, pos, n).0 == g
    requires Holds(bits, pos, GroupsElements(n, g)) && AllRepresentable(GroupsElements(n, g))
    ensures AllWritable(GroupsElements(n, g))
  {
    hide ReadElement, Encode, Writable, ReadAll, EncodeAll, Holds, After, AllWritable, AllRepresentable, MapElements,
         ParseMap, MapType;
    NothingIsWritable();
    if n > 0 {
      var kind := [UeElement(MapType(g))];
      SplitRun(bits, pos, kind, MapElements(n, g));
      var (t, p) := ReadAll([Ue], bits, pos);
      TypeOfMap(bits, p, n, t[0]);
      assert Descriptors(kind) == [Ue];
      if !AllWritable(kind) {
        var i := FirstUnwritable([Ue], bits, pos, kind);
      }
      ReadAllWritten([Ue], bits, pos, kind);
      MapExactly(bits, After(pos, kind), n, g);
    }
  }

  lemma BaseExactly(bits: seq<bool>, pos: nat, s: Pps)
    requires ShapedPps(s) && Holds(bits, pos, BaseElements(s)) && AllRepresentable(BaseElements(s))
    requires var (h, g, c, _) := ParseBase(bits, pos); h == s.identity && g == s.groups && c == s.coding
    ensures AllWritable(BaseElements(s)) && ParseBase(bits, pos).3 == After(pos, BaseElements(s))
  {
    hide ReadElement, Encode, Writable, ReadAll, EncodeAll, Holds, After, AllWritable, AllRepresentable, IdentityElements,
         ParseIdentity, GroupsElements, ParseGroups, CodingElements, ParseCoding, CanonicalGroups;
    var n := s.identity.numSliceGroupsMinus1;
    var groups, coding := GroupsElements(n, s.groups), CodingElements(s.coding);
    SplitRun(bits, pos, IdentityElements(s.identity), groups + coding);
    HoldsAppend(bits, pos, IdentityElements(s.identity), groups + coding);
    IdentityExactly(bits, pos, s.identity);
    IdentityRoundTrip(bits, pos, s.identity);
    var p := After(pos, IdentityElements(s.identity));
    SplitRun(bits, p, groups, coding);
    HoldsAppend(bits, p, groups, coding);
    GroupsExactly(bits, p, n, s.groups);
    GroupsRoundTrip(bits, p, n, s.groups);
    CodingExactly(bits, After(p, groups), s.coding);
    CodingRoundTrip(bits, After(p, groups), s.coding);
  }

  // ---------- the extension ----------

  lemma OffsetExactly(bits: seq<bool>, pos: nat, v: int)
    requires Holds(bits, pos, [SeElement(v)]) && AllRepresentable([SeElement(v)]) && ReadElement(Se, bits, pos).0 == v
    ensures AllWritable([SeElement(v)])
  {
    hide ReadElement, Encode, Writable, Representable, EncodeAll;
    var e := SeElement(v);
    assert e in [e];
    EncodeSingle(e);
    HoldsMeaning(bits, pos, [e]);
    ValueExactly(bits, pos, e);
  }

  lemma ExtensionBodyExactly(bits: seq<bool>, pos: nat, x: Extension)
    requires ShapedExtension(x) && Holds(bits, pos, ExtensionBody(x)) && AllRepresentable(ExtensionBody(x))
    requires var (ls, p) := ParseExtensionLists(bits, pos, x.matrixPresent, x.transform8x8);
             ls == x.lists && ReadElement(Se, bits, p).0 == x.secondChromaQpIndexOffset
    ensures CanonicalExtension(x) && AllWritable(ExtensionBody(x))
  {
    hide ReadElement, Encode, Writable, EncodeAll, Holds, After, AllWritable, AllRepresentable, ParseLists, ListsElements,
         CanonicalLists, ShapedLists;
    var n := ListsSent(x.transform8x8);
    var lists := if x.matrixPresent then ListsElements(x.lists[..n]) else [];
    var last := [SeElement(x.secondChromaQpIndexOffset)];
    SplitRun(bits, pos, lists, last);
    NothingAfter(pos);
    NothingIsWritable();
    if x.matrixPresent {
      var ls := ParseLists(bits, pos, 0, n).0;
      assert (ls + AbsentLists(n, 8))[..n] == ls;
      ListsAreWritable(x.lists[..n]);
      ListsExactly(bits, pos, x.lists[..n], 0);
      ListsRoundTrip(bits, pos, x.lists[..n], 0);
    }
    OffsetExactly(bits, After(pos, lists), x.secondChromaQpIndexOffset);
  }

  lemma ExtensionExactly(bits: seq<bool>, pos: nat, x: Extension)
    requires ShapedExtension(x) && ParseExtension(bits, pos).0 == x
    requires Holds(bits, pos, ExtensionElements(x)) && AllRepresentable(ExtensionElements(x))
    requires StopAt(bits, After(pos, ExtensionElements(x)))
    ensures CanonicalExtension(x) && AllWritable(ExtensionElements(x))
  {
    hide ReadElement, Encode, Writable, EncodeAll, Holds, After, AllWritable, AllRepresentable, ExtensionBody, ReadFlag,
         ParseExtensionLists, MoreRbspData, StopAt, ShapedLists, CanonicalLists;
    LookaheadAgrees(bits, pos, x);
    NothingIsWritable();
    if HasExtension(x) {
      FlagsAreWritable();
      OneWritable(Flag(x.transform8x8));
      OneWritable(Flag(x.matrixPresent));
      var rest := [Flag(x.matrixPresent)] + ExtensionBody(x);
      SplitRun(bits, pos, [Flag(x.transform8x8)], rest);
      FlagRoundTrip(bits, pos, x.transform8x8, rest);
      var p := After(pos, [Flag(x.transform8x8)]);
      SplitRun(bits, p, [Flag(x.matrixPresent)], ExtensionBody(x));
      FlagRoundTrip(bits, p, x.matrixPresent, ExtensionBody(x));
      ExtensionBodyExactly(bits, After(p, [Flag(x.matrixPresent)]), x);
    }
  }

  // ---------- the whole parameter set ----------

  lemma AllOfPpsIsRead(bits: seq<bool>, pos: nat, s: Pps)
    requires ShapedPps(s) && ParsePps(bits, pos).0 == s
    requires Holds(bits, pos, PpsElements(s)) && AllRepresentable(PpsElements(s))
    requires StopAt(bits, After(pos, PpsElements(s)))
    ensures CanonicalPps(s) && AllWritable(PpsElements(s))
  {
    hide ReadElement, Encode, Writable, ReadAll, EncodeAll, Holds, After, AllWritable, AllRepresentable, BaseElements,
         ParseBase, ExtensionElements, ParseExtension, StopAt, ShapedExtension, CanonicalExtension, CanonicalGroups;
    SplitRun(bits, pos, BaseElements(s), ExtensionElements(s.extension));
    HoldsAppend(bits, pos, BaseElements(s), ExtensionElements(s.extension));
    BaseExactly(bits, pos, s);
    ExtensionExactly(bits, After(pos, BaseElements(s)), s.extension);
  }

  /** A picture parameter set with trailing bits behind it survives a write and
      a read exactly when all its values can be written and its lists are in
      range. */
  lemma PpsRoundTripExactly(bits: seq<bool>, pos: nat, s: Pps)
    requires ShapedPps(s) && Holds(bits, pos, PpsElements(s)) && AllRepresentable(PpsElements(s))
    requires StopAt(bits, After(pos, PpsElements(s)))
    ensures ParsePps(bits, pos).0 == s <==> AllWritable(PpsElements(s)) && PpsListsInRange(s)
    ensures ParsePps(bits, pos).0 == s ==> ParsePps(bits, pos).1 == After(pos, PpsElements(s))
  {
    hide ReadElement, Encode, Writable, ReadAll, EncodeAll, Holds, After, AllWritable, AllRepresentable, PpsElements,
         ParsePps, StopAt, CanonicalExtension, CanonicalGroups, PpsListsInRange;
    CanonicalPpsExactly(s);
    if ParsePps(bits, pos).0 == s {
      AllOfPpsIsRead(bits, pos, s);
    }
    if CanonicalPps(s) && AllWritable(PpsElements(s)) {
      PpsRoundTrip(bits, pos, s);
    }
  }

  /** A run length of 65537 map units is one that the writer cannot send. */
  lemma LongRunIsLost(bits: seq<bool>, pos: nat, s: Pps)
    requires ShapedPps(s) && Holds(bits, pos, PpsElements(s)) && AllRepresentable(PpsElements(s))
    requires StopAt(bits, After(pos, PpsElements(s)))
    requires s.groups.RunLengths? && 65536 in s.groups.runLengthMinus1
    ensures ParsePps(bits, pos).0 != s
  {
    hide ReadElement, Encode, Writable, ReadAll, EncodeAll, Holds, After, AllRepresentable, IdentityElements,
         CodingElements, ExtensionElements, ParsePps, StopAt, ShapedLists;
    PpsRoundTripExactly(bits, pos, s);
    var rs := s.groups.runLengthMinus1;
    var i :| 0 <= i < |rs| && rs[i] == 65536;
    var run := Run(Ue, rs);
    assert Descriptors(run)[i] == Ue && Values(run)[i] == 65536;
    assert run[i] == UeElement(65536) && run[i] in PpsElements(s);
    BigUeIsUnwritable();
  }

  lemma BigUeIsUnwritable()
    ensures !Writable(UeElement(65536))
  {
    Boundary();
    hide WritableUe;
  }
}
