/**
  The syntax tables of section 7.3.2 and Annex E.1 of H.264, read straight from
  the bits: which bits of any string each named field of a parameter set is
  taken from, with which code. With the round trips this settles what the
  writers send.
 */
module SyntaxTables {
  import opened CArithmetic
  import opened Bits
  import opened ExpGolomb
  import opened Syntax
  import opened ScalingLists
  import opened VuiParameters
  import opened SequenceParameterSet
  import opened PictureParameterSet

  // ---------- codes ----------

  /** se(v): the value and the position behind it. */
  function ReadSe(bits: seq<bool>, pos: nat): (r: (int, nat)) {
    (UeToSe(ReadUe(bits, pos).0), ReadUe(bits, pos).1)
  }

  /** Table 9-3: the code numbers 1, 2, 3, 4 stand for 1, -1, 2, -2. */
  lemma SignedTable(k: int)
    requires 0 < k && 2 * k < TWO_31
    ensures UeToSe(2 * k - 1) == k && UeToSe(2 * k) == -k && UeToSe(0) == 0
    ensures SeToUe(k) == 2 * k - 1 && SeToUe(-k) == 2 * k && SeToUe(0) == 0
  {
  }

  /** The position behind n Exp-Golomb codes. */
  function SkipCodes(bits: seq<bool>, pos: nat, n: nat): nat {
    if n == 0 then pos else ReadUe(bits, SkipCodes(bits, pos, n - 1)).1
  }

  lemma {:induction false} SkipFirst(bits: seq<bool>, pos: nat, n: nat)
    ensures SkipCodes(bits, pos, n + 1) == SkipCodes(bits, ReadUe(bits, pos).1, n)
  {
    hide ReadUe;
    if n > 0 {
      SkipFirst(bits, pos, n - 1);
    } else {
      assert SkipCodes(bits, pos, 1) == ReadUe(bits, SkipCodes(bits, pos, 0)).1;
    }
  }

  // ---------- runs of fields ----------

  /** Where field i of a run begins. */
  function FieldPos(ds: seq<Descriptor>, bits: seq<bool>, pos: nat, i: nat): nat
    requires i <= |ds|
  {
    if i == 0 then pos else ReadElement(ds[i - 1], bits, FieldPos(ds, bits, pos, i - 1)).1
  }

  lemma {:induction false} FieldPosRest(ds: seq<Descriptor>, bits: seq<bool>, pos: nat, i: nat)
    requires i < |ds|
    ensures FieldPos(ds, bits, pos, i + 1) == FieldPos(ds[1..], bits, ReadElement(ds[0], bits, pos).1, i)
  {
    hide ReadElement;
    if i > 0 {
      FieldPosRest(ds, bits, pos, i - 1);
      assert ds[i] == ds[1..][i - 1];
    } else {
      assert FieldPos(ds, bits, pos, 1) == ReadElement(ds[0], bits, FieldPos(ds, bits, pos, 0)).1;
    }
  }

  /** A run reads its fields one by one, each where the one before ends. */
  lemma {:induction false} FieldsOfRun(ds: seq<Descriptor>, bits: seq<bool>, pos: nat)
    ensures forall i: nat :: i < |ds| ==>
              ReadAll(ds, bits, pos).0[i] == ReadElement(ds[i], bits, FieldPos(ds, bits, pos, i)).0
    ensures ReadAll(ds, bits, pos).1 == FieldPos(ds, bits, pos, |ds|)
    decreases |ds|
  {
    hide ReadElement;
    if ds != [] {
      var (v, p) := ReadElement(ds[0], bits, pos);
      var rest := ds[1..];
      FieldsOfRun(rest, bits, p);
      var vs := ReadAll(rest, bits, p).0;
      assert ReadAll(ds, bits, pos).0 == [v] + vs;
      forall i: nat | i < |ds|
        ensures ReadAll(ds, bits, pos).0[i] == ReadElement(ds[i], bits, FieldPos(ds, bits, pos, i)).0
      {
        if i > 0 {
          FieldPosRest(ds, bits, pos, i - 1);
          assert ds[i] == rest[i - 1] && ([v] + vs)[i] == vs[i - 1];
        }
      }
      FieldPosRest(ds, bits, pos, |ds| - 1);
    }
  }

  lemma OneBit(bits: seq<bool>, pos: nat)
    ensures ReadElement(U(1), bits, pos) == (if BitAt(bits, pos) then 1 else 0, pos + 1)
    ensures ReadFlag(bits, pos) == (BitAt(bits, pos), pos + 1)
  {
    assert ReadU(bits, pos, 0) == 0;
  }

  lemma Codes(bits: seq<bool>, pos: nat)
    ensures ReadElement(Ue, bits, pos) == ReadUe(bits, pos)
    ensures ReadElement(Se, bits, pos) == ReadSe(bits, pos)
    ensures forall n: nat :: ReadElement(U(n), bits, pos) == (ReadU(bits, pos, n), pos + n)
  {
    hide ReadUe, ReadU, UeToSe;
  }

  /** Field i of a run, by its descriptor. */
  lemma Field(ds: seq<Descriptor>, bits: seq<bool>, pos: nat, i: nat)
    requires i < |ds|
    ensures var p := FieldPos(ds, bits, pos, i);
            var v := ReadAll(ds, bits, pos).0[i];
            && (ds[i].Ue? ==> v == ReadUe(bits, p).0 && FieldPos(ds, bits, pos, i + 1) == ReadUe(bits, p).1)
            && (ds[i].Se? ==> v == ReadSe(bits, p).0 && FieldPos(ds, bits, pos, i + 1) == ReadSe(bits, p).1)
            && (ds[i].U? ==> v == ReadU(bits, p, ds[i].n) && FieldPos(ds, bits, pos, i + 1) == p + ds[i].n)
            && (ds[i] == U(1) ==> (v == 1 <==> BitAt(bits, p)))
            && (i + 1 == |ds| ==> ReadAll(ds, bits, pos).1 == FieldPos(ds, bits, pos, i + 1))
  {
    var p := FieldPos(ds, bits, pos, i);
    FieldsOfRun(ds, bits, pos);
    Codes(bits, p);
    OneBit(bits, p);
    hide ReadElement, ReadUe, ReadSe, ReadU, ReadAll, BitAt;
  }

  /** The first field begins where the run does. */
  lemma FirstField(ds: seq<Descriptor>, bits: seq<bool>, pos: nat)
    ensures FieldPos(ds, bits, pos, 0) == pos
    ensures ds == [] ==> ReadAll(ds, bits, pos).1 == pos
  {
  }

  /** A run of n equal Exp-Golomb codes. */
  lemma {:induction false} CodePositions(d: Descriptor, n: nat, bits: seq<bool>, pos: nat, i: nat)
    requires !d.U? && i <= n
    ensures FieldPos(seq(n, _ => d), bits, pos, i) == SkipCodes(bits, pos, i)
  {
    hide ReadUe, UeToSe, ReadU;
    if i > 0 {
      CodePositions(d, n, bits, pos, i - 1);
    }
  }

  lemma RunOfCodes(d: Descriptor, n: nat, bits: seq<bool>, pos: nat)
    requires !d.U?
    ensures var (vs, q) := ReadAll(seq(n, _ => d), bits, pos);
            && q == SkipCodes(bits, pos, n)
            && forall i: nat :: i < n ==>
                 vs[i] == if d.Ue? then ReadUe(bits, SkipCodes(bits, pos, i)).0 else ReadSe(bits, SkipCodes(bits, pos, i)).0
  {
    hide ReadAll, ReadUe, ReadSe, FieldPos, SkipCodes;
    var ds := seq(n, _ => d);
    FieldsOfRun(ds, bits, pos);
    CodePositions(d, n, bits, pos, n);
    forall i: nat | i < n
      ensures var vs := ReadAll(ds, bits, pos).0;
              vs[i] == if d.Ue? then ReadUe(bits, SkipCodes(bits, pos, i)).0 else ReadSe(bits, SkipCodes(bits, pos, i)).0
    {
      CodePositions(d, n, bits, pos, i);
      Field(ds, bits, pos, i);
    }
  }

  // ---------- the sequence parameter set ----------

  /** seq_parameter_set_data up to seq_parameter_set_id. */
  lemma HeaderTable(bits: seq<bool>, pos: nat)
    ensures var (h, q) := ParseHeader(bits, pos);
            && h.profileIdc == ReadU(bits, pos, 8)
            && h.constraint0 == BitAt(bits, pos + 8) && h.constraint1 == BitAt(bits, pos + 9)
            && h.constraint2 == BitAt(bits, pos + 10) && h.constraint3 == BitAt(bits, pos + 11)
            && h.constraint4 == BitAt(bits, pos + 12) && h.constraint5 == BitAt(bits, pos + 13)
            && h.levelIdc == ReadU(bits, pos + 16, 8)
            && h.id == ReadUe(bits, pos + 24).0 && q == ReadUe(bits, pos + 24).1
  {
    hide ReadAll, ReadUe, ReadU, BitAt, FieldPos;
    FirstField(HEADER, bits, pos);
    Field(HEADER, bits, pos, 0);
    Field(HEADER, bits, pos, 1);
    Field(HEADER, bits, pos, 2);
    Field(HEADER, bits, pos, 3);
    Field(HEADER, bits, pos, 4);
    Field(HEADER, bits, pos, 5);
    Field(HEADER, bits, pos, 6);
    Field(HEADER, bits, pos, 7);
    Field(HEADER, bits, pos, 8);
    Field(HEADER, bits, pos, 9);
  }

  /** The fields that only the high profiles send. */
  lemma ChromaTable(bits: seq<bool>, pos: nat, profile: int)
    ensures var (c, q) := ParseChroma(bits, pos, HighProfile(profile));
            if profile in {44, 83, 86, 100, 110, 118, 122, 128, 134, 138, 139, 244} then
              var (format, p1) := ReadUe(bits, pos);
              var p2 := if format == 3 then p1 + 1 else p1;
              var (luma, p3) := ReadUe(bits, p2);
              var (chroma, p4) := ReadUe(bits, p3);
              && c.formatIdc == format && c.residualColourTransform == (format == 3 && BitAt(bits, p1))
              && c.bitDepthLumaMinus8 == luma && c.bitDepthChromaMinus8 == chroma
              && c.qpprimeYZeroTransformBypass == BitAt(bits, p4) && c.matrixPresent == BitAt(bits, p4 + 1)
              && (if c.matrixPresent then
                    var n := if format == 3 then 12 else 8;
                    var (ls, p5) := ParseLists(bits, p4 + 2, 0, n);
                    c.lists == ls + AbsentLists(n, 12) && q == p5
                  else
                    c.lists == AbsentLists(0, 12) && q == p4 + 2)
            else
              c == Chroma(1, false, 0, 0, false, false, AbsentLists(0, 12)) && q == pos
  {
    hide ReadAll, ReadUe, BitAt, FieldPos, ParseLists, AbsentLists, ReadFlag;
    if HighProfile(profile) {
      FirstField([Ue], bits, pos);
      Field([Ue], bits, pos, 0);
      OneBit(bits, ReadUe(bits, pos).1);
      var p := ParseFormat(bits, pos).2;
      FirstField(DEPTHS, bits, p);
      Field(DEPTHS, bits, p, 0);
      Field(DEPTHS, bits, p, 1);
      Field(DEPTHS, bits, p, 2);
      Field(DEPTHS, bits, p, 3);
    }
  }

  /** Slot i of a scaling matrix: lists 0 to 5 have 16 entries, the others 64. */
  lemma SlotTable(bits: seq<bool>, pos: nat, i: nat, n: nat)
    requires i < n
    ensures var size := if i <= 5 then 16 else 64;
            var (ls, q) := ParseLists(bits, pos, i, n);
            && ls[0].present == BitAt(bits, pos) && |ls[0].entries| == size
            && (if BitAt(bits, pos) then
                  var (entries, useDefault, p) := ParseScalingList(bits, pos + 1, size);
                  && ls[0].entries == entries && ls[0].useDefault == useDefault
                  && (ls[1..], q) == ParseLists(bits, p, i + 1, n)
                else
                  && (forall k :: 0 <= k < size ==> ls[0].entries[k] == 0) && !ls[0].useDefault
                  && (ls[1..], q) == ParseLists(bits, pos + 1, i + 1, n))
  {
    hide ParseScalingList, ReadFlag, BitAt;
    OneBit(bits, pos);
    var (l, p) := ParseSlot(bits, pos, ListSize(i));
    var (ls, q) := ParseLists(bits, p, i + 1, n);
    assert ParseLists(bits, pos, i, n) == ([l] + ls, q);
    assert ([l] + ls)[1..] == ls;
  }

  /** delta_scale j of a list. */
  function DeltaAt(bits: seq<bool>, pos: nat, j: nat): int {
    ReadSe(bits, SkipCodes(bits, pos, j)).0
  }

  /** scale, and the deltas up to delta j added to it. */
  function ScaleAt(bits: seq<bool>, pos: nat, scale: int, j: nat): int {
    if j == 0 then scale else ScaleAt(bits, pos, scale, j - 1) + DeltaAt(bits, pos, j - 1)
  }

  /** None of the first k deltas is out of range or ends the list. */
  ghost predicate GoesOn(bits: seq<bool>, pos: nat, scale: int, k: nat) {
    forall j: nat :: j < k ==> DeltaAt(bits, pos, j) >= -256 && ScaleAt(bits, pos, scale, j + 1) % 256 != 0
  }

  lemma {:induction false} ScaleAfterFirst(bits: seq<bool>, pos: nat, scale: int, next: int, j: nat)
    requires (next - scale - DeltaAt(bits, pos, 0)) % 256 == 0
    ensures (ScaleAt(bits, ReadUe(bits, pos).1, next, j) - ScaleAt(bits, pos, scale, j + 1)) % 256 == 0
    ensures DeltaAt(bits, ReadUe(bits, pos).1, j) == DeltaAt(bits, pos, j + 1)
  {
    hide ReadUe, ReadSe;
    SkipFirst(bits, pos, j);
    if j > 0 {
      ScaleAfterFirst(bits, pos, scale, next, j - 1);
    } else {
      assert ScaleAt(bits, pos, scale, 1) == ScaleAt(bits, pos, scale, 0) + DeltaAt(bits, pos, 0);
    }
  }

  lemma SameRemainder(a: int, b: int)
    requires (a - b) % 256 == 0
    ensures a % 256 == b % 256
  {
  }

  lemma GoesOnBehind(bits: seq<bool>, pos: nat, scale: int, next: int, k: nat)
    requires k > 0 && GoesOn(bits, pos, scale, k) && (next - scale - DeltaAt(bits, pos, 0)) % 256 == 0
    ensures GoesOn(bits, ReadUe(bits, pos).1, next, k - 1)
  {
    hide ReadUe, ReadSe, ScaleAt, DeltaAt;
    forall j: nat | j < k - 1
      ensures DeltaAt(bits, ReadUe(bits, pos).1, j) >= -256 && ScaleAt(bits, ReadUe(bits, pos).1, next, j + 1) % 256 != 0
    {
      ScaleAfterFirst(bits, pos, scale, next, j);
      NextSum(bits, pos, scale, next, j + 1);
    }
  }

  lemma FirstScale(bits: seq<bool>, pos: nat, scale: int)
    requires 1 <= scale <= 255 && GoesOn(bits, pos, scale, 1)
    ensures var nx := NextScale(scale, DeltaAt(bits, pos, 0));
            && 1 <= nx <= 255 && (nx - scale - DeltaAt(bits, pos, 0)) % 256 == 0
            && nx == ScaleAt(bits, pos, scale, 1) % 256
  {
    hide ReadUe, ReadSe;
    assert ScaleAt(bits, pos, scale, 1) == ScaleAt(bits, pos, scale, 0) + DeltaAt(bits, pos, 0);
    var d := DeltaAt(bits, pos, 0);
    assert d >= -256 && ScaleAt(bits, pos, scale, 0 + 1) % 256 != 0;
    assert NextScale(scale, d) == (scale + d + 256) % 256;
  }

  /** Behind k deltas that go on, the first k entries are the running sums
      modulo 256, and the rest of the list is read behind them. */
  lemma {:induction false} EntriesAreSums(bits: seq<bool>, pos: nat, n: nat, first: bool, scale: int, k: nat)
    requires 1 <= scale <= 255 && k <= n && GoesOn(bits, pos, scale, k)
    ensures var r := ParseFrom(bits, pos, n, first, scale, scale, false);
            var last := ScaleAt(bits, pos, scale, k) % 256;
            var rest := ParseFrom(bits, SkipCodes(bits, pos, k), n - k, first && k == 0, last, last, false);
            && (forall j: nat :: j < k ==> r.0[j] == ScaleAt(bits, pos, scale, j + 1) % 256)
            && r.0[k..] == rest.0 && r.1 == rest.1 && r.2 == rest.2
    decreases k
  {
    hide ReadUe, ReadSe, DeltaAt, GoesOn, SkipCodes, ScaleAt, ParseFrom;
    SumsBegin(bits, pos, scale);
    if k > 0 {
      FirstOfRun(bits, pos, scale, k);
      var nx, q := ScaleAt(bits, pos, scale, 1) % 256, ReadUe(bits, pos).1;
      FirstEntry(bits, pos, n, first, scale);
      GoesOnBehind(bits, pos, scale, nx, k);
      EntriesAreSums(bits, q, n - 1, false, nx, k - 1);
      SkipFirst(bits, pos, k - 1);
      var tail := ParseFrom(bits, q, n - 1, false, nx, nx, false).0;
      assert ([nx] + tail)[k..] == tail[k - 1..];
      forall j: nat | j < k
        ensures ([nx] + tail)[j] == ScaleAt(bits, pos, scale, j + 1) % 256
      {
        if j > 0 {
          NextSum(bits, pos, scale, nx, j);
        }
      }
      NextSum(bits, pos, scale, nx, k - 1);
    }
  }

  lemma FirstEntry(bits: seq<bool>, pos: nat, n: nat, first: bool, scale: int)
    requires 1 <= scale <= 255 && n > 0 && GoesOn(bits, pos, scale, 1)
    ensures var nx := ScaleAt(bits, pos, scale, 1) % 256;
            var tail := ParseFrom(bits, ReadUe(bits, pos).1, n - 1, false, nx, nx, false);
            && 1 <= nx <= 255 && (nx - scale - DeltaAt(bits, pos, 0)) % 256 == 0
            && ParseFrom(bits, pos, n, first, scale, scale, false) == ([nx] + tail.0, tail.1, tail.2)
  {
    hide ReadUe, ReadSe, DeltaAt, NextScale, GoesOn, ScaleAt, ParseFrom;
    FirstScale(bits, pos, scale);
    CodeAndDelta(bits, pos);
    ParseStep(bits, pos, n, first, scale, DeltaAt(bits, pos, 0), ReadUe(bits, pos).1);
  }

  lemma NextSum(bits: seq<bool>, pos: nat, scale: int, next: int, j: nat)
    requires (next - scale - DeltaAt(bits, pos, 0)) % 256 == 0
    ensures ScaleAt(bits, ReadUe(bits, pos).1, next, j) % 256 == ScaleAt(bits, pos, scale, j + 1) % 256
  {
    hide ReadUe, DeltaAt, ScaleAt;
    ScaleAfterFirst(bits, pos, scale, next, j);
    SameRemainder(ScaleAt(bits, ReadUe(bits, pos).1, next, j), ScaleAt(bits, pos, scale, j + 1));
  }

  lemma SumsBegin(bits: seq<bool>, pos: nat, scale: int)
    requires 1 <= scale <= 255
    ensures ScaleAt(bits, pos, scale, 0) % 256 == scale && SkipCodes(bits, pos, 0) == pos
  {
  }

  lemma FirstOfRun(bits: seq<bool>, pos: nat, scale: int, k: nat)
    requires k > 0 && GoesOn(bits, pos, scale, k)
    ensures GoesOn(bits, pos, scale, 1)
  {
    hide DeltaAt, ScaleAt;
  }

  lemma CodeAndDelta(bits: seq<bool>, pos: nat)
    ensures ReadElement(Se, bits, pos) == (DeltaAt(bits, pos, 0), ReadUe(bits, pos).1)
  {
    hide ReadUe, UeToSe;
  }

  /** scaling_list: the entries are 8 and the deltas added up, modulo 256. Where
      the sum is a multiple of 256 the list ends: the entry before is repeated,
      or the default list is meant if there is none. */
  lemma ScalingTable(bits: seq<bool>, pos: nat, n: nat, k: nat)
    requires k <= n && GoesOn(bits, pos, 8, k)
    requires k < n ==> DeltaAt(bits, pos, k) >= -256 && ScaleAt(bits, pos, 8, k + 1) % 256 == 0
    ensures var (entries, useDefault, q) := ParseScalingList(bits, pos, n);
            && (forall j: nat :: j < k ==> entries[j] == ScaleAt(bits, pos, 8, j + 1) % 256)
            && (forall j: nat :: k <= j < n ==> entries[j] == if k == 0 then 8 else entries[k - 1])
            && (useDefault <==> k == 0 && n > 0)
            && q == SkipCodes(bits, pos, if k < n then k + 1 else n)
  {
    hide ReadUe, ReadSe, GoesOn, SkipCodes, NextScale;
    EntriesAreSums(bits, pos, n, true, 8, k);
    var p := SkipCodes(bits, pos, k);
    var last := ScaleAt(bits, pos, 8, k) % 256;
    if k < n {
      LastInRange(bits, pos, k);
      EndOfList(bits, pos, k, last);
      var q := ReadUe(bits, p).1;
      ParseStep(bits, p, n - k, k == 0, last, DeltaAt(bits, pos, k), q);
      RepeatedTail(bits, q, n - k - 1, last, k == 0);
      var (entries, _, _) := ParseScalingList(bits, pos, n);
      var rest := ParseFrom(bits, p, n - k, k == 0, last, last, false).0;
      forall j: nat | k <= j < n
        ensures entries[j] == last
      {
        assert entries[k..][j - k] == entries[j] && rest[j - k] == last;
      }
      NextSkip(bits, pos, k);
    }
    LastEntry(bits, pos, k);
  }

  lemma NextSkip(bits: seq<bool>, pos: nat, k: nat)
    ensures SkipCodes(bits, pos, k + 1) == ReadUe(bits, SkipCodes(bits, pos, k)).1
  {
    hide ReadUe;
  }

  lemma LastEntry(bits: seq<bool>, pos: nat, k: nat)
    ensures k == 0 ==> ScaleAt(bits, pos, 8, k) % 256 == 8
  {
  }

  lemma LastInRange(bits: seq<bool>, pos: nat, k: nat)
    requires GoesOn(bits, pos, 8, k)
    ensures 1 <= ScaleAt(bits, pos, 8, k) % 256 <= 255
  {
    hide DeltaAt;
    if k > 0 {
      assert ScaleAt(bits, pos, 8, k - 1 + 1) % 256 != 0;
    }
  }

  lemma EndOfList(bits: seq<bool>, pos: nat, k: nat, last: int)
    requires 1 <= last <= 255 && last == ScaleAt(bits, pos, 8, k) % 256
    requires DeltaAt(bits, pos, k) >= -256 && ScaleAt(bits, pos, 8, k + 1) % 256 == 0
    ensures NextScale(last, DeltaAt(bits, pos, k)) == 0
    ensures ReadElement(Se, bits, SkipCodes(bits, pos, k)) == (DeltaAt(bits, pos, k), ReadUe(bits, SkipCodes(bits, pos, k)).1)
  {
    hide ReadUe, UeToSe, SkipCodes;
    var d := DeltaAt(bits, pos, k);
    assert ScaleAt(bits, pos, 8, k + 1) == ScaleAt(bits, pos, 8, k) + d;
    SameRemainder(last + d + 256, ScaleAt(bits, pos, 8, k + 1));
  }

  /** Frame numbers and picture order count. */
  lemma PocTable(bits: seq<bool>, pos: nat)
    ensures var (c, q) := ParsePoc(bits, pos);
            var (log2, p1) := ReadUe(bits, pos);
            var (kind, p2) := ReadUe(bits, p1);
            && c.log2MaxFrameNumMinus4 == log2 && c.kind == kind
            && c.log2MaxLsbMinus4 == (if kind == 0 then ReadUe(bits, p2).0 else 0)
            && (if kind == 1 then
                  var (nonRef, p3) := ReadSe(bits, p2 + 1);
                  var (topToBottom, p4) := ReadSe(bits, p3);
                  var (n, p5) := ReadUe(bits, p4);
                  && c.deltaAlwaysZero == BitAt(bits, p2) && c.offsetForNonRefPic == nonRef
                  && c.offsetForTopToBottomField == topToBottom && c.numRefFramesInCycle == n
                  && |c.offsetForRefFrame| == n && q == SkipCodes(bits, p5, n)
                  && forall i: nat :: i < n ==> c.offsetForRefFrame[i] == ReadSe(bits, SkipCodes(bits, p5, i)).0
                else
                  && !c.deltaAlwaysZero && c.offsetForNonRefPic == 0 && c.offsetForTopToBottomField == 0
                  && c.numRefFramesInCycle == 0 && c.offsetForRefFrame == []
                  && q == if kind == 0 then ReadUe(bits, p2).1 else p2)
  {
    hide ReadAll, ReadUe, ReadSe, BitAt, FieldPos, SkipCodes;
    FirstField([Ue, Ue], bits, pos);
    Field([Ue, Ue], bits, pos, 0);
    Field([Ue, Ue], bits, pos, 1);
    var p := ReadAll([Ue, Ue], bits, pos).1;
    FirstField([Ue], bits, p);
    Field([Ue], bits, p, 0);
    FirstField(CYCLE, bits, p);
    Field(CYCLE, bits, p, 0);
    Field(CYCLE, bits, p, 1);
    Field(CYCLE, bits, p, 2);
    Field(CYCLE, bits, p, 3);
    var (v, r) := ReadAll(CYCLE, bits, p);
    FourthIsNatural(bits, p);
    RunOfCodes(Se, v[3], bits, r);
  }

  /** Reference frames, size, interlacing. */
  lemma PictureTable(bits: seq<bool>, pos: nat)
    ensures var (c, q) := ParsePicture(bits, pos);
            var (refs, p1) := ReadUe(bits, pos);
            var (width, p2) := ReadUe(bits, p1 + 1);
            var (height, p3) := ReadUe(bits, p2);
            var p4 := if BitAt(bits, p3) then p3 + 1 else p3 + 2;
            && c.numRefFrames == refs && c.gapsAllowed == BitAt(bits, p1)
            && c.widthInMbsMinus1 == width && c.heightInMapUnitsMinus1 == height
            && c.frameMbsOnly == BitAt(bits, p3)
            && c.mbAdaptiveFrameField == (!BitAt(bits, p3) && BitAt(bits, p3 + 1))
            && c.direct8x8Inference == BitAt(bits, p4) && q == p4 + 1
  {
    hide ReadAll, ReadUe, BitAt, FieldPos, ReadFlag;
    FirstField(SIZE, bits, pos);
    Field(SIZE, bits, pos, 0);
    Field(SIZE, bits, pos, 1);
    Field(SIZE, bits, pos, 2);
    Field(SIZE, bits, pos, 3);
    Field(SIZE, bits, pos, 4);
    var p := ReadAll(SIZE, bits, pos).1;
    OneBit(bits, p);
    OneBit(bits, p + 1);
  }

  /** A group is its flag, and behind it its fields or nothing. */
  lemma GroupFlag(ds: seq<Descriptor>, bits: seq<bool>, pos: nat)
    ensures var (g, q) := ParseGroup(ds, bits, pos);
            && g.present == BitAt(bits, pos) && |g.values| == |ds|
            && (if BitAt(bits, pos) then g.values == ReadAll(ds, bits, pos + 1).0 && q == ReadAll(ds, bits, pos + 1).1
                else q == pos + 1 && forall i :: 0 <= i < |ds| ==> g.values[i] == 0)
  {
    hide ReadAll, BitAt, ReadFlag;
    OneBit(bits, pos);
  }

  /** frame_cropping: the left, right, top and bottom offsets. */
  lemma CroppingTable(bits: seq<bool>, pos: nat)
    ensures var (g, q) := ParseGroup(CROPPING, bits, pos);
            && g.present == BitAt(bits, pos) && |g.values| == 4
            && (if g.present then
                  var (left, p1) := ReadUe(bits, pos + 1);
                  var (right, p2) := ReadUe(bits, p1);
                  var (top, p3) := ReadUe(bits, p2);
                  var (bottom, p4) := ReadUe(bits, p3);
                  && g.values[0] == left && g.values[1] == right && g.values[2] == top && g.values[3] == bottom
                  && q == p4
                else q == pos + 1)
  {
    hide ReadAll, ReadUe, BitAt, FieldPos, ParseGroup;
    GroupFlag(CROPPING, bits, pos);
    FirstField(CROPPING, bits, pos + 1);
    Field(CROPPING, bits, pos + 1, 0);
    Field(CROPPING, bits, pos + 1, 1);
    Field(CROPPING, bits, pos + 1, 2);
    Field(CROPPING, bits, pos + 1, 3);
  }

  /** The parts of the sequence parameter set, in their order. */
  lemma SpsOrder(bits: seq<bool>, pos: nat)
    ensures var (s, q) := ParseSps(bits, pos);
            var (header, p1) := ParseHeader(bits, pos);
            var (chroma, p2) := ParseChroma(bits, p1, HighProfile(header.profileIdc));
            var (poc, p3) := ParsePoc(bits, p2);
            var (picture, p4) := ParsePicture(bits, p3);
            var (cropping, p5) := ParseGroup(CROPPING, bits, p4);
            && s.header == header && s.chroma == chroma && s.poc == poc && s.picture == picture && s.cropping == cropping
            && s.vuiPresent == BitAt(bits, p5)
            && (if s.vuiPresent then (s.vui, q) == ParseVui(bits, p5 + 1) else s.vui == NO_VUI && q == p5 + 1)
  {
    hide ParseHeader, ParseChroma, ParsePoc, ParsePicture, ParseGroup, ParseVui, ReadFlag, BitAt;
    var p4 := ParsePicture(bits, ParsePoc(bits, ParseChroma(bits, ParseHeader(bits, pos).1,
                           HighProfile(ParseHeader(bits, pos).0.profileIdc)).1).1).1;
    OneBit(bits, ParseGroup(CROPPING, bits, p4).1);
  }

  // ---------- HRD and VUI parameters ----------

  /** aspect_ratio_info: 255 is Extended_SAR. */
  lemma AspectTable(bits: seq<bool>, pos: nat)
    ensures var (a, q) := ParseAspect(bits, pos);
            && a.present == BitAt(bits, pos)
            && a.idc == (if a.present then ReadU(bits, pos + 1, 8) else 0)
            && (if a.present && a.idc == 255 then
                  a.sarWidth == ReadU(bits, pos + 9, 16) && a.sarHeight == ReadU(bits, pos + 25, 16) && q == pos + 41
                else
                  a.sarWidth == 0 && a.sarHeight == 0 && q == if a.present then pos + 9 else pos + 1)
  {
    hide ReadAll, ReadU, BitAt, FieldPos, ReadFlag;
    OneBit(bits, pos);
    FirstField([U(8)], bits, pos + 1);
    Field([U(8)], bits, pos + 1, 0);
    FirstField([U(16), U(16)], bits, pos + 9);
    Field([U(16), U(16)], bits, pos + 9, 0);
    Field([U(16), U(16)], bits, pos + 9, 1);
  }

  /** overscan_info: whether it is there, and overscan_appropriate_flag. */
  lemma OverscanTable(bits: seq<bool>, pos: nat)
    ensures var (g, q) := ParseGroup(OVERSCAN, bits, pos);
            && g.present == BitAt(bits, pos) && |g.values| == 1
            && (g.present ==> (g.values[0] == 1 <==> BitAt(bits, pos + 1)) && q == pos + 2)
            && (!g.present ==> q == pos + 1)
  {
    hide ReadAll, BitAt, FieldPos, ParseGroup;
    GroupFlag(OVERSCAN, bits, pos);
    FirstField(OVERSCAN, bits, pos + 1);
    Field(OVERSCAN, bits, pos + 1, 0);
  }

  /** video_signal_type: format, range, and primaries, transfer and matrix. */
  lemma SignalTable(bits: seq<bool>, pos: nat)
    ensures var (s, q) := ParseSignal(bits, pos);
            && s.present == BitAt(bits, pos) && |s.colour.values| == 3
            && (if s.present then
                  && s.format == ReadU(bits, pos + 1, 3) && s.fullRange == BitAt(bits, pos + 4)
                  && s.colour.present == BitAt(bits, pos + 5)
                  && (if s.colour.present then
                        && s.colour.values[0] == ReadU(bits, pos + 6, 8) && s.colour.values[1] == ReadU(bits, pos + 14, 8)
                        && s.colour.values[2] == ReadU(bits, pos + 22, 8) && q == pos + 30
                      else q == pos + 6)
                else q == pos + 1)
  {
    hide ReadAll, ReadU, BitAt, FieldPos, ReadFlag, ParseGroup;
    OneBit(bits, pos);
    FirstField([U(3), U(1)], bits, pos + 1);
    Field([U(3), U(1)], bits, pos + 1, 0);
    Field([U(3), U(1)], bits, pos + 1, 1);
    GroupFlag(COLOUR, bits, pos + 5);
    FirstField(COLOUR, bits, pos + 6);
    Field(COLOUR, bits, pos + 6, 0);
    Field(COLOUR, bits, pos + 6, 1);
    Field(COLOUR, bits, pos + 6, 2);
  }

  /** chroma_loc_info: the top field's type, then the bottom field's. */
  lemma ChromaLocTable(bits: seq<bool>, pos: nat)
    ensures var (g, q) := ParseGroup(CHROMA_LOC, bits, pos);
            && g.present == BitAt(bits, pos) && |g.values| == 2
            && (if g.present then
                  var (top, p1) := ReadUe(bits, pos + 1);
                  var (bottom, p2) := ReadUe(bits, p1);
                  g.values[0] == top && g.values[1] == bottom && q == p2
                else q == pos + 1)
  {
    hide ReadAll, ReadUe, BitAt, FieldPos, ParseGroup;
    GroupFlag(CHROMA_LOC, bits, pos);
    FirstField(CHROMA_LOC, bits, pos + 1);
    Field(CHROMA_LOC, bits, pos + 1, 0);
    Field(CHROMA_LOC, bits, pos + 1, 1);
  }

  /** timing_info: num_units_in_tick, time_scale, fixed_frame_rate_flag. */
  lemma TimingTable(bits: seq<bool>, pos: nat)
    ensures var (g, q) := ParseGroup(TIMING, bits, pos);
            && g.present == BitAt(bits, pos) && |g.values| == 3
            && (if g.present then
                  && g.values[0] == ReadU(bits, pos + 1, 32) && g.values[1] == ReadU(bits, pos + 33, 32)
                  && (g.values[2] == 1 <==> BitAt(bits, pos + 65)) && q == pos + 66
                else q == pos + 1)
  {
    hide ReadAll, ReadU, BitAt, FieldPos, ParseGroup;
    GroupFlag(TIMING, bits, pos);
    FirstField(TIMING, bits, pos + 1);
    Field(TIMING, bits, pos + 1, 0);
    Field(TIMING, bits, pos + 1, 1);
    Field(TIMING, bits, pos + 1, 2);
  }

  /** bitstream_restriction, field by field. */
  lemma RestrictionTable(bits: seq<bool>, pos: nat)
    ensures var (g, q) := ParseGroup(RESTRICTION, bits, pos);
            && g.present == BitAt(bits, pos) && |g.values| == 7
            && (if g.present then
                  var (bytes, p1) := ReadUe(bits, pos + 2);
                  var (mbBits, p2) := ReadUe(bits, p1);
                  var (horizontal, p3) := ReadUe(bits, p2);
                  var (vertical, p4) := ReadUe(bits, p3);
                  var (reorder, p5) := ReadUe(bits, p4);
                  var (buffering, p6) := ReadUe(bits, p5);
                  && (g.values[0] == 1 <==> BitAt(bits, pos + 1)) && g.values[1] == bytes && g.values[2] == mbBits
                  && g.values[3] == horizontal && g.values[4] == vertical && g.values[5] == reorder
                  && g.values[6] == buffering && q == p6
                else q == pos + 1)
  {
    hide ReadAll, ReadUe, BitAt, FieldPos, ParseGroup;
    GroupFlag(RESTRICTION, bits, pos);
    FirstField(RESTRICTION, bits, pos + 1);
    Field(RESTRICTION, bits, pos + 1, 0);
    Field(RESTRICTION, bits, pos + 1, 1);
    Field(RESTRICTION, bits, pos + 1, 2);
    Field(RESTRICTION, bits, pos + 1, 3);
    Field(RESTRICTION, bits, pos + 1, 4);
    Field(RESTRICTION, bits, pos + 1, 5);
    Field(RESTRICTION, bits, pos + 1, 6);
  }

  /** Where schedule i begins: each is two codes and a flag. */
  function SchedulePos(bits: seq<bool>, pos: nat, i: nat): nat {
    if i == 0 then pos else SkipCodes(bits, SchedulePos(bits, pos, i - 1), 2) + 1
  }

  lemma ScheduleTable(bits: seq<bool>, pos: nat)
    ensures var (s, q) := ParseSchedule(bits, pos);
            var (rate, p1) := ReadUe(bits, pos);
            var (size, p2) := ReadUe(bits, p1);
            && s.bitRateValueMinus1 == rate && s.cpbSizeValueMinus1 == size && s.cbr == BitAt(bits, p2)
            && p2 == SkipCodes(bits, pos, 2) && q == p2 + 1
  {
    hide ReadAll, ReadUe, BitAt, FieldPos;
    var ds: seq<Descriptor> := [Ue, Ue, U(1)];
    FirstField(ds, bits, pos);
    Field(ds, bits, pos, 0);
    Field(ds, bits, pos, 1);
    Field(ds, bits, pos, 2);
    assert SkipCodes(bits, pos, 1) == ReadUe(bits, SkipCodes(bits, pos, 0)).1;
  }

  lemma {:induction false} SchedulePosRest(bits: seq<bool>, pos: nat, i: nat)
    ensures SchedulePos(bits, pos, i + 1) == SchedulePos(bits, SchedulePos(bits, pos, 1), i)
  {
    hide SkipCodes;
    if i > 0 {
      SchedulePosRest(bits, pos, i - 1);
    }
  }

  lemma {:induction false} SchedulesTable(bits: seq<bool>, pos: nat, n: nat)
    ensures var (ss, q) := ParseSchedules(bits, pos, n);
            && q == SchedulePos(bits, pos, n)
            && forall i: nat :: i < n ==> ss[i] == ParseSchedule(bits, SchedulePos(bits, pos, i)).0
    decreases n
  {
    hide ParseSchedule, SkipCodes;
    if n > 0 {
      var (s, p) := ParseSchedule(bits, pos);
      ScheduleTable(bits, pos);
      assert p == SchedulePos(bits, pos, 1) by {
        assert SchedulePos(bits, pos, 0) == pos;
      }
      SchedulesTable(bits, p, n - 1);
      var rest := ParseSchedules(bits, p, n - 1).0;
      assert ParseSchedules(bits, pos, n).0 == [s] + rest;
      forall i: nat | i < n
        ensures ([s] + rest)[i] == ParseSchedule(bits, SchedulePos(bits, pos, i)).0
      {
        if i > 0 {
          SchedulePosRest(bits, pos, i - 1);
        }
      }
      SchedulePosRest(bits, pos, n - 1);
    }
  }

  /** hrd_parameters: cpb_cnt_minus1 + 1 schedules between two runs of fields. */
  lemma HrdTable(bits: seq<bool>, pos: nat)
    ensures var (h, q) := ParseHrd(bits, pos);
            var (count, p1) := ReadUe(bits, pos);
            var p2 := SchedulePos(bits, p1 + 8, count + 1);
            && h.cpbCntMinus1 == count && |h.schedules| == count + 1
            && h.bitRateScale == ReadU(bits, p1, 4) && h.cpbSizeScale == ReadU(bits, p1 + 4, 4)
            && (forall i: nat :: i <= count ==>
                  h.schedules[i] == ParseSchedule(bits, SchedulePos(bits, p1 + 8, i)).0)
            && h.initialCpbRemovalDelayLengthMinus1 == ReadU(bits, p2, 5)
            && h.cpbRemovalDelayLengthMinus1 == ReadU(bits, p2 + 5, 5)
            && h.dpbOutputDelayLengthMinus1 == ReadU(bits, p2 + 10, 5)
            && h.timeOffsetLength == ReadU(bits, p2 + 15, 5) && q == p2 + 20
  {
    hide ReadAll, ReadUe, ReadU, BitAt, FieldPos, ParseSchedule, ParseSchedules, SchedulePos;
    var head: seq<Descriptor>, tail: seq<Descriptor> := [Ue, U(4), U(4)], [U(5), U(5), U(5), U(5)];
    FirstField(head, bits, pos);
    Field(head, bits, pos, 0);
    Field(head, bits, pos, 1);
    Field(head, bits, pos, 2);
    var count, p1 := ReadUe(bits, pos).0, ReadUe(bits, pos).1;
    SchedulesTable(bits, p1 + 8, count + 1);
    var p2 := SchedulePos(bits, p1 + 8, count + 1);
    FirstField(tail, bits, p2);
    Field(tail, bits, p2, 0);
    Field(tail, bits, p2, 1);
    Field(tail, bits, p2, 2);
    Field(tail, bits, p2, 3);
  }

  /** An HRD flag and the parameters behind it. */
  function HrdAt(bits: seq<bool>, pos: nat): (Hrd, nat) {
    if BitAt(bits, pos) then ParseHrd(bits, pos + 1) else (NO_HRD, pos + 1)
  }

  lemma OptionalHrdTable(bits: seq<bool>, pos: nat)
    ensures ParseOptionalHrd(bits, pos) == (BitAt(bits, pos), HrdAt(bits, pos).0, HrdAt(bits, pos).1)
  {
    hide ParseHrd, ReadFlag, BitAt;
    OneBit(bits, pos);
  }

  /** low_delay_hrd_flag comes with either HRD, and then pic_struct_present_flag. */
  lemma HrdFlagsTable(bits: seq<bool>, pos: nat, anyHrd: bool)
    ensures var p := if anyHrd then pos + 1 else pos;
            ParseHrdFlags(bits, pos, anyHrd) == (anyHrd && BitAt(bits, pos), BitAt(bits, p), p + 1)
  {
    hide ReadFlag, BitAt;
    OneBit(bits, pos);
    OneBit(bits, pos + 1);
  }

  /** The parts of vui_parameters, in their order, up to the timing. */
  lemma DisplayOrder(bits: seq<bool>, pos: nat)
    ensures var v := ParseVui(bits, pos).0;
            var (aspect, p1) := ParseAspect(bits, pos);
            var (overscan, p2) := ParseGroup(OVERSCAN, bits, p1);
            var (signal, p3) := ParseSignal(bits, p2);
            var (chromaLoc, p4) := ParseGroup(CHROMA_LOC, bits, p3);
            var (timing, p5) := ParseGroup(TIMING, bits, p4);
            && v.aspect == aspect && v.overscan == overscan && v.signal == signal && v.chromaLoc == chromaLoc
            && v.timing == timing && ParseDisplay(bits, pos).5 == p5
  {
    hide ParseAspect, ParseGroup, ParseSignal, ParseOptionalHrd, ParseHrdFlags;
  }

  /** The other parts, from the timing on: the HRDs at p5 and p6, and what
      follows them at p7. */
  lemma BufferOrder(bits: seq<bool>, pos: nat, p5: nat, p6: nat, p7: nat)
    requires p5 == ParseDisplay(bits, pos).5 && p6 == HrdAt(bits, p5).1 && p7 == HrdAt(bits, p6).1
    ensures var (v, q) := ParseVui(bits, pos);
            var anyHrd := BitAt(bits, p5) || BitAt(bits, p6);
            && v.nalHrdPresent == BitAt(bits, p5) && v.nalHrd == HrdAt(bits, p5).0
            && v.vclHrdPresent == BitAt(bits, p6) && v.vclHrd == HrdAt(bits, p6).0
            && v.lowDelayHrd == (anyHrd && BitAt(bits, p7))
            && v.picStructPresent == BitAt(bits, if anyHrd then p7 + 1 else p7)
            && (v.restriction, q) == ParseGroup(RESTRICTION, bits, if anyHrd then p7 + 2 else p7 + 1)
  {
    hide ParseGroup, HrdAt, BitAt, ParseDisplay, ParseOptionalHrd, ParseHrdFlags, CanonicalVui, CanonicalHrd,
         CanonicalGroup, CanonicalSignal, CanonicalAspect;
    OptionalHrdTable(bits, p5);
    OptionalHrdTable(bits, p6);
    HrdFlagsTable(bits, p7, BitAt(bits, p5) || BitAt(bits, p6));
  }

  // ---------- the picture parameter set ----------

  /** pic_parameter_set_rbsp up to num_slice_groups_minus1. */
  lemma IdentityTable(bits: seq<bool>, pos: nat)
    ensures var (h, q) := ParseIdentity(bits, pos);
            var (id, p1) := ReadUe(bits, pos);
            var (spsId, p2) := ReadUe(bits, p1);
            var (groups, p3) := ReadUe(bits, p2 + 2);
            && h.id == id && h.spsId == spsId && h.entropyCodingMode == BitAt(bits, p2)
            && h.picOrderPresent == BitAt(bits, p2 + 1) && h.numSliceGroupsMinus1 == groups && q == p3
  {
    hide ReadAll, ReadUe, BitAt, FieldPos;
    FirstField(IDENTITY, bits, pos);
    Field(IDENTITY, bits, pos, 0);
    Field(IDENTITY, bits, pos, 1);
    Field(IDENTITY, bits, pos, 2);
    Field(IDENTITY, bits, pos, 3);
    Field(IDENTITY, bits, pos, 4);
  }

  /** Where id i begins, with w bits an id. */
  function IdPos(pos: nat, i: nat, w: nat): nat {
    pos + i * w
  }

  /** A run of n ids of w bits. */
  lemma {:induction false} IdPositions(w: nat, n: nat, bits: seq<bool>, pos: nat, i: nat)
    requires i <= n
    ensures FieldPos(Repeat(U(w), n), bits, pos, i) == IdPos(pos, i, w)
  {
    hide ReadU;
    if i > 0 {
      IdPositions(w, n, bits, pos, i - 1);
      assert i * w == (i - 1) * w + w;
    }
  }

  lemma IdTable(w: nat, n: nat, bits: seq<bool>, pos: nat)
    ensures var (vs, q) := ReadAll(Repeat(U(w), n), bits, pos);
            q == IdPos(pos, n, w) && forall i: nat :: i < n ==> vs[i] == ReadU(bits, IdPos(pos, i, w), w)
  {
    hide ReadAll, ReadU, FieldPos, IdPos;
    FieldsOfRun(Repeat(U(w), n), bits, pos);
    IdPositions(w, n, bits, pos, n);
    forall i: nat | i < n
      ensures ReadAll(Repeat(U(w), n), bits, pos).0[i] == ReadU(bits, IdPos(pos, i, w), w)
    {
      IdPositions(w, n, bits, pos, i);
      Field(Repeat(U(w), n), bits, pos, i);
    }
  }

  /** Map types 0 and 2: run lengths, or corners in pairs. */
  lemma RunsTable(bits: seq<bool>, pos: nat, n: nat)
    requires n > 0
    ensures var (g, q) := ParseMap(bits, pos, n, 0);
            && g.RunLengths? && |g.runLengthMinus1| == n + 1 && q == SkipCodes(bits, pos, n + 1)
            && forall i: nat :: i <= n ==> g.runLengthMinus1[i] == ReadUe(bits, SkipCodes(bits, pos, i)).0
    ensures var (g, q) := ParseMap(bits, pos, n, 2);
            && g.Rectangles? && |g.corners| == 2 * n && q == SkipCodes(bits, pos, 2 * n)
            && forall i: nat :: i < 2 * n ==> g.corners[i] == ReadUe(bits, SkipCodes(bits, pos, i)).0
  {
    hide ReadAll, ReadUe, SkipCodes;
    RunOfCodes(Ue, n + 1, bits, pos);
    RunOfCodes(Ue, 2 * n, bits, pos);
  }

  /** Map types 3 to 5: a direction and a rate. */
  lemma EvolvingTable(bits: seq<bool>, pos: nat, n: nat, mapType: int)
    requires n > 0 && 3 <= mapType <= 5
    ensures var (rate, p) := ReadUe(bits, pos + 1);
            ParseMap(bits, pos, n, mapType) == (Evolving(mapType, BitAt(bits, pos), rate), p)
  {
    hide ReadAll, ReadUe, BitAt, FieldPos;
    FirstField([U(1), Ue], bits, pos);
    Field([U(1), Ue], bits, pos, 0);
    Field([U(1), Ue], bits, pos, 1);
  }

  /** Map type 6: the number of map units less one, and as many ids. The width
      w of an id is the least with 2^w >= num_slice_groups_minus1 + 1. */
  lemma ExplicitTable(bits: seq<bool>, pos: nat, n: nat)
    requires n > 0
    ensures var (g, q) := ParseMap(bits, pos, n, 6);
            var (size, p) := ReadUe(bits, pos);
            && g.Explicit? && g.picSizeInMapUnitsMinus1 == size && |g.groupIds| == size + 1
            && q == IdPos(p, size + 1, IdWidth(n))
            && forall i: nat :: i <= size ==> g.groupIds[i] == ReadU(bits, IdPos(p, i, IdWidth(n)), IdWidth(n))
    ensures IdWidth(n) > 0 && Pow2(IdWidth(n) - 1) <= n < Pow2(IdWidth(n))
  {
    WidthOfIds(n);
    hide ReadAll, ReadUe, ReadU, FieldPos, IdWidth, Repeat, CanonicalGroups, Pow2, IdPos;
    FirstField([Ue], bits, pos);
    Field([Ue], bits, pos, 0);
    IdTable(IdWidth(n), ReadUe(bits, pos).0 + 1, bits, ReadUe(bits, pos).1);
  }

  /** The map type comes first, and selects; all other types have nothing. */
  lemma GroupsTable(bits: seq<bool>, pos: nat, n: nat)
    requires n > 0
    ensures ParseGroups(bits, pos, n) == ParseMap(bits, ReadUe(bits, pos).1, n, ReadUe(bits, pos).0)
    ensures forall mapType: int :: mapType == 1 || mapType > 6 ==> ParseMap(bits, pos, n, mapType) == (Other(mapType), pos)
  {
    hide ReadAll, ReadUe, FieldPos;
    FirstField([Ue], bits, pos);
    Field([Ue], bits, pos, 0);
  }

  lemma WidthOfIds(n: nat)
    requires n > 0
    ensures IdWidth(n) > 0 && Pow2(IdWidth(n) - 1) <= n < Pow2(IdWidth(n))
  {
    assert Pow2(0) == 1;
  }

  /** From num_ref_idx_l0_default_active_minus1 to redundant_pic_cnt_present_flag. */
  lemma CodingTable(bits: seq<bool>, pos: nat)
    ensures var (c, q) := ParseCoding(bits, pos);
            var (l0, p1) := ReadUe(bits, pos);
            var (l1, p2) := ReadUe(bits, p1);
            var (qp, p3) := ReadSe(bits, p2 + 3);
            var (qs, p4) := ReadSe(bits, p3);
            var (chroma, p5) := ReadSe(bits, p4);
            && c.numRefIdxL0Minus1 == l0 && c.numRefIdxL1Minus1 == l1 && c.weightedPred == BitAt(bits, p2)
            && c.weightedBipredIdc == ReadU(bits, p2 + 1, 2)
            && c.picInitQpMinus26 == qp && c.picInitQsMinus26 == qs && c.chromaQpIndexOffset == chroma
            && c.deblockingControlPresent == BitAt(bits, p5) && c.constrainedIntraPred == BitAt(bits, p5 + 1)
            && c.redundantPicCntPresent == BitAt(bits, p5 + 2) && q == p5 + 3
  {
    hide ReadAll, ReadUe, ReadSe, ReadU, BitAt, FieldPos;
    FirstField(CODING, bits, pos);
    Field(CODING, bits, pos, 0);
    Field(CODING, bits, pos, 1);
    Field(CODING, bits, pos, 2);
    Field(CODING, bits, pos, 3);
    Field(CODING, bits, pos, 4);
    Field(CODING, bits, pos, 5);
    Field(CODING, bits, pos, 6);
    Field(CODING, bits, pos, 7);
    Field(CODING, bits, pos, 8);
    Field(CODING, bits, pos, 9);
  }

  /** The extension, where more_rbsp_data says there is one: 6 lists without the
      8x8 transform, 8 with it. */
  lemma ExtensionTable(bits: seq<bool>, pos: nat)
    ensures var (x, q) := ParseExtension(bits, pos);
            if MoreRbspData(bits, pos) then
              && x.transform8x8 == BitAt(bits, pos) && x.matrixPresent == BitAt(bits, pos + 1)
              && (if x.matrixPresent then
                    var n := if x.transform8x8 then 8 else 6;
                    var (ls, p) := ParseLists(bits, pos + 2, 0, n);
                    && x.lists == ls + AbsentLists(n, 8)
                    && (x.secondChromaQpIndexOffset, q) == ReadSe(bits, p)
                  else
                    && x.lists == AbsentLists(0, 8)
                    && (x.secondChromaQpIndexOffset, q) == ReadSe(bits, pos + 2))
            else
              x == Extension(false, false, AbsentLists(0, 8), 0) && q == pos
  {
    hide ParseLists, AbsentLists, MoreRbspData, BitAt, ReadFlag, ReadElement, ReadSe;
    OneBit(bits, pos);
    OneBit(bits, pos + 1);
    Codes(bits, ParseExtensionLists(bits, pos + 2, BitAt(bits, pos + 1), BitAt(bits, pos)).1);
  }

  /** The parts of the picture parameter set, in their order. */
  lemma PpsOrder(bits: seq<bool>, pos: nat)
    ensures var (s, q) := ParsePps(bits, pos);
            var (identity, p1) := ParseIdentity(bits, pos);
            var (groups, p2) := if identity.numSliceGroupsMinus1 > 0 then ParseGroups(bits, p1, identity.numSliceGroupsMinus1)
                                else (Single, p1);
            var (coding, p3) := ParseCoding(bits, p2);
            && s.identity == identity && s.groups == groups && s.coding == coding
            && (s.extension, q) == ParseExtension(bits, p3)
  {
    hide ParseIdentity, ParseMap, ParseCoding, ParseExtension, ReadAll;
  }
}
