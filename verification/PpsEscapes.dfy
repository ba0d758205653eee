/**
  What the rewritten picture parameter set means. The rewriting neither removes
  nor adds escape bytes; this module says which records need none.
 */
module PpsEscapes {
  import opened CArithmetic
  import opened Bits
  import opened ExpGolomb
  import opened Syntax
  import opened ScalingLists
  import opened SequenceParameterSet
  import opened PictureParameterSet
  import opened Rbsp
  import opened HeaderRewrite
  import opened UnwritableRecords
  import opened UnwritablePps
  import E = Emulation

  // ---------- runs of zero bits ----------

  /** No more than this many zero bits in a row: an escape byte needs two zero
      bytes and the six zeros of a byte below 4. */
  const MOST_ZEROS := 21

  function NextZeros(z: nat, b: bool): nat {
    if b then 0 else z + 1
  }

  /** Behind z zeros, w never makes them more than MOST_ZEROS. */
  predicate Fine(w: seq<bool>, z: nat) {
    z <= MOST_ZEROS && (w == [] || Fine(w[1..], NextZeros(z, w[0])))
  }

  /** The zeros at the end of w, behind z zeros. */
  function ZerosAfter(w: seq<bool>, z: nat): nat {
    if w == [] then z else ZerosAfter(w[1..], NextZeros(z, w[0]))
  }

  /** Behind at most z zeros w is fine, and ends in at most m zeros. */
  predicate Passes(w: seq<bool>, z: nat, m: nat) {
    Fine(w, z) && ZerosAfter(w, z) <= m
  }

  lemma {:induction false} FewerZeros(w: seq<bool>, y: nat, z: nat)
    requires y <= z && Fine(w, z)
    ensures Fine(w, y) && ZerosAfter(w, y) <= ZerosAfter(w, z)
    decreases |w|
  {
    if w != [] {
      FewerZeros(w[1..], NextZeros(y, w[0]), NextZeros(z, w[0]));
    }
  }

  lemma {:induction false} FineAppend(v: seq<bool>, w: seq<bool>, z: nat)
    ensures Fine(v + w, z) <==> Fine(v, z) && Fine(w, ZerosAfter(v, z))
    ensures ZerosAfter(v + w, z) == ZerosAfter(w, ZerosAfter(v, z))
    decreases |v|
  {
    if v == [] {
      assert v + w == w;
      assert Fine(w, z) ==> z <= MOST_ZEROS;
    } else {
      assert (v + w)[1..] == v[1..] + w;
      FineAppend(v[1..], w, NextZeros(z, v[0]));
    }
  }

  lemma PassInTurn(v: seq<bool>, w: seq<bool>, z: nat, k: nat, m: nat)
    requires Passes(v, z, k) && Passes(w, k, m)
    ensures Passes(v + w, z, m)
  {
    hide Fine, ZerosAfter;
    FineAppend(v, w, z);
    FewerZeros(w, ZerosAfter(v, z), k);
  }

  lemma PassWeakened(w: seq<bool>, y: nat, z: nat, k: nat, m: nat)
    requires Passes(w, z, k) && y <= z && k <= m
    ensures Passes(w, y, m)
  {
    FewerZeros(w, y, z);
  }

  lemma {:induction false} ShortPasses(w: seq<bool>, z: nat)
    requires z + |w| <= MOST_ZEROS
    ensures Passes(w, z, z + |w|)
    decreases |w|
  {
    if w != [] {
      ShortPasses(w[1..], NextZeros(z, w[0]));
    }
  }

  lemma OnePasses(z: nat)
    requires z <= MOST_ZEROS
    ensures Passes([true], z, 0)
  {
    assert [true][1..] == [];
  }

  lemma {:induction false} AllZeros(w: seq<bool>, z: nat)
    requires Fine(w, z) && forall k :: 0 <= k < |w| ==> !w[k]
    ensures z + |w| <= MOST_ZEROS
    decreases |w|
  {
    if w != [] {
      AllZeros(w[1..], z + 1);
    }
  }

  /** In a fine string a one is among any 22 bits. */
  lemma FineHasOne(w: seq<bool>, i: nat)
    requires Fine(w, 0) && i + MOST_ZEROS < |w|
    ensures exists j :: i <= j <= i + MOST_ZEROS && w[j]
  {
    hide Fine, ZerosAfter;
    var a, b, c := w[..i], w[i..i + MOST_ZEROS + 1], w[i + MOST_ZEROS + 1..];
    assert w == a + (b + c);
    FineAppend(a, b + c, 0);
    FineAppend(b, c, ZerosAfter(a, 0));
    if forall j :: i <= j <= i + MOST_ZEROS ==> !w[j] {
      AllZeros(b, ZerosAfter(a, 0));
      assert false;
    }
  }

  lemma SmallByteBits(b: byte, k: nat)
    requires k < 6 && b <= 3
    ensures !GetBit(b, 7 - k)
  {
  }

  lemma ZeroByteBits(k: nat)
    requires k < 8
    ensures !GetBit(0, k)
  {
  }

  /** A payload with fine bits needs no escape byte. */
  lemma FineIsPlain(y: seq<byte>)
    requires Fine(BitsOf(y), 0)
    ensures E.Plain(y)
  {
    hide Fine, GetBit;
    forall i: nat | i + 2 < |y|
      ensures E.PlainAt(y, i)
    {
      if y[i] == 0 && y[i + 1] == 0 && y[i + 2] <= 3 {
        FineHasOne(BitsOf(y), 8 * i);
        var j :| 8 * i <= j <= 8 * i + MOST_ZEROS && BitsOf(y)[j];
        assert ByteStringBit(y, j);
        if j < 8 * i + 16 {
          ZeroByteBits(7 - j % 8);
        } else {
          SmallByteBits(y[i + 2], j - 8 * i - 16);
        }
        assert false;
      }
    }
  }

  // ---------- codes ----------

  /** A ue(v) code of at most n zeros and then a one and n more bits. */
  lemma CodePasses(v: nat, n: nat, z: nat)
    requires v + 1 < Pow2(n + 1) && z + n <= MOST_ZEROS && v < 65535
    ensures Passes(UeBits(v), z, n)
  {
    hide Fine, ZerosAfter, Passes, UeBits;
    CodeIsShort(v, n);
    CodeShape(v);
    var w, k := UeBits(v), BitLen(v + 1) - 1;
    ShapePasses(w[..k], w[k + 1..], z, k);
    PassWeakened(w, z, z, k, n);
  }

  lemma CodeShape(v: nat)
    requires v < 65535 && BitLen(v + 1) > 0
    ensures var w, k := UeBits(v), BitLen(v + 1) - 1;
            |w| == 2 * k + 1 && w == w[..k] + ([true] + w[k + 1..])
  {
    hide UeBits, BitOf;
    SmallUeIsWritable(v);
    UeBitsAreTheCode(v);
    LeadingDigit(v + 1);
    var w, k := UeBits(v), BitLen(v + 1) - 1;
    assert w[k] == BitOf(v + 1, k);
  }

  lemma ShapePasses(front: seq<bool>, back: seq<bool>, z: nat, k: nat)
    requires |front| == k && |back| == k && z + k <= MOST_ZEROS
    ensures Passes(front + ([true] + back), z, k)
  {
    hide Fine, ZerosAfter, Passes;
    ShortPasses(front, z);
    OnePasses(z + k);
    ShortPasses(back, 0);
    PassInTurn([true], back, z + k, 0, k);
    PassInTurn(front, [true] + back, z, z + k, k);
  }

  lemma CodeIsShort(v: nat, n: nat)
    requires v + 1 < Pow2(n + 1)
    ensures 1 <= BitLen(v + 1) <= n + 1
  {
    BitLenBounds(v + 1);
    if BitLen(v + 1) > n + 1 {
      Pow2Monotonic(n + 1, BitLen(v + 1) - 1);
    }
  }

  /** An Exp-Golomb element whose code number is at most n; no bound on others. */
  predicate Short(e: Element, n: int) {
    match e.descriptor
    case U(_) => true
    case Ue => 0 <= e.value <= n
    case Se => SeToUe(e.value) <= n
  }

  /** The code numbers with at most 8 zeros in front. */
  const MOST_CODE := 510

  /** The zeros that an element may leave, behind z zeros. */
  function ZerosLeft(d: Descriptor, z: nat): nat {
    if d.U? then z + d.n else 8
  }

  /** Short elements with these descriptors are fine behind z zeros. */
  predicate Room(ds: seq<Descriptor>, z: nat) {
    ds == [] || (z + (if ds[0].U? then ds[0].n else 8) <= MOST_ZEROS && Room(ds[1..], ZerosLeft(ds[0], z)))
  }

  function ZerosBehind(ds: seq<Descriptor>, z: nat): nat {
    if ds == [] then z else ZerosBehind(ds[1..], ZerosLeft(ds[0], z))
  }

  lemma NinthPower()
    ensures Pow2(9) == 512 && Pow2(7) == 128
  {
    assert Pow2(7) == 8 * Pow2(4);
    Pow2Values();
  }

  lemma ElementPasses(e: Element, z: nat)
    requires Short(e, MOST_CODE) && z + (if e.descriptor.U? then e.descriptor.n else 8) <= MOST_ZEROS
    ensures Passes(Encode(e), z, ZerosLeft(e.descriptor, z))
  {
    hide Fine, ZerosAfter, Passes, UeBits;
    NinthPower();
    match e.descriptor
    case U(n) => ShortPasses(Encode(e), z);
    case Ue => CodePasses(e.value, 8, z);
    case Se => CodePasses(SeToUe(e.value), 8, z);
  }

  lemma {:induction false} RunPasses(es: seq<Element>, z: nat)
    requires z <= MOST_ZEROS && Room(Descriptors(es), z) && forall e :: e in es ==> Short(e, MOST_CODE)
    ensures Passes(EncodeAll(es), z, ZerosBehind(Descriptors(es), z))
    decreases |es|
  {
    hide Short, Encode;
    if es == [] {
      assert EncodeAll(es) == [];
    } else {
      var ds := Descriptors(es);
      assert es[0] in es && ds[1..] == Descriptors(es[1..]);
      ElementPasses(es[0], z);
      var k := ZerosLeft(ds[0], z);
      hide Passes, Fine;
      RunPasses(es[1..], k);
      PassInTurn(Encode(es[0]), EncodeAll(es[1..]), z, k, ZerosBehind(ds, z));
    }
  }

  lemma {:induction false} RoomForCodes(ds: seq<Descriptor>, z: nat)
    requires (forall d :: d in ds ==> !d.U?) && z <= 13
    ensures Room(ds, z) && ZerosBehind(ds, z) == if ds == [] then z else 8
    decreases |ds|
  {
    if ds != [] {
      assert ds[0] in ds;
      RoomForCodes(ds[1..], 8);
    }
  }

  /** A run of short Exp-Golomb codes. */
  lemma CodesPass(es: seq<Element>, z: nat)
    requires z <= 13 && forall e :: e in es ==> !e.descriptor.U? && Short(e, MOST_CODE)
    ensures Passes(EncodeAll(es), z, if es == [] then z else 8)
  {
    hide Short, EncodeAll, Fine, ZerosAfter;
    forall d | d in Descriptors(es)
      ensures !d.U?
    {
      var i :| 0 <= i < |es| && Descriptors(es)[i] == d;
      assert es[i] in es;
    }
    RoomForCodes(Descriptors(es), z);
    RunPasses(es, z);
  }

  lemma RunsPass(a: seq<Element>, b: seq<Element>, z: nat, k: nat, m: nat)
    requires Passes(EncodeAll(a), z, k) && Passes(EncodeAll(b), k, m)
    ensures Passes(EncodeAll(a + b), z, m)
  {
    hide EncodeAll, Passes;
    EncodeAppend(a, b);
    PassInTurn(EncodeAll(a), EncodeAll(b), z, k, m);
  }

  // ---------- the picture parameter set ----------

  /** No list of slice group ids, and no code with more than 8 zeros in front,
      or 6 behind a scaling matrix. */
  ghost predicate SmallPps(s: Pps) {
    && !s.groups.Explicit?
    && (forall e :: e in BaseElements(s) ==> Short(e, MOST_CODE))
    && SeToUe(s.extension.secondChromaQpIndexOffset) <= if s.extension.matrixPresent then 126 else MOST_CODE
  }

  lemma {:induction false} DeltasAreShort(entries: seq<int>, useDefault: bool, last: int, next: int)
    ensures forall e :: e in ElementsFrom(entries, useDefault, last, next) ==>
              e.descriptor == Se && Short(e, MOST_CODE)
    decreases |entries|
  {
    if entries != [] && next != 0 {
      var n := if useDefault then 0 else entries[0];
      DeltasAreShort(entries[1..], useDefault, entries[0], n);
    }
  }

  lemma FlagPasses(f: bool, z: nat)
    requires z < MOST_ZEROS
    ensures Passes(EncodeAll([Flag(f)]), z, if f then 0 else z + 1)
  {
    hide Fine, ZerosAfter, Passes;
    EncodeSingle(Flag(f));
    FlagCode(f);
    if f {
      OnePasses(z);
    } else {
      ShortPasses([false], z);
    }
  }

  lemma SlotPasses(l: ScalingList, z: nat)
    requires 7 <= z < MOST_ZEROS
    ensures Passes(EncodeAll(SlotElements(l)), z, z + 1)
  {
    hide Passes, EncodeAll, Encode, ElementsFrom;
    FlagPasses(l.present, z);
    if l.present {
      var es := ScalingElements(l.entries, l.useDefault);
      DeltasAreShort(l.entries, l.useDefault, 8, 8);
      CodesPass(es, 0);
      PassWeakened(EncodeAll(es), 0, 0, if es == [] then 0 else 8, 8);
      RunsPass([Flag(true)], es, z, 0, 8);
      PassWeakened(EncodeAll(SlotElements(l)), z, z, 8, z + 1);
    } else {
      assert [Flag(false)] + [] == [Flag(false)];
    }
  }

  lemma {:induction false} ListsPass(ls: seq<ScalingList>, z: nat)
    requires 7 <= z && z + |ls| <= MOST_ZEROS
    ensures Passes(EncodeAll(ListsElements(ls)), z, z + |ls|)
    decreases |ls|
  {
    hide EncodeAll, SlotElements, Passes;
    if ls == [] {
      NothingPasses(z);
    } else {
      SlotPasses(ls[0], z);
      ListsPass(ls[1..], z + 1);
      RunsPass(SlotElements(ls[0]), ListsElements(ls[1..]), z, z + 1, z + |ls|);
    }
  }

  lemma NothingPasses(z: nat)
    requires z <= MOST_ZEROS
    ensures Passes(EncodeAll([]), z, z)
  {
  }

  /** The second offset behind z zeros. */
  lemma OffsetPasses(v: int, n: nat, z: nat)
    requires SeToUe(v) + 1 < Pow2(n + 1) <= 512 && z + n <= MOST_ZEROS
    ensures Passes(EncodeAll([SeElement(v)]), z, n)
  {
    hide Passes, UeBits;
    EncodeSingle(SeElement(v));
    CodePasses(SeToUe(v), n, z);
  }

  lemma ExtensionPasses(x: Extension)
    requires |x.lists| == 8
    requires SeToUe(x.secondChromaQpIndexOffset) <= if x.matrixPresent then 126 else MOST_CODE
    ensures Passes(EncodeAll(ExtensionElements(x)), 11, 11)
  {
    hide Passes, EncodeAll, ListsElements, SeToUe;
    var last := [SeElement(x.secondChromaQpIndexOffset)];
    NothingPasses(11);
    NinthPower();
    if HasExtension(x) {
      FlagPasses(x.transform8x8, 11);
      FlagPasses(x.matrixPresent, 12);
      var lists := if x.matrixPresent then ListsElements(x.lists[..ListsSent(x.transform8x8)]) else [];
      if x.matrixPresent {
        ListsPass(x.lists[..ListsSent(x.transform8x8)], 7);
        PassWeakened(EncodeAll(lists), 0, 7, 7 + ListsSent(x.transform8x8), 15);
        OffsetPasses(x.secondChromaQpIndexOffset, 6, 15);
        RunsPass(lists, last, 0, 15, 6);
        PassWeakened(EncodeAll(ExtensionBody(x)), 0, 0, 6, 11);
        RunsPass([Flag(true)], ExtensionBody(x), 12, 0, 11);
      } else {
        NothingPasses(13);
        OffsetPasses(x.secondChromaQpIndexOffset, 8, 13);
        RunsPass(lists, last, 13, 13, 8);
        PassWeakened(EncodeAll(ExtensionBody(x)), 13, 13, 8, 11);
        RunsPass([Flag(false)], ExtensionBody(x), 12, 13, 11);
      }
      var rest := [Flag(x.matrixPresent)] + ExtensionBody(x);
      PassWeakened(EncodeAll([Flag(x.transform8x8)]), 11, 11, if x.transform8x8 then 0 else 12, 12);
      RunsPass([Flag(x.transform8x8)], rest, 11, 12, 11);
    }
  }

  lemma IdentityPasses(h: Identity)
    requires forall e :: e in IdentityElements(h) ==> Short(e, MOST_CODE)
    ensures Passes(EncodeAll(IdentityElements(h)), 0, 8)
  {
    hide Short, EncodeAll, Passes;
    assert Descriptors(IdentityElements(h)) == IDENTITY;
    IdentityRoom();
    RunPasses(IdentityElements(h), 0);
  }

  lemma RoomStep(d: Descriptor, ds: seq<Descriptor>, z: nat)
    requires z + (if d.U? then d.n else 8) <= MOST_ZEROS && Room(ds, ZerosLeft(d, z))
    ensures Room([d] + ds, z) && ZerosBehind([d] + ds, z) == ZerosBehind(ds, ZerosLeft(d, z))
  {
    assert ([d] + ds)[1..] == ds;
  }

  lemma IdentityRoom()
    ensures Room(IDENTITY, 0) && ZerosBehind(IDENTITY, 0) == 8
  {
    hide Room, ZerosBehind;
    RoomForCodes([Ue], 10);
    RoomStep(U(1), [Ue], 9);
    RoomStep(U(1), [U(1)] + [Ue], 8);
    RoomStep(Ue, [U(1)] + ([U(1)] + [Ue]), 8);
    RoomStep(Ue, [Ue] + ([U(1)] + ([U(1)] + [Ue])), 0);
    assert IDENTITY == [Ue] + ([Ue] + ([U(1)] + ([U(1)] + [Ue])));
  }

  lemma CodingPasses(c: Coding)
    requires forall e :: e in CodingElements(c) ==> Short(e, MOST_CODE)
    ensures Passes(EncodeAll(CodingElements(c)), 8, 11)
  {
    hide Short, EncodeAll, Passes;
    assert Descriptors(CodingElements(c)) == CODING;
    CodingRoom();
    RunPasses(CodingElements(c), 8);
  }

  lemma FlagsRoom(z: nat)
    requires z + 3 <= MOST_ZEROS
    ensures Room([U(1), U(1), U(1)], z) && ZerosBehind([U(1), U(1), U(1)], z) == z + 3
  {
    RoomStep(U(1), [], z + 2);
    RoomStep(U(1), [U(1)], z + 1);
    RoomStep(U(1), [U(1), U(1)], z);
    assert [U(1)] + [U(1)] == [U(1), U(1)] && [U(1)] + [U(1), U(1)] == [U(1), U(1), U(1)];
  }

  lemma CodingRoom()
    ensures Room(CODING, 8) && ZerosBehind(CODING, 8) == 11
  {
    hide Room, ZerosBehind;
    var tail := [Se] + ([Se] + ([Se] + [U(1), U(1), U(1)]));
    OffsetsRoom();
    RoomStep(U(2), tail, 9);
    RoomStep(U(1), [U(2)] + tail, 8);
    RoomStep(Ue, [U(1)] + ([U(2)] + tail), 8);
    RoomStep(Ue, [Ue] + ([U(1)] + ([U(2)] + tail)), 8);
    assert CODING == [Ue] + ([Ue] + ([U(1)] + ([U(2)] + tail)));
  }

  lemma OffsetsRoom()
    ensures var tail := [Se] + ([Se] + ([Se] + [U(1), U(1), U(1)]));
            Room(tail, 11) && ZerosBehind(tail, 11) == 11
  {
    hide Room, ZerosBehind;
    var flags: seq<Descriptor> := [U(1), U(1), U(1)];
    FlagsRoom(8);
    RoomStep(Se, flags, 8);
    RoomStep(Se, [Se] + flags, 8);
    RoomStep(Se, [Se] + ([Se] + flags), 11);
  }

  lemma GroupsPass(n: int, g: SliceGroups)
    requires CanonicalGroups(n, g) && !g.Explicit?
    requires forall e :: e in GroupsElements(n, g) ==> Short(e, MOST_CODE)
    ensures Passes(EncodeAll(GroupsElements(n, g)), 8, 8)
  {
    hide Short, EncodeAll, Passes;
    NothingPasses(8);
    if n > 0 {
      var kind, es := [UeElement(MapType(g))], MapElements(n, g);
      assert GroupsElements(n, g) == kind + es;
      assert forall e :: e in es ==> e in kind + es;
      assert kind[0] in kind + es;
      CodesPass(kind, 8);
      if g.Evolving? {
        var rate := [UeElement(g.changeRateMinus1)];
        assert es == [Flag(g.changeDirection)] + rate && rate[0] in es;
        FlagPasses(g.changeDirection, 8);
        PassWeakened(EncodeAll([Flag(g.changeDirection)]), 8, 8, if g.changeDirection then 0 else 9, 9);
        CodesPass(rate, 9);
        RunsPass([Flag(g.changeDirection)], rate, 8, 9, 8);
      } else {
        CodesPass(es, 8);
      }
      RunsPass(kind, es, 8, 8, 8);
    }
  }

  lemma BasePasses(s: Pps)
    requires CanonicalPps(s) && SmallPps(s)
    ensures Passes(EncodeAll(BaseElements(s)), 0, 11)
  {
    hide Short, EncodeAll, Passes, CanonicalGroups, CanonicalExtension, IdentityElements, GroupsElements, CodingElements;
    var head, groups, coding := IdentityElements(s.identity), GroupsElements(s.identity.numSliceGroupsMinus1, s.groups),
                                CodingElements(s.coding);
    assert forall e :: e in head ==> e in BaseElements(s);
    assert forall e :: e in groups ==> e in BaseElements(s);
    assert forall e :: e in coding ==> e in BaseElements(s);
    IdentityPasses(s.identity);
    GroupsPass(s.identity.numSliceGroupsMinus1, s.groups);
    CodingPasses(s.coding);
    RunsPass(groups, coding, 8, 8, 11);
    RunsPass(head, groups + coding, 0, 8, 11);
  }

  lemma TrailingPasses(n: nat)
    requires n <= 7
    ensures Passes([true] + seq(n, _ => false), 11, 7)
  {
    hide Passes;
    var zeros := seq(n, _ => false);
    OnePasses(11);
    ShortPasses(zeros, 0);
    PassInTurn([true], zeros, 11, 0, n);
    PassWeakened([true] + zeros, 11, 11, n, 7);
  }

  /** The payload of a small record needs no escape byte. */
  lemma SmallNeedsNoEscape(s: Pps)
    requires CanonicalPps(s) && SmallPps(s)
    ensures E.Escape(Payload(PpsElements(s))) == Payload(PpsElements(s))
  {
    hide *;
    PartsPass(s);
    var n := |EncodeAll(PpsElements(s))|;
    TrailingPasses(7 - n % 8);
    RbspCode(PpsElements(s));
    PayloadBits(PpsElements(s));
    PassInTurn(EncodeAll(PpsElements(s)), [true] + seq(7 - n % 8, _ => false), 0, 11, 7);
    PassedIsFine(BitsOf(Payload(PpsElements(s))), 0, 7);
    FineIsPlain(Payload(PpsElements(s)));
    E.EscapeLeavesAlone(Payload(PpsElements(s)));
  }

  lemma PartsPass(s: Pps)
    requires CanonicalPps(s) && SmallPps(s)
    ensures |s.extension.lists| == 8 && Passes(EncodeAll(PpsElements(s)), 0, 11)
  {
    hide EncodeAll, Passes, BaseElements, ExtensionElements, CanonicalGroups, CanonicalLists;
    BasePasses(s);
    ExtensionPasses(s.extension);
    RunsPass(BaseElements(s), ExtensionElements(s.extension), 0, 11, 11);
  }

  lemma PassedIsFine(w: seq<bool>, z: nat, m: nat)
    requires Passes(w, z, m)
    ensures Fine(w, z)
  {
  }

  // ---------- what the rewriting keeps ----------

  /** The record of an escaped payload, as a decoder reads it. */
  function ReadPps(y: seq<byte>, beyond: byte): (s: Pps) {
    ParsePps(BitsOf(E.Unescape(y, beyond)), 0).0
  }

  /** A payload that the writer made is left as it is. */
  lemma PpsPayloadIsKept(s: Pps)
    requires CanonicalPps(s) && AllWritable(PpsElements(s))
    ensures ParsePps(BitsOf(Payload(PpsElements(s))), 0).0 == s
    ensures RewrittenPps(Payload(PpsElements(s))) == Payload(PpsElements(s))
  {
    hide AllWritable, PpsElements, Payload, Holds, ParsePps, BitsOf, StopAt, CanonicalGroups, CanonicalLists;
    var es := PpsElements(s);
    PayloadHolds(es);
    StopBehind(Payload(es), es);
    PpsRoundTrip(BitsOf(Payload(es)), 0, s);
  }

  lemma StopBehind(p: seq<byte>, es: seq<Element>)
    requires StopAt(BitsOf(p), |EncodeAll(es)|)
    ensures StopAt(BitsOf(p), After(0, es))
  {
  }

  /** A decoder of the escaped payload gets the record back. */
  lemma WrittenPpsReadsBack(s: Pps, beyond: byte)
    requires CanonicalPps(s) && AllWritable(PpsElements(s))
    ensures ReadPps(E.Escape(Payload(PpsElements(s))), beyond) == s
  {
    hide AllWritable, PpsElements, Payload, ParsePps, BitsOf, CanonicalGroups, CanonicalLists, E.EscapeFrom,
         E.UnescapeFrom, RewrittenPps;
    PpsPayloadIsKept(s);
    E.UnescapeEscape(Payload(PpsElements(s)), beyond);
  }

  /** Whatever bytes were read: if their record can be written, the new bytes
      read back as the same record, and a second rewriting changes nothing. */
  lemma PpsRewriteKeepsRecord(x: seq<byte>)
    requires var s := ParsePps(BitsOf(x), 0).0; CanonicalPps(s) && AllWritable(PpsElements(s))
    ensures ParsePps(BitsOf(RewrittenPps(x)), 0).0 == ParsePps(BitsOf(x), 0).0
    ensures RewrittenPps(RewrittenPps(x)) == RewrittenPps(x)
  {
    hide AllWritable, PpsElements, Payload, ParsePps, BitsOf, CanonicalPps;
    PpsPayloadIsKept(ParsePps(BitsOf(x), 0).0);
  }

  lemma PlainUnescapes(x: seq<byte>, beyond: byte)
    requires E.Plain(x)
    ensures E.Unescape(x, beyond) == x
  {
    hide E.EscapeFrom, E.UnescapeFrom, E.Plain;
    E.EscapeLeavesAlone(x);
    E.UnescapeEscape(x, beyond);
  }

  /** The unit of a small record, escaped as the standard wants it, is kept
      byte for byte, and so means the same to a decoder. */
  lemma SmallPpsIsKept(s: Pps, beyond: byte)
    requires CanonicalPps(s) && AllWritable(PpsElements(s)) && SmallPps(s)
    ensures var y := E.Escape(Payload(PpsElements(s))); RewrittenPps(y) == y && ReadPps(y, beyond) == s
  {
    hide *;
    SmallNeedsNoEscape(s);
    PpsPayloadIsKept(s);
    WrittenPpsReadsBack(s, beyond);
  }

  /** Whatever bytes were read: the new ones read back as the same record if and
      only if its values can be written and its lists are in range. */
  lemma PpsRecordExactly(x: seq<byte>)
    requires AllRepresentable(PpsElements(ParsePps(BitsOf(x), 0).0))
    ensures var s := ParsePps(BitsOf(x), 0).0;
            ParsePps(BitsOf(RewrittenPps(x)), 0).0 == s <==> AllWritable(PpsElements(s)) && PpsListsInRange(s)
  {
    hide AllWritable, AllRepresentable, PpsElements, Payload, Holds, ParsePps, BitsOf, StopAt, ShapedPps,
         PpsListsInRange;
    var s := ParsePps(BitsOf(x), 0).0;
    var es := PpsElements(s);
    ParsedPpsIsShaped(BitsOf(x), 0);
    PayloadHolds(es);
    StopBehind(Payload(es), es);
    PpsRoundTripExactly(BitsOf(Payload(es)), 0, s);
  }

  /** Whoever wrote the unit: if neither it nor the new one has a place for an
      escape byte, a decoder reads the same record before and after if and only
      if its values can be written and its lists are in range. */
  lemma PpsKeepsMeaning(x: seq<byte>, beyond: byte, beyond': byte)
    requires E.Plain(x) && E.Plain(RewrittenPps(x)) && AllRepresentable(PpsElements(ReadPps(x, beyond)))
    ensures var s := ReadPps(x, beyond);
            ReadPps(RewrittenPps(x), beyond') == s <==> AllWritable(PpsElements(s)) && PpsListsInRange(s)
  {
    hide AllWritable, AllRepresentable, PpsElements, ParsePps, BitsOf, RewrittenPps, PpsListsInRange, E.EscapeFrom,
         E.UnescapeFrom, E.Plain;
    PlainUnescapes(x, beyond);
    PlainUnescapes(RewrittenPps(x), beyond');
    PpsRecordExactly(x);
  }

  /** No place for an escape byte before or after, and a record that can be written. */
  ghost predicate Keepable(x: seq<byte>, beyond: byte) {
    && E.Plain(x) && E.Plain(RewrittenPps(x))
    && AllWritable(PpsElements(ReadPps(x, beyond))) && PpsListsInRange(ReadPps(x, beyond))
  }

  lemma KeepableIsKept(x: seq<byte>, beyond: byte, beyond': byte)
    requires Keepable(x, beyond)
    ensures ReadPps(RewrittenPps(x), beyond') == ReadPps(x, beyond)
  {
    hide AllWritable, AllRepresentable, PpsElements, RewrittenPps, ParsePps, BitsOf, PpsListsInRange, E.Plain, E.UnescapeFrom;
    WritableIsRepresentable(PpsElements(ReadPps(x, beyond)));
    PpsKeepsMeaning(x, beyond, beyond');
  }

  /** A unit without an escape byte whose record is a small one is such a unit. */
  lemma SmallIsKeepable(x: seq<byte>, beyond: byte)
    requires E.Plain(x)
    requires var s := ReadPps(x, beyond); AllWritable(PpsElements(s)) && PpsListsInRange(s) && SmallPps(s)
    ensures Keepable(x, beyond)
  {
    hide AllWritable, PpsElements, Payload, ParsePps, BitsOf, CanonicalPps, ShapedPps, SmallPps, PpsListsInRange,
         E.EscapeFrom, E.UnescapeFrom, E.Plain;
    PlainUnescapes(x, beyond);
    var s := ReadPps(x, beyond);
    ParsedPpsIsShaped(BitsOf(x), 0);
    CanonicalPpsExactly(s);
    SmallNeedsNoEscape(s);
    E.EscapeLeavesAlone(Payload(PpsElements(s)));
  }
}
