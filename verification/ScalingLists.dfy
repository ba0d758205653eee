/** Scaling lists, section 7.3.2.1.1.1 of H.264. */
module ScalingLists {
  import opened CArithmetic
  import opened Bits
  import opened ExpGolomb
  import opened Syntax

  /** One slot of a scaling matrix: entries are zeros where no list was sent. */
  datatype ScalingList = ScalingList(present: bool, entries: seq<int>, useDefault: bool)

  function Absent(n: nat): ScalingList {
    ScalingList(false, Cleared(n), false)
  }

  /** The delta_scale elements of write_scaling_list for the entries that are
      left, given lastScale and nextScale. */
  function ElementsFrom(entries: seq<int>, useDefault: bool, last: int, next: int): (es: seq<Element>)
    ensures AllWritable(es)
  {
    if entries == [] || next == 0 then []
    else
      var n := if useDefault then 0 else entries[0];
      var delta := TruncMod(n - last, 256);
      SmallUeIsWritable(SeToUe(delta));
      [SeElement(delta)] + ElementsFrom(entries[1..], useDefault, entries[0], n)
  }

  function ScalingElements(entries: seq<int>, useDefault: bool): (es: seq<Element>)
    ensures AllWritable(es)
  {
    ElementsFrom(entries, useDefault, 8, 8)
  }

  /** The nextScale that read_scaling_list computes from lastScale and delta_scale. */
  function NextScale(last: int, delta: int): (next: int)
    ensures last >= 1 && delta >= -256 ==> 0 <= next < 256
    ensures -256 < next < 256
  {
    TruncMod(last + delta + 256, 256)
  }

  /** read_scaling_list with n entries to go: the entries, the
      useDefaultScalingMatrixFlag and the position after the list. */
  function ParseFrom(bits: seq<bool>, pos: nat, n: nat, first: bool, last: int, next: int, useDefault: bool)
    : (r: (seq<int>, bool, nat))
    ensures |r.0| == n && r.2 >= pos
    decreases n
  {
    if n == 0 then ([], useDefault, pos)
    else if next == 0 then
      var (es, ud, p) := ParseFrom(bits, pos, n - 1, false, last, 0, useDefault);
      ([last] + es, ud, p)
    else
      var (delta, q) := ReadElement(Se, bits, pos);
      var nx := NextScale(last, delta);
      var x := if nx == 0 then last else nx;
      var (es, ud, p) := ParseFrom(bits, q, n - 1, false, x, nx, first && nx == 0);
      ([x] + es, ud, p)
  }

  function ParseScalingList(bits: seq<bool>, pos: nat, n: nat): (r: (seq<int>, bool, nat))
    ensures |r.0| == n && r.2 >= pos
  {
    ParseFrom(bits, pos, n, true, 8, 8, false)
  }

  /** The lists that have a canonical coded form: entries in 1..255, or the
      default flag with nothing but the initial 8. */
  predicate CanonicalList(entries: seq<int>, useDefault: bool) {
    if useDefault then forall i :: 0 <= i < |entries| ==> entries[i] == 8
    else forall i :: 0 <= i < |entries| ==> 1 <= entries[i] <= 255
  }

  lemma {:induction false} RepeatedTail(bits: seq<bool>, pos: nat, n: nat, last: int, useDefault: bool)
    ensures var r := ParseFrom(bits, pos, n, false, last, 0, useDefault);
            r.1 == useDefault && r.2 == pos && forall i :: 0 <= i < n ==> r.0[i] == last
  {
    if n > 0 {
      RepeatedTail(bits, pos, n - 1, last, useDefault);
    }
  }

  /** An entry in 1..255 is recovered from its delta; any other is not. */
  lemma DeltaInverse(x: int, last: int)
    requires 1 <= last <= 255
    ensures var delta := TruncMod(x - last, 256);
            -256 < delta < 256 && (NextScale(last, delta) == x && x != 0 <==> 1 <= x <= 255)
  {
  }

  lemma DeltaIsWritable(delta: int)
    requires -256 < delta < 256
    ensures Writable(SeElement(delta))
  {
    SmallUeIsWritable(SeToUe(delta));
  }

  lemma FirstDelta(bits: seq<bool>, pos: nat, delta: int, rest: seq<Element>)
    requires -256 < delta < 256 && Holds(bits, pos, [SeElement(delta)] + rest)
    ensures ReadElement(Se, bits, pos) == (delta, After(pos, [SeElement(delta)]))
    ensures Holds(bits, After(pos, [SeElement(delta)]), rest)
    ensures After(pos, [SeElement(delta)] + rest) == After(After(pos, [SeElement(delta)]), rest)
  {
    DeltaIsWritable(delta);
    hide *;
    ReadFirst(bits, pos, SeElement(delta), rest);
  }

  lemma ConsEqual(x: int, a: seq<int>, y: int, b: seq<int>)
    ensures [x] + a == [y] + b <==> x == y && a == b
  {
    assert ([x] + a)[0] == x && ([y] + b)[0] == y;
    assert ([x] + a)[1..] == a && ([y] + b)[1..] == b;
  }

  lemma CanonicalCons(x: int, rest: seq<int>)
    ensures CanonicalList([x] + rest, false) <==> 1 <= x <= 255 && CanonicalList(rest, false)
    ensures CanonicalList([x] + rest, true) <==> x == 8 && CanonicalList(rest, true)
  {
    var all := [x] + rest;
    assert all[0] == x && all[1..] == rest;
    assert forall i :: 0 <= i < |rest| ==> rest[i] == all[i + 1];
    assert forall i :: 0 < i < |all| ==> all[i] == rest[i - 1];
  }

  /** One turn of the loop of read_scaling_list. */
  lemma ParseStep(bits: seq<bool>, pos: nat, n: nat, first: bool, last: int, delta: int, q: nat)
    requires n > 0 && ReadElement(Se, bits, pos) == (delta, q)
    ensures var nx := NextScale(last, delta);
            var x := if nx == 0 then last else nx;
            var r := ParseFrom(bits, q, n - 1, false, x, nx, first && nx == 0);
            forall next, ud :: next != 0 ==>
              ParseFrom(bits, pos, n, first, last, next, ud) == ([x] + r.0, r.1, r.2)
  {
    hide ReadElement, Encode;
  }

  lemma ParseRepeat(bits: seq<bool>, pos: nat, n: nat, first: bool, last: int, useDefault: bool)
    requires n > 0
    ensures var r := ParseFrom(bits, pos, n - 1, false, last, 0, useDefault);
            ParseFrom(bits, pos, n, first, last, 0, useDefault) == ([last] + r.0, r.1, r.2)
  {
    hide ReadElement, NextScale;
  }

  lemma {:induction false} TailRoundTrip(bits: seq<bool>, pos: nat, entries: seq<int>, last: int)
    requires 1 <= last <= 255
    requires Holds(bits, pos, ElementsFrom(entries, false, last, last))
    ensures ParseFrom(bits, pos, |entries|, false, last, last, false)
            == (entries, false, After(pos, ElementsFrom(entries, false, last, last)))
            <==> CanonicalList(entries, false)
    ensures ParseFrom(bits, pos, |entries|, false, last, last, false).0 == entries <==> CanonicalList(entries, false)
    decreases |entries|
  {
    hide ReadElement, Encode;
    if entries != [] {
      var x, rest := entries[0], entries[1..];
      assert entries == [x] + rest;
      var delta := TruncMod(x - last, 256);
      DeltaInverse(x, last);
      var more := ElementsFrom(rest, false, x, x);
      assert ElementsFrom(entries, false, last, last) == [SeElement(delta)] + more;
      FirstDelta(bits, pos, delta, more);
      var q := After(pos, [SeElement(delta)]);
      ParseStep(bits, pos, |entries|, false, last, delta, q);
      CanonicalCons(x, rest);
      var nx := NextScale(last, delta);
      var y := if nx == 0 then last else nx;
      var r := ParseFrom(bits, q, |rest|, false, y, nx, false);
      ConsEqual(y, r.0, x, rest);
      if 1 <= x <= 255 {
        TailRoundTrip(bits, q, rest, x);
      }
    }
  }

  /** A scaling list that is written and read back comes back unchanged, with
      the cursor where the writer stopped, for exactly the canonical lists. */
  lemma ScalingListRoundTrip(bits: seq<bool>, pos: nat, entries: seq<int>, useDefault: bool)
    requires entries != []
    requires Holds(bits, pos, ScalingElements(entries, useDefault))
    ensures ParseScalingList(bits, pos, |entries|)
            == (entries, useDefault, After(pos, ScalingElements(entries, useDefault)))
            <==> CanonicalList(entries, useDefault)
    ensures var r := ParseScalingList(bits, pos, |entries|);
            r.0 == entries && r.1 == useDefault <==> CanonicalList(entries, useDefault)
  {
    hide ReadElement, Encode, EncodeAll, Holds;
    var x, rest := entries[0], entries[1..];
    assert entries == [x] + rest;
    var n := if useDefault then 0 else x;
    var delta := TruncMod(n - 8, 256);
    DeltaInverse(n, 8);
    var more := ElementsFrom(rest, useDefault, x, n);
    assert ScalingElements(entries, useDefault) == [SeElement(delta)] + more;
    FirstDelta(bits, pos, delta, more);
    var q := After(pos, [SeElement(delta)]);
    ParseStep(bits, pos, |entries|, true, 8, delta, q);
    CanonicalCons(x, rest);
    var nx := NextScale(8, delta);
    var y := if nx == 0 then 8 else nx;
    var r := ParseFrom(bits, q, |rest|, false, y, nx, nx == 0);
    ConsEqual(y, r.0, x, rest);
    if nx == 0 {
      RepeatedTail(bits, q, |rest|, 8, true);
    }
    if useDefault {
      assert nx == 0 && more == [];
      NothingAfter(q);
      assert After(q, more) == q;
      assert CanonicalList(rest, true) <==> rest == r.0;
    } else if 1 <= x <= 255 {
      TailRoundTrip(bits, q, rest, x);
    }
  }

  /** The delta_scale values that read_scaling_list meets. */
  function DeltasFrom(bits: seq<bool>, pos: nat, n: nat, last: int, next: int): seq<int>
    decreases n
  {
    if n == 0 || next == 0 then []
    else
      var (delta, q) := ReadElement(Se, bits, pos);
      var nx := NextScale(last, delta);
      [delta] + DeltasFrom(bits, q, n - 1, if nx == 0 then last else nx, nx)
  }

  /** A step to delta from last does not make NextScale negative: the sum that
      is taken modulo 256 is not negative, or is a multiple of 256. */
  predicate StepStays(last: int, delta: int) {
    last + delta + 256 >= 0 || (last + delta) % 256 == 0
  }

  /** All deltas are such steps, the first one from last. */
  predicate StepsStay(deltas: seq<int>, last: int) {
    deltas == [] ||
    (StepStays(last, deltas[0]) && StepsStay(deltas[1..], NextScale(last, deltas[0])))
  }

  lemma StepKeepsRange(last: int, delta: int)
    requires 1 <= last <= 255
    ensures StepStays(last, delta) <==> 0 <= NextScale(last, delta) < 256
    ensures !StepStays(last, delta) ==> NextScale(last, delta) < 0
  {
  }

  lemma FirstStep(deltas: seq<int>, delta: int, more: seq<int>, last: int)
    requires deltas == [delta] + more
    ensures StepsStay(deltas, last) <==> StepStays(last, delta) && StepsStay(more, NextScale(last, delta))
  {
    assert deltas[1..] == more;
  }

  lemma FirstOfDeltas(bits: seq<bool>, pos: nat, n: nat, last: int, delta: int, q: nat)
    requires n > 0 && last != 0 && ReadElement(Se, bits, pos) == (delta, q)
    ensures var nx := NextScale(last, delta);
            DeltasFrom(bits, pos, n, last, last) == [delta] + DeltasFrom(bits, q, n - 1, if nx == 0 then last else nx, nx)
  {
    hide ReadElement, NextScale;
  }

  /** Behind the first entry the default flag is not set any more. */
  lemma {:induction false} FlagStays(bits: seq<bool>, pos: nat, n: nat, last: int, next: int)
    ensures !ParseFrom(bits, pos, n, false, last, next, false).1
    decreases n
  {
    hide ReadElement, NextScale;
    if n > 0 {
      if next == 0 {
        FlagStays(bits, pos, n - 1, last, 0);
      } else {
        var (delta, q) := ReadElement(Se, bits, pos);
        var nx := NextScale(last, delta);
        FlagStays(bits, q, n - 1, if nx == 0 then last else nx, nx);
      }
    }
  }

  lemma {:induction false} TailNormalises(bits: seq<bool>, pos: nat, n: nat, last: int)
    requires 1 <= last <= 255
    ensures CanonicalList(ParseFrom(bits, pos, n, false, last, last, false).0, false)
            <==> StepsStay(DeltasFrom(bits, pos, n, last, last), last)
    decreases n
  {
    hide ReadElement, NextScale, StepStays;
    if n > 0 {
      var (delta, q) := ReadElement(Se, bits, pos);
      ParseStep(bits, pos, n, false, last, delta, q);
      var nx := NextScale(last, delta);
      FirstOfDeltas(bits, pos, n, last, delta, q);
      StepKeepsRange(last, delta);
      var x := if nx == 0 then last else nx;
      var more := DeltasFrom(bits, q, n - 1, x, nx);
      FirstStep(DeltasFrom(bits, pos, n, last, last), delta, more, last);
      var rest := ParseFrom(bits, q, n - 1, false, x, nx, false).0;
      CanonicalCons(x, rest);
      if nx == 0 {
        RepeatedTail(bits, q, n - 1, last, false);
        assert more == [];
      } else if nx > 0 {
        TailNormalises(bits, q, n - 1, nx);
      }
    }
  }

  /** On every bit string the reader yields a canonical list if and only if no
      delta takes the sum below zero. */
  lemma ReaderNormalises(bits: seq<bool>, pos: nat, n: nat)
    requires n > 0
    ensures var r := ParseScalingList(bits, pos, n);
            CanonicalList(r.0, r.1) <==> StepsStay(DeltasFrom(bits, pos, n, 8, 8), 8)
  {
    hide ReadElement, NextScale, StepStays;
    var (delta, q) := ReadElement(Se, bits, pos);
    ParseStep(bits, pos, n, true, 8, delta, q);
    var nx := NextScale(8, delta);
    FirstOfDeltas(bits, pos, n, 8, delta, q);
    StepKeepsRange(8, delta);
    var x := if nx == 0 then 8 else nx;
    var more := DeltasFrom(bits, q, n - 1, x, nx);
    FirstStep(DeltasFrom(bits, pos, n, 8, 8), delta, more, 8);
    var r := ParseFrom(bits, q, n - 1, false, x, nx, nx == 0);
    CanonicalCons(x, r.0);
    if nx == 0 {
      RepeatedTail(bits, q, n - 1, 8, true);
      assert more == [];
    } else {
      FlagStays(bits, q, n - 1, nx, nx);
      if nx > 0 {
        TailNormalises(bits, q, n - 1, nx);
      }
    }
  }

  /** Deltas in the range of the standard are such steps. */
  lemma {:induction false} StandardStepsStay(deltas: seq<int>, last: int)
    requires 0 <= last <= 255 && forall d :: d in deltas ==> -128 <= d <= 127
    ensures StepsStay(deltas, last)
    decreases |deltas|
  {
    if deltas != [] {
      assert deltas[0] in deltas && forall d :: d in deltas[1..] ==> d in deltas;
      StandardStepsStay(deltas[1..], NextScale(last, deltas[0]));
    }
  }

  /** Whatever bits were read: writing the list and reading it again gives the
      same list if and only if no delta took the sum below zero, even when the
      bits written differ from those first read. */
  lemma RewriteIsStable(bits: seq<bool>, pos: nat, n: nat, bits': seq<bool>, pos': nat)
    requires n > 0
    requires var r := ParseScalingList(bits, pos, n); Holds(bits', pos', ScalingElements(r.0, r.1))
    ensures var r, s := ParseScalingList(bits, pos, n), ParseScalingList(bits', pos', n);
            s.0 == r.0 && s.1 == r.1 <==> StepsStay(DeltasFrom(bits, pos, n, 8, 8), 8)
  {
    hide Holds, StepsStay, CanonicalList, ParseFrom, DeltasFrom, ElementsFrom;
    var r := ParseScalingList(bits, pos, n);
    ReaderNormalises(bits, pos, n);
    ScalingListRoundTrip(bits', pos', r.0, r.1);
  }

  /** A first delta below -264 makes a negative entry, unless the sum is a
      multiple of 256; no later write can reproduce such an entry. */
  lemma WildDeltaIsNotNormalised(bits: seq<bool>, pos: nat, delta: int, n: nat)
    requires Writable(SeElement(delta)) && Holds(bits, pos, [SeElement(delta)])
    requires n > 0 && delta < -264 && (8 + delta) % 256 != 0
    ensures var r := ParseScalingList(bits, pos, n); r.0[0] == NextScale(8, delta) < 0 && !CanonicalList(r.0, r.1)
  {
    hide ReadElement, Encode, Holds, Writable, NextScale;
    assert [SeElement(delta)] + [] == [SeElement(delta)];
    ReadFirst(bits, pos, SeElement(delta), []);
    StepKeepsRange(8, delta);
    var q := After(pos, [SeElement(delta)]);
    ParseStep(bits, pos, n, true, 8, delta, q);
    var nx := NextScale(8, delta);
    var r := ParseFrom(bits, q, n - 1, false, nx, nx, false);
    CanonicalCons(nx, r.0);
  }
}
