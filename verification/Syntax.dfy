/**
  Runs of syntax elements. A parameter set is written as a list of elements,
  each a descriptor of section 7.2 of H.264 with its value, and is read by
  asking for a list of descriptors.
 */
module Syntax {
  import opened CArithmetic
  import opened Bits
  import opened ExpGolomb

  datatype Descriptor = U(n: nat) | Ue | Se

  datatype Element = Element(descriptor: Descriptor, value: int)

  function Flag(b: bool): (e: Element)
    ensures e.descriptor == U(1)
  {
    Element(U(1), if b then 1 else 0)
  }

  function UElement(n: nat, v: int): Element {
    Element(U(n), v)
  }

  function UeElement(v: int): Element {
    Element(Ue, v)
  }

  function SeElement(v: int): Element {
    Element(Se, v)
  }

  /** The bits one element is written as. */
  function Encode(e: Element): (w: seq<bool>)
  {
    match e.descriptor
    case U(n) => UBits(n, Uint32(e.value))
    case Ue => UeBits(Uint32(e.value))
    case Se => UeBits(Uint32(SeToUe(e.value)))
  }

  /** The value of the element at pos, and the position after it. */
  function ReadElement(d: Descriptor, bits: seq<bool>, pos: nat): (r: (int, nat))
    ensures r.1 >= pos
  {
    match d
    case U(n) => (ReadU(bits, pos, n), pos + n)
    case Ue => var (u, p) := ReadUe(bits, pos); (u, p)
    case Se => var (u, p) := ReadUe(bits, pos); (UeToSe(u), p)
  }

  /** The elements that a write followed by a read preserves. */
  predicate Writable(e: Element) {
    match e.descriptor
    case U(n) => n <= 32 && 0 <= e.value < Pow2(n)
    case Ue => 0 <= e.value < TWO_32 && WritableUe(e.value)
    case Se => SeToUe(e.value) < TWO_31 && WritableUe(SeToUe(e.value))
  }

  lemma {:induction false} OnlyLeadingDigit(x: nat)
    requires x > 0 && TrailingZeros(x) >= BitLen(x) - 1
    ensures x == Pow2(BitLen(x) - 1)
  {
    if x > 1 {
      var n := BitLen(x / 2);
      assert BitLen(x) == n + 1 && n > 0;
      assert x % 2 == 0 && TrailingZeros(x) == 1 + TrailingZeros(x / 2);
      OnlyLeadingDigit(x / 2);
      assert Pow2(n) == 2 * Pow2(n - 1);
    } else {
      assert BitLen(0) == 0 && BitLen(1) == 1 && Pow2(0) == 1;
    }
  }

  lemma LargeUeIsUnwritable(u: nat)
    requires TWO_31 <= u < TWO_32
    ensures !WritableUe(u)
  {
    if u + 1 < TWO_32 {
      Pow2Values();
      BitLenUnique(u + 1, 32);
      if TrailingZeros(u + 1) >= 31 {
        OnlyLeadingDigit(u + 1);
      }
    }
  }

  lemma URoundTrip(bits: seq<bool>, pos: nat, n: nat, v: int)
    requires n <= 32 && At(bits, pos, UBits(n, Uint32(v)))
    ensures ReadU(bits, pos, n) == v <==> 0 <= v < Pow2(n)
  {
    ReadUBounded(bits, pos, n);
    if 0 <= v < Pow2(n) {
      Pow2Values();
      Pow2Monotonic(n, 32);
      ReadUWritten(bits, pos, n, v);
    }
  }

  /** Where the cursor ends tells whether the code was right, but for the
      wrapped word of 2^32 - 1, which then reads as 0. */
  lemma UeCursorDecides(bits: seq<bool>, pos: nat, u: nat)
    requires u < TWO_32 && At(bits, pos, UeBits(u))
    requires ReadUe(bits, pos).1 == pos + |UeBits(u)|
    ensures (WritableUe(u) && ReadUe(bits, pos).0 == u) || (u == TWO_32 - 1 && ReadUe(bits, pos).0 == 0)
  {
    UeRoundTrip(bits, pos, u);
    if u + 1 == TWO_32 {
      LastWordFails(bits, pos);
    } else if !WritableUe(u) {
      EarlyOneFails(bits, pos, u);
    }
  }

  lemma SeValues(v: int, r: nat)
    requires r < TWO_31 && UeToSe(r) == v
    ensures SeToUe(v) == r
  {
  }

  lemma SeRoundTrip(bits: seq<bool>, pos: nat, v: int)
    requires At(bits, pos, UeBits(Uint32(SeToUe(v))))
    ensures ReadElement(Se, bits, pos) == (v, pos + |UeBits(Uint32(SeToUe(v)))|) <==> Writable(SeElement(v))
  {
    hide ReadUe, UeBits, WritableUe;
    var u := Uint32(SeToUe(v));
    var r := ReadUe(bits, pos);
    if Writable(SeElement(v)) {
      assert u == SeToUe(v);
      UeRoundTrip(bits, pos, u);
      SeMappingInverse(v);
    } else if ReadElement(Se, bits, pos) == (v, pos + |UeBits(u)|) {
      assert UeToSe(r.0) == v;
      UeCursorDecides(bits, pos, u);
      if r.0 >= TWO_31 {
        LargeUeIsUnwritable(u);
      }
      SeValues(v, r.0);
      assert false;
    }
  }

  /** An element reads back as itself, with the cursor right behind it, for
      exactly the writable elements. */
  lemma ElementRoundTrip(bits: seq<bool>, pos: nat, e: Element)
    requires e.descriptor.U? ==> e.descriptor.n <= 32
    requires At(bits, pos, Encode(e))
    ensures ReadElement(e.descriptor, bits, pos) == (e.value, pos + |Encode(e)|) <==> Writable(e)
  {
    hide ReadU, ReadUe, UBits, UeBits, WritableUe, UeToSe;
    match e.descriptor
    case U(n) => URoundTrip(bits, pos, n, e.value);
    case Ue => UeRoundTrip(bits, pos, Uint32(e.value));
    case Se => SeRoundTrip(bits, pos, e.value);
  }

  /** Values that the writer's arithmetic does not wrap around. */
  predicate Representable(e: Element) {
    match e.descriptor
    case U(n) => n <= 32
    case Ue => e.value != TWO_32 - 1
    case Se => SeToUe(e.value) < TWO_31
  }

  /** Of such values exactly the writable ones read back. */
  lemma ValueExactly(bits: seq<bool>, pos: nat, e: Element)
    requires Representable(e) && At(bits, pos, Encode(e))
    ensures ReadElement(e.descriptor, bits, pos).0 == e.value <==> Writable(e)
  {
    ElementRoundTrip(bits, pos, e);
    hide ReadU, ReadUe, UBits, UeBits, WritableUe;
    match e.descriptor
    case U(n) => URoundTrip(bits, pos, n, e.value);
    case Ue =>
      if 0 <= e.value < TWO_32 && !Writable(e) {
        EarlyOneFails(bits, pos, e.value);
      }
    case Se =>
      var u := SeToUe(e.value);
      if !Writable(e) {
        EarlyOneFails(bits, pos, u);
        var r := ReadUe(bits, pos).0;
        if UeToSe(r) == e.value {
          SeValues(e.value, r);
        }
      }
  }

  /** The bits of a run of elements. */
  function EncodeAll(es: seq<Element>): (w: seq<bool>)
  {
    if es == [] then [] else Encode(es[0]) + EncodeAll(es[1..])
  }

  lemma {:induction false} EncodeAppend(a: seq<Element>, b: seq<Element>)
    ensures EncodeAll(a + b) == EncodeAll(a) + EncodeAll(b)
  {
    if a == [] {
      assert a + b == b;
    } else {
      assert (a + b)[1..] == a[1..] + b;
      EncodeAppend(a[1..], b);
    }
  }

  /** The run es lies in bits at pos. */
  predicate Holds(bits: seq<bool>, pos: nat, es: seq<Element>) {
    At(bits, pos, EncodeAll(es))
  }

  function After(pos: nat, es: seq<Element>): nat {
    pos + |EncodeAll(es)|
  }

  lemma HoldsMeaning(bits: seq<bool>, pos: nat, es: seq<Element>)
    ensures Holds(bits, pos, es) <==> At(bits, pos, EncodeAll(es))
    ensures After(pos, es) == pos + |EncodeAll(es)|
  {
  }

  lemma HoldsAppend(bits: seq<bool>, pos: nat, a: seq<Element>, b: seq<Element>)
    ensures Holds(bits, pos, a + b) <==> Holds(bits, pos, a) && Holds(bits, After(pos, a), b)
    ensures After(pos, a + b) == After(After(pos, a), b)
  {
    hide *;
    EncodeAppend(a, b);
    HoldsMeaning(bits, pos, a);
    HoldsMeaning(bits, After(pos, a), b);
    HoldsMeaning(bits, pos, a + b);
    AtAppend(bits, pos, EncodeAll(a), EncodeAll(b));
  }

  ghost predicate AllWritable(es: seq<Element>) {
    forall e :: e in es ==> Writable(e)
  }

  /** The values of a run of descriptors, and the position after the run. */
  function ReadAll(ds: seq<Descriptor>, bits: seq<bool>, pos: nat): (r: (seq<int>, nat))
    ensures |r.0| == |ds| && r.1 >= pos
    decreases |ds|
  {
    if ds == [] then ([], pos)
    else
      var (v, p) := ReadElement(ds[0], bits, pos);
      var (vs, q) := ReadAll(ds[1..], bits, p);
      ([v] + vs, q)
  }

  function Values(es: seq<Element>): (vs: seq<int>)
    ensures |vs| == |es|
  {
    seq(|es|, i requires 0 <= i < |es| => es[i].value)
  }

  function Descriptors(es: seq<Element>): (ds: seq<Descriptor>)
    ensures |ds| == |es|
  {
    seq(|es|, i requires 0 <= i < |es| => es[i].descriptor)
  }

  lemma WritableWidth(e: Element)
    requires Writable(e)
    ensures e.descriptor.U? ==> e.descriptor.n <= 32
  {
  }

  /** The first of a run reads back, and the rest of the run follows it. */
  lemma ReadFirst(bits: seq<bool>, pos: nat, e: Element, rest: seq<Element>)
    requires Writable(e) && Holds(bits, pos, [e] + rest)
    ensures ReadElement(e.descriptor, bits, pos) == (e.value, After(pos, [e]))
    ensures Holds(bits, After(pos, [e]), rest)
    ensures After(pos, [e] + rest) == After(After(pos, [e]), rest)
  {
    hide *;
    WritableWidth(e);
    EncodeSingle(e);
    HoldsMeaning(bits, pos, [e]);
    HoldsAppend(bits, pos, [e], rest);
    ElementRoundTrip(bits, pos, e);
  }

  lemma EncodeSingle(e: Element)
    ensures EncodeAll([e]) == Encode(e)
  {
    hide Encode;
    assert EncodeAll([e]) == Encode(e) + EncodeAll([]);
  }

  /** A run of writable elements reads back as its values. */
  lemma {:induction false} ReadAllWritten(ds: seq<Descriptor>, bits: seq<bool>, pos: nat, es: seq<Element>)
    requires ds == Descriptors(es) && AllWritable(es) && Holds(bits, pos, es)
    ensures ReadAll(ds, bits, pos) == (Values(es), After(pos, es))
    decreases |es|
  {
    hide ReadElement, Encode, Writable, Holds;
    if es == [] {
      assert Values(es) == [];
    } else {
      var e, rest := es[0], es[1..];
      assert es == [e] + rest;
      assert Writable(e);
      ReadFirst(bits, pos, e, rest);
      assert ds[1..] == Descriptors(rest);
      ReadAllWritten(ds[1..], bits, After(pos, [e]), rest);
      assert Values(es) == [e.value] + Values(rest);
    }
  }

  /** Of a run of representable values, all read back if and only if all are
      writable. */
  lemma {:induction false} RunExactly(ds: seq<Descriptor>, bits: seq<bool>, pos: nat, es: seq<Element>)
    requires ds == Descriptors(es) && Holds(bits, pos, es) && forall e :: e in es ==> Representable(e)
    ensures ReadAll(ds, bits, pos).0 == Values(es) <==> AllWritable(es)
    decreases |es|
  {
    hide ReadElement, Encode, Writable, Representable, EncodeAll;
    if es == [] {
      assert Values(es) == [];
    } else {
      var e, rest := es[0], es[1..];
      assert es == [e] + rest && e in es;
      HoldsAppend(bits, pos, [e], rest);
      EncodeSingle(e);
      ValueExactly(bits, pos, e);
      assert ds[1..] == Descriptors(rest);
      assert Values(es) == [e.value] + Values(rest);
      if Writable(e) {
        ReadFirst(bits, pos, e, rest);
        forall x | x in rest
          ensures Representable(x)
        {
          assert x in es;
        }
        RunExactly(ds[1..], bits, After(pos, [e]), rest);
        WritableAppend([e], rest);
        var (v, p) := ReadElement(ds[0], bits, pos);
        var tail := ReadAll(ds[1..], bits, p).0;
        assert ([v] + tail)[1..] == tail && ([e.value] + Values(rest))[1..] == Values(rest);
      } else {
        assert ReadAll(ds, bits, pos).0[0] != Values(es)[0];
      }
    }
  }

  /** Reading a list of descriptors and then another is reading both lists. */
  lemma {:induction false} ReadAllAppend(ds: seq<Descriptor>, es: seq<Descriptor>, bits: seq<bool>, pos: nat)
    ensures var first := ReadAll(ds, bits, pos);
            var second := ReadAll(es, bits, first.1);
            ReadAll(ds + es, bits, pos) == (first.0 + second.0, second.1)
    decreases |ds|
  {
    if ds == [] {
      assert ds + es == es;
      assert ReadAll(ds, bits, pos) == ([], pos);
      assert [] + ReadAll(es, bits, pos).0 == ReadAll(es, bits, pos).0;
    } else {
      assert (ds + es)[1..] == ds[1..] + es;
      var (v, p) := ReadElement(ds[0], bits, pos);
      ReadAllAppend(ds[1..], es, bits, p);
      var tail := ReadAll(ds[1..], bits, p);
      var second := ReadAll(es, bits, tail.1);
      assert [v] + (tail.0 + second.0) == ([v] + tail.0) + second.0;
    }
  }

  lemma WritableAppend(a: seq<Element>, b: seq<Element>)
    ensures AllWritable(a + b) <==> AllWritable(a) && AllWritable(b)
  {
    hide Writable;
    if AllWritable(a + b) {
      forall e | e in a
        ensures Writable(e)
      {
        assert e in a + b;
      }
      forall e | e in b
        ensures Writable(e)
      {
        assert e in a + b;
      }
    }
  }

  /** What the round trip of a run that starts with a needs to know of a. */
  lemma TakeRun(bits: seq<bool>, pos: nat, a: seq<Element>, b: seq<Element>)
    requires Holds(bits, pos, a + b) && AllWritable(a + b)
    ensures Holds(bits, pos, a) && AllWritable(a)
    ensures Holds(bits, After(pos, a), b) && AllWritable(b)
    ensures After(pos, a + b) == After(After(pos, a), b)
  {
    HoldsAppend(bits, pos, a, b);
    WritableAppend(a, b);
  }

  lemma NothingAfter(pos: nat)
    ensures After(pos, []) == pos
  {
  }

  /** A flag and the fixed run of fields that follows it when it is set. The
      fields keep the zeros of a cleared record when the flag is not set. */
  datatype FieldGroup = FieldGroup(present: bool, values: seq<int>)

  function Cleared(n: nat): (s: seq<int>)
    ensures |s| == n && forall i :: 0 <= i < n ==> s[i] == 0
  {
    seq(n, _ => 0)
  }

  predicate CanonicalGroup(g: FieldGroup, n: nat) {
    |g.values| == n && (!g.present ==> g.values == Cleared(n))
  }

  function Fields(ds: seq<Descriptor>, vs: seq<int>): (es: seq<Element>)
    requires |ds| == |vs|
    ensures Descriptors(es) == ds && Values(es) == vs
  {
    var es := seq(|ds|, i requires 0 <= i < |ds| => Element(ds[i], vs[i]));
    assert Descriptors(es) == ds && Values(es) == vs;
    es
  }

  function GroupElements(ds: seq<Descriptor>, g: FieldGroup): (es: seq<Element>)
    requires |ds| == |g.values|
  {
    [Flag(g.present)] + if g.present then Fields(ds, g.values) else []
  }

  function ParseGroup(ds: seq<Descriptor>, bits: seq<bool>, pos: nat): (r: (FieldGroup, nat))
    ensures CanonicalGroup(r.0, |ds|) && r.1 >= pos
  {
    var (f, p) := ReadFlag(bits, pos);
    if f then
      var (vs, q) := ReadAll(ds, bits, p);
      (FieldGroup(true, vs), q)
    else
      (FieldGroup(false, Cleared(|ds|)), p)
  }

  function ReadFlag(bits: seq<bool>, pos: nat): (r: (bool, nat))
    ensures r.1 == pos + 1
  {
    (ReadElement(U(1), bits, pos).0 == 1, pos + 1)
  }

  lemma FlagRoundTrip(bits: seq<bool>, pos: nat, f: bool, rest: seq<Element>)
    requires Holds(bits, pos, [Flag(f)] + rest)
    ensures ReadFlag(bits, pos) == (f, After(pos, [Flag(f)])) && Holds(bits, After(pos, [Flag(f)]), rest)
    ensures After(pos, [Flag(f)] + rest) == After(After(pos, [Flag(f)]), rest)
  {
    FlagIsWritable(f);
    FlagLength(f);
    hide ReadElement, Encode, Writable, Holds;
    ReadFirst(bits, pos, Flag(f), rest);
    EncodeSingle(Flag(f));
  }

  lemma FlagIsWritable(f: bool)
    ensures Writable(Flag(f))
  {
    assert Pow2(1) == 2;
  }

  lemma FlagLength(f: bool)
    ensures |Encode(Flag(f))| == 1
  {
  }

  /** A canonical field group reads back as itself. */
  lemma GroupRoundTrip(ds: seq<Descriptor>, bits: seq<bool>, pos: nat, g: FieldGroup)
    requires CanonicalGroup(g, |ds|)
    requires Holds(bits, pos, GroupElements(ds, g)) && AllWritable(GroupElements(ds, g))
    ensures ParseGroup(ds, bits, pos) == (g, After(pos, GroupElements(ds, g)))
  {
    hide ReadElement, Encode, Writable, ReadFlag;
    var es := if g.present then Fields(ds, g.values) else [];
    FlagRoundTrip(bits, pos, g.present, es);
    WritableAppend([Flag(g.present)], es);
    if g.present {
      ReadAllWritten(ds, bits, After(pos, [Flag(true)]), es);
    } else {
      NothingAfter(After(pos, [Flag(false)]));
    }
  }

  /** Moving one item from the front of what is left to the end of what is done. */
  lemma MoveOne<T>(done: seq<T>, x: T, rest: seq<T>)
    ensures done + ([x] + rest) == (done + [x]) + rest
  {
  }

  lemma MoveRun<T>(done: seq<T>, run: seq<T>, rest: seq<T>)
    ensures done + (run + rest) == (done + run) + rest
  {
  }
}
