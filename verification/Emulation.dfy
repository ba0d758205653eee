/** Emulation prevention, section 7.4.1 of H.264: RBSPtoEBSP and EBSPtoRBSP. */
module Emulation {
  import opened Bits

  /** The number of zero bytes just seen, after one more byte. */
  function NextCount(count: nat, x: byte): nat {
    if x == 0 then count + 1 else 0
  }

  /** RBSPtoEBSP on the bytes s, behind count zero bytes: a 3 goes before a
      byte below 4 that follows two zeros. */
  function EscapeFrom(s: seq<byte>, count: nat): (r: seq<byte>)
  {
    if s == [] then []
    else if count == 2 && s[0] & 0xFC == 0 then [3, s[0]] + EscapeFrom(s[1..], NextCount(0, s[0]))
    else [s[0]] + EscapeFrom(s[1..], NextCount(count, s[0]))
  }

  function Escape(s: seq<byte>): seq<byte> {
    EscapeFrom(s, 0)
  }

  /** EBSPtoRBSP on the bytes s, behind count zero bytes: a 3 behind two zeros
      is skipped and the byte after it copied unseen. Behind a final 3 that is
      the byte of the buffer that follows s. */
  function UnescapeFrom(s: seq<byte>, count: nat, beyond: byte): (r: seq<byte>)
    ensures |r| <= |s|
  {
    if s == [] then []
    else if count == 2 && s[0] == 3 then
      var x := if |s| > 1 then s[1] else beyond;
      [x] + UnescapeFrom(if |s| > 1 then s[2..] else [], NextCount(0, x), beyond)
    else
      [s[0]] + UnescapeFrom(s[1..], NextCount(count, s[0]), beyond)
  }

  function Unescape(s: seq<byte>, beyond: byte): seq<byte> {
    UnescapeFrom(s, 0, beyond)
  }

  /** The bytes from i on are not a start code prefix or a reserved pattern:
      behind 00 00 comes no byte below 3, and a 3 there comes before a byte
      below 4. */
  predicate LegalAt(y: seq<byte>, i: nat)
    requires i + 2 < |y|
  {
    y[i] == 0 && y[i + 1] == 0 ==> y[i + 2] > 3 || (y[i + 2] == 3 && i + 3 < |y| && y[i + 3] <= 3)
  }

  /** A legal escaped payload. */
  predicate Legal(y: seq<byte>) {
    forall i: nat :: i + 2 < |y| ==> LegalAt(y, i)
  }

  /** Legal, step by step, behind count zero bytes. */
  predicate LegalFrom(y: seq<byte>, count: nat) {
    y == [] ||
    ((count == 2 ==> y[0] > 3 || (y[0] == 3 && |y| > 1 && y[1] <= 3)) && LegalFrom(y[1..], NextCount(count, y[0])))
  }

  lemma SmallByte(x: byte)
    ensures x & 0xFC == 0 <==> x <= 3
  {
  }

  function ZeroBytes(n: nat): (s: seq<byte>)
    ensures |s| == n && forall i :: 0 <= i < n ==> s[i] == 0
  {
    seq(n, _ => 0)
  }

  lemma LegalAtShifted(z: seq<byte>, y: seq<byte>, d: nat, i: nat)
    requires d + i + 2 < |z| && z[d..] == y
    ensures LegalAt(z, d + i) == LegalAt(y, i)
  {
    assert y[i] == z[d + i] && y[i + 1] == z[d + i + 1] && y[i + 2] == z[d + i + 2];
    assert i + 3 < |y| ==> y[i + 3] == z[d + i + 3];
  }

  /** A nonzero byte ends the zeros before it. */
  lemma LegalBehind(x: byte, y: seq<byte>, count: nat)
    requires x != 0 && count <= 2
    ensures Legal(ZeroBytes(count) + [x] + y)
            <==> Legal(y) && (count == 2 ==> x > 3 || (x == 3 && |y| > 0 && y[0] <= 3))
  {
    var z, d := ZeroBytes(count) + [x] + y, count + 1;
    assert z[d..] == y && z[count] == x;
    hide LegalAt;
    forall i: nat | i + 2 < |y|
      ensures LegalAt(z, d + i) == LegalAt(y, i)
    {
      LegalAtShifted(z, y, d, i);
    }
    EarlyWindows(z, x, y, count);
    if Legal(y) && (count == 2 ==> LegalAt(z, 0)) {
      forall i: nat | i + 2 < |z|
        ensures LegalAt(z, i)
      {
        if i >= d {
          LegalAtShifted(z, y, d, i - d);
        }
      }
    }
  }

  lemma EarlyWindows(z: seq<byte>, x: byte, y: seq<byte>, count: nat)
    requires x != 0 && count <= 2 && z == ZeroBytes(count) + [x] + y
    ensures forall i: nat :: i <= count && i + 2 < |z| && !(count == 2 && i == 0) ==> LegalAt(z, i)
    ensures count == 2 ==> LegalAt(z, 0) == (x > 3 || (x == 3 && |y| > 0 && y[0] <= 3))
  {
    assert z[count] == x;
    if count == 2 {
      assert z[0] == 0 && z[1] == 0 && z[2] == x;
      assert |y| > 0 ==> z[3] == y[0];
    }
  }

  lemma {:induction false} LegalStepwise(y: seq<byte>, count: nat)
    requires count <= 2
    ensures LegalFrom(y, count) <==> Legal(ZeroBytes(count) + y)
  {
    var z := ZeroBytes(count) + y;
    if y != [] {
      if y[0] == 0 {
        if count == 2 {
          assert z[0] == 0 && z[1] == 0 && z[2] == 0;
          assert !LegalAt(z, 0);
        } else {
          LegalStepwise(y[1..], count + 1);
          assert z == ZeroBytes(count + 1) + y[1..];
        }
      } else {
        LegalStepwise(y[1..], 0);
        assert ZeroBytes(0) + y[1..] == y[1..];
        assert z == ZeroBytes(count) + [y[0]] + y[1..];
        LegalBehind(y[0], y[1..], count);
      }
    }
  }

  lemma {:induction false} UnescapeEscapeFrom(x: seq<byte>, count: nat, beyond: byte)
    requires count <= 2
    ensures UnescapeFrom(EscapeFrom(x, count), count, beyond) == x
  {
    if x != [] {
      SmallByte(x[0]);
      assert x == [x[0]] + x[1..];
      if count == 2 && x[0] <= 3 {
        UnescapeEscapeFrom(x[1..], NextCount(0, x[0]), beyond);
        var e := EscapeFrom(x, count);
        var rest := EscapeFrom(x[1..], NextCount(0, x[0]));
        assert e == [3, x[0]] + rest && e[2..] == rest;
      } else {
        UnescapeEscapeFrom(x[1..], NextCount(count, x[0]), beyond);
        var e := EscapeFrom(x, count);
        var rest := EscapeFrom(x[1..], NextCount(count, x[0]));
        assert e == [x[0]] + rest && e[1..] == rest;
      }
    }
  }

  lemma {:induction false} EscapeIsLegalFrom(x: seq<byte>, count: nat)
    requires count <= 2
    ensures LegalFrom(EscapeFrom(x, count), count)
  {
    if x != [] {
      SmallByte(x[0]);
      var e := EscapeFrom(x, count);
      if count == 2 && x[0] <= 3 {
        EscapeIsLegalFrom(x[1..], NextCount(0, x[0]));
        var rest := EscapeFrom(x[1..], NextCount(0, x[0]));
        assert e[1..] == [x[0]] + rest && e[1..][1..] == rest;
        assert LegalFrom(e[1..], 0);
      } else {
        EscapeIsLegalFrom(x[1..], NextCount(count, x[0]));
        assert e[1..] == EscapeFrom(x[1..], NextCount(count, x[0]));
      }
    }
  }

  lemma {:induction false} EscapeUnescapeFrom(y: seq<byte>, count: nat, beyond: byte)
    requires count <= 2 && LegalFrom(y, count)
    ensures EscapeFrom(UnescapeFrom(y, count, beyond), count) == y
  {
    if y != [] {
      SmallByte(y[0]);
      var u := UnescapeFrom(y, count, beyond);
      if count == 2 && y[0] == 3 {
        SmallByte(y[1]);
        assert y[1..][1..] == y[2..];
        EscapeUnescapeFrom(y[2..], NextCount(0, y[1]), beyond);
        assert u[1..] == UnescapeFrom(y[2..], NextCount(0, y[1]), beyond);
        assert y == [3, y[1]] + y[2..];
      } else {
        EscapeUnescapeFrom(y[1..], NextCount(count, y[0]), beyond);
        assert u[1..] == UnescapeFrom(y[1..], NextCount(count, y[0]), beyond);
        assert y == [y[0]] + y[1..];
      }
    }
  }

  /** Unescaping takes back escaping, for every payload. */
  lemma UnescapeEscape(x: seq<byte>, beyond: byte)
    ensures Unescape(Escape(x), beyond) == x
  {
    UnescapeEscapeFrom(x, 0, beyond);
  }

  /** Escaping yields a legal payload, for every payload. */
  lemma EscapeIsLegal(x: seq<byte>)
    ensures Legal(Escape(x))
  {
    EscapeIsLegalFrom(x, 0);
    LegalStepwise(Escape(x), 0);
    assert ZeroBytes(0) + Escape(x) == Escape(x);
  }

  /** Escaping takes back unescaping for exactly the legal payloads. With
      UnescapeEscape this makes Escape a bijection onto them. */
  lemma EscapeUnescape(y: seq<byte>, beyond: byte)
    ensures Escape(Unescape(y, beyond)) == y <==> Legal(y)
  {
    EscapeIsLegal(Unescape(y, beyond));
    LegalStepwise(y, 0);
    assert ZeroBytes(0) + y == y;
    if Legal(y) {
      EscapeUnescapeFrom(y, 0, beyond);
    }
  }

  lemma EscapeLength(x: seq<byte>, count: nat)
    requires x != []
    ensures |EscapeFrom(x, count)|
            == if count == 2 && x[0] <= 3 then 2 + |EscapeFrom(x[1..], NextCount(0, x[0]))|
               else 1 + |EscapeFrom(x[1..], NextCount(count, x[0]))|
  {
    SmallByte(x[0]);
  }

  lemma {:induction false} EscapeGrowthFrom(x: seq<byte>, count: nat)
    requires count <= 2
    ensures |x| <= |EscapeFrom(x, count)|
    ensures |x| > 0 ==> |EscapeFrom(x, count)| <= |x| + (|x| + count - 1) / 2
    ensures x == [] ==> EscapeFrom(x, count) == []
  {
    if x == [] {
      NothingToEscape(count);
    } else {
      hide EscapeFrom;
      EscapeLength(x, count);
      if count == 2 && x[0] <= 3 {
        EscapeGrowthFrom(x[1..], NextCount(0, x[0]));
      } else {
        EscapeGrowthFrom(x[1..], NextCount(count, x[0]));
      }
    }
  }

  /** n bytes grow by at most (n - 1) / 2 bytes. */
  lemma EscapeGrowth(x: seq<byte>)
    ensures |x| <= |Escape(x)|
    ensures |x| > 0 ==> |Escape(x)| <= |x| + (|x| - 1) / 2
  {
    EscapeGrowthFrom(x, 0);
  }

  lemma {:induction false} ZerosGrowFrom(n: nat, count: nat)
    requires n > 0 && count <= 2
    ensures |EscapeFrom(ZeroBytes(n), count)| == n + (n + count - 1) / 2
  {
    assert ZeroBytes(n)[1..] == ZeroBytes(n - 1);
    SmallByte(0);
    if n == 1 {
      assert EscapeFrom(ZeroBytes(0), 0) == [] && EscapeFrom(ZeroBytes(0), 1) == [] && EscapeFrom(ZeroBytes(0), 2) == [];
    } else if count == 2 {
      ZerosGrowFrom(n - 1, 1);
    } else {
      ZerosGrowFrom(n - 1, count + 1);
    }
  }

  /** The bound is reached by the all-zero payload of every length. */
  lemma ZerosGrowMost(n: nat)
    requires n > 0
    ensures |Escape(ZeroBytes(n))| == n + (n - 1) / 2
  {
    ZerosGrowFrom(n, 0);
  }

  /** Escaping keeps the last byte. */
  lemma {:induction false} EscapeKeepsLast(x: seq<byte>, count: nat)
    requires x != []
    ensures var e := EscapeFrom(x, count); e != [] && e[|e| - 1] == x[|x| - 1]
  {
    if |x| > 1 {
      if count == 2 && x[0] & 0xFC == 0 {
        EscapeKeepsLast(x[1..], NextCount(0, x[0]));
      } else {
        EscapeKeepsLast(x[1..], NextCount(count, x[0]));
      }
    } else {
      assert EscapeFrom(x[1..], NextCount(0, x[0])) == [] && EscapeFrom(x[1..], NextCount(count, x[0])) == [];
    }
  }

  /** Nothing in y needs an escape byte. */
  predicate Plain(y: seq<byte>) {
    forall i: nat :: i + 2 < |y| ==> PlainAt(y, i)
  }

  predicate PlainAt(y: seq<byte>, i: nat)
    requires i + 2 < |y|
  {
    y[i] == 0 && y[i + 1] == 0 ==> y[i + 2] > 3
  }

  lemma PlainBehind(x: byte, y: seq<byte>, count: nat)
    requires x != 0 && count <= 2
    ensures Plain(ZeroBytes(count) + [x] + y) <==> Plain(y) && (count == 2 ==> x > 3)
  {
    var z, d := ZeroBytes(count) + [x] + y, count + 1;
    assert z[d..] == y && z[count] == x;
    forall i: nat | i + 2 < |y|
      ensures PlainAt(z, d + i) == PlainAt(y, i)
    {
      assert y[i] == z[d + i] && y[i + 1] == z[d + i + 1] && y[i + 2] == z[d + i + 2];
    }
    if count == 2 {
      assert z[0] == 0 && z[1] == 0 && z[2] == x;
      assert PlainAt(z, 0) == (x > 3);
    }
    if Plain(y) && (count == 2 ==> x > 3) {
      forall i: nat | i + 2 < |z|
        ensures PlainAt(z, i)
      {
        if i >= d {
          assert PlainAt(y, i - d);
        }
      }
    }
  }

  lemma ConsSame(x: byte, a: seq<byte>, y: seq<byte>)
    requires y != [] && y[0] == x
    ensures [x] + a == y <==> a == y[1..]
  {
    assert y == [x] + y[1..];
    assert ([x] + a)[1..] == a;
  }

  /** A byte that needs an escape byte makes the payload longer. */
  lemma EscapedIsLonger(x: seq<byte>)
    requires x != [] && x[0] <= 3
    ensures EscapeFrom(x, 2) != x && !Plain(ZeroBytes(2) + x)
  {
    var z := ZeroBytes(2) + x;
    EscapeLength(x, 2);
    EscapeGrowthFrom(x[1..], NextCount(0, x[0]));
    assert z[0] == 0 && z[1] == 0 && z[2] == x[0];
    assert !PlainAt(z, 0);
  }

  /** Any other byte may be left out of the payload. */
  lemma PlainStep(x: seq<byte>, count: nat)
    requires count <= 2 && x != [] && !(count == 2 && x[0] <= 3)
    ensures Plain(ZeroBytes(count) + x) <==> Plain(ZeroBytes(NextCount(count, x[0])) + x[1..])
  {
    hide Plain;
    var z := ZeroBytes(count) + x;
    if x[0] == 0 {
      assert z == ZeroBytes(count + 1) + x[1..];
    } else {
      PlainBehind(x[0], x[1..], count);
      assert z == ZeroBytes(count) + [x[0]] + x[1..];
      assert ZeroBytes(0) + x[1..] == x[1..];
    }
  }

  lemma {:induction false} PlainFrom(x: seq<byte>, count: nat)
    requires count <= 2
    ensures EscapeFrom(x, count) == x <==> Plain(ZeroBytes(count) + x)
  {
    hide Plain;
    if x == [] {
      NothingToEscape(count);
      NothingIsPlain(count);
    } else if count == 2 && x[0] <= 3 {
      EscapedIsLonger(x);
    } else {
      SmallByte(x[0]);
      var c := NextCount(count, x[0]);
      var rest := EscapeFrom(x[1..], c);
      assert EscapeFrom(x, count) == [x[0]] + rest;
      hide EscapeFrom;
      ConsSame(x[0], rest, x);
      PlainFrom(x[1..], c);
      PlainStep(x, count);
    }
  }

  lemma NothingIsPlain(count: nat)
    requires count <= 2
    ensures Plain(ZeroBytes(count) + [])
  {
  }

  /** Escaping leaves exactly those payloads alone in which no byte below 4
      follows two zeros. */
  lemma EscapeLeavesAlone(x: seq<byte>)
    ensures Escape(x) == x <==> Plain(x)
  {
    PlainFrom(x, 0);
    assert ZeroBytes(0) + x == x;
  }

  function CountAfter(a: seq<byte>, count: nat): nat {
    if a == [] then count else CountAfter(a[1..], NextCount(count, a[0]))
  }

  lemma HeadCopied(x: byte, t: seq<byte>, count: nat, beyond: byte)
    requires !(count == 2 && x <= 3)
    ensures EscapeFrom([x] + t, count) == [x] + EscapeFrom(t, NextCount(count, x))
    ensures UnescapeFrom([x] + t, count, beyond) == [x] + UnescapeFrom(t, NextCount(count, x), beyond)
  {
    SmallByte(x);
    assert ([x] + t)[1..] == t;
  }

  lemma {:induction false} PlainPrefix(a: seq<byte>, count: nat, rest: seq<byte>, beyond: byte)
    requires count <= 2 && Plain(ZeroBytes(count) + a)
    ensures EscapeFrom(a + rest, count) == a + EscapeFrom(rest, CountAfter(a, count))
    ensures UnescapeFrom(a + rest, count, beyond) == a + UnescapeFrom(rest, CountAfter(a, count), beyond)
    ensures CountAfter(a, count) <= 2
  {
    hide Plain, EscapeFrom, UnescapeFrom, NextCount;
    if a == [] {
      assert a + rest == rest;
      assert forall t: seq<byte> :: a + t == t;
    } else {
      if count == 2 && a[0] <= 3 {
        EscapedIsLonger(a);
      }
      PlainStep(a, count);
      var c, tail := NextCount(count, a[0]), a[1..];
      NextIsSmall(a, count);
      PlainPrefix(tail, c, rest, beyond);
      HeadCopied(a[0], tail + rest, count, beyond);
      assert a == [a[0]] + tail && a + rest == [a[0]] + (tail + rest);
      var k := CountAfter(a, count);
      HeadAndTail(a[0], tail, EscapeFrom(rest, k));
      HeadAndTail(a[0], tail, UnescapeFrom(rest, k, beyond));
    }
  }

  lemma HeadAndTail(x: byte, tail: seq<byte>, rest: seq<byte>)
    ensures [x] + (tail + rest) == ([x] + tail) + rest
  {
  }

  /** No third zero may come in a plain payload. */
  lemma NextIsSmall(a: seq<byte>, count: nat)
    requires count <= 2 && a != [] && !(count == 2 && a[0] <= 3)
    ensures NextCount(count, a[0]) <= 2
  {
  }

  lemma {:induction false} TwoZerosCounted(a: seq<byte>, count: nat)
    requires CountAfter(a + [0, 0], count) <= 2
    ensures CountAfter(a + [0, 0], count) == 2
  {
    if a == [] {
      assert a + [0, 0] == [0, 0] && [0, 0][1..] == [0];
      CountOfTwo(count);
    } else {
      assert (a + [0, 0])[1..] == a[1..] + [0, 0];
      TwoZerosCounted(a[1..], NextCount(count, a[0]));
    }
  }

  lemma CountOfTwo(count: nat)
    ensures CountAfter([0, 0], count) == count + 2
  {
    var z: seq<byte> := [0, 0];
    assert z[1..] == [0] && z[1..][1..] == [];
    assert CountAfter(z[1..], count + 1) == CountAfter(z[1..][1..], count + 2);
  }

  /** At the first two zeros that a byte below 4 follows, a 3 is put between,
      and what follows is escaped anew; unescaping drops a 3 there, whatever
      follows it. With EscapeLeavesAlone this says what escaping does to every
      payload. */
  lemma EscapeAtFirst(a: seq<byte>, x: byte, rest: seq<byte>, beyond: byte)
    requires Plain(a + [0, 0])
    ensures x <= 3 ==> Escape((a + [0, 0]) + ([x] + rest)) == (a + [0, 0]) + ([3] + Escape([x] + rest))
    ensures Unescape((a + [0, 0]) + ([3] + ([x] + rest)), beyond) == (a + [0, 0]) + Unescape([x] + rest, beyond)
  {
    hide Plain;
    var head := a + [0, 0];
    assert ZeroBytes(0) + head == head;
    PlainPrefix(head, 0, [x] + rest, beyond);
    PlainPrefix(head, 0, [3] + ([x] + rest), beyond);
    TwoZerosCounted(a, 0);
    hide CountAfter;
    SmallByte(x);
    var y := [3] + ([x] + rest);
    assert ([x] + rest)[1..] == rest && y[2..] == rest && y[1] == x;
    var more := EscapeFrom(rest, NextCount(0, x));
    assert [3, x] + more == [3] + ([x] + more);
  }

  // ---------- the loops over a buffer ----------

  /** Does unescaping read the byte behind s? Only for a final escape byte. */
  predicate NeedsBeyond(s: seq<byte>, count: nat) {
    s != [] &&
    if count == 2 && s[0] == 3 then |s| == 1 || NeedsBeyond(s[2..], NextCount(0, s[1]))
    else NeedsBeyond(s[1..], NextCount(count, s[0]))
  }

  lemma {:induction false} BeyondUnused(s: seq<byte>, count: nat, b: byte, c: byte)
    requires !NeedsBeyond(s, count)
    ensures UnescapeFrom(s, count, b) == UnescapeFrom(s, count, c)
    decreases |s|
  {
    if s != [] {
      if count == 2 && s[0] == 3 {
        BeyondUnused(s[2..], NextCount(0, s[1]), b, c);
      } else {
        BeyondUnused(s[1..], NextCount(count, s[0]), b, c);
      }
    }
  }

  lemma {:induction false} LegalNeedsNothing(s: seq<byte>, count: nat)
    requires LegalFrom(s, count)
    ensures !NeedsBeyond(s, count)
    decreases |s|
  {
    if s != [] {
      if count == 2 && s[0] == 3 {
        assert s[1..][1..] == s[2..];
        LegalNeedsNothing(s[2..], NextCount(0, s[1]));
      } else {
        LegalNeedsNothing(s[1..], NextCount(count, s[0]));
      }
    }
  }

  /** A legal payload is unescaped without a look at what follows it. */
  lemma LegalStandsAlone(s: seq<byte>, b: byte, c: byte)
    requires Legal(s)
    ensures !NeedsBeyond(s, 0) && Unescape(s, b) == Unescape(s, c)
  {
    LegalStepwise(s, 0);
    assert ZeroBytes(0) + s == s;
    LegalNeedsNothing(s, 0);
    BeyondUnused(s, 0, b, c);
  }

  function ByteAfter(a: seq<byte>, end: nat): byte {
    if end < |a| then a[end] else 0
  }

  /** What EBSPtoRBSP still has to write with its read index k bytes into s;
      behind a final escape byte the index runs one past the end. */
  function Remaining(s: seq<byte>, k: nat, count: nat, beyond: byte): seq<byte> {
    if k <= |s| then UnescapeFrom(s[k..], count, beyond) else []
  }

  predicate StillNeedsBeyond(s: seq<byte>, k: nat, count: nat) {
    k <= |s| && NeedsBeyond(s[k..], count)
  }

  function ByteOr(s: seq<byte>, k: nat, beyond: byte): byte {
    if k < |s| then s[k] else beyond
  }

  /** One turn of the loop from index k: the byte x at index m is copied, which
      is the next one if the byte at k is skipped as an escape. */
  lemma UnescapeStep(s: seq<byte>, k: nat, count: nat, beyond: byte, m: nat, c: nat, x: byte)
    requires k < |s| && x == ByteOr(s, m, beyond)
    requires if count == 2 && s[k] == 3 then m == k + 1 && c == 0 else m == k && c == count
    ensures Remaining(s, k, count, beyond) == [x] + Remaining(s, m + 1, NextCount(c, x), beyond)
    ensures StillNeedsBeyond(s, k, count) <==> m == |s| || StillNeedsBeyond(s, m + 1, NextCount(c, x))
  {
    assert s[k..][1..] == s[k + 1..];
    if k + 1 < |s| {
      assert s[k..][2..] == s[k + 2..];
      assert s[k..][1] == s[k + 1];
    }
  }

  /** The byte of the buffer that index m into s is read from. */
  ghost predicate Source(orig: seq<byte>, begin: nat, s: seq<byte>, beyond: byte) {
    && begin + |s| <= |orig|
    && (forall m: nat :: m <= |s| && begin + m < |orig| ==> orig[begin + m] == ByteOr(s, m, beyond))
  }

  /** The loop of EBSPtoRBSP over the bytes s: the write index j never
      overtakes the read index i. */
  method UnescapeLoop(a: array<byte>, begin: nat, end: nat, ghost s: seq<byte>, ghost beyond: byte) returns (j: int)
    requires end == begin + |s| && Source(a[..], begin, s, beyond)
    requires end == a.Length ==> !StillNeedsBeyond(s, 0, 0)
    modifies a
    ensures var out := Remaining(s, 0, 0, beyond);
            j == begin + |out| <= end && a[..] == Splice(old(a[..]), begin, out)
  {
    hide Splice, Remaining, StillNeedsBeyond, NextCount;
    ghost var orig := a[..];
    ghost var out: seq<byte> := [];
    var count: nat := 0;
    j := begin;
    var i: int := begin;
    SpliceNothing(orig, begin);
    assert out + Remaining(s, 0, 0, beyond) == Remaining(s, 0, 0, beyond);
    while i < end
      invariant begin <= j <= i <= end + 1 && j == begin + |out| <= end
      invariant a[..] == Splice(orig, begin, out)
      invariant Remaining(s, 0, 0, beyond) == out + Remaining(s, i - begin, count, beyond)
      invariant end == a.Length ==> !StillNeedsBeyond(s, i - begin, count)
    {
      ghost var k, zeros := i - begin, count;
      SpliceAt(orig, begin, out, i);
      assert ByteOr(s, k, beyond) == a[i];
      if count == 2 && a[i] == 3 {
        i := i + 1;
        count := 0;
        NeedsLastEscape(s, k);
        SpliceAt(orig, begin, out, i);
        assert ByteOr(s, k + 1, beyond) == a[i];
      }
      UnescapeStep(s, k, zeros, beyond, i - begin, count, a[i]);
      SpliceNext(orig, begin, out, a[i]);
      MoveByte(out, a[i], Remaining(s, i - begin + 1, NextCount(count, a[i]), beyond));
      out := out + [a[i]];
      a[j] := a[i];
      count := NextCount(count, a[j]);
      j := j + 1;
      i := i + 1;
    }
    NothingRemains(s, i - begin, count, beyond);
    assert out + [] == out;
  }

  /** EBSPtoRBSP. */
  method EbspToRbsp(a: array<byte>, begin: nat, end: int) returns (j: int)
    requires end <= a.Length
    requires end == a.Length && begin <= end ==> !NeedsBeyond(a[begin..end], 0)
    modifies a
    ensures end < begin ==> j == end && a[..] == old(a[..])
    ensures begin <= end ==>
      var out := Unescape(old(a[begin..end]), ByteAfter(old(a[..]), end));
      j == begin + |out| <= end && a[..] == Splice(old(a[..]), begin, out)
  {
    if end < begin {
      return end;
    }
    ghost var s, beyond := a[begin..end], ByteAfter(a[..], end);
    hide UnescapeFrom, NeedsBeyond, Splice, Remaining, StillNeedsBeyond;
    StartUnescape(s, beyond);
    j := UnescapeLoop(a, begin, end, s, beyond);
  }

  lemma NeedsLastEscape(s: seq<byte>, k: nat)
    requires k < |s| && s[k] == 3
    ensures k + 1 == |s| ==> StillNeedsBeyond(s, k, 2)
  {
  }

  lemma NothingRemains(s: seq<byte>, k: nat, count: nat, beyond: byte)
    requires k >= |s|
    ensures Remaining(s, k, count, beyond) == []
  {
  }

  lemma StartUnescape(s: seq<byte>, beyond: byte)
    ensures Unescape(s, beyond) == [] + Remaining(s, 0, 0, beyond)
    ensures StillNeedsBeyond(s, 0, 0) == NeedsBeyond(s, 0)
  {
    assert s[0..] == s;
    assert [] + Remaining(s, 0, 0, beyond) == Remaining(s, 0, 0, beyond);
  }

  lemma MoveByte(done: seq<byte>, x: byte, rest: seq<byte>)
    ensures done + ([x] + rest) == (done + [x]) + rest
  {
  }

  // ---------- escaping ----------

  /** n stuffing words 00 00 03. */
  function StuffingWords(n: nat): (s: seq<byte>)
    ensures |s| == 3 * n
  {
    if n == 0 then [] else StuffingWords(n - 1) + [0, 0, 3]
  }

  /** The words RBSPtoEBSP adds to len bytes to reach min bytes. */
  function StuffingCount(len: nat, min: int): (n: nat)
    ensures len + 3 * n >= min
    ensures n > 0 ==> len + 3 * (n - 1) < min
  {
    if min <= len then 0 else (min - len + 2) / 3
  }

  function Stuffed(e: seq<byte>, min: int): seq<byte> {
    e + StuffingWords(StuffingCount(|e|, min))
  }

  /** The size of NAL_Payload_buffer. */
  const PAYLOAD_BUFFER := 1024

  lemma EscapeStep(s: seq<byte>, k: nat, count: nat)
    requires k < |s| && count <= 2
    ensures var stop := count == 2 && s[k] & 0xFC == 0;
            var c := if stop then 0 else count;
            var x := s[k];
            && EscapeFrom(s[k..], count) == (if stop then [3] else []) + ([x] + EscapeFrom(s[k + 1..], NextCount(c, x)))
            && NextCount(c, x) <= 2
  {
    SmallByte(s[k]);
    assert s[k..][1..] == s[k + 1..];
    var rest := EscapeFrom(s[k + 1..], NextCount(0, s[k]));
    assert [3, s[k]] + rest == [3] + ([s[k]] + rest);
    assert forall t: seq<byte> :: [] + t == t;
  }

  /** The main loop of RBSPtoEBSP: reads the copy and writes over the buffer. */
  method EscapeLoop(a: array<byte>, begin: nat, payload: seq<byte>) returns (j: nat)
    requires begin + |Escape(payload)| <= a.Length
    modifies a
    ensures j == begin + |Escape(payload)| && a[..] == Splice(old(a[..]), begin, Escape(payload))
  {
    hide EscapeFrom, Splice;
    ghost var orig := a[..];
    ghost var out: seq<byte> := [];
    var count: nat := 0;
    j := begin;
    SpliceNothing(orig, begin);
    assert payload[0..] == payload && out + Escape(payload) == Escape(payload);
    for i := 0 to |payload|
      invariant count <= 2 && j == begin + |out|
      invariant Escape(payload) == out + EscapeFrom(payload[i..], count)
      invariant a[..] == Splice(orig, begin, out)
    {
      EscapeStep(payload, i, count);
      ghost var x := payload[i];
      ghost var stop := count == 2 && x & 0xFC == 0;
      ghost var rest := EscapeFrom(payload[i + 1..], NextCount(if stop then 0 else count, x));
      Regroup(out, stop, x, rest);
      if count == 2 && payload[i] & 0xFC == 0 {
        SpliceNext(orig, begin, out, 3);
        a[j] := 3;
        out := out + [3];
        j := j + 1;
        count := 0;
      }
      SpliceNext(orig, begin, out, x);
      a[j] := payload[i];
      out := out + [x];
      count := NextCount(count, payload[i]);
      j := j + 1;
    }
    NothingToEscape(count);
    assert payload[|payload|..] == [] && out + [] == out;
  }

  /** The stuffing loop of RBSPtoEBSP, with e already written. */
  method StuffLoop(a: array<byte>, begin: nat, minNumBytes: int, ghost orig: seq<byte>, ghost e: seq<byte>, start: nat)
    returns (j: nat)
    requires |orig| == a.Length && begin + |Stuffed(e, minNumBytes)| <= a.Length && start == begin + |e|
    requires a[..] == Splice(orig, begin, e)
    modifies a
    ensures j == begin + |Stuffed(e, minNumBytes)| && a[..] == Splice(orig, begin, Stuffed(e, minNumBytes))
  {
    hide Splice;
    j := start;
    ghost var n: nat := 0;
    assert e + StuffingWords(0) == e;
    while j < begin + minNumBytes
      invariant j == start + 3 * n && n <= StuffingCount(|e|, minNumBytes)
      invariant a[..] == Splice(orig, begin, e + StuffingWords(n))
      decreases begin + minNumBytes - j
    {
      RewriteWord(orig, begin, e + StuffingWords(n));
      assert e + StuffingWords(n) + [0, 0, 3] == e + StuffingWords(n + 1);
      a[j] := 0;
      a[j + 1] := 0;
      a[j + 2] := 3;
      j := j + 3;
      n := n + 1;
    }
  }

  /** RBSPtoEBSP. */
  method RbspToEbsp(a: array<byte>, begin: nat, end: nat, minNumBytes: int) returns (j: nat)
    requires begin <= end <= a.Length && end <= PAYLOAD_BUFFER
    requires begin + |Stuffed(Escape(a[begin..end]), minNumBytes)| <= a.Length
    modifies a
    ensures var out := Stuffed(Escape(old(a[begin..end])), minNumBytes);
            j == begin + |out| && a[..] == Splice(old(a[..]), begin, out)
  {
    hide EscapeFrom, Splice;
    ghost var orig := a[..];
    var payload := new byte[PAYLOAD_BUFFER](_ => 0);
    for i := begin to end
      invariant a[..] == orig && payload[begin..i] == orig[begin..i]
    {
      payload[i] := a[i];
      assert payload[i] == orig[i];
    }
    var copy := payload[begin..end];
    assert copy == old(a[begin..end]);
    j := EscapeLoop(a, begin, copy);
    j := StuffLoop(a, begin, minNumBytes, orig, Escape(copy), j);
  }

  lemma Regroup(out: seq<byte>, stop: bool, x: byte, rest: seq<byte>)
    ensures out + ((if stop then [3] else []) + ([x] + rest))
            == (out + (if stop then [3] else []) + [x]) + rest
  {
  }

  lemma NothingToEscape(count: nat)
    ensures EscapeFrom([], count) == []
  {
  }

  lemma RewriteWord(orig: seq<byte>, begin: nat, out: seq<byte>)
    requires begin + |out| + 3 <= |orig|
    ensures var j := begin + |out|;
            Splice(orig, begin, out)[j := 0][j + 1 := 0][j + 2 := 3] == Splice(orig, begin, out + [0, 0, 3])
  {
  }
}
