/** The rewriting of an H.264 header, an SPS unit and a PPS unit, in libvpmulti_codec.c. */
module HeaderRewrite {
  import opened CArithmetic
  import opened Bits
  import opened Syntax
  import opened SequenceParameterSet
  import opened PictureParameterSet
  import opened BitStreams
  import opened ParameterSets
  import opened Rbsp
  import opened SpsEdit
  import E = Emulation

  /** H264_HEADER_LEN: the start code 00 00 00 01 and the first byte of the unit. */
  const NAL_HEADER := 5

  const SPS_TYPE: byte := 7
  const PPS_TYPE: byte := 8

  // ---------- writing a payload over a buffer ----------

  function Least(m: int, n: int): int {
    if m < n then m else n
  }

  /** A cursor's part of a buffer after es and the trailing bits were written
      from its start; what does not fit is dropped. */
  lemma PrintedBytes(s: seq<byte>, origin: seq<bool>, es: seq<Element>)
    requires |origin| == 8 * |s| && BitsOf(s) == Overwrite(origin, 0, EncodeAll(RbspElements(es)))
    ensures var k := Least(|s|, |Payload(es)|); s[..k] == Payload(es)[..k]
  {
    hide EncodeAll, RbspElements;
    RbspLength(es);
    var w, p := EncodeAll(RbspElements(es)), Payload(es);
    BitsOfPack(w);
    assert BitsOf(p) == w;
    var k := Least(|s|, |p|);
    PrefixBits(s, k);
    PrefixBits(p, k);
    assert BitsOf(s[..k]) == BitsOf(p[..k]);
    BitsDetermineBytes(s[..k], p[..k]);
  }

  lemma PrefixBits(s: seq<byte>, k: nat)
    requires k <= |s|
    ensures BitsOf(s[..k]) == BitsOf(s)[..8 * k]
  {
    BitsOfAppend(s[..k], s[k..]);
    assert s == s[..k] + s[k..];
  }

  /** The memset of the old payload. */
  method Clear(a: array<byte>, from: nat, to: nat)
    requires from <= to <= a.Length
    modifies a
    ensures a[..from] == old(a[..from]) && a[to..] == old(a[to..]) && (forall i :: from <= i < to ==> a[i] == 0)
  {
    for i := from to to
      invariant a[..from] == old(a[..from]) && a[to..] == old(a[to..]) && (forall k :: from <= k < i ==> a[k] == 0)
    {
      a[i] := 0;
    }
  }

  /** Nothing of a outside from..to has changed. */
  twostate predicate Outside(a: array<byte>, from: nat, to: nat)
    reads a
  {
    from <= to <= a.Length && a[..from] == old(a[..from]) && a[to..] == old(a[to..])
  }

  /** The part of a from from..to starts with p, as far as p fits. */
  ghost predicate Printed(a: array<byte>, from: nat, to: nat, p: seq<byte>)
    requires from <= to <= a.Length
    reads a
  {
    a[from..to][..Least(to - from, |p|)] == p[..Least(to - from, |p|)]
  }

  lemma LogOfRun(pos: nat, es: seq<Element>)
    requires pos == |EncodeAll(es)|
    ensures es + TrailingBits(pos) == RbspElements(es)
    ensures AfterTrailing(pos) == 8 * |Payload(es)|
  {
    hide EncodeAll;
  }

  /** The trailing bits behind a run of elements that began at the start. */
  method Finish(b: BitStream, ghost es: seq<Element>) returns (n: nat)
    requires b.Logged() && b.base == 0 && b.log == es && |b.origin| == 8 * (b.end - b.start)
    modifies b, b.buf
    ensures n == |Payload(es)| && Outside(b.buf, b.start, b.end) && Printed(b.buf, b.start, b.end, Payload(es))
  {
    hide BitsOf, Overwrite, EncodeAll, Payload, RbspElements, TrailingBits, AfterTrailing;
    LogOfRun(b.Pos(), es);
    WriteTrailingBits(b);
    n := b.p - b.start;
    PrintedBytes(b.buf[b.start..b.end], b.origin, es);
  }

  /** Writes a sequence parameter set over a buffer and gives its length. */
  method PrintSps(a: array<byte>, from: nat, to: nat, s: Sps) returns (n: nat)
    requires from <= to <= a.Length && WellFormed(s)
    modifies a
    ensures n == |Payload(SpsElements(s))| && Outside(a, from, to) && Printed(a, from, to, Payload(SpsElements(s)))
  {
    hide BitsOf, Overwrite, EncodeAll, SpsElements, Payload, WellFormed, Printed;
    Clear(a, from, to);
    var b := new BitStream(a, from, to - from);
    WriteSps(b, s);
    assert b.log == [] + SpsElements(s);
    n := Finish(b, SpsElements(s));
  }

  method PrintPps(a: array<byte>, from: nat, to: nat, s: Pps) returns (n: nat)
    requires from <= to <= a.Length && |s.extension.lists| == 8
    modifies a
    ensures n == |Payload(PpsElements(s))| && Outside(a, from, to) && Printed(a, from, to, Payload(PpsElements(s)))
  {
    hide BitsOf, Overwrite, EncodeAll, PpsElements, Payload, Printed;
    Clear(a, from, to);
    var b := new BitStream(a, from, to - from);
    WritePps(b, s);
    assert b.log == [] + PpsElements(s);
    n := Finish(b, PpsElements(s));
  }

  // ---------- the two units ----------

  /** The record of an escaped payload, as the rewriter reads it. */
  function ReadPayload(y: seq<byte>, beyond: byte): (s: Sps)
    ensures WellFormed(s)
  {
    hide E.UnescapeFrom, BitsOf, ParseSps;
    ParseSps(BitsOf(E.Unescape(y, beyond)), 0).0
  }

  /** The new payload of the sequence parameter set, before it is escaped. */
  function NewRbsp(h: Params, y: seq<byte>, beyond: byte): seq<byte> {
    EditKeepsWellFormed(h, ReadPayload(y, beyond));
    Payload(SpsElements(Edit(h, ReadPayload(y, beyond))))
  }

  function RewrittenSps(h: Params, y: seq<byte>, beyond: byte): seq<byte> {
    if NeedsEdit(h) then E.Escape(NewRbsp(h, y, beyond)) else y
  }

  /** The new payload fits NAL_Payload_buffer, and escaped it fits n bytes. */
  predicate SpsFits(h: Params, y: seq<byte>, beyond: byte, n: nat) {
    NeedsEdit(h) ==>
      && NAL_HEADER + |NewRbsp(h, y, beyond)| <= E.PAYLOAD_BUFFER
      && NAL_HEADER + |E.Escape(NewRbsp(h, y, beyond))| <= n
  }

  /** The picture parameter set is read and written back without a look at
      its escape bytes. */
  function RewrittenPps(x: seq<byte>): seq<byte> {
    Payload(PpsElements(ParsePps(BitsOf(x), 0).0))
  }

  lemma NoStuffing(e: seq<byte>)
    ensures E.Stuffed(e, 0) == e
  {
    assert e + [] == e;
  }

  /** read_seq_parameter_set_rbsp and the trailing bits behind it. */
  method ParseSpsPart(a: array<byte>, from: nat, to: nat) returns (s: Sps)
    requires from <= to <= a.Length
    ensures s == ParseSps(BitsOf(a[from..to]), 0).0
  {
    hide BitsOf, Overwrite, EncodeAll, ParseSps;
    var b := new BitStream(a, from, to - from);
    s := ReadSps(b);
    ReadTrailingBits(b);
  }

  method ParsePpsPart(a: array<byte>, from: nat, to: nat) returns (s: Pps)
    requires from <= to <= a.Length
    ensures s == ParsePps(BitsOf(a[from..to]), 0).0
  {
    hide BitsOf, Overwrite, EncodeAll, ParsePps;
    var b := new BitStream(a, from, to - from);
    s := ReadPps(b);
    ReadTrailingBits(b);
  }

  lemma PrintedFits(t: seq<byte>, from: nat, to: nat, p: seq<byte>)
    requires from <= to <= |t| && |p| <= to - from
    requires t[from..to][..Least(to - from, |p|)] == p[..Least(to - from, |p|)]
    ensures t[from..from + |p|] == p
  {
    assert t[from..from + |p|] == t[from..to][..|p|];
    assert p[..|p|] == p;
  }

  /** Prints a parameter set over the payload of a unit, and escapes it. */
  method PrintEscaped(nalu: array<byte>, sps: Sps) returns (newSize: nat)
    requires NAL_HEADER <= nalu.Length && WellFormed(sps)
    requires NAL_HEADER + |Payload(SpsElements(sps))| <= E.PAYLOAD_BUFFER
    requires NAL_HEADER + |E.Escape(Payload(SpsElements(sps)))| <= nalu.Length
    modifies nalu
    ensures var out := E.Escape(Payload(SpsElements(sps)));
            newSize == NAL_HEADER + |out| <= nalu.Length && nalu[..newSize] == old(nalu[..NAL_HEADER]) + out
  {
    hide BitsOf, E.EscapeFrom, SpsElements, Payload, WellFormed, Splice, E.Stuffed;
    ghost var p := Payload(SpsElements(sps));
    E.EscapeGrowth(p);
    var n := PrintSps(nalu, NAL_HEADER, nalu.Length, sps);
    PrintedFits(nalu[..], NAL_HEADER, nalu.Length, p);
    assert nalu[NAL_HEADER..NAL_HEADER + n] == p;
    NoStuffing(E.Escape(p));
    ghost var before := nalu[..];
    newSize := E.RbspToEbsp(nalu, NAL_HEADER, NAL_HEADER + n, 0);
    SpliceParts(before, NAL_HEADER, E.Escape(p));
    assert nalu[..][..newSize] == nalu[..newSize];
  }

  /** Unescapes and reads the payload of a unit. */
  method ReadUnescaped(nalu: array<byte>, size: nat) returns (sps: Sps)
    requires NAL_HEADER <= size < nalu.Length
    modifies nalu
    ensures sps == ReadPayload(old(nalu[NAL_HEADER..size]), old(nalu[size])) && WellFormed(sps)
    ensures nalu[..NAL_HEADER] == old(nalu[..NAL_HEADER])
  {
    hide BitsOf, E.UnescapeFrom, ParseSps, Splice;
    ghost var orig, u := nalu[..], E.Unescape(nalu[NAL_HEADER..size], nalu[size]);
    var end := E.EbspToRbsp(nalu, NAL_HEADER, size);
    SpliceParts(orig, NAL_HEADER, u);
    assert nalu[..][NAL_HEADER..end] == nalu[NAL_HEADER..end] && nalu[..][..NAL_HEADER] == nalu[..NAL_HEADER];
    sps := ParseSpsPart(nalu, NAL_HEADER, end);
  }

  /** vl_multi_encoder_adjust_h264_sps. */
  method AdjustSps(h: Params, nalu: array<byte>, size: nat) returns (newSize: nat)
    requires NAL_HEADER <= size < nalu.Length
    requires SpsFits(h, nalu[NAL_HEADER..size], nalu[size], nalu.Length)
    modifies nalu
    ensures var out := RewrittenSps(h, old(nalu[NAL_HEADER..size]), old(nalu[size]));
            newSize == NAL_HEADER + |out| <= nalu.Length && nalu[..newSize] == old(nalu[..NAL_HEADER]) + out
  {
    hide E.EscapeFrom, Edit, SpsElements, Payload, WellFormed, ReadPayload;
    ghost var head, y := nalu[..NAL_HEADER], nalu[NAL_HEADER..size];
    if !h.vui.present && !(h.idrPeriod != 1 && (h.preset == NoPreset || h.preset == Ip || h.preset == Svc5)) {
      assert nalu[..size] == head + y;
      return size;
    }
    var sps := ReadUnescaped(nalu, size);
    EditKeepsWellFormed(h, sps);
    sps := EditSps(h, sps);
    newSize := PrintEscaped(nalu, sps);
  }

  /** The unit is left alone unless a signal is given or the stream is one that
      never reorders: an IDR period other than 1 with one of three presets. */
  lemma RewrittenIfAsked(h: Params, y: seq<byte>, beyond: byte)
    ensures RewrittenSps(h, y, beyond)
            == if h.vui.present || (h.idrPeriod != 1 && (h.preset == NoPreset || h.preset == Ip || h.preset == Svc5))
               then E.Escape(NewRbsp(h, y, beyond)) else y
  {
    hide E.EscapeFrom, NewRbsp;
  }

  /** vl_multi_encoder_adjust_h264_pps. */
  method AdjustPps(nalu: array<byte>, size: nat) returns (newSize: nat)
    requires NAL_HEADER <= size <= nalu.Length
    modifies nalu
    ensures var out := RewrittenPps(old(nalu[NAL_HEADER..size]));
            newSize == NAL_HEADER + |out| && Printed(nalu, NAL_HEADER, size, out)
    ensures Outside(nalu, NAL_HEADER, size)
  {
    hide BitsOf, ParsePps, PpsElements, Payload, Printed;
    var pps := ParsePpsPart(nalu, NAL_HEADER, size);
    var n := PrintPps(nalu, NAL_HEADER, size, pps);
    newSize := NAL_HEADER + n;
  }

  // ---------- splitting the header ----------

  predicate StartsNal(s: seq<byte>, i: nat, kind: byte)
    requires i + 4 < |s|
  {
    s[i] == 0 && s[i + 1] == 0 && s[i + 2] == 0 && s[i + 3] == 1 && s[i + 4] & 0x1F == kind
  }

  /** r is the first index of a unit of that type that the scan sees, -1 if there is none. */
  predicate Found(s: seq<byte>, kind: byte, r: int) {
    && (forall i: nat :: i < |s| - NAL_HEADER && (i < r || r < 0) ==> !StartsNal(s, i, kind))
    && (r == -1 || (0 <= r < |s| - NAL_HEADER && StartsNal(s, r, kind)))
  }

  /** The scan for a start code and a unit type. */
  method FindNal(a: array<byte>, len: nat, kind: byte) returns (r: int)
    requires len <= a.Length
    ensures Found(a[..len], kind, r)
  {
    r := -1;
    var i := 0;
    while i < len - NAL_HEADER && r < 0
      invariant r == -1 || (r == i && i < len - NAL_HEADER && StartsNal(a[..len], r, kind))
      invariant forall k: nat :: k < i && k < len - NAL_HEADER ==> !StartsNal(a[..len], k, kind)
      decreases len - i, if r < 0 then 1 else 0
    {
      if a[i] == 0 && a[i + 1] == 0 && a[i + 2] == 0 && a[i + 3] == 1 && a[i + 4] & 0x1F == kind {
        r := i;
      } else {
        i := i + 1;
      }
    }
  }

  /** The header s with new payloads for its SPS unit at index a and its PPS
      unit at index p. */
  function Joined(s: seq<byte>, a: nat, p: nat, sps: seq<byte>, pps: seq<byte>): seq<byte>
    requires a + NAL_HEADER <= p && p + NAL_HEADER <= |s|
  {
    s[..a + NAL_HEADER] + sps + (s[p..p + NAL_HEADER] + pps)
  }

  function RewrittenHeader(h: Params, s: seq<byte>, a: nat, p: nat): seq<byte>
    requires a + NAL_HEADER <= p && p + NAL_HEADER <= |s|
  {
    Joined(s, a, p, RewrittenSps(h, s[a + NAL_HEADER..p], 0), RewrittenPps(s[p + NAL_HEADER..]))
  }

  /** z is the new picture parameter set as far as the old one x has room for
      it; the bytes behind that were never written. */
  predicate FitsOver(x: seq<byte>, z: seq<byte>) {
    var out, k := RewrittenPps(x), Least(|x|, |z|);
    |z| == |out| && z[..k] == out[..k]
  }

  /** Whatever byte follows the SPS unit in its buffer, the new units have room:
      the SPS in NAL_Payload_buffer and in a buffer of the length of the header,
      the PPS in such a buffer, and both in the header's own buffer. */
  ghost predicate UnitsFit(h: Params, s: seq<byte>, a: nat, p: nat, capacity: nat)
    requires a + NAL_HEADER <= p && p + NAL_HEADER <= |s|
  {
    var y, n := s[a + NAL_HEADER..p], NAL_HEADER + |RewrittenPps(s[p + NAL_HEADER..])|;
    && n <= |s|
    && forall beyond: byte ::
         SpsFits(h, y, beyond, |s|) && a + NAL_HEADER + |RewrittenSps(h, y, beyond)| + n <= capacity
  }

  /** The header has the two units, and the rewritten ones have room. */
  ghost predicate HeaderFits(h: Params, s: seq<byte>, a: int, p: int, capacity: nat) {
    && Found(s, SPS_TYPE, a) && Found(s, PPS_TYPE, p) && 0 <= a < p
    && (a + NAL_HEADER <= p ==> UnitsFit(h, s, a, p, capacity))
  }

  /** Two start codes do not overlap. */
  lemma UnitsAreApart(s: seq<byte>, a: int, p: int)
    requires Found(s, SPS_TYPE, a) && Found(s, PPS_TYPE, p) && 0 <= a < p
    ensures a + NAL_HEADER <= p && p + NAL_HEADER <= |s|
  {
    assert StartsNal(s, a, SPS_TYPE) && StartsNal(s, p, PPS_TYPE);
  }

  lemma FoundOnce(s: seq<byte>, kind: byte, a: int, b: int)
    requires Found(s, kind, a) && Found(s, kind, b)
    ensures a == b
  {
    hide StartsNal;
  }

  lemma BeyondDoesNotMatter(h: Params, y: seq<byte>, beyond: byte, n: nat)
    requires !E.NeedsBeyond(y, 0)
    ensures SpsFits(h, y, beyond, n) == SpsFits(h, y, 0, n) && RewrittenSps(h, y, beyond) == RewrittenSps(h, y, 0)
  {
    hide ParseSps, E.EscapeFrom, Edit, SpsElements, Payload;
    E.BeyondUnused(y, 0, beyond, 0);
  }

  lemma PartsOfUnit(t: seq<byte>, s: seq<byte>, a: nat, n: nat)
    requires n <= |t| && a + n <= |s| && NAL_HEADER <= n && t[0..n] == s[a..a + n]
    ensures t[..NAL_HEADER] == s[a..a + NAL_HEADER] && t[NAL_HEADER..n] == s[a + NAL_HEADER..a + n]
  {
    assert t[0..n][..NAL_HEADER] == t[..NAL_HEADER] && t[0..n][NAL_HEADER..] == t[NAL_HEADER..n];
  }

  /** A copy of the unit at from..to of the header s, in a buffer of its own. */
  method TakeUnit(header: array<byte>, from: nat, to: nat, ghost s: seq<byte>, size: nat) returns (unit: array<byte>)
    requires from + NAL_HEADER <= to <= |s| <= header.Length && s == header[..|s|] && to - from <= size
    ensures fresh(unit) && unit.Length == size
    ensures unit[..NAL_HEADER] == s[from..from + NAL_HEADER] && unit[NAL_HEADER..to - from] == s[from + NAL_HEADER..to]
  {
    unit := new byte[size];
    ghost var blank := unit[..];
    CopyBytes(unit, 0, header, from, to - from);
    SpliceParts(blank, 0, header[from..to]);
    assert header[from..to] == s[from..to];
    PartsOfUnit(unit[..], s, from, to - from);
    assert unit[..][..NAL_HEADER] == unit[..NAL_HEADER] && unit[..][NAL_HEADER..to - from] == unit[NAL_HEADER..to - from];
  }

  /** The rewriting of the picture parameter set unit; z is what is copied of it. */
  method AdjustPpsUnit(nalu: array<byte>, size: nat) returns (newSize: nat, ghost z: seq<byte>)
    requires NAL_HEADER <= size <= nalu.Length
    requires NAL_HEADER + |RewrittenPps(nalu[NAL_HEADER..size])| <= nalu.Length
    modifies nalu
    ensures FitsOver(old(nalu[NAL_HEADER..size]), z)
    ensures newSize == NAL_HEADER + |z| <= nalu.Length && nalu[..newSize] == old(nalu[..NAL_HEADER]) + z
  {
    hide RewrittenPps;
    ghost var k := Least(size - NAL_HEADER, |RewrittenPps(nalu[NAL_HEADER..size])|);
    newSize := AdjustPps(nalu, size);
    z := nalu[NAL_HEADER..newSize];
    assert z[..k] == nalu[NAL_HEADER..size][..k];
    assert nalu[..newSize] == nalu[..NAL_HEADER] + nalu[NAL_HEADER..newSize];
  }

  /** Writes the two new units over the header from index a on. */
  method JoinUnits(header: array<byte>, a: nat, len: nat, sps: array<byte>, spsSize: nat, pps: array<byte>, ppsSize: nat)
    requires header != sps && header != pps && a <= len <= header.Length && a + spsSize + ppsSize <= header.Length
    requires spsSize <= sps.Length && ppsSize <= pps.Length
    modifies header
    ensures header[..a + spsSize + ppsSize] == old(header[..a]) + sps[..spsSize] + pps[..ppsSize]
  {
    Clear(header, a, len);
    SpliceParts(header[..], a, sps[0..spsSize]);
    CopyBytes(header, a, sps, 0, spsSize);
    assert header[..][..a + spsSize] == old(header[..a]) + sps[..spsSize];
    SpliceParts(header[..], a + spsSize, pps[0..ppsSize]);
    CopyBytes(header, a + spsSize, pps, 0, ppsSize);
    assert header[..][..a + spsSize + ppsSize] == header[..a + spsSize + ppsSize];
  }

  lemma JoinedParts(s: seq<byte>, a: nat, p: nat, sps: seq<byte>, pps: seq<byte>)
    requires a + NAL_HEADER <= p && p + NAL_HEADER <= |s|
    ensures Joined(s, a, p, sps, pps) == s[..a] + (s[a..a + NAL_HEADER] + sps) + (s[p..p + NAL_HEADER] + pps)
  {
    assert s[..a + NAL_HEADER] == s[..a] + s[a..a + NAL_HEADER];
  }

  /** vl_multi_encoder_adjust_h264_header, behind the scans. */
  method RewriteUnits(h: Params, header: array<byte>, a: nat, p: nat, dataLength: nat, ghost s: seq<byte>)
    returns (newLength: nat, ghost beyond: byte, ghost pps: seq<byte>)
    requires a + NAL_HEADER <= p && p + NAL_HEADER <= |s| == dataLength <= header.Length && s == header[..dataLength]
    requires UnitsFit(h, s, a, p, header.Length)
    modifies header
    ensures FitsOver(s[p + NAL_HEADER..], pps)
    ensures var out := Joined(s, a, p, RewrittenSps(h, s[a + NAL_HEADER..p], beyond), pps);
            newLength == |out| <= header.Length && header[..newLength] == out
  {
    hide RewrittenSps, RewrittenPps, Joined, SpsFits;
    var spsNalu := TakeUnit(header, a, p, s, dataLength);
    var ppsNalu := TakeUnit(header, p, dataLength, s, dataLength);
    var spsSize, ppsSize := p - a, dataLength - p;
    beyond := spsNalu[spsSize];
    assert s[p + NAL_HEADER..dataLength] == s[p + NAL_HEADER..];
    assert SpsFits(h, s[a + NAL_HEADER..p], beyond, |s|);
    var newSps := AdjustSps(h, spsNalu, spsSize);
    var newPps;
    newPps, pps := AdjustPpsUnit(ppsNalu, ppsSize);
    JoinedParts(s, a, p, RewrittenSps(h, s[a + NAL_HEADER..p], beyond), pps);
    assert header[..a] == s[..a];
    JoinUnits(header, a, dataLength, spsNalu, newSps, ppsNalu, newPps);
    newLength := a + newSps + newPps;
  }

  /** vl_multi_encoder_adjust_h264_header. The byte behind the SPS unit and the
      bytes behind what fits of the PPS are whatever malloc left there. */
  method AdjustHeader(h: Params, header: array<byte>, dataLength: nat, ghost a: int, ghost p: int)
    returns (newLength: nat, ghost beyond: byte, ghost pps: seq<byte>)
    requires dataLength <= header.Length && HeaderFits(h, header[..dataLength], a, p, header.Length)
    modifies header
    ensures var s := old(header[..dataLength]);
            && a + NAL_HEADER <= p && p + NAL_HEADER <= dataLength && FitsOver(s[p + NAL_HEADER..], pps)
            && var out := Joined(s, a, p, RewrittenSps(h, s[a + NAL_HEADER..p], beyond), pps);
               newLength == |out| <= header.Length && header[..newLength] == out
  {
    hide Joined, UnitsFit, StartsNal, RewrittenSps, FitsOver;
    ghost var s := header[..dataLength];
    var spsStart := FindNal(header, dataLength, SPS_TYPE);
    var ppsStart := FindNal(header, dataLength, PPS_TYPE);
    FoundOnce(s, SPS_TYPE, a, spsStart);
    FoundOnce(s, PPS_TYPE, p, ppsStart);
    UnitsAreApart(s, a, p);
    newLength, beyond, pps := RewriteUnits(h, header, spsStart, ppsStart, dataLength, s);
  }

  /** If the SPS payload does not end inside an escape sequence and the new PPS
      is not longer than the old one, the result is determined. */
  lemma JoinedIsRewritten(h: Params, s: seq<byte>, a: nat, p: nat, beyond: byte, pps: seq<byte>)
    requires a + NAL_HEADER <= p && p + NAL_HEADER <= |s| && FitsOver(s[p + NAL_HEADER..], pps)
    requires !E.NeedsBeyond(s[a + NAL_HEADER..p], 0)
    requires |RewrittenPps(s[p + NAL_HEADER..])| <= |s| - p - NAL_HEADER
    ensures Joined(s, a, p, RewrittenSps(h, s[a + NAL_HEADER..p], beyond), pps) == RewrittenHeader(h, s, a, p)
  {
    hide RewrittenSps, RewrittenPps, RewrittenHeader, Joined, FitsOver, E.NeedsBeyond, SpsFits;
    BeyondDoesNotMatter(h, s[a + NAL_HEADER..p], beyond, 0);
    FitsWhole(s[p + NAL_HEADER..], pps);
    HeaderIsJoined(h, s, a, p);
  }

  lemma FitsWhole(x: seq<byte>, z: seq<byte>)
    requires FitsOver(x, z) && |RewrittenPps(x)| <= |x|
    ensures z == RewrittenPps(x)
  {
    hide RewrittenPps;
    assert z[..|z|] == z && RewrittenPps(x)[..|z|] == RewrittenPps(x);
  }

  lemma HeaderIsJoined(h: Params, s: seq<byte>, a: nat, p: nat)
    requires a + NAL_HEADER <= p && p + NAL_HEADER <= |s|
    ensures RewrittenHeader(h, s, a, p)
            == Joined(s, a, p, RewrittenSps(h, s[a + NAL_HEADER..p], 0), RewrittenPps(s[p + NAL_HEADER..]))
  {
    hide RewrittenSps, RewrittenPps, Joined;
  }
}
