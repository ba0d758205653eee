/**
  The handle of libvpmulti_codec.c: its circular history of frame sizes with a
  running sum, the skip decision made from it, and the deferral of key frames
  to the group boundaries of the SVC presets.
 */
module MultiEncoders {
  import opened CArithmetic
  import opened SpsEdit

  /** MAX_FRAME_HIST and MAX_FRAME_WINDOW. */
  const MAX_HIST := 128
  const MAX_WINDOW := 120

  // ---------- the window of frame sizes ----------

  function Sum(s: seq<nat>): nat {
    if s == [] then 0 else s[0] + Sum(s[1..])
  }

  lemma {:induction false} SumAppend(s: seq<nat>, t: seq<nat>)
    ensures Sum(s + t) == Sum(s) + Sum(t)
  {
    if s == [] {
      assert s + t == t;
    } else {
      assert (s + t)[1..] == s[1..] + t;
      SumAppend(s[1..], t);
    }
  }

  /** The last w of s, or all of them. */
  function Last(s: seq<nat>, w: nat): seq<nat> {
    if |s| <= w then s else s[|s| - w..]
  }

  datatype Window = Window(sizes: seq<nat>, total: int)

  /** The loop of strict_rc_check: sizes beyond the window w leave the sum and
      then the history, until the sum is used up. */
  function Drain(sizes: seq<nat>, total: int, w: nat): Window {
    if |sizes| <= w then Window(sizes, total)
    else
      var left := total - sizes[0];
      if left <= 0 then Window(sizes, left) else Drain(sizes[1..], left, w)
  }

  /** Draining leaves at most w sizes exactly when there were no more, or the
      last w have a positive sum; it then leaves the last w and their sum. If
      not, the running sum is wrong from then on, but for a zero at the front. */
  lemma {:induction false} DrainExactly(sizes: seq<nat>, w: nat)
    ensures var d := Drain(sizes, Sum(sizes), w);
            && (|d.sizes| <= w <==> |sizes| <= w || Sum(Last(sizes, w)) > 0)
            && (|sizes| <= w || Sum(Last(sizes, w)) > 0 ==> d == Window(Last(sizes, w), Sum(Last(sizes, w))))
            && (|d.sizes| > w ==> (d.total == Sum(d.sizes) <==> d.sizes[0] == 0))
    decreases |sizes|
  {
    if |sizes| > w {
      var rest := sizes[1..];
      SumOfLast(sizes, w);
      hide Last, Sum;
      if Sum(rest) > 0 {
        DrainExactly(rest, w);
      }
    }
  }

  lemma SumOfLast(sizes: seq<nat>, w: nat)
    requires |sizes| > w
    ensures var rest := sizes[1..];
            && Last(rest, w) == Last(sizes, w) && Sum(sizes) == sizes[0] + Sum(rest)
            && Sum(Last(rest, w)) <= Sum(rest) && (|rest| <= w ==> Last(rest, w) == rest)
  {
    var rest := sizes[1..];
    SumAppend(rest[..|rest| - w], Last(rest, w));
    assert rest == rest[..|rest| - w] + Last(rest, w);
  }

  // ---------- the state of the handle ----------

  datatype State = State(
    preset: GopPreset,
    frameRate: nat,
    changesEnabled: bool,
    headerReceived: bool,
    numInput: int,
    keyRequested: bool,
    skipRequested: bool,
    sizes: seq<nat>,
    total: int,
    win: nat,
    thresh: int,
    bitrate: nat)

  /** The comparison of strict_rc_check, in uint32_t arithmetic and then as ints. */
  predicate OverTarget(total: int, win: nat, frameRate: nat, bitrate: nat, thresh: int)
    requires win > 0
  {
    Int32(Word(Uint32(total * 8 * frameRate), win)) > Int32(Word(Uint32(bitrate * thresh), 100))
  }

  function Word(v: nat, d: nat): (q: nat)
    requires v < TWO_32 && d > 0
    ensures q < TWO_32
  {
    v / d
  }

  /** The rule in plain numbers: the bits a second of the window, as a 32-bit
      word, against the target, as a 32-bit word. A rate of 2^31 or more is
      negative as an int and never above. */
  predicate RateAbove(total: int, win: nat, frameRate: nat, bitrate: nat, thresh: int)
    requires win > 0
  {
    (bitrate * thresh) % 0x1_0000_0000 / 100 < (total * 8 * frameRate) % 0x1_0000_0000 / win < 0x8000_0000
  }

  lemma WordIsRemainder(v: int)
    ensures Uint32(v) == v % 0x1_0000_0000
  {
    if 0 <= v < TWO_32 {
      DivisionIsUnique(v, TWO_32, 0, v);
    }
  }

  lemma QuotientIsWord(v: nat, d: nat)
    requires v < TWO_32 && d > 0
    ensures Word(v, d) == v / d <= v
  {
    QuotientIsSmall(v, d);
  }

  /** The comparison of strict_rc_check decides by that rule, for all numbers. */
  lemma OverTargetExactly(total: int, win: nat, frameRate: nat, bitrate: nat, thresh: int)
    requires win > 0
    ensures OverTarget(total, win, frameRate, bitrate, thresh) <==> RateAbove(total, win, frameRate, bitrate, thresh)
  {
    hide Uint32, Word;
    var x, y := total * 8 * frameRate, bitrate * thresh;
    WordIsRemainder(x);
    WordIsRemainder(y);
    var a, b := Uint32(x), Uint32(y);
    QuotientIsWord(a, win);
    QuotientIsWord(b, 100);
    assert b / 100 < TWO_31;
  }

  /** The rule by quotient and remainder: q bits a second over the window and a
      target of t, without overflow. */
  lemma OverTargetByQuotients(total: int, win: nat, frameRate: nat, bitrate: nat, thresh: int, q: nat, t: nat)
    requires win > 0
    requires 0 <= total * 8 * frameRate < TWO_31 && 0 <= bitrate * thresh < TWO_31
    requires q * win <= total * 8 * frameRate < q * win + win
    requires t * 100 <= bitrate * thresh < t * 100 + 100
    ensures OverTarget(total, win, frameRate, bitrate, thresh) <==> q > t
  {
    var x, y := total * 8 * frameRate, bitrate * thresh;
    OverTargetExactly(total, win, frameRate, bitrate, thresh);
    DivisionIsUnique(x, TWO_32, 0, x);
    DivisionIsUnique(y, TWO_32, 0, y);
    DivisionIsUnique(x, win, q, x - q * win);
    DivisionIsUnique(y, 100, t, y - t * 100);
    QuotientIsSmall(x, win);
  }

  lemma QuotientIsSmall(v: nat, d: nat)
    requires d > 0
    ensures v / d <= v
  {
    if v / d > v {
      assert v == d * (v / d) + v % d;
      Multiples(v / d, d);
      MoreThan(v / d, d, v);
    }
  }

  lemma MoreThan(q: nat, d: nat, v: nat)
    requires q > v && d > 0
    ensures d * q > v
  {
  }

  function Reset(s: State): State {
    s.(sizes := [], total := 0)
  }

  function Check(s: State): State
    requires s.win > 0
  {
    var d := Drain(s.sizes, s.total, s.win);
    s.(sizes := d.sizes, total := d.total,
       skipRequested := s.skipRequested
         || (|d.sizes| == s.win && OverTarget(d.total, s.win, s.frameRate, s.bitrate, s.thresh)))
  }

  /** strict_rc_filled: in one slot of 128 the history would look empty when it
      is full, and that is what a 128th size makes of it. */
  function Filled(s: State, size: nat): State {
    s.(sizes := if |s.sizes| < MAX_HIST - 1 then s.sizes + [size] else [], total := s.total + size)
  }

  function Clamp(w: int): (r: nat)
    ensures r <= MAX_WINDOW
  {
    if w > MAX_WINDOW then MAX_WINDOW else if w < 0 then 0 else w
  }

  function ChangedWindow(s: State, w: int, thresh: int): State {
    var t := s.(win := Clamp(w), thresh := thresh);
    if Clamp(w) == 0 then Reset(t) else t
  }

  function ChangedRate(s: State, accepted: bool, bitrate: int): State {
    if s.changesEnabled && accepted then Reset(s).(bitrate := Uint32(bitrate)) else s
  }

  /** The group size of a preset: key frames may only start a group. */
  function Group(p: GopPreset): (g: nat)
    ensures 1 <= g <= 5
  {
    match p
    case Svc1 => 2
    case Svc2 => 3
    case Svc3 => 4
    case Svc4 => 5
    case Svc5 => 4
    case _ => 1
  }

  /** What AML_MultiEncNAL gives; Skipped stands for all states that are
      neither errors nor the ones that have a length. */
  datatype Nal = Ready(size: nat) | Success(size: nat) | Skipped | TimedOut | Refused

  /** One call of vl_multi_encoder_encode: is a key frame asked for, and what
      do the stride check, the hardware and the buffer checks answer? */
  datatype Frame = Frame(wantsKey: bool, strideOk: bool, headerOk: bool, bufferOk: bool, inputOk: bool, nal: Nal)

  datatype Submission = NotSubmitted | Submitted(index: int, forceIdr: bool, forceSkip: bool)

  function LengthOf(n: Nal): nat {
    match n
    case Ready(size) => size
    case Success(size) => size
    case _ => 0
  }

  predicate Enters(s: State, f: Frame) {
    f.strideOk && (s.headerReceived || f.headerOk)
  }

  /** The call up to the check of the history. */
  function Entered(s: State, f: Frame): State {
    s.(headerReceived := true, numInput := if s.headerReceived then s.numInput else 0,
       keyRequested := s.keyRequested || f.wantsKey)
  }

  function Checked(s: State): State {
    if s.win > 0 then Check(s) else s
  }

  predicate ForcesKey(s: State) {
    s.keyRequested && s.numInput % Group(s.preset) == 0
  }

  function Sent(s: State): State {
    s.(keyRequested := s.keyRequested && !ForcesKey(s), skipRequested := false, numInput := s.numInput + 1)
  }

  function Returned(s: State, n: Nal): State {
    if n.Refused? then s
    else
      var t := s.(keyRequested := s.keyRequested || n.TimedOut?);
      if s.win > 0 then Filled(t, LengthOf(n)) else t
  }

  /** vl_multi_encoder_encode: the new state, and what was handed to the hardware. */
  function Encoded(s: State, f: Frame): (State, Submission) {
    if !Enters(s, f) then (s, NotSubmitted)
    else
      var t := Checked(Entered(s, f));
      if !f.bufferOk then (t, NotSubmitted)
      else
        (if f.inputOk then Returned(Sent(t), f.nal) else Sent(t),
         Submitted(t.numInput, ForcesKey(t), t.skipRequested))
  }

  // ---------- the handle ----------

  /** The slots from outIdx up to inIdx, around the end of the array. */
  function Slots(hist: seq<nat>, outIdx: nat, inIdx: nat): seq<nat>
    requires inIdx < |hist| && outIdx < |hist|
  {
    if outIdx <= inIdx then hist[outIdx..inIdx] else hist[outIdx..] + hist[..inIdx]
  }

  lemma SlotsDropFirst(hist: seq<nat>, outIdx: nat, inIdx: nat)
    requires inIdx < |hist| && outIdx < |hist| && inIdx != outIdx
    ensures var next := if outIdx + 1 >= |hist| then 0 else outIdx + 1;
            var s := Slots(hist, outIdx, inIdx);
            s != [] && s[0] == hist[outIdx] && s[1..] == Slots(hist, next, inIdx)
  {
  }

  lemma SlotsAppend(hist: seq<nat>, outIdx: nat, inIdx: nat, size: nat)
    requires inIdx < |hist| && outIdx < |hist|
    ensures var next := if inIdx + 1 >= |hist| then 0 else inIdx + 1;
            var s := Slots(hist, outIdx, inIdx);
            Slots(hist[inIdx := size], outIdx, next) == if |s| < |hist| - 1 then s + [size] else []
  {
  }

  lemma SlotsLength(hist: seq<nat>, outIdx: nat, inIdx: nat)
    requires inIdx < |hist| && outIdx < |hist|
    ensures var d := inIdx - outIdx; |Slots(hist, outIdx, inIdx)| == if d < 0 then d + |hist| else d
  {
  }

  class MultiEncoder {
    const preset: GopPreset
    const frameRate: nat
    const changesEnabled: bool
    const hist: array<nat>
    var inIdx: int
    var outIdx: int
    var total: int
    var win: int
    var thresh: int
    var bitrate: nat
    var headerReceived: bool
    var numInput: int
    var keyRequested: bool
    var skipRequested: bool

    ghost predicate Valid()
      reads this
    {
      hist.Length == MAX_HIST && 0 <= inIdx < MAX_HIST && 0 <= outIdx < MAX_HIST && 0 <= win <= MAX_WINDOW
    }

    ghost function Sizes(): seq<nat>
      reads this, hist
      requires Valid()
    {
      Slots(hist[..], outIdx, inIdx)
    }

    ghost function Abs(): State
      reads this, hist
      requires Valid()
    {
      State(preset, frameRate, changesEnabled, headerReceived, numInput, keyRequested, skipRequested,
            Sizes(), total, win, thresh, bitrate)
    }

    /** vl_multi_encoder_init, for a window that is not negative. */
    constructor (preset: GopPreset, frameRate: nat, changesEnabled: bool, window: nat, thresh: int, bitrate: int)
      ensures Valid() && fresh(hist)
      ensures Abs() == State(preset, frameRate, changesEnabled, false, -1, false, false, [], 0,
                             Clamp(window), thresh, Uint32(bitrate))
    {
      this.preset, this.frameRate, this.changesEnabled := preset, frameRate, changesEnabled;
      hist := new nat[MAX_HIST](_ => 0);
      inIdx, outIdx, total := 0, 0, 0;
      win := if window > MAX_WINDOW then MAX_WINDOW else window;
      this.thresh, this.bitrate := thresh, Uint32(bitrate);
      headerReceived, numInput, keyRequested, skipRequested := false, -1, false, false;
    }

    /** hist_reset. */
    method HistReset()
      requires Valid()
      modifies this
      ensures Valid() && Abs() == Reset(old(Abs()))
    {
      inIdx, outIdx, total := 0, 0, 0;
    }

    /** The loop of strict_rc_check. */
    method MoveOut() returns (fullness: int)
      requires Valid()
      modifies `outIdx, `total
      ensures Valid() && fullness == |Sizes()| && Window(Sizes(), total) == Drain(old(Sizes()), old(total), win)
    {
      hide Slots;
      fullness := inIdx - outIdx;
      if fullness < 0 {
        fullness := fullness + MAX_HIST;
      }
      SlotsLength(hist[..], outIdx, inIdx);
      ghost var d := Drain(Sizes(), total, win);
      var stopped := false;
      while fullness > win && !stopped
        invariant Valid() && fullness == |Sizes()|
        invariant d == if stopped then Window(Sizes(), total) else Drain(Sizes(), total, win)
        decreases fullness, if stopped then 0 else 1
      {
        SlotsLength(hist[..], outIdx, inIdx);
        SlotsDropFirst(hist[..], outIdx, inIdx);
        total := total - hist[outIdx];
        if total <= 0 {
          stopped := true;
        } else {
          outIdx := outIdx + 1;
          if outIdx >= MAX_HIST {
            outIdx := 0;
          }
          fullness := fullness - 1;
        }
      }
    }

    /** strict_rc_check. */
    method StrictRcCheck()
      requires Valid() && win > 0
      modifies this
      ensures Valid() && Abs() == Check(old(Abs()))
    {
      hide Slots, Uint32, Int32, Word, OverTarget, Drain;
      var fullness := MoveOut();
      if fullness == win {
        var rate := Int32(Word(Uint32(total * 8 * frameRate), win));
        var target := Int32(Word(Uint32(bitrate * thresh), 100));
        OverTargetMeans(total, win, frameRate, bitrate, thresh);
        if rate > target {
          skipRequested := true;
        }
      }
    }

    /** strict_rc_filled. */
    method StrictRcFilled(size: nat)
      requires Valid()
      modifies this, hist
      ensures Valid() && Abs() == Filled(old(Abs()), size)
    {
      var fullness := inIdx - outIdx;
      if fullness < 0 {
        fullness := fullness + MAX_HIST;
      }
      var space := MAX_HIST - fullness;
      SlotsAppend(hist[..], outIdx, inIdx, size);
      if space != 0 {
        hist[inIdx] := size;
        inIdx := inIdx + 1;
        total := total + size;
        if inIdx >= MAX_HIST {
          inIdx := 0;
        }
      }
    }

    /** vl_video_encoder_change_strict_rc. */
    method ChangeStrictRc(window: int, threshold: int)
      requires Valid()
      modifies this
      ensures Valid() && Abs() == ChangedWindow(old(Abs()), window, threshold)
      ensures win == (if window <= 0 then 0 else if window <= 120 then window else 120) && thresh == threshold
    {
      var w := window;
      if w > MAX_WINDOW {
        w := MAX_WINDOW;
      } else if w < 0 {
        w := 0;
      }
      win, thresh := w, threshold;
      if w == 0 {
        HistReset();
      }
    }

    /** vl_video_encoder_change_bitrate; accepted is the hardware's answer. */
    method ChangeBitrate(rate: int, accepted: bool) returns (code: int)
      requires Valid()
      modifies this
      ensures Valid() && Abs() == ChangedRate(old(Abs()), accepted, rate)
      ensures code == if !changesEnabled then -2 else if !accepted then -3 else 0
      ensures bitrate == if code == 0 then rate % 0x1_0000_0000 else old(bitrate)
    {
      WordIsRemainder(rate);
      if !changesEnabled {
        return -2;
      }
      if !accepted {
        return -3;
      }
      HistReset();
      bitrate := Uint32(rate);
      return 0;
    }

    /** The choice of the flags for the hardware, and the count of the input. */
    method Send() returns (sent: Submission)
      requires Valid()
      modifies this
      ensures Valid() && Abs() == Sent(old(Abs()))
      ensures sent == Submitted(old(numInput), ForcesKey(old(Abs())), old(skipRequested))
    {
      var forceIdr, forceSkip := false, false;
      if keyRequested {
        if !((preset == Svc1 && numInput % 2 != 0) || (preset == Svc2 && numInput % 3 != 0)
             || (preset == Svc3 && numInput % 4 != 0) || (preset == Svc4 && numInput % 5 != 0)
             || (preset == Svc5 && numInput % 4 != 0)) {
          forceIdr, keyRequested := true, false;
        }
      }
      if skipRequested {
        forceSkip, skipRequested := true, false;
      }
      sent := Submitted(numInput, forceIdr, forceSkip);
      numInput := numInput + 1;
    }

    /** The call from its entry up to the check of the buffer. */
    method Enter(f: Frame) returns (entered: bool)
      requires Valid()
      modifies this
      ensures Valid() && entered == Enters(old(Abs()), f)
      ensures Abs() == if entered then Checked(Entered(old(Abs()), f)) else old(Abs())
    {
      hide Check, Slots;
      if !f.strideOk {
        return false;
      }
      if !headerReceived {
        if !f.headerOk {
          return false;
        }
        numInput, headerReceived := 0, true;
      }
      if f.wantsKey {
        keyRequested := true;
      }
      if win != 0 {
        StrictRcCheck();
      }
      return true;
    }

    /** The call behind AML_MultiEncNAL. */
    method Receive(nal: Nal)
      requires Valid()
      modifies this, hist
      ensures Valid() && Abs() == Returned(old(Abs()), nal)
    {
      hide Slots, Filled;
      if nal.Refused? {
        return;
      }
      var dataLength := LengthOf(nal);
      if nal.TimedOut? {
        keyRequested := true;
      }
      if win != 0 {
        StrictRcFilled(dataLength);
      }
    }

    /** vl_multi_encoder_encode, with what the hardware answers in f. */
    method Encode(f: Frame) returns (sent: Submission)
      requires Valid()
      modifies this, hist
      ensures Valid() && (Abs(), sent) == Encoded(old(Abs()), f)
    {
      hide Check, ForcesKey, Slots, Filled, Checked, Entered, Enters, Returned, Sent;
      var entered := Enter(f);
      if !entered || !f.bufferOk {
        return NotSubmitted;
      }
      sent := Send();
      if f.inputOk {
        Receive(f.nal);
      }
    }
  }

  lemma OverTargetMeans(total: int, win: nat, frameRate: nat, bitrate: nat, thresh: int)
    requires win > 0
    ensures OverTarget(total, win, frameRate, bitrate, thresh)
            <==> Int32(Word(Uint32(total * 8 * frameRate), win)) > Int32(Word(Uint32(bitrate * thresh), 100))
  {
  }
}
