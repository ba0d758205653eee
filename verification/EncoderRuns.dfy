/** Whole runs of calls on the encoder handle. */
module EncoderRuns {
  import opened CArithmetic
  import opened SpsEdit
  import opened MultiEncoders

  datatype Call =
    | Encode(frame: Frame)
    | ChangeStrictRc(window: int, thresh: int)
    | ChangeBitrate(bitrate: int, accepted: bool)
    | SkipFrame
    | GenerateHeader

  /** vl_multi_encoder_generate_header takes the header for received whatever
      the hardware answers. */
  function GeneratedHeader(s: State): State {
    if s.headerReceived then s else s.(headerReceived := true, numInput := 0)
  }

  function Step(s: State, c: Call): State {
    match c
    case Encode(f) => Encoded(s, f).0
    case ChangeStrictRc(w, thresh) => ChangedWindow(s, w, thresh)
    case ChangeBitrate(bitrate, accepted) => ChangedRate(s, accepted, bitrate)
    case SkipFrame => s.(skipRequested := true)
    case GenerateHeader => GeneratedHeader(s)
  }

  function Run(s: State, cs: seq<Call>): State
    decreases |cs|
  {
    if cs == [] then s else Run(Step(s, cs[0]), cs[1..])
  }

  // ---------- the history and all sizes since the last reset ----------

  /** The frame size that an encode call adds, if it gets that far. */
  predicate Adds(s: State, f: Frame) {
    Enters(s, f) && f.bufferOk && f.inputOk && !f.nal.Refused? && s.win > 0
  }

  /** A frame that the hardware has finished counts with its length, and any
      other answer with 0. */
  function SizeOf(nal: Nal): (size: nat)
    ensures size == LengthOf(nal)
  {
    match nal
    case Ready(length) => length
    case Success(length) => length
    case Skipped => 0
    case TimedOut => 0
    case Refused => 0
  }

  /** All sizes since the last reset, after one more call. */
  function Since(all: seq<nat>, s: State, c: Call): seq<nat> {
    match c
    case Encode(f) => if Adds(s, f) then all + [SizeOf(f.nal)] else all
    case ChangeStrictRc(w, _) => if w <= 0 then [] else all
    case ChangeBitrate(_, accepted) => if s.changesEnabled && accepted then [] else all
    case _ => all
  }

  function SinceRun(all: seq<nat>, s: State, cs: seq<Call>): seq<nat>
    decreases |cs|
  {
    if cs == [] then all else SinceRun(Since(all, s, cs[0]), Step(s, cs[0]), cs[1..])
  }

  /** The history is the end of the sizes since the last reset, has its sum
      beside it and is far from full. */
  predicate Tracks(s: State, all: seq<nat>) {
    && s.total == Sum(s.sizes) && |s.sizes| <= MAX_WINDOW + 1 && s.win <= MAX_WINDOW
    && |s.sizes| <= |all| && s.sizes == all[|all| - |s.sizes|..]
    && (s.win == 0 ==> all == [])
  }

  /** At a check, no more than the window is there, or the newest sizes of the
      window have a positive sum. */
  predicate Drains(s: State, c: Call) {
    match c
    case Encode(f) => Enters(s, f) && s.win > 0 ==> |s.sizes| <= s.win || Sum(Last(s.sizes, s.win)) > 0
    case _ => true
  }

  predicate RunDrains(s: State, cs: seq<Call>)
    decreases |cs|
  {
    cs == [] || (Drains(s, cs[0]) && RunDrains(Step(s, cs[0]), cs[1..]))
  }

  lemma CheckTracks(s: State, all: seq<nat>)
    requires Tracks(s, all) && s.win > 0
    requires |s.sizes| <= s.win || Sum(Last(s.sizes, s.win)) > 0
    ensures Tracks(Check(s), all) && Check(s).sizes == Last(s.sizes, s.win) && |Check(s).sizes| <= s.win
    ensures Check(s).win == s.win
  {
    hide OverTarget;
    DrainExactly(s.sizes, s.win);
    var d := Last(s.sizes, s.win);
    assert d == all[|all| - |d|..];
  }

  lemma FillTracks(s: State, all: seq<nat>, size: nat)
    requires Tracks(s, all) && s.win > 0 && |s.sizes| <= s.win
    ensures Tracks(Filled(s, size), all + [size]) && Filled(s, size).sizes == s.sizes + [size]
    ensures Filled(s, size).win == s.win
  {
    SumAppend(s.sizes, [size]);
    assert Sum([size]) == size;
    var k := |s.sizes|;
    assert (all + [size])[|all| - k..] == all[|all| - k..] + [size];
  }

  lemma EncodedWindow(s: State, f: Frame)
    ensures var t := Encoded(s, f).0;
            && t.win == s.win
            && (!Enters(s, f) || s.win == 0 ==> t.sizes == s.sizes && t.total == s.total)
            && (Enters(s, f) && s.win > 0 && !Adds(s, f) ==> t.sizes == Check(s).sizes && t.total == Check(s).total)
            && (Adds(s, f) ==> var u := Filled(Check(s), LengthOf(f.nal)); t.sizes == u.sizes && t.total == u.total)
  {
    hide Drain, OverTarget, ForcesKey;
  }

  lemma SameWindow(s: State, t: State, all: seq<nat>)
    requires Tracks(s, all) && t.sizes == s.sizes && t.total == s.total && t.win == s.win
    ensures Tracks(t, all)
  {
  }

  lemma CheckedEncodeTracks(s: State, all: seq<nat>, f: Frame)
    requires Tracks(s, all) && Enters(s, f) && s.win > 0
    requires |s.sizes| <= s.win || Sum(Last(s.sizes, s.win)) > 0
    ensures Tracks(Encoded(s, f).0, all + if Adds(s, f) then [LengthOf(f.nal)] else [])
    ensures Encoded(s, f).0.sizes == Last(s.sizes, s.win) + if Adds(s, f) then [LengthOf(f.nal)] else []
  {
    hide *;
    EncodedWindow(s, f);
    CheckTracks(s, all);
    var t := Encoded(s, f).0;
    if Adds(s, f) {
      FillTracks(Check(s), all, LengthOf(f.nal));
      SameWindow(Filled(Check(s), LengthOf(f.nal)), t, all + [LengthOf(f.nal)]);
    } else {
      SameWindow(Check(s), t, all);
      assert Last(s.sizes, s.win) + [] == Last(s.sizes, s.win) && all + [] == all;
    }
  }

  lemma AddsMeans(s: State, f: Frame)
    ensures Adds(s, f) ==> Enters(s, f) && s.win > 0
    ensures forall all :: Since(all, s, Encode(f)) == all + if Adds(s, f) then [LengthOf(f.nal)] else []
    ensures Drains(s, Encode(f)) && Enters(s, f) && s.win > 0 ==> |s.sizes| <= s.win || Sum(Last(s.sizes, s.win)) > 0
  {
    hide Sum, Last, LengthOf;
    forall all: seq<nat>
      ensures all + [] == all
    {
    }
  }

  lemma EncodeTracks(s: State, all: seq<nat>, f: Frame)
    requires Tracks(s, all) && Drains(s, Encode(f))
    ensures Tracks(Encoded(s, f).0, Since(all, s, Encode(f)))
    ensures Enters(s, f) && s.win > 0 ==>
      Encoded(s, f).0.sizes == Last(s.sizes, s.win) + if Adds(s, f) then [LengthOf(f.nal)] else []
    ensures !(Enters(s, f) && s.win > 0) ==> Encoded(s, f).0.sizes == s.sizes
    ensures Encoded(s, f).0.win == s.win
  {
    hide *;
    AddsMeans(s, f);
    EncodedWindow(s, f);
    if Enters(s, f) && s.win > 0 {
      CheckedEncodeTracks(s, all, f);
    } else {
      SameWindow(s, Encoded(s, f).0, all);
      assert all + [] == all;
    }
  }

  lemma StepTracks(s: State, all: seq<nat>, c: Call)
    requires Tracks(s, all) && Drains(s, c)
    ensures Tracks(Step(s, c), Since(all, s, c))
  {
    hide Drains, Encoded;
    match c
    case Encode(f) => EncodeTracks(s, all, f);
    case _ =>
  }

  /** In every run whose checks drain as they should, whatever the order in
      which windows grow, shrink, go and come back and encodes fail, the running
      sum is the sum of the history, at most 121 of the 128 slots are used, and
      what they hold are the newest sizes since the last reset. */
  lemma {:induction false} RunTracks(s: State, all: seq<nat>, cs: seq<Call>)
    requires Tracks(s, all) && RunDrains(s, cs)
    ensures Tracks(Run(s, cs), SinceRun(all, s, cs))
    decreases |cs|
  {
    hide Tracks, Drains, Step, Since;
    if cs != [] {
      StepTracks(s, all, cs[0]);
      RunTracks(Step(s, cs[0]), Since(all, s, cs[0]), cs[1..]);
    }
  }

  predicate AllPositive(sizes: seq<nat>) {
    forall n :: n in sizes ==> n > 0
  }

  lemma PositiveSum(sizes: seq<nat>, w: nat)
    requires AllPositive(sizes) && |sizes| > w > 0
    ensures Sum(Last(sizes, w)) > 0
  {
    assert Last(sizes, w)[0] in sizes;
  }

  lemma StepKeepsPositive(s: State, all: seq<nat>, c: Call)
    requires Tracks(s, all) && AllPositive(s.sizes)
    requires c.Encode? ==> c.frame.nal.Refused? || LengthOf(c.frame.nal) > 0
    ensures Drains(s, c) && AllPositive(Step(s, c).sizes)
  {
    hide Tracks, Encoded, Sum;
    if |s.sizes| > s.win > 0 {
      PositiveSum(s.sizes, s.win);
    }
    match c
    case Encode(f) =>
      EncodeTracks(s, all, f);
      EncodeStep(s, f);
      forall n | n in Step(s, c).sizes
        ensures n > 0
      {
        assert n in s.sizes || n == LengthOf(f.nal);
      }
    case _ =>
  }

  /** While every frame that comes back has a length, all checks drain. */
  lemma {:induction false} PositiveRunsDrain(s: State, all: seq<nat>, cs: seq<Call>)
    requires Tracks(s, all) && AllPositive(s.sizes)
    requires forall c :: c in cs && c.Encode? ==> c.frame.nal.Refused? || LengthOf(c.frame.nal) > 0
    ensures RunDrains(s, cs)
    decreases |cs|
  {
    hide Tracks, Drains, Step, Since, AllPositive;
    if cs != [] {
      StepKeepsPositive(s, all, cs[0]);
      StepTracks(s, all, cs[0]);
      PositiveRunsDrain(Step(s, cs[0]), Since(all, s, cs[0]), cs[1..]);
    }
  }

  // ---------- behind a failed drain ----------

  /** How much the running sum is too small. */
  function Missing(s: State): int {
    Sum(s.sizes) - s.total
  }

  /** Draining never makes up for what is missing, and a drain that stops early
      adds the size at the front. */
  lemma {:induction false} DrainMissing(sizes: seq<nat>, total: int, w: nat)
    ensures var d := Drain(sizes, total, w);
            Sum(d.sizes) - d.total == Sum(sizes) - total + if |d.sizes| > w then d.sizes[0] else 0
    decreases |sizes|
  {
    if |sizes| > w && total - sizes[0] > 0 {
      DrainMissing(sizes[1..], total - sizes[0], w);
    }
  }

  /** Calls that reset the history. */
  predicate Resets(s: State, c: Call) {
    match c
    case ChangeStrictRc(w, _) => Clamp(w) == 0
    case ChangeBitrate(_, accepted) => s.changesEnabled && accepted
    case _ => false
  }

  lemma StepMissing(s: State, c: Call)
    requires !Resets(s, c) && |s.sizes| < MAX_HIST - 1
    ensures Missing(Step(s, c)) >= Missing(s)
  {
    match c
    case Encode(f) =>
      EncodedWindow(s, f);
      hide Encoded, OverTarget;
      if Enters(s, f) && s.win > 0 {
        DrainMissing(s.sizes, s.total, s.win);
        DrainKeepsLength(s.sizes, s.total, s.win);
        var d := Check(s);
        SumAppend(d.sizes, [LengthOf(f.nal)]);
        SumOfOne(LengthOf(f.nal));
      }
    case _ =>
  }

  lemma {:induction false} DrainKeepsLength(sizes: seq<nat>, total: int, w: nat)
    ensures |Drain(sizes, total, w).sizes| <= |sizes|
    decreases |sizes|
  {
    if |sizes| > w && total - sizes[0] > 0 {
      DrainKeepsLength(sizes[1..], total - sizes[0], w);
    }
  }

  /** No call of the run resets the history, and none finds it full. */
  predicate RunGoesOn(s: State, cs: seq<Call>)
    decreases |cs|
  {
    cs == [] || (!Resets(s, cs[0]) && |s.sizes| < MAX_HIST - 1 && RunGoesOn(Step(s, cs[0]), cs[1..]))
  }

  /** Once a drain has stopped early on a size above 0, the running sum stays
      too small until the history is reset or runs full. */
  lemma {:induction false} SumStaysShort(s: State, cs: seq<Call>)
    requires RunGoesOn(s, cs)
    ensures Missing(Run(s, cs)) >= Missing(s)
    ensures Missing(s) > 0 ==> Run(s, cs).total != Sum(Run(s, cs).sizes)
    decreases |cs|
  {
    hide Step, Resets;
    if cs != [] {
      StepMissing(s, cs[0]);
      SumStaysShort(Step(s, cs[0]), cs[1..]);
    }
  }

  function Zeros(n: nat): (sizes: seq<nat>)
    ensures |sizes| == n && Sum(sizes) == 0
  {
    if n == 0 then [] else [0] + Zeros(n - 1)
  }

  lemma {:induction false} ZerosNext(n: nat)
    ensures Zeros(n) + [0] == Zeros(n + 1)
  {
    if n > 0 {
      ZerosNext(n - 1);
      assert Zeros(n) + [0] == [0] + (Zeros(n - 1) + [0]);
    }
  }

  function SkippedPictures(n: nat): seq<Call> {
    if n == 0 then [] else [Passing(Skipped)] + SkippedPictures(n - 1)
  }

  lemma SkipOne(s: State, n: nat)
    requires s.headerReceived && s.win == 1 && s.sizes == [5] + Zeros(n) && s.total <= 5 && n < MAX_HIST - 1
    ensures var t := Step(s, Passing(Skipped));
            && t.headerReceived && t.win == 1 && t.total <= 5
            && t.sizes == if n < MAX_HIST - 2 then [5] + Zeros(n + 1) else []
  {
    hide OverTarget, ForcesKey, Sum;
    ZerosNext(n);
    assert ([5] + Zeros(n)) + [0] == [5] + (Zeros(n) + [0]);
    EncodedWindow(s, Frame(false, true, true, true, true, Skipped));
    hide Encoded;
    HeaderStays(s, Frame(false, true, true, true, true, Skipped));
  }

  lemma HeaderStays(s: State, f: Frame)
    requires s.headerReceived
    ensures Encoded(s, f).0.headerReceived
  {
    hide Drain, OverTarget;
  }

  /** After a failed drain nothing bounds the history any more: behind a frame of
      5 bytes, skipped pictures fill all slots, and the 127th makes the full
      history look empty. */
  lemma {:induction false} SkippedPicturesFillTheHistory(s: State, n: nat, k: nat)
    requires s.headerReceived && s.win == 1 && s.sizes == [5] + Zeros(n) && s.total <= 5 && n + k <= MAX_HIST - 1
    ensures var t := Run(s, SkippedPictures(k));
            t.sizes == if n + k < MAX_HIST - 1 || k == 0 then [5] + Zeros(n + k) else []
    decreases k
  {
    hide Step, Zeros;
    if k > 0 {
      SkipOne(s, n);
      RunFirst(s, [], Passing(Skipped), SkippedPictures(k - 1));
      var t := Step(s, Passing(Skipped));
      if n < MAX_HIST - 2 {
        SkippedPicturesFillTheHistory(t, n + 1, k - 1);
      }
    }
  }

  // ---------- the decision ----------

  /** The decision made from the last win sizes since the last reset. */
  predicate NaiveSkip(s: State, all: seq<nat>)
    requires s.win > 0
  {
    |all| >= s.win && RateAbove(Sum(Last(all, s.win)), s.win, s.frameRate, s.bitrate, s.thresh)
  }

  /** Nothing that the window asks for has been dropped. */
  predicate KeepsEnough(s: State, all: seq<nat>) {
    |s.sizes| >= s.win || s.sizes == all
  }

  /** A check decides as the naive rule does exactly when the history has kept
      what the window asks for, the naive rule does not skip, or a skip is
      pending anyway. */
  lemma DecisionExactly(s: State, all: seq<nat>)
    requires Tracks(s, all) && s.win > 0
    requires |s.sizes| <= s.win || Sum(Last(s.sizes, s.win)) > 0
    ensures Check(s).skipRequested == (s.skipRequested || NaiveSkip(s, all))
            <==> s.skipRequested || KeepsEnough(s, all) || !NaiveSkip(s, all)
  {
    hide OverTarget, RateAbove;
    DrainExactly(s.sizes, s.win);
    OverTargetExactly(Drain(s.sizes, s.total, s.win).total, s.win, s.frameRate, s.bitrate, s.thresh);
    if |s.sizes| >= s.win {
      assert Last(s.sizes, s.win) == Last(all, s.win);
    }
  }

  /** The window grows only while no more sizes have come since the last reset
      than the old window holds. */
  predicate GrowsInTime(s: State, all: seq<nat>, c: Call) {
    match c
    case ChangeStrictRc(w, _) => Clamp(w) > s.win ==> |all| <= s.win
    case _ => true
  }

  predicate RunGrowsInTime(s: State, all: seq<nat>, cs: seq<Call>)
    decreases |cs|
  {
    cs == [] || (GrowsInTime(s, all, cs[0]) && RunGrowsInTime(Step(s, cs[0]), Since(all, s, cs[0]), cs[1..]))
  }

  lemma EncodeKeepsEnough(s: State, all: seq<nat>, f: Frame)
    requires Tracks(s, all) && Drains(s, Encode(f)) && KeepsEnough(s, all)
    ensures KeepsEnough(Encoded(s, f).0, Since(all, s, Encode(f)))
  {
    EncodeTracks(s, all, f);
    AddsMeans(s, f);
    hide Encoded, Drains, Tracks, Enters, Adds, Since, Last, LengthOf;
    var more := if Adds(s, f) then [LengthOf(f.nal)] else [];
    if Enters(s, f) && s.win > 0 {
      LastKeeps(s.sizes, s.win);
      if |s.sizes| < s.win {
        assert Encoded(s, f).0.sizes == all + more;
      }
    } else {
      assert all + [] == all;
    }
  }

  lemma LastKeeps(sizes: seq<nat>, w: nat)
    ensures |Last(sizes, w)| == (if |sizes| < w then |sizes| else w) && (|sizes| < w ==> Last(sizes, w) == sizes)
  {
  }

  lemma GrownWindowKeeps(sizes: seq<nat>, all: seq<nat>, win: nat, w: nat)
    requires |sizes| <= |all| && sizes == all[|all| - |sizes|..] && (|sizes| >= win || sizes == all)
    requires w > win ==> |all| <= win
    ensures |sizes| >= w || sizes == all
  {
    if |sizes| == |all| {
      assert all[0..] == all;
    }
  }

  lemma ChangeKeepsEnough(s: State, all: seq<nat>, c: Call)
    requires !c.Encode? && |s.sizes| <= |all| && s.sizes == all[|all| - |s.sizes|..]
    requires KeepsEnough(s, all) && GrowsInTime(s, all, c)
    ensures KeepsEnough(Step(s, c), Since(all, s, c))
  {
    hide Encoded, GeneratedHeader, Uint32;
    if c.ChangeStrictRc? {
      GrownWindowKeeps(s.sizes, all, s.win, Clamp(c.window));
    } else {
      OtherCallsKeepWindow(s, all, c);
    }
  }

  lemma OtherCallsKeepWindow(s: State, all: seq<nat>, c: Call)
    requires !c.Encode? && !c.ChangeStrictRc?
    ensures var t := Step(s, c);
            t.win == s.win && ((t.sizes == s.sizes && Since(all, s, c) == all) || (t.sizes == [] && Since(all, s, c) == []))
  {
    hide Encoded;
  }

  lemma StepKeepsEnough(s: State, all: seq<nat>, c: Call)
    requires Tracks(s, all) && Drains(s, c) && KeepsEnough(s, all) && GrowsInTime(s, all, c)
    ensures KeepsEnough(Step(s, c), Since(all, s, c))
  {
    assert |s.sizes| <= |all| && s.sizes == all[|all| - |s.sizes|..];
    hide Encoded, Drains, Tracks, KeepsEnough, Since, GrowsInTime, Step;
    if c.Encode? {
      EncodeKeepsEnough(s, all, c.frame);
      EncodeStep(s, c.frame);
    } else {
      ChangeKeepsEnough(s, all, c);
    }
  }

  lemma {:induction false} RunKeepsEnough(s: State, all: seq<nat>, cs: seq<Call>)
    requires Tracks(s, all) && RunDrains(s, cs) && KeepsEnough(s, all) && RunGrowsInTime(s, all, cs)
    ensures KeepsEnough(Run(s, cs), SinceRun(all, s, cs))
    decreases |cs|
  {
    hide Tracks, Drains, Step, Since, KeepsEnough, GrowsInTime;
    if cs != [] {
      StepTracks(s, all, cs[0]);
      StepKeepsEnough(s, all, cs[0]);
      RunKeepsEnough(Step(s, cs[0]), Since(all, s, cs[0]), cs[1..]);
    }
  }

  /** The handle as vl_multi_encoder_init leaves it. */
  predicate Fresh(s: State) {
    s.sizes == [] && s.total == 0 && s.win <= MAX_WINDOW
  }

  /** In every run from the start whose checks drain as they should and whose
      windows grow in time, each check decides as the naive rule does. */
  lemma RunsDecideNaively(s: State, cs: seq<Call>)
    requires Fresh(s) && RunDrains(s, cs) && RunGrowsInTime(s, [], cs)
    requires var t := Run(s, cs); t.win > 0 && (|t.sizes| <= t.win || Sum(Last(t.sizes, t.win)) > 0)
    ensures var t := Run(s, cs);
            Check(t).skipRequested == (t.skipRequested || NaiveSkip(t, SinceRun([], s, cs)))
  {
    hide Check, Step, RunDrains, RunGrowsInTime, NaiveSkip, Last, Run, SinceRun;
    assert Tracks(s, []);
    RunTracks(s, [], cs);
    RunKeepsEnough(s, [], cs);
    DecisionExactly(Run(s, cs), SinceRun([], s, cs));
  }

  /** A call that passes all checks, with this answer of the hardware. */
  function Passing(nal: Nal): Call {
    Encode(Frame(false, true, true, true, true, nal))
  }

  lemma RunFirst(s: State, all: seq<nat>, c: Call, cs: seq<Call>)
    ensures Run(s, [c] + cs) == Run(Step(s, c), cs)
    ensures SinceRun(all, s, [c] + cs) == SinceRun(Since(all, s, c), Step(s, c), cs)
    ensures RunDrains(s, [c] + cs) <==> Drains(s, c) && RunDrains(Step(s, c), cs)
  {
    hide Step, Since, Drains;
    assert ([c] + cs)[1..] == cs;
  }

  lemma RunNothing(s: State, all: seq<nat>)
    ensures Run(s, []) == s && SinceRun(all, s, []) == all && RunDrains(s, [])
  {
  }

  /** What a passing call makes of a history of one or two sizes and a window of 1. */
  lemma PassingCall(s: State, nal: Nal)
    requires s.headerReceived && s.win == 1 && s.total == Sum(s.sizes) && |s.sizes| <= 2
    requires |s.sizes| == 2 ==> s.sizes[1] > 0
    ensures var t := Step(s, Passing(nal));
            && t.headerReceived && t.win == 1 && !t.skipRequested && t.frameRate == s.frameRate
            && t.bitrate == s.bitrate && t.thresh == s.thresh
            && t.sizes == Last(s.sizes, 1) + (if nal.Refused? then [] else [LengthOf(nal)]) && t.total == Sum(t.sizes)
    ensures Drains(s, Passing(nal))
    ensures forall all :: Since(all, s, Passing(nal)) == all + (if nal.Refused? then [] else [LengthOf(nal)])
  {
    hide OverTarget, ForcesKey;
    DrainExactly(s.sizes, 1);
    var kept := Last(s.sizes, 1);
    assert |s.sizes| == 2 ==> Sum(kept) == s.sizes[1] + Sum([]);
    SumAppend(kept, [LengthOf(nal)]);
    assert Sum([LengthOf(nal)]) == LengthOf(nal);
    assert kept + [] == kept;
    forall all: seq<nat>
      ensures all + [] == all
    {
    }
  }

  lemma SumOfOne(n: nat)
    ensures Sum([n]) == n && Sum([]) == 0
  {
    assert Sum([n]) == n + Sum([]);
  }

  /** A window that grows after sizes were dropped has to fill up again, even
      though enough frames have come: a window of 1 behind which frames of 5
      and 6 bytes came and one encode failed, and which then grows to 2. */
  lemma GrownWindowForgets(s: State)
    requires Fresh(s) && s.headerReceived && s.win == 1
    requires s.frameRate == 1 && s.bitrate == 1
    ensures var cs := [Passing(Ready(5))] + ([Passing(Ready(6))] + ([Passing(Refused)] + ([ChangeStrictRc(2, 100)] + [])));
            var t, all := Run(s, cs), SinceRun([], s, cs);
            RunDrains(s, cs) && t.win == 2 && NaiveSkip(t, all) && !Check(t).skipRequested
  {
    hide Step, Since, Drains, Run, SinceRun, RunDrains, Sum, Last, OverTarget;
    var c4 := [ChangeStrictRc(2, 100)] + [];
    var c3 := [Passing(Refused)] + c4;
    var c2 := [Passing(Ready(6))] + c3;
    SumOfOne(5);
    SumOfOne(6);
    PassingCall(s, Ready(5));
    LastOfShort();
    var t1 := Step(s, Passing(Ready(5)));
    PassingCall(t1, Ready(6));
    var t2 := Step(t1, Passing(Ready(6)));
    PassingCall(t2, Refused);
    var t3 := Step(t2, Passing(Refused));
    RunFirst(s, [], Passing(Ready(5)), c2);
    RunFirst(t1, [5], Passing(Ready(6)), c3);
    RunFirst(t2, [5, 6], Passing(Refused), c4);
    RunFirst(t3, [5, 6], ChangeStrictRc(2, 100), []);
    var t4 := t3.(win := 2, thresh := 100);
    Grown(t3);
    RunNothing(t4, [5, 6]);
    assert [] + [5] == [5] && [5] + [6] == [5, 6] && [5, 6] + [] == [5, 6];
    ForgetfulCheck(t4);
  }

  lemma LastOfShort()
    ensures Last([], 1) == [] && Last([5], 1) == [5] && Last([5, 6], 1) == [6] && [] + [5] == [5] && [5] + [6] == [5, 6]
    ensures [6] + [] == [6]
  {
  }

  lemma Grown(s: State)
    ensures Step(s, ChangeStrictRc(2, 100)) == s.(win := 2, thresh := 100)
    ensures Since([5, 6], s, ChangeStrictRc(2, 100)) == [5, 6] && Drains(s, ChangeStrictRc(2, 100))
  {
  }

  lemma ForgetfulCheck(t: State)
    requires t.frameRate == 1 && t.bitrate == 1 && t.thresh == 100 && !t.skipRequested
    requires t.win == 2 && t.sizes == [6] && t.total == 6
    ensures NaiveSkip(t, [5, 6]) && !Check(t).skipRequested
  {
    assert [5, 6][1..] == [6];
    SumOfOne(6);
    assert Sum([5, 6]) == 5 + Sum([6]);
  }

  /** Skipped pictures count as size 0. In the check behind a frame of 5 bytes
      and a skipped picture, the loop stops with the 5 gone from the sum but
      not from the history. */
  lemma SkippedPicturesUpsetTheSum(s: State)
    requires Fresh(s) && s.headerReceived && s.win == 1
    ensures var cs := [Passing(Ready(5))] + ([Passing(Skipped)] + []);
            var t := Run(s, cs);
            && RunDrains(s, cs) && t.win == 1 && t.sizes == [5, 0] && t.total == 5
            && Check(t).sizes == [5, 0] && Check(t).total == 0
  {
    hide Step, Since, Drains, Run, SinceRun, RunDrains, Last, OverTarget;
    PassingCall(s, Ready(5));
    LastOfShort();
    var t1 := Step(s, Passing(Ready(5)));
    PassingCall(t1, Skipped);
    var t2 := Step(t1, Passing(Skipped));
    RunFirst(s, [], Passing(Ready(5)), [Passing(Skipped)] + []);
    RunFirst(t1, [5], Passing(Skipped), []);
    RunNothing(t2, []);
    assert [5] + [0] == [5, 0] && [5, 0][1..] == [0];
    SumOfOne(0);
    assert Sum([5, 0]) == 5 + Sum([0]);
  }

  // ---------- key frames ----------

  /** What a run hands to the hardware, in order. */
  function Inputs(s: State, cs: seq<Call>): seq<Submission>
    decreases |cs|
  {
    if cs == [] then []
    else
      var rest := Inputs(Step(s, cs[0]), cs[1..]);
      if cs[0].Encode? && Encoded(s, cs[0].frame).1.Submitted? then [Encoded(s, cs[0].frame).1] + rest else rest
  }

  /** Groups have 2, 3, 4 and 5 inputs for the first four SVC presets, 4 for
      the fifth, and one for all other presets. */
  predicate StartsGroup(preset: GopPreset, index: int) {
    match preset
    case Svc1 => index % 2 == 0
    case Svc2 => index % 3 == 0
    case Svc3 => index % 4 == 0
    case Svc4 => index % 5 == 0
    case Svc5 => index % 4 == 0
    case _ => true
  }

  lemma GroupSizes(preset: GopPreset, index: int)
    ensures index % Group(preset) == 0 <==> StartsGroup(preset, index)
  {
  }

  predicate AtGroupStart(s: State, k: nat) {
    StartsGroup(s.preset, s.numInput + k)
  }

  lemma EncodedKey(s: State, f: Frame)
    requires s.headerReceived
    ensures var (t, sent) := Encoded(s, f);
            && t.headerReceived && t.preset == s.preset
            && (sent.Submitted? ==>
                  && sent.index == s.numInput && t.numInput == s.numInput + 1
                  && sent.forceIdr == ((s.keyRequested || f.wantsKey) && AtGroupStart(s, 0))
                  && (!sent.forceIdr && (s.keyRequested || f.wantsKey) ==> t.keyRequested)
                  && (f.inputOk && f.nal.TimedOut? ==> t.keyRequested)
                  && (t.keyRequested ==> s.keyRequested || f.wantsKey || f.nal.TimedOut?))
            && (sent.NotSubmitted? ==>
                  && t.numInput == s.numInput
                  && (t.keyRequested <==> s.keyRequested || (f.wantsKey && f.strideOk)))
  {
    GroupSizes(s.preset, s.numInput);
    hide Drain, OverTarget, Group, StartsGroup;
  }

  /** The first input behind the header has the number 0, and starts a group. */
  lemma FirstInputIsZero(s: State, f: Frame)
    requires !s.headerReceived
    ensures var (t, sent) := Encoded(s, f);
            sent.Submitted? ==> sent.index == 0 && t.numInput == 1 && sent.forceIdr == (s.keyRequested || f.wantsKey)
  {
    hide Drain, OverTarget, Group;
  }

  lemma StepKey(s: State, c: Call)
    requires s.headerReceived && !c.Encode?
    ensures var t := Step(s, c);
            t.headerReceived && t.preset == s.preset && t.numInput == s.numInput && t.keyRequested == s.keyRequested
  {
  }

  /** Inputs are numbered from the count on, and a key frame is forced only
      where a group starts. */
  lemma {:induction false} KeyFramesStartGroups(s: State, cs: seq<Call>)
    requires s.headerReceived
    ensures forall k: nat :: k < |Inputs(s, cs)| ==>
              Inputs(s, cs)[k].Submitted? && Inputs(s, cs)[k].index == s.numInput + k
    ensures forall k: nat :: k < |Inputs(s, cs)| && Inputs(s, cs)[k].forceIdr ==> AtGroupStart(s, k)
    decreases |cs|
  {
    hide Encoded, Step, AtGroupStart;
    if cs != [] {
      var t := Step(s, cs[0]);
      StepFacts(s, cs[0]);
      KeyFramesStartGroups(t, cs[1..]);
      var rest := Inputs(t, cs[1..]);
      if Inputs(s, cs) != rest {
        forall k: nat | k < |rest|
          ensures AtGroupStart(t, k) == AtGroupStart(s, k + 1)
        {
          NextInput(s, t, k);
        }
      } else {
        forall k: nat | k < |rest|
          ensures AtGroupStart(t, k) == AtGroupStart(s, k)
        {
          SameInput(s, t, k);
        }
      }
    }
  }

  lemma NextInput(s: State, t: State, k: nat)
    requires t.numInput == s.numInput + 1 && t.preset == s.preset
    ensures AtGroupStart(t, k) == AtGroupStart(s, k + 1)
  {
  }

  lemma SameInput(s: State, t: State, k: nat)
    requires t.numInput == s.numInput && t.preset == s.preset
    ensures AtGroupStart(t, k) == AtGroupStart(s, k)
  {
  }

  /** What one call does to the count and to a pending request. */
  lemma StepFacts(s: State, c: Call)
    requires s.headerReceived
    ensures var t := Step(s, c);
            && t.headerReceived && t.preset == s.preset
            && (if c.Encode? && Encoded(s, c.frame).1.Submitted? then
                  var sent := Encoded(s, c.frame).1;
                  && t.numInput == s.numInput + 1 && sent.index == s.numInput
                  && (sent.forceIdr ==> AtGroupStart(s, 0))
                  && (s.keyRequested ==> if AtGroupStart(s, 0) then sent.forceIdr else t.keyRequested)
                else
                  t.numInput == s.numInput && (s.keyRequested ==> t.keyRequested))
  {
    hide Encoded, AtGroupStart;
    match c
    case Encode(f) => EncodedKey(s, f);
    case _ => StepKey(s, c);
  }

  /** A pending request is forced at the first input whose number starts a
      group and at none before, whatever calls fail in between. */
  lemma {:induction false} PendingKeyIsForced(s: State, cs: seq<Call>, k: nat)
    requires s.headerReceived && s.keyRequested
    requires AtGroupStart(s, k) && (forall j: nat :: j < k ==> !AtGroupStart(s, j))
    requires k < |Inputs(s, cs)|
    ensures Inputs(s, cs)[k].Submitted? && Inputs(s, cs)[k].forceIdr
    ensures forall j: nat :: j < k ==> Inputs(s, cs)[j].Submitted? && !Inputs(s, cs)[j].forceIdr
    decreases |cs|
  {
    hide Encoded, Step, AtGroupStart;
    KeyFramesStartGroups(s, cs);
    var t := Step(s, cs[0]);
    StepFacts(s, cs[0]);
    var rest := Inputs(t, cs[1..]);
    if Inputs(s, cs) == rest {
      forall j: nat | j <= k
        ensures AtGroupStart(t, j) == AtGroupStart(s, j)
      {
        SameInput(s, t, j);
      }
      PendingKeyIsForced(t, cs[1..], k);
    } else if k > 0 {
      forall j: nat | j < k
        ensures AtGroupStart(t, j) == AtGroupStart(s, j + 1)
      {
        NextInput(s, t, j);
      }
      PendingKeyIsForced(t, cs[1..], k - 1);
    }
  }

  /** A key frame is asked for, now or before. */
  predicate Wanted(s: State, f: Frame) {
    s.keyRequested || f.wantsKey
  }

  /** A request is served when a forced key frame is coded. */
  predicate Served(sent: Submission, f: Frame) {
    sent.Submitted? && sent.forceIdr && f.inputOk && !f.nal.Refused? && !f.nal.TimedOut?
  }

  /** The input starts a group. */
  predicate Due(s: State) {
    !s.headerReceived || StartsGroup(s.preset, s.numInput)
  }

  /** The calls that lose a request: the one that comes with it fails before it
      is noted, or its key frame is forced on an input that is then refused. */
  predicate LosesRequest(s: State, f: Frame) {
    if Enters(s, f) then f.bufferOk && Due(s) && (!f.inputOk || f.nal.Refused?) else !s.keyRequested
  }

  /** A request is served by a call or pending behind it, if and only if the
      call is not one of those; and a timeout leaves a request pending. */
  lemma RequestsAreKept(s: State, f: Frame)
    requires Wanted(s, f)
    ensures var (t, sent) := Encoded(s, f);
            && (Served(sent, f) || t.keyRequested <==> !LosesRequest(s, f))
            && (sent.Submitted? && f.inputOk && f.nal.TimedOut? ==> t.keyRequested)
  {
    GroupSizes(s.preset, s.numInput);
    hide Drain, OverTarget, Group, StartsGroup;
  }

  /** Without a request or a timeout no key frame is forced. */
  lemma {:induction false} NoRequestNoKey(s: State, cs: seq<Call>)
    requires s.headerReceived && !s.keyRequested
    requires forall c :: c in cs && c.Encode? ==> !c.frame.wantsKey && !c.frame.nal.TimedOut?
    ensures forall k: nat :: k < |Inputs(s, cs)| ==> Inputs(s, cs)[k].Submitted? && !Inputs(s, cs)[k].forceIdr
    decreases |cs|
  {
    hide Encoded, Step, AtGroupStart;
    if cs != [] {
      var c := cs[0];
      if c.Encode? {
        EncodedKey(s, c.frame);
        EncodeStep(s, c.frame);
      } else {
        StepKey(s, c);
      }
      NoRequestNoKey(Step(s, c), cs[1..]);
    }
  }

  lemma EncodeStep(s: State, f: Frame)
    ensures Step(s, Encode(f)) == Encoded(s, f).0
  {
    hide Encoded;
  }

  // ---------- skips ----------

  /** The call hands an input to the hardware. */
  predicate Submits(s: State, c: Call) {
    c.Encode? && c.frame.strideOk && (s.headerReceived || c.frame.headerOk) && c.frame.bufferOk
  }

  /** The check of the call asks for a skip: the drained history has exactly as
      many sizes as the window, and their rate is above the target. */
  predicate AsksForSkip(s: State, f: Frame) {
    && f.strideOk && (s.headerReceived || f.headerOk) && s.win > 0
    && var d := Drain(s.sizes, s.total, s.win);
       |d.sizes| == s.win && RateAbove(d.total, s.win, s.frameRate, s.bitrate, s.thresh)
  }

  predicate RaisesSkip(s: State, c: Call) {
    c.SkipFrame? || (c.Encode? && AsksForSkip(s, c.frame))
  }

  /** One call: an input takes a pending skip with it, and nothing else does. */
  lemma StepSkip(s: State, c: Call)
    ensures var t := Step(s, c);
            && (c.Encode? ==> (Submits(s, c) <==> Encoded(s, c.frame).1.Submitted?))
            && (Submits(s, c) ==> !t.skipRequested)
            && (Submits(s, c) ==> (Encoded(s, c.frame).1.forceSkip <==> s.skipRequested || RaisesSkip(s, c)))
            && (!Submits(s, c) ==> (t.skipRequested <==> s.skipRequested || RaisesSkip(s, c)))
  {
    if c.Encode? && s.win > 0 {
      OverTargetExactly(Drain(s.sizes, s.total, s.win).total, s.win, s.frameRate, s.bitrate, s.thresh);
    }
    hide Drain, OverTarget, RateAbove, ForcesKey;
  }

  /** Some call of the run raises a skip. */
  ghost predicate RunRaisesSkip(s: State, cs: seq<Call>) {
    exists i: nat :: i < |cs| && RaisesSkip(Run(s, cs[..i]), cs[i])
  }

  ghost predicate RunSubmits(s: State, cs: seq<Call>) {
    exists i: nat :: i < |cs| && Submits(Run(s, cs[..i]), cs[i])
  }

  lemma RunLater(s: State, c: Call, cs: seq<Call>, i: nat)
    requires i <= |cs|
    ensures ([c] + cs)[..i + 1] == [c] + cs[..i] && Run(s, ([c] + cs)[..i + 1]) == Run(Step(s, c), cs[..i])
  {
    assert ([c] + cs)[..i + 1] == [c] + cs[..i];
    RunFirst(s, [], c, cs[..i]);
  }

  lemma RunFirstSkip(s: State, c: Call, cs: seq<Call>)
    ensures RunRaisesSkip(s, [c] + cs) <==> RaisesSkip(s, c) || RunRaisesSkip(Step(s, c), cs)
    ensures RunSubmits(s, [c] + cs) <==> Submits(s, c) || RunSubmits(Step(s, c), cs)
  {
    hide Step, RaisesSkip, Submits, Run;
    var all := [c] + cs;
    RunNothing(s, []);
    assert all[..0] == [] && all[0] == c;
    forall i: nat | i < |cs|
      ensures Run(s, all[..i + 1]) == Run(Step(s, c), cs[..i]) && all[i + 1] == cs[i]
    {
      RunLater(s, c, cs, i);
    }
    if RunRaisesSkip(s, all) {
      var i: nat :| i < |all| && RaisesSkip(Run(s, all[..i]), all[i]);
      assert i > 0 ==> RaisesSkip(Run(Step(s, c), cs[..i - 1]), cs[i - 1]);
    }
    if RunSubmits(s, all) {
      var i: nat :| i < |all| && Submits(Run(s, all[..i]), all[i]);
      assert i > 0 ==> Submits(Run(Step(s, c), cs[..i - 1]), cs[i - 1]);
    }
  }

  /** While nothing is handed to the hardware, a raised skip stays pending. */
  lemma {:induction false} SkipStaysPending(s: State, cs: seq<Call>)
    requires !RunSubmits(s, cs)
    ensures Run(s, cs).skipRequested <==> s.skipRequested || RunRaisesSkip(s, cs)
    decreases |cs|
  {
    hide Step, RaisesSkip, Submits, RunRaisesSkip, RunSubmits;
    if cs == [] {
      NoneRaised(s);
    } else {
      assert cs == [cs[0]] + cs[1..];
      RunFirstSkip(s, cs[0], cs[1..]);
      StepSkip(s, cs[0]);
      SkipStaysPending(Step(s, cs[0]), cs[1..]);
    }
  }

  lemma NoneRaised(s: State)
    ensures !RunRaisesSkip(s, []) && !RunSubmits(s, [])
  {
  }

  /** The next input behind a run without inputs is sent with the skip flag if
      and only if a skip was pending, a SkipFrame call came, or one of the
      checks since asked for a skip, that of the input itself included; and
      no skip is pending behind it. */
  lemma SkipGoesWithNextInput(s: State, cs: seq<Call>, f: Frame)
    requires !RunSubmits(s, cs) && Submits(Run(s, cs), Encode(f))
    ensures var (t, sent) := Encoded(Run(s, cs), f);
            && sent.Submitted? && !t.skipRequested
            && (sent.forceSkip <==> s.skipRequested || RunRaisesSkip(s, cs) || AsksForSkip(Run(s, cs), f))
  {
    hide Step, AsksForSkip, Submits, RunRaisesSkip, RunSubmits, Run, Encoded;
    SkipStaysPending(s, cs);
    StepSkip(Run(s, cs), Encode(f));
    EncodeStep(Run(s, cs), f);
  }
}
