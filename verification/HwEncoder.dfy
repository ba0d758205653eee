/**
  The state machine of AML_HWEncoder.cpp: parameter sets, inputs, slices and
  the GOP counter that decides on IDR frames. What the hardware and the rate
  control answer comes in with each call.
 */
module HwEncoders {

  datatype Phase = EncodingSps | AnalyzingFrame | WaitingForBuffer | EncodingFrame

  /** What AMVEncodeInitFrame answers; Other stands for every other status. */
  datatype InitStatus = InitSuccess | InitNewIdr | InitPictureReady | InitOther

  /** What AMVEncodeSlice answers; SliceError stands for every other status. */
  datatype SliceStatus = SliceTimeout | SliceSuccess | SlicePictureReady | SliceNewIdr | SliceError

  datatype RateStatus = RateSkip | RateReencode | RateOther

  /** skipsReencoded: the build looks at the rate control again after any
      re-encoding that gave a picture, as h264/bjunion_enc does, and not only
      after one that gave an IDR, as amvenc_264/bjunion_enc does. */
  datatype Config = Config(idrPeriod: int, outOfBand: bool, freeRun: bool, skipsReencoded: bool)

  datatype State = State(phase: Phase, nalIdr: bool, frameInGop: nat, firstFrame: bool)

  /** One call: an input with its force flag, or the request for the next
      piece of the stream. onTime is DetermineFrameNum's view of the clock. */
  datatype Call =
    | SetInput(pitchOk: bool, onTime: bool, force: bool, init: InitStatus)
    | EncodeNal(setsOk: bool, cancel: bool, slice: SliceStatus, rate: RateStatus,
                again: SliceStatus, rateAgain: RateStatus, commitOk: bool)

  /** What a call does that matters to the stream. */
  datatype Event = Accepted(newIdr: bool) | SetsSent | SliceSent | Committed(idr: bool)

  // ---------- one step ----------

  predicate PeriodIsOver(c: Config, s: State) {
    c.idrPeriod > 0 && s.frameInGop >= c.idrPeriod
  }

  /** DetermineFrameNum, for an input that is on time. */
  function Determined(c: Config, s: State, force: bool): State {
    s.(nalIdr := s.firstFrame || PeriodIsOver(c, s) || force)
  }

  /** AML_HWSetInput from RECALL_INITFRAME on. */
  function InitFrame(c: Config, s: State, init: InitStatus): (State, seq<Event>) {
    var t := s.(nalIdr := s.nalIdr || init.InitNewIdr?);
    var u := if t.nalIdr then t.(frameInGop := 0) else t;
    match init
    case InitSuccess => (u.(phase := EncodingFrame), [Accepted(false)])
    case InitNewIdr => (u.(phase := if c.outOfBand then EncodingFrame else EncodingSps), [Accepted(true)])
    case InitPictureReady => (u.(phase := WaitingForBuffer), [])
    case InitOther => (u, [])
  }

  function InputStep(c: Config, s: State, k: Call): (State, seq<Event>)
    requires k.SetInput?
  {
    if s.phase == WaitingForBuffer then InitFrame(c, s, k.init)
    else if s.phase != AnalyzingFrame || !k.pitchOk then (s, [])
    else if !s.firstFrame && !k.onTime then (s, [])
    else InitFrame(c, Determined(c, s, k.force), k.init)
  }

  /** AMVEncodeCommit and what follows it. */
  function CommitStep(s: State, ok: bool): (State, seq<Event>) {
    if ok then (s.(phase := AnalyzingFrame, frameInGop := s.frameInGop + 1), [Committed(s.nalIdr)])
    else (s.(phase := AnalyzingFrame), [])
  }

  /** The re-encoding of a picture, and its commit. */
  function ReencodeStep(c: Config, s: State, k: Call): (State, seq<Event>)
    requires k.EncodeNal?
  {
    if k.again.SliceTimeout? || k.again.SliceError? then (s, [])
    else
      var t := s.(nalIdr := s.nalIdr || k.again.SliceNewIdr?);
      if (k.again.SliceNewIdr? || (c.skipsReencoded && k.again.SlicePictureReady?)) && k.rateAgain.RateSkip? && !c.freeRun
      then (t.(phase := AnalyzingFrame), [SliceSent])
      else
        var (u, es) := CommitStep(t, k.commitOk);
        (u, [SliceSent] + es)
  }

  /** The slice of a frame, with a picture or an IDR as the answer. */
  function PictureStep(c: Config, s: State, k: Call): (State, seq<Event>)
    requires k.EncodeNal?
  {
    if k.rate.RateSkip? && !c.freeRun then (s.(phase := AnalyzingFrame), [])
    else if k.rate.RateReencode? then ReencodeStep(c, s, k)
    else CommitStep(s, k.commitOk)
  }

  function SliceStep(c: Config, s: State, k: Call): (State, seq<Event>)
    requires k.EncodeNal?
  {
    if k.cancel || k.slice.SliceTimeout? then (s.(phase := AnalyzingFrame), [])
    else if k.slice.SliceError? then (s, [])
    else
      var t := s.(nalIdr := s.nalIdr || k.slice.SliceNewIdr?);
      if k.slice.SliceSuccess? then (t, [SliceSent])
      else
        var (u, es) := PictureStep(c, t.(firstFrame := false), k);
        (u, [SliceSent] + es)
  }

  function NalStep(c: Config, s: State, k: Call): (State, seq<Event>)
    requires k.EncodeNal?
  {
    match s.phase
    case EncodingSps =>
      if k.setsOk then (s.(phase := if c.outOfBand then AnalyzingFrame else EncodingFrame), [SetsSent]) else (s, [])
    case EncodingFrame => SliceStep(c, s, k)
    case _ => (s, [])
  }

  function Step(c: Config, s: State, k: Call): (State, seq<Event>) {
    if k.SetInput? then InputStep(c, s, k) else NalStep(c, s, k)
  }

  /** The state after AML_HWEncInitialize. */
  function Initial(c: Config): State {
    State(if c.outOfBand then EncodingSps else AnalyzingFrame, false, 0, true)
  }

  function Run(c: Config, s: State, ks: seq<Call>): State
    decreases |ks|
  {
    if ks == [] then s else Run(c, Step(c, s, ks[0]).0, ks[1..])
  }

  function Trace(c: Config, s: State, ks: seq<Call>): seq<Event>
    decreases |ks|
  {
    if ks == [] then [] else Step(c, s, ks[0]).1 + Trace(c, Step(c, s, ks[0]).0, ks[1..])
  }

  // ---------- the handle ----------

  class HwEncoder {
    const config: Config
    var phase: Phase
    var nalIdr: bool
    var frameInGop: nat
    var firstFrame: bool
    ghost var events: seq<Event>

    ghost function Abs(): State
      reads this
    {
      State(phase, nalIdr, frameInGop, firstFrame)
    }

    /** AML_HWEncInitialize. */
    constructor (config: Config)
      ensures this.config == config && Abs() == Initial(config) && events == []
    {
      this.config := config;
      phase := if config.outOfBand then EncodingSps else AnalyzingFrame;
      nalIdr, frameInGop, firstFrame := false, 0, true;
      events := [];
    }

    /** DetermineFrameNum; the clock's answer is onTime. */
    method DetermineFrameNum(onTime: bool, force: bool) returns (accepted: bool)
      modifies this`nalIdr
      ensures accepted == (firstFrame || onTime)
      ensures Abs() == if accepted then Determined(config, old(Abs()), force) else old(Abs())
    {
      if firstFrame {
        nalIdr := true;
        return true;
      }
      if !onTime {
        return false;
      }
      if frameInGop >= config.idrPeriod && config.idrPeriod > 0 {
        nalIdr := true;
      } else if force {
        nalIdr := true;
      } else {
        nalIdr := false;
      }
      return true;
    }

    /** AML_HWSetInput. */
    method SetInput(k: Call)
      requires k.SetInput?
      modifies this
      ensures Abs() == InputStep(config, old(Abs()), k).0 && events == old(events) + InputStep(config, old(Abs()), k).1
    {
      if phase != WaitingForBuffer {
        if phase != AnalyzingFrame {
          return;
        }
        if !k.pitchOk {
          return;
        }
        var accepted := DetermineFrameNum(k.onTime, k.force);
        if !accepted {
          return;
        }
      }
      if k.init == InitNewIdr && !nalIdr {
        nalIdr := true;
      }
      if nalIdr {
        frameInGop := 0;
      }
      if k.init == InitSuccess {
        phase := EncodingFrame;
        events := events + [Accepted(false)];
      } else if k.init == InitNewIdr {
        phase := if config.outOfBand then EncodingFrame else EncodingSps;
        events := events + [Accepted(true)];
      } else if k.init == InitPictureReady {
        phase := WaitingForBuffer;
      }
    }

    /** AMVEncodeCommit and what follows it. */
    method Commit(ok: bool)
      modifies this
      ensures Abs() == CommitStep(old(Abs()), ok).0 && events == old(events) + CommitStep(old(Abs()), ok).1
    {
      if ok {
        frameInGop := frameInGop + 1;
        events := events + [Committed(nalIdr)];
      }
      phase := AnalyzingFrame;
    }

    /** The re-encoding of a picture, and its commit. */
    method Reencode(k: Call)
      requires k.EncodeNal?
      modifies this
      ensures Abs() == ReencodeStep(config, old(Abs()), k).0
      ensures events == old(events) + ReencodeStep(config, old(Abs()), k).1
    {
      hide CommitStep;
      if k.again != SlicePictureReady && k.again != SliceSuccess && k.again != SliceNewIdr {
        return;
      }
      nalIdr := if k.again == SliceNewIdr then true else nalIdr;
      events := events + [SliceSent];
      if k.again == SliceNewIdr || (config.skipsReencoded && k.again == SlicePictureReady) {
        if k.rateAgain == RateSkip && !config.freeRun {
          phase := AnalyzingFrame;
          return;
        }
      }
      Commit(k.commitOk);
    }

    /** A picture or an IDR that the hardware has finished. */
    method FinishPicture(k: Call)
      requires k.EncodeNal?
      modifies this
      ensures Abs() == PictureStep(config, old(Abs()), k).0
      ensures events == old(events) + PictureStep(config, old(Abs()), k).1
    {
      hide CommitStep, ReencodeStep;
      if k.rate == RateSkip && !config.freeRun {
        phase := AnalyzingFrame;
        return;
      }
      if k.rate == RateReencode {
        Reencode(k);
      } else {
        Commit(k.commitOk);
      }
    }

    /** AML_HWEncNAL while a frame is being encoded. */
    method EncodeSlice(k: Call)
      requires k.EncodeNal?
      modifies this
      ensures Abs() == SliceStep(config, old(Abs()), k).0
      ensures events == old(events) + SliceStep(config, old(Abs()), k).1
    {
      hide PictureStep;
      if k.cancel {
        phase := AnalyzingFrame;
        return;
      }
      if k.slice == SliceTimeout {
        phase := AnalyzingFrame;
        return;
      }
      if k.slice != SlicePictureReady && k.slice != SliceSuccess && k.slice != SliceNewIdr {
        return;
      }
      nalIdr := if k.slice == SliceNewIdr then true else nalIdr;
      events := events + [SliceSent];
      if k.slice == SlicePictureReady || k.slice == SliceNewIdr {
        firstFrame := false;
        FinishPicture(k);
      }
    }

    /** AML_HWEncNAL. */
    method EncodeNal(k: Call)
      requires k.EncodeNal?
      modifies this
      ensures Abs() == NalStep(config, old(Abs()), k).0 && events == old(events) + NalStep(config, old(Abs()), k).1
    {
      hide SliceStep;
      match phase {
        case EncodingSps =>
          if !k.setsOk {
            return;
          }
          events := events + [SetsSent];
          phase := if config.outOfBand then AnalyzingFrame else EncodingFrame;
        case EncodingFrame =>
          EncodeSlice(k);
        case _ =>
      }
    }
  }

  // ---------- which frames are IDR frames ----------

  /** An input that is taken is marked as an IDR if and only if it is the first,
      the period is over, it is forced, or the hardware answers so; a mark sets
      the counter to zero, and nothing else of an input changes the counter. */
  lemma InputMarks(c: Config, s: State, k: Call)
    requires k.SetInput? && s.phase == AnalyzingFrame
    ensures var (t, es) := Step(c, s, k);
            if k.pitchOk && (k.onTime || s.firstFrame) then
              && (t.nalIdr <==> s.firstFrame || (c.idrPeriod > 0 && s.frameInGop >= c.idrPeriod) || k.force || k.init.InitNewIdr?)
              && t.frameInGop == (if t.nalIdr then 0 else s.frameInGop) && t.firstFrame == s.firstFrame
              && t.phase == PhaseBehind(c, k.init, AnalyzingFrame)
              && es == (if k.init.InitSuccess? || k.init.InitNewIdr? then [Accepted(k.init.InitNewIdr?)] else [])
            else
              t == s && es == []
  {
  }

  /** An input that waits for its buffer keeps its mark, or is given one by the
      hardware. */
  lemma WaitingInputMarks(c: Config, s: State, k: Call)
    requires k.SetInput? && s.phase == WaitingForBuffer
    ensures var (t, es) := Step(c, s, k);
            && (t.nalIdr <==> s.nalIdr || k.init.InitNewIdr?)
            && t.frameInGop == (if t.nalIdr then 0 else s.frameInGop) && t.firstFrame == s.firstFrame
            && t.phase == PhaseBehind(c, k.init, WaitingForBuffer)
            && es == (if k.init.InitSuccess? || k.init.InitNewIdr? then [Accepted(k.init.InitNewIdr?)] else [])
  {
  }

  /** Where an answer to an input leads. */
  function PhaseBehind(c: Config, init: InitStatus, phase: Phase): Phase {
    match init
    case InitSuccess => EncodingFrame
    case InitNewIdr => if c.outOfBand then EncodingFrame else EncodingSps
    case InitPictureReady => WaitingForBuffer
    case InitOther => phase
  }

  /** Calls while a frame is under way: it keeps its mark until it is committed
      or given up, and what is committed then is an IDR. */
  lemma MarkStays(c: Config, s: State, k: Call)
    requires s.nalIdr && s.phase != AnalyzingFrame
    ensures var (t, es) := Step(c, s, k);
            (t.phase != AnalyzingFrame ==> t.nalIdr) && forall e :: e in es && e.Committed? ==> e.idr
  {
  }

  /** The frame is under way until the last of the calls. */
  predicate UnderWay(c: Config, s: State, ks: seq<Call>)
    decreases |ks|
  {
    s.phase != AnalyzingFrame && (|ks| <= 1 || UnderWay(c, Step(c, s, ks[0]).0, ks[1..]))
  }

  lemma {:induction false} MarkedFrame(c: Config, s: State, ks: seq<Call>)
    requires s.nalIdr && UnderWay(c, s, ks)
    ensures forall e :: e in Trace(c, s, ks) && e.Committed? ==> e.idr
    decreases |ks|
  {
    hide Step;
    if ks != [] {
      MarkStays(c, s, ks[0]);
      if |ks| > 1 {
        MarkedFrame(c, Step(c, s, ks[0]).0, ks[1..]);
      }
    }
  }

  /** A forced input that is taken is coded as an IDR: whatever calls its frame
      takes until it is committed or given up, what is committed is an IDR. */
  lemma ForcedInputIsIdr(c: Config, s: State, k: Call, ks: seq<Call>)
    requires k.SetInput? && s.phase == AnalyzingFrame && k.force && k.pitchOk && (k.onTime || s.firstFrame)
    ensures var t := Step(c, s, k).0;
            && t.nalIdr && t.frameInGop == 0
            && (UnderWay(c, t, ks) ==> forall e :: e in Trace(c, t, ks) && e.Committed? ==> e.idr)
  {
    InputMarks(c, s, k);
    hide Step;
    var t := Step(c, s, k).0;
    if UnderWay(c, t, ks) {
      MarkedFrame(c, t, ks);
    }
  }

  /** A slice call commits an IDR if and only if the frame was marked or one of
      the slices was answered with a new IDR. */
  lemma CommittedFlag(c: Config, s: State, k: Call, idr: bool)
    requires k.EncodeNal? && s.phase == EncodingFrame && Committed(idr) in Step(c, s, k).1
    ensures idr <==> s.nalIdr || k.slice.SliceNewIdr? || (k.rate.RateReencode? && k.again.SliceNewIdr?)
  {
  }

  // ---------- the GOP counter ----------

  /** In every reachable state: an accepted frame has room in its group, and
      no group outgrows the period. */
  predicate CounterInRange(c: Config, s: State) {
    c.idrPeriod > 0 ==>
      && s.frameInGop <= c.idrPeriod
      && (s.phase == EncodingFrame || s.phase == WaitingForBuffer || (s.phase == EncodingSps && !c.outOfBand)
          ==> s.frameInGop < c.idrPeriod)
  }

  lemma StepKeepsCounter(c: Config, s: State, k: Call)
    requires CounterInRange(c, s)
    ensures CounterInRange(c, Step(c, s, k).0)
  {
  }

  /** The counter never exceeds the period, whatever the calls and answers,
      drops included. */
  lemma {:induction false} CounterStaysInRange(c: Config, s: State, ks: seq<Call>)
    requires CounterInRange(c, s)
    ensures CounterInRange(c, Run(c, s, ks))
    decreases |ks|
  {
    hide CounterInRange, Step;
    if ks != [] {
      StepKeepsCounter(c, s, ks[0]);
      CounterStaysInRange(c, Step(c, s, ks[0]).0, ks[1..]);
    }
  }

  // ---------- parameter sets ----------

  lemma StepOutOfBand(c: Config, s: State, k: Call)
    requires c.outOfBand
    ensures var (t, es) := Step(c, s, k);
            && (s.phase == EncodingSps ==>
                  (es == [] && t.phase == EncodingSps) || (es == [SetsSent] && t.phase == AnalyzingFrame))
            && (s.phase != EncodingSps ==> SetsSent !in es && t.phase != EncodingSps)
  {
  }

  lemma {:induction false} NoMoreSets(c: Config, s: State, ks: seq<Call>)
    requires c.outOfBand && s.phase != EncodingSps
    ensures SetsSent !in Trace(c, s, ks)
    decreases |ks|
  {
    hide Step;
    if ks != [] {
      StepOutOfBand(c, s, ks[0]);
      NoMoreSets(c, Step(c, s, ks[0]).0, ks[1..]);
    }
  }

  /** With out-of-band sets, the first thing that comes out of any run is the
      parameter sets, and they come once. */
  lemma {:induction false} SetsComeFirstAndOnce(c: Config, s: State, ks: seq<Call>)
    requires c.outOfBand && s.phase == EncodingSps
    ensures var es := Trace(c, s, ks); es == [] || (es[0] == SetsSent && SetsSent !in es[1..])
    decreases |ks|
  {
    hide Step;
    if ks != [] {
      StepOutOfBand(c, s, ks[0]);
      var (t, es) := Step(c, s, ks[0]);
      if es == [] {
        SetsComeFirstAndOnce(c, t, ks[1..]);
        assert [] + Trace(c, t, ks[1..]) == Trace(c, t, ks[1..]);
      } else {
        NoMoreSets(c, t, ks[1..]);
        assert ([SetsSent] + Trace(c, t, ks[1..]))[1..] == Trace(c, t, ks[1..]);
      }
    }
  }

  lemma StepInBand(c: Config, s: State, k: Call)
    requires !c.outOfBand
    ensures var (t, es) := Step(c, s, k);
            && (s.phase == EncodingSps ==> (es == [] && t.phase == EncodingSps) || es == [SetsSent])
            && (Accepted(true) in es ==> es == [Accepted(true)] && t.phase == EncodingSps)
  {
  }

  /** With in-band sets, an input that the hardware made an IDR is followed at
      once by the parameter sets, before any slice of it. */
  lemma {:induction false} SetsFollowNewIdr(c: Config, s: State, ks: seq<Call>)
    requires !c.outOfBand
    ensures var es := Trace(c, s, ks);
            && (s.phase == EncodingSps ==> es == [] || es[0] == SetsSent)
            && forall i: nat :: i + 1 < |es| && es[i] == Accepted(true) ==> es[i + 1] == SetsSent
    decreases |ks|
  {
    hide Step;
    if ks != [] {
      StepInBand(c, s, ks[0]);
      var (t, es) := Step(c, s, ks[0]);
      SetsFollowNewIdr(c, t, ks[1..]);
      var rest := Trace(c, t, ks[1..]);
      forall i: nat | i + 1 < |es + rest| && (es + rest)[i] == Accepted(true)
        ensures (es + rest)[i + 1] == SetsSent
      {
        if i < |es| {
          assert es[i] in es;
        } else {
          assert rest[i - |es|] == Accepted(true);
        }
      }
    }
  }

  // ---------- inputs and commits ----------

  predicate IsAccepted(e: Event) {
    e.Accepted?
  }

  predicate HasFrame(c: Config, s: State) {
    s.phase == EncodingFrame || (s.phase == EncodingSps && !c.outOfBand)
  }

  lemma StepCommits(c: Config, s: State, k: Call)
    ensures var (t, es) := Step(c, s, k);
            && |es| <= 3
            && (forall i: nat :: i < |es| && es[i].Committed? ==>
                  i + 1 == |es| && s.phase == EncodingFrame && t.phase == AnalyzingFrame)
            && (HasFrame(c, t) && !HasFrame(c, s) ==> |es| == 1 && es[0].Accepted?)
  {
  }

  /** Before a commit comes an accepted input, unless one is already there. */
  lemma {:induction false} CommitNeedsInput(c: Config, s: State, ks: seq<Call>, j: nat)
    requires !HasFrame(c, s) && j < |Trace(c, s, ks)| && Trace(c, s, ks)[j].Committed?
    ensures exists i: nat :: i < j && IsAccepted(Trace(c, s, ks)[i])
    decreases |ks|
  {
    hide Step;
    StepCommits(c, s, ks[0]);
    var (t, es) := Step(c, s, ks[0]);
    var all := Trace(c, s, ks);
    assert forall i: nat :: i < |es| ==> all[i] == es[i];
    if HasFrame(c, t) {
      assert IsAccepted(all[0]);
    } else {
      CommitNeedsInput(c, t, ks[1..], j - |es|);
      var i: nat :| i < j - |es| && IsAccepted(Trace(c, t, ks[1..])[i]);
      assert IsAccepted(all[|es| + i]);
    }
  }

  /** At least one accepted input lies between any two commits. */
  lemma {:induction false} InputBetweenCommits(c: Config, s: State, ks: seq<Call>, i: nat, j: nat)
    requires var es := Trace(c, s, ks); i < j < |es| && es[i].Committed? && es[j].Committed?
    ensures exists m: nat :: i < m < j && IsAccepted(Trace(c, s, ks)[m])
    decreases |ks|
  {
    hide Step;
    StepCommits(c, s, ks[0]);
    var (t, es) := Step(c, s, ks[0]);
    var all, rest := Trace(c, s, ks), Trace(c, t, ks[1..]);
    if i < |es| {
      assert es[i].Committed? && i + 1 == |es|;
      CommitNeedsInput(c, t, ks[1..], j - |es|);
      var m: nat :| m < j - |es| && IsAccepted(rest[m]);
      assert IsAccepted(all[|es| + m]);
    } else {
      InputBetweenCommits(c, t, ks[1..], i - |es|, j - |es|);
      var m: nat :| i - |es| < m < j - |es| && IsAccepted(rest[m]);
      assert IsAccepted(all[|es| + m]);
    }
  }

  // ---------- the spacing of IDR frames ----------

  /** A frame that is given up without a commit. */
  predicate Lost(t: State, es: seq<Event>) {
    t.phase == AnalyzingFrame && forall e :: e in es ==> !e.Committed?
  }

  /** Do the answers that come behind a picture give it up? */
  predicate PictureGivenUp(c: Config, k: Call)
    requires k.EncodeNal?
  {
    if k.rate.RateSkip? && !c.freeRun then true
    else if k.rate.RateReencode? then
      && !k.again.SliceTimeout? && !k.again.SliceError?
      && (!k.commitOk || (k.rateAgain.RateSkip? && !c.freeRun
                          && (k.again.SliceNewIdr? || (c.skipsReencoded && k.again.SlicePictureReady?))))
    else !k.commitOk
  }

  /** Do the answers to a call for a slice give up the frame, with a picture of
      the stream already there? */
  predicate GivesUp(c: Config, s: State, k: Call)
    requires k.EncodeNal?
  {
    if k.cancel || k.slice.SliceTimeout? then !s.firstFrame
    else if k.slice.SliceError? || k.slice.SliceSuccess? then false
    else PictureGivenUp(c, k)
  }

  /** Such answers are exactly those that end the frame without a commit. */
  lemma GivesUpExactly(c: Config, s: State, k: Call)
    requires k.EncodeNal? && s.phase == EncodingFrame
    ensures var (t, es) := SliceStep(c, s, k); GivesUp(c, s, k) <==> Lost(t, es) && !t.firstFrame
  {
    if k.slice.SlicePictureReady? || k.slice.SliceNewIdr? {
      var t := s.(nalIdr := s.nalIdr || k.slice.SliceNewIdr?, firstFrame := false);
      var (u, es) := PictureStep(c, t, k);
      PictureIsLost(c, t, k);
      LostBehindSlice(u, es);
    }
  }

  lemma PictureIsLost(c: Config, s: State, k: Call)
    requires k.EncodeNal? && s.phase == EncodingFrame && !s.firstFrame
    ensures var (t, es) := PictureStep(c, s, k); !t.firstFrame && (Lost(t, es) <==> PictureGivenUp(c, k))
  {
    CommitIsLost(s, k.commitOk);
    if k.rate.RateReencode? && !k.again.SliceTimeout? && !k.again.SliceError? {
      var t := s.(nalIdr := s.nalIdr || k.again.SliceNewIdr?);
      CommitIsLost(t, k.commitOk);
      var (u, es) := CommitStep(t, k.commitOk);
      LostBehindSlice(u, es);
      LostBehindSlice(t.(phase := AnalyzingFrame), []);
      assert [SliceSent] + [] == [SliceSent];
    }
  }

  lemma CommitIsLost(s: State, ok: bool)
    ensures var (t, es) := CommitStep(s, ok); Lost(t, es) <==> !ok
  {
    assert Committed(s.nalIdr) in [Committed(s.nalIdr)];
  }

  lemma LostBehindSlice(t: State, es: seq<Event>)
    ensures Lost(t, [SliceSent] + es) <==> Lost(t, es)
  {
    assert forall e :: e in es ==> e in [SliceSent] + es;
  }

  /** Does a call lose a frame that was marked as an IDR when it was put in?
      The mark has set the counter to zero by then, so a zero counter tells
      it from a frame that a slice made an IDR later. While no picture has
      come yet, the next input is marked again, and nothing is lost. */
  predicate Harms(c: Config, s: State, k: Call) {
    match k
    case SetInput(pitchOk, onTime, force, init) =>
      s.phase == AnalyzingFrame && pitchOk && onTime && !s.firstFrame && init.InitOther? && Determined(c, s, force).nalIdr
    case EncodeNal(_, _, _, _, _, _, _) =>
      s.phase == EncodingFrame && s.nalIdr && s.frameInGop == 0 && GivesUp(c, s, k)
  }

  predicate Harmless(c: Config, s: State, ks: seq<Call>)
    decreases |ks|
  {
    ks == [] || (!Harms(c, s, ks[0]) && Harmless(c, Step(c, s, ks[0]).0, ks[1..]))
  }

  /** The IDR flags of the committed frames, in order. */
  function Frames(es: seq<Event>): seq<bool> {
    if es == [] then [] else FrameOf(es[0]) + Frames(es[1..])
  }

  function FrameOf(e: Event): seq<bool> {
    if e.Committed? then [e.idr] else []
  }

  lemma {:induction false} FramesAppend(es: seq<Event>, fs: seq<Event>)
    ensures Frames(es + fs) == Frames(es) + Frames(fs)
  {
    hide FrameOf;
    if es == [] {
      assert es + fs == fs;
    } else {
      assert (es + fs)[1..] == es[1..] + fs;
      FramesAppend(es[1..], fs);
      assert FrameOf(es[0]) + (Frames(es[1..]) + Frames(fs)) == (FrameOf(es[0]) + Frames(es[1..])) + Frames(fs);
    }
  }

  /** The committed frames from the last IDR on, that one included; all of
      them if there is no IDR. */
  function SinceIdr(frames: seq<bool>): (n: nat)
    ensures n <= |frames|
  {
    if frames == [] then 0
    else if frames[|frames| - 1] then 1
    else SinceIdr(frames[..|frames| - 1]) + 1
  }

  lemma SinceIdrOfNext(frames: seq<bool>, idr: bool)
    ensures SinceIdr(frames + [idr]) == if idr then 1 else SinceIdr(frames) + 1
  {
    assert (frames + [idr])[..|frames|] == frames;
  }

  predicate Busy(c: Config, s: State) {
    HasFrame(c, s) || s.phase == WaitingForBuffer
  }

  /** No stretch of committed frames without an IDR outgrows the period. */
  ghost predicate Regular(c: Config, frames: seq<bool>) {
    c.idrPeriod > 0 ==> forall n: nat :: n <= |frames| ==> SinceIdr(frames[..n]) <= c.idrPeriod
  }

  /** A frame that was marked as an IDR is on its way. */
  predicate IdrOnItsWay(c: Config, s: State) {
    Busy(c, s) && s.nalIdr && s.frameInGop == 0
  }

  /** What links the counter to the committed frames in a harmless run. */
  ghost predicate Spaced(c: Config, s: State, frames: seq<bool>) {
    && CounterInRange(c, s) && Regular(c, frames)
    && (s.firstFrame ==> frames == [])
    && (frames != [] ==> frames[0])
    && (frames == [] ==> s.frameInGop == 0 && if Busy(c, s) then s.nalIdr else s.firstFrame)
    && (IdrOnItsWay(c, s) || SinceIdr(frames) <= s.frameInGop)
  }

  lemma InputKeepsSpacing(c: Config, s: State, k: Call, frames: seq<bool>)
    requires k.SetInput? && Spaced(c, s, frames) && !Harms(c, s, k)
    ensures Spaced(c, Step(c, s, k).0, frames) && Frames(Step(c, s, k).1) == []
  {
    StepKeepsCounter(c, s, k);
    hide Regular, CounterInRange;
  }

  lemma NextIsRegular(c: Config, frames: seq<bool>, idr: bool)
    requires Regular(c, frames) && (c.idrPeriod > 0 && !idr ==> SinceIdr(frames) < c.idrPeriod)
    ensures Regular(c, frames + [idr])
  {
    var next := frames + [idr];
    SinceIdrOfNext(frames, idr);
    forall n: nat | n <= |next|
      ensures c.idrPeriod > 0 ==> SinceIdr(next[..n]) <= c.idrPeriod
    {
      if n <= |frames| {
        assert next[..n] == frames[..n];
      } else {
        assert next[..n] == next;
      }
    }
  }

  /** A lost frame leaves the counter, and no committed frame. */
  predicate LostBy(s: State, t: State, es: seq<Event>) {
    Lost(t, es) && Frames(es) == [] && t.frameInGop == s.frameInGop && (t.firstFrame ==> s.firstFrame)
  }

  /** What becomes of a frame that is not lost: it is committed, or still there. */
  predicate Outcome(s: State, t: State, es: seq<Event>) {
    && (s.nalIdr ==> t.nalIdr) && (t.firstFrame ==> s.firstFrame)
    && if t.phase == AnalyzingFrame then
         Frames(es) == [t.nalIdr] && t.frameInGop == s.frameInGop + 1 && !t.firstFrame
       else
         Frames(es) == [] && t.phase == EncodingFrame && t.frameInGop == s.frameInGop
  }

  lemma ReencodeOutcome(c: Config, s: State, k: Call)
    requires k.EncodeNal? && s.phase == EncodingFrame && !s.firstFrame
    ensures var (t, es) := ReencodeStep(c, s, k); LostBy(s, t, es) || Outcome(s, t, es)
  {
    FrameLists(ReencodeStep(c, s, k).0.nalIdr);
  }

  lemma PictureOutcome(c: Config, s: State, k: Call)
    requires k.EncodeNal? && s.phase == EncodingFrame && !s.firstFrame
    ensures var (t, es) := PictureStep(c, s, k); LostBy(s, t, es) || Outcome(s, t, es)
  {
    hide ReencodeStep;
    FrameLists(s.nalIdr);
    ReencodeOutcome(c, s, k);
  }

  lemma BehindSlice(s: State, u: State, t: State, es: seq<Event>)
    requires (s.nalIdr ==> u.nalIdr) && (u.firstFrame ==> s.firstFrame) && u.frameInGop == s.frameInGop
    ensures Outcome(u, t, es) ==> Outcome(s, t, [SliceSent] + es)
    ensures LostBy(u, t, es) ==> LostBy(s, t, [SliceSent] + es)
  {
    FramesAppend([SliceSent], es);
    FrameLists(false);
    assert [] + Frames(es) == Frames(es);
  }

  lemma SliceOutcome(c: Config, s: State, k: Call)
    requires k.EncodeNal? && s.phase == EncodingFrame
    ensures var (t, es) := SliceStep(c, s, k); LostBy(s, t, es) || Outcome(s, t, es)
  {
    hide PictureStep, Outcome;
    FrameLists(false);
    hide Frames;
    if k.slice.SlicePictureReady? || k.slice.SliceNewIdr? {
      var u := s.(nalIdr := s.nalIdr || k.slice.SliceNewIdr?, firstFrame := false);
      PictureOutcome(c, u, k);
      var (t, es) := PictureStep(c, u, k);
      BehindSlice(s, u, t, es);
    } else {
      StillThere(s, s.(nalIdr := s.nalIdr || k.slice.SliceNewIdr?));
    }
  }

  lemma StillThere(s: State, t: State)
    requires t == s.(nalIdr := t.nalIdr) && (s.nalIdr ==> t.nalIdr) && s.phase == EncodingFrame
    ensures Outcome(s, t, []) && Outcome(s, t, [SliceSent])
  {
    FrameLists(false);
  }

  lemma FrameLists(idr: bool)
    ensures Frames([]) == [] && Frames([SliceSent]) == [] && Frames([SetsSent]) == []
    ensures Frames([Committed(idr)]) == [idr]
    ensures Frames([SliceSent, Committed(idr)]) == [idr]
    ensures Frames([SliceSent, SliceSent, Committed(idr)]) == [idr]
  {
    FramesAppend([SliceSent], [Committed(idr)]);
    assert [SliceSent] + [Committed(idr)] == [SliceSent, Committed(idr)];
    FramesAppend([SliceSent], [SliceSent, Committed(idr)]);
    assert [SliceSent] + [SliceSent, Committed(idr)] == [SliceSent, SliceSent, Committed(idr)];
  }

  lemma OutcomeKeepsSpacing(c: Config, s: State, t: State, es: seq<Event>, frames: seq<bool>)
    requires s.phase == EncodingFrame && Spaced(c, s, frames) && Outcome(s, t, es) && CounterInRange(c, t)
    ensures Spaced(c, t, frames + Frames(es))
  {
    hide Regular, Frames;
    if t.phase == AnalyzingFrame {
      NextIsRegular(c, frames, t.nalIdr);
      SinceIdrOfNext(frames, t.nalIdr);
    } else {
      assert frames + [] == frames;
    }
  }

  lemma LossKeepsSpacing(c: Config, s: State, t: State, es: seq<Event>, frames: seq<bool>)
    requires s.phase == EncodingFrame && Spaced(c, s, frames) && LostBy(s, t, es) && CounterInRange(c, t)
    requires s.nalIdr && s.frameInGop == 0 ==> t.firstFrame
    ensures Spaced(c, t, frames + Frames(es))
  {
    hide Regular, Frames, CounterInRange;
    assert frames + [] == frames;
  }

  lemma SliceKeepsSpacing(c: Config, s: State, k: Call, frames: seq<bool>)
    requires k.EncodeNal? && s.phase == EncodingFrame && Spaced(c, s, frames) && !Harms(c, s, k)
    ensures Spaced(c, Step(c, s, k).0, frames + Frames(Step(c, s, k).1))
  {
    StepKeepsCounter(c, s, k);
    SliceOutcome(c, s, k);
    GivesUpExactly(c, s, k);
    var (t, es) := Step(c, s, k);
    assert (t, es) == SliceStep(c, s, k);
    hide Step, Regular, Frames, SliceStep, GivesUp, Outcome;
    if Outcome(s, t, es) {
      OutcomeKeepsSpacing(c, s, t, es, frames);
    } else {
      LossKeepsSpacing(c, s, t, es, frames);
    }
  }

  lemma StepKeepsSpacing(c: Config, s: State, k: Call, frames: seq<bool>)
    requires Spaced(c, s, frames) && !Harms(c, s, k)
    ensures Spaced(c, Step(c, s, k).0, frames + Frames(Step(c, s, k).1))
  {
    hide Regular, CounterInRange, SliceStep;
    if k.SetInput? {
      InputKeepsSpacing(c, s, k, frames);
      assert frames + [] == frames;
    } else if s.phase == EncodingFrame {
      SliceKeepsSpacing(c, s, k, frames);
    } else {
      StepKeepsCounter(c, s, k);
      FrameLists(false);
      assert frames + [] == frames;
    }
  }

  lemma {:induction false} RunKeepsSpacing(c: Config, s: State, ks: seq<Call>, frames: seq<bool>)
    requires Spaced(c, s, frames) && Harmless(c, s, ks)
    ensures Spaced(c, Run(c, s, ks), frames + Frames(Trace(c, s, ks)))
    decreases |ks|
  {
    hide Spaced, Step, Harms;
    if ks == [] {
      assert frames + [] == frames;
    } else {
      var (t, es) := Step(c, s, ks[0]);
      StepKeepsSpacing(c, s, ks[0], frames);
      RunKeepsSpacing(c, t, ks[1..], frames + Frames(es));
      var rest := Trace(c, t, ks[1..]);
      FramesAppend(es, rest);
      assert frames + (Frames(es) + Frames(rest)) == frames + Frames(es) + Frames(rest);
    }
  }

  lemma {:induction false} SinceIdrMeans(frames: seq<bool>)
    requires frames != [] && frames[0]
    ensures var n := SinceIdr(frames); n > 0 && frames[|frames| - n]
  {
    var last := |frames| - 1;
    if !frames[last] {
      assert frames[..last][0] == frames[0];
      SinceIdrMeans(frames[..last]);
      assert frames[..last][last - SinceIdr(frames[..last])] == frames[last - SinceIdr(frames[..last])];
    }
  }

  /** One of the n frames from first on is an IDR. */
  ghost predicate HasIdr(frames: seq<bool>, first: nat, n: int) {
    exists i: nat :: first <= i < first + n && i < |frames| && frames[i]
  }

  /** Any idrPeriod committed frames in a row include an IDR. */
  ghost predicate EverySpan(c: Config, frames: seq<bool>) {
    forall first: nat :: first + c.idrPeriod <= |frames| ==> HasIdr(frames, first, c.idrPeriod)
  }

  lemma RegularSpans(c: Config, frames: seq<bool>)
    requires c.idrPeriod > 0 && Regular(c, frames) && (frames != [] ==> frames[0])
    ensures EverySpan(c, frames)
  {
    forall first: nat | first + c.idrPeriod <= |frames|
      ensures HasIdr(frames, first, c.idrPeriod)
    {
      var window := frames[..first + c.idrPeriod];
      assert SinceIdr(window) <= c.idrPeriod;
      assert window[0] == frames[0];
      SinceIdrMeans(window);
      assert frames[|window| - SinceIdr(window)];
    }
  }

  lemma StartIsSpaced(c: Config)
    ensures Spaced(c, Initial(c), [])
  {
    assert SinceIdr([]) == 0;
  }

  /** In every run from the start that loses no frame marked as an IDR, the
      first committed frame is an IDR and so is one of any idrPeriod committed
      frames in a row, whatever IDR frames are forced or raised by the hardware
      and whatever other frames are dropped. */
  lemma IdrSpacing(c: Config, ks: seq<Call>)
    requires c.idrPeriod > 0 && Harmless(c, Initial(c), ks)
    ensures var frames := Frames(Trace(c, Initial(c), ks)); EverySpan(c, frames) && (frames != [] ==> frames[0])
  {
    hide Trace, Run, Harmless, Frames, Regular;
    StartIsSpaced(c);
    RunKeepsSpacing(c, Initial(c), ks, []);
    var frames := Frames(Trace(c, Initial(c), ks));
    assert [] + frames == frames;
    RegularSpans(c, frames);
  }

  lemma TraceFirst(c: Config, s: State, k: Call, ks: seq<Call>)
    ensures Trace(c, s, [k] + ks) == Step(c, s, k).1 + Trace(c, Step(c, s, k).0, ks)
  {
    assert ([k] + ks)[1..] == ks;
  }

  // ---------- what a lost IDR frame does ----------

  const INPUT: Call := SetInput(true, true, false, InitSuccess)
  const SLICE: Call := EncodeNal(true, false, SlicePictureReady, RateOther, SliceError, RateOther, true)
  const LATE: Call := EncodeNal(true, false, SliceTimeout, RateOther, SliceError, RateOther, true)
  const SETS: Call := EncodeNal(true, false, SliceError, RateOther, SliceError, RateOther, true)

  /** n inputs, each with its slice, that are coded and committed without trouble. */
  function PlainCalls(n: nat): seq<Call> {
    if n == 0 then [] else [INPUT] + ([SLICE] + PlainCalls(n - 1))
  }

  lemma HarmlessFirst(c: Config, s: State, k: Call, ks: seq<Call>)
    ensures Harmless(c, s, [k] + ks) <==> !Harms(c, s, k) && Harmless(c, Step(c, s, k).0, ks)
  {
    hide Step, Harms;
    assert ([k] + ks)[1..] == ks;
  }

  /** An input that is accepted at once. */
  lemma PlainInput(c: Config, s: State, ks: seq<Call>)
    requires s.phase == AnalyzingFrame
    ensures var idr := s.firstFrame || PeriodIsOver(c, s);
            var u := State(EncodingFrame, idr, if idr then 0 else s.frameInGop, s.firstFrame);
            && Frames(Trace(c, s, [INPUT] + ks)) == Frames(Trace(c, u, ks))
            && (Harmless(c, s, [INPUT] + ks) <==> Harmless(c, u, ks))
  {
    hide Trace, Harmless;
    TraceFirst(c, s, INPUT, ks);
    HarmlessFirst(c, s, INPUT, ks);
    var u := Step(c, s, INPUT).0;
    FramesAppend([Accepted(false)], Trace(c, u, ks));
    assert Frames([Accepted(false)]) == [] + Frames([]);
    assert [] + Frames(Trace(c, u, ks)) == Frames(Trace(c, u, ks));
  }

  /** A slice that is coded and committed without trouble. */
  lemma PlainSlice(c: Config, s: State, ks: seq<Call>)
    requires s.phase == EncodingFrame
    ensures var t := State(AnalyzingFrame, s.nalIdr, s.frameInGop + 1, false);
            && Frames(Trace(c, s, [SLICE] + ks)) == [s.nalIdr] + Frames(Trace(c, t, ks))
            && (Harmless(c, s, [SLICE] + ks) <==> Harmless(c, t, ks))
  {
    hide Trace, Frames, Harmless;
    TraceFirst(c, s, SLICE, ks);
    HarmlessFirst(c, s, SLICE, ks);
    var (t, es) := Step(c, s, SLICE);
    assert es == [SliceSent, Committed(s.nalIdr)];
    assert es[1].Committed?;
    FramesAppend(es, Trace(c, t, ks));
    FrameLists(s.nalIdr);
  }

  function NoIdr(n: nat): (frames: seq<bool>)
    ensures |frames| == n && forall i :: 0 <= i < n ==> !frames[i]
  {
    seq(n, _ => false)
  }

  /** n plain frames while the period is not over: none of them is an IDR. */
  lemma {:induction false} PlainRun(c: Config, s: State, n: nat, ks: seq<Call>)
    requires s.phase == AnalyzingFrame && !s.firstFrame && s.frameInGop + n <= c.idrPeriod
    ensures var t := if n == 0 then s else State(AnalyzingFrame, false, s.frameInGop + n, false);
            && Frames(Trace(c, s, PlainCalls(n) + ks)) == NoIdr(n) + Frames(Trace(c, t, ks))
            && (Harmless(c, s, PlainCalls(n) + ks) <==> Harmless(c, t, ks))
    decreases n
  {
    hide Trace, Frames, Harmless;
    if n == 0 {
      assert [] + ks == ks && NoIdr(0) + Frames(Trace(c, s, ks)) == Frames(Trace(c, s, ks));
    } else {
      var rest := PlainCalls(n - 1) + ks;
      assert PlainCalls(n) + ks == [INPUT] + ([SLICE] + rest);
      PlainInput(c, s, [SLICE] + rest);
      PlainSlice(c, State(EncodingFrame, false, s.frameInGop, false), rest);
      var u := State(AnalyzingFrame, false, s.frameInGop + 1, false);
      PlainRun(c, u, n - 1, ks);
      assert [false] + NoIdr(n - 1) == NoIdr(n);
      var last := if n == 1 then u else State(AnalyzingFrame, false, u.frameInGop + (n - 1), false);
      MoveFrames([false], NoIdr(n - 1), Frames(Trace(c, last, ks)));
    }
  }

  lemma MoveFrames(a: seq<bool>, b: seq<bool>, d: seq<bool>)
    ensures a + (b + d) == (a + b) + d
  {
  }

  lemma PlainFrames(c: Config, s: State, n: nat)
    requires s.phase == AnalyzingFrame && !s.firstFrame && s.frameInGop + n <= c.idrPeriod
    ensures Frames(Trace(c, s, PlainCalls(n))) == NoIdr(n) && Harmless(c, s, PlainCalls(n))
  {
    hide Frames;
    PlainRun(c, s, n, []);
    FrameLists(false);
    assert PlainCalls(n) + [] == PlainCalls(n) && NoIdr(n) + [] == NoIdr(n);
  }

  /** Every harmless continuation keeps to the spacing. */
  ghost predicate StaysSpaced(c: Config, t: State, frames: seq<bool>) {
    forall ks: seq<Call> :: Harmless(c, t, ks) ==> EverySpan(c, frames + Frames(Trace(c, t, ks)))
  }

  /** A call that harms leaves the counter at zero with nothing on its way. */
  lemma HarmMeans(c: Config, s: State, k: Call)
    requires Harms(c, s, k)
    ensures var (t, es) := Step(c, s, k);
            t.phase == AnalyzingFrame && !t.firstFrame && t.frameInGop == 0 && Frames(es) == []
  {
    if k.EncodeNal? {
      SliceOutcome(c, s, k);
      GivesUpExactly(c, s, k);
      hide SliceStep, Frames, GivesUp;
      var (t, es) := SliceStep(c, s, k);
      if Outcome(s, t, es) {
        NoCommitNoFrames(es);
      }
    } else {
      assert Frames([]) == [];
    }
  }

  lemma {:induction false} NoCommitNoFrames(es: seq<Event>)
    requires forall e :: e in es ==> !e.Committed?
    ensures Frames(es) == []
  {
    if es != [] {
      NoCommitNoFrames(es[1..]);
    }
  }

  /** After such a call, idrPeriod plain frames in a row are no IDR. */
  lemma HarmBreaksSpacing(c: Config, s: State, k: Call, frames: seq<bool>)
    requires c.idrPeriod > 0 && Harms(c, s, k)
    ensures !StaysSpaced(c, Step(c, s, k).0, frames + Frames(Step(c, s, k).1))
  {
    HarmMeans(c, s, k);
    hide Step, Harms, Trace, Harmless, Frames;
    var t := Step(c, s, k).0;
    var ks := PlainCalls(c.idrPeriod);
    PlainFrames(c, t, c.idrPeriod);
    assert frames + [] == frames;
    var all := frames + Frames(Trace(c, t, ks));
    assert all == frames + NoIdr(c.idrPeriod);
    assert !HasIdr(all, |frames|, c.idrPeriod);
    assert !EverySpan(c, all);
  }

  /** After any harmless run from the start, whatever the next call is: all
      harmless continuations keep to the spacing if and only if that call does
      not lose a frame that was marked as an IDR. */
  lemma LostIdrExactly(c: Config, ks: seq<Call>, k: Call)
    requires c.idrPeriod > 0 && Harmless(c, Initial(c), ks)
    ensures var s, frames := Run(c, Initial(c), ks), Frames(Trace(c, Initial(c), ks));
            StaysSpaced(c, Step(c, s, k).0, frames + Frames(Step(c, s, k).1)) <==> !Harms(c, s, k)
  {
    hide Step, Harms, Trace, Harmless, Frames, Run, Spaced, StaysSpaced;
    StartIsSpaced(c);
    RunKeepsSpacing(c, Initial(c), ks, []);
    var s, frames := Run(c, Initial(c), ks), Frames(Trace(c, Initial(c), ks));
    assert [] + frames == frames;
    if Harms(c, s, k) {
      HarmBreaksSpacing(c, s, k, frames);
    } else {
      StepKeepsSpacing(c, s, k, frames);
      SpacedStays(c, Step(c, s, k).0, frames + Frames(Step(c, s, k).1));
    }
  }

  lemma SpacedStays(c: Config, t: State, frames: seq<bool>)
    requires c.idrPeriod > 0 && Spaced(c, t, frames)
    ensures StaysSpaced(c, t, frames)
  {
    hide Trace, Harmless, Frames, Run, Regular, EverySpan;
    forall ks: seq<Call> | Harmless(c, t, ks)
      ensures EverySpan(c, frames + Frames(Trace(c, t, ks)))
    {
      RunKeepsSpacing(c, t, ks, frames);
      RegularSpans(c, frames + Frames(Trace(c, t, ks)));
    }
  }

  /** The calls up to the end of the first group. */
  function FirstGroup(c: Config): seq<Call>
    requires c.idrPeriod > 0
  {
    (if c.outOfBand then [SETS] else []) + ([INPUT] + ([SLICE] + PlainCalls(c.idrPeriod - 1)))
  }

  lemma SetsFirst(c: Config, ks: seq<Call>)
    ensures Frames(Trace(c, Initial(c), (if c.outOfBand then [SETS] else []) + ks))
            == Frames(Trace(c, State(AnalyzingFrame, false, 0, true), ks))
  {
    hide Trace, Frames;
    if c.outOfBand {
      TraceFirst(c, Initial(c), SETS, ks);
      FramesAppend([SetsSent], Trace(c, State(AnalyzingFrame, false, 0, true), ks));
      FrameLists(false);
      assert forall x: seq<bool> :: [] + x == x;
    } else {
      assert [] + ks == ks;
    }
  }

  /** A slice that times out. */
  lemma LateSlice(c: Config, s: State, ks: seq<Call>)
    requires s.phase == EncodingFrame
    ensures Frames(Trace(c, s, [LATE] + ks)) == Frames(Trace(c, s.(phase := AnalyzingFrame), ks))
  {
    hide Trace, Frames;
    TraceFirst(c, s, LATE, ks);
    var t := Step(c, s, LATE).0;
    assert [] + Trace(c, t, ks) == Trace(c, t, ks);
  }

  /** Such a run exists for every period and both ways to send the sets: a
      full group, an IDR frame that times out, and idrPeriod plain frames. */
  lemma DroppedIdrBreaksSpacing(c: Config)
    requires c.idrPeriod > 0
    ensures var ks := FirstGroup(c) + ([INPUT] + ([LATE] + PlainCalls(c.idrPeriod)));
            Frames(Trace(c, Initial(c), ks)) == ([true] + NoIdr(c.idrPeriod - 1)) + NoIdr(c.idrPeriod)
  {
    hide Frames, Step, Trace;
    var n := c.idrPeriod;
    var k3 := PlainCalls(n);
    var k2 := [INPUT] + ([LATE] + k3);
    var k1 := PlainCalls(n - 1) + k2;
    var k0 := [INPUT] + ([SLICE] + k1);
    var sets := if c.outOfBand then [SETS] else [];
    assert FirstGroup(c) + k2 == sets + k0;
    SetsFirst(c, k0);
    PlainInput(c, State(AnalyzingFrame, false, 0, true), [SLICE] + k1);
    PlainSlice(c, State(EncodingFrame, true, 0, true), k1);
    var s := State(AnalyzingFrame, true, 1, false);
    PlainRun(c, s, n - 1, k2);
    var t := if n == 1 then s else State(AnalyzingFrame, false, n, false);
    PlainInput(c, t, [LATE] + k3);
    LateSlice(c, State(EncodingFrame, true, 0, false), k3);
    PlainFrames(c, State(AnalyzingFrame, true, 0, false), n);
    MoveFrames([true], NoIdr(n - 1), NoIdr(n));
  }
}
