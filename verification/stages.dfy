/** The v1.5 driver around the pipeline: the threshold the scanner receives
    and the dialog-driven stage controller of the main script. */
module Stages {
  import opened ColumnScan

  // ---------------------------------------------------------------------------
  // Options that feed the scanner
  // ---------------------------------------------------------------------------

  /** The mask `getOptions1` picks: 8 bits when the user asks to reinterpret
      the image as 8-bit, 16 bits otherwise. Either mask reads every signed
      value of its width, `[-(andOp+1)/2, (andOp+1)/2)`, back as the unsigned
      value with the same bits. */
  function AndOpFor(changeBitType: bool): (andOp: int)
    ensures && (andOp == 0xFF || andOp == 0xFFFF)
            && forall p :: -(andOp + 1) / 2 <= p < (andOp + 1) / 2 ==>
                 MaskPixel(p, andOp) == if p < 0 then p + andOp + 1 else p
  {
    if changeBitType then 0xFF else 0xFFFF
  }

  /** The mask turns Java's signed pixel values into unsigned ones: a signed
      byte (8-bit choice) or a signed short (16-bit choice) is read back as
      the unsigned value with the same bits, negative values wrapping up by
      2^8 or 2^16 and non-negative ones unchanged. */
  lemma MaskReadsUnsigned(p: int)
    ensures -0x80 <= p < 0x80 ==>
              MaskPixel(p, AndOpFor(true)) == if p < 0 then p + 0x100 else p
    ensures -0x8000 <= p < 0x8000 ==>
              MaskPixel(p, AndOpFor(false)) == if p < 0 then p + 0x1_0000 else p
  {
  }

  /** `getOptions2`: the slider value is replaced by the default (Otsu)
      threshold when the Otsu box is NOT ticked. */
  function DialogThreshold(useOtsu: bool, slider: real, defaultThreshold: real): real {
    if !useOtsu then defaultThreshold else slider
  }

  /** `secondStage`: the threshold it receives is replaced by the default
      threshold when the Otsu box IS ticked. */
  function StageTwoThreshold(useOtsu: bool, minThreshold: real, defaultThreshold: real): real {
    if useOtsu then defaultThreshold else minThreshold
  }

  /** The threshold the scanner is actually called with: the two opposite
      replacements compose so that the slider value never reaches it. */
  function ScannerThreshold(useOtsu: bool, slider: real, defaultThreshold: real): (t: real)
    ensures t == defaultThreshold
  {
    StageTwoThreshold(useOtsu, DialogThreshold(useOtsu, slider, defaultThreshold), defaultThreshold)
  }

  // ---------------------------------------------------------------------------
  // Stage controller
  // ---------------------------------------------------------------------------

  /** How a stage dialog was closed. `Undecided` is neither OK nor cancel,
      which the script treats as a request to recompute the current stage. */
  datatype Response = Ok | Cancel | Undecided

  /** The stage variable and the two flags the outer loop tests. Stage 0 is
      reached by cancelling the first dialog, stage 5 by confirming the last. */
  datatype Controller = Controller(stage: int, canceled1: bool, oked4: bool)

  /** Work done after a dialog: one of the three computing stages, or nothing. */
  datatype Work = NoWork | Compute(stage: int)

  datatype Transition = Transition(next: Controller, work: Work)

  /** The state before the first dialog: stage 1, neither flag set. */
  function Start(): Controller {
    Controller(1, false, false)
  }

  /** The script starts inside the outer loop, and every run from there ends,
      if it ends, at stage 0 or stage 5 with the stage counting OKs minus
      cancels. */
  lemma RunFromStart(rs: seq<Response>)
    ensures Consistent(Start()) && Running(Start())
    ensures var states := Run(Start(), rs);
            var last := states[|states| - 1];
            && last.stage == 1 + NetAdvance(rs[..|states| - 1])
            && (!Running(last) ==> last.stage == 0 || last.stage == 5)
  {
    StageIsNetAdvance(Start(), rs);
  }

  /** The guard of the outer loop: `canceled1 == 0 and oked4 == 0`. */
  predicate Running(c: Controller) {
    !c.canceled1 && !c.oked4
  }

  /** The flags agree with the stage variable. */
  predicate Consistent(c: Controller) {
    && 0 <= c.stage <= 5
    && (c.canceled1 <==> c.stage == 0)
    && (c.oked4 <==> c.stage == 5)
  }

  /** One pass through the inner `while stage == k` loop for the dialog's
      response: cancel steps back one stage without computing, OK advances and
      still runs stage k's computation, anything else recomputes stage k. The
      final dialog (stage 4) computes nothing. */
  function Respond(c: Controller, r: Response): (t: Transition)
    requires Consistent(c) && 1 <= c.stage <= 4
    ensures Consistent(t.next)
    ensures r == Cancel ==> t.next.stage == c.stage - 1 && t.work == NoWork
    ensures r == Ok ==> t.next.stage == c.stage + 1
    ensures r == Undecided ==> t.next.stage == c.stage
    ensures r != Cancel && c.stage <= 3 ==> t.work == Compute(c.stage)
    ensures c.stage == 4 ==> t.work == NoWork
    ensures !Running(t.next) <==> (c.stage == 1 && r == Cancel) || (c.stage == 4 && r == Ok)
  {
    match r
    case Cancel =>
      Transition(Controller(c.stage - 1, c.stage == 1, false), NoWork)
    case Ok =>
      Transition(Controller(c.stage + 1, false, c.stage == 4),
                 if c.stage <= 3 then Compute(c.stage) else NoWork)
    case Undecided =>
      Transition(c, if c.stage <= 3 then Compute(c.stage) else NoWork)
  }

  /** While the flags agree with the stage, the outer loop runs exactly while
      a stage dialog remains to be shown. */
  lemma RunningMeansActiveStage(c: Controller)
    requires Consistent(c)
    ensures Running(c) <==> 1 <= c.stage <= 4
  {
  }

  /** The controller states the script passes through when the dialogs are
      answered with `rs`, stopping when the outer loop's guard fails or the
      responses run out. */
  function Run(c: Controller, rs: seq<Response>): (states: seq<Controller>)
    requires Consistent(c)
    ensures 1 <= |states| <= |rs| + 1 && states[0] == c
    ensures forall i :: 0 <= i < |states| ==> Consistent(states[i])
    ensures forall i :: 0 <= i < |states| - 1 ==>
              && Running(states[i])
              && states[i + 1] == Respond(states[i], rs[i]).next
    ensures |states| <= |rs| ==> !Running(states[|states| - 1])
    decreases |rs|
  {
    if !Running(c) || rs == [] then [c]
    else [c] + Run(Respond(c, rs[0]).next, rs[1..])
  }

  /** The script ends only by cancelling the first dialog or confirming the
      final one: whenever a run from a running state stops the outer loop, the
      last response was one of those two. */
  lemma ExitOnlyFromEnds(c: Controller, rs: seq<Response>)
    requires Consistent(c) && Running(c)
    ensures var states := Run(c, rs);
            var n := |states| - 1;
            !Running(states[n]) ==>
              || (states[n - 1].stage == 1 && rs[n - 1] == Cancel && states[n].stage == 0)
              || (states[n - 1].stage == 4 && rs[n - 1] == Ok && states[n].stage == 5)
  {
    var states := Run(c, rs);
    var n := |states| - 1;
    if !Running(states[n]) {
      assert n >= 1;
      RunningMeansActiveStage(states[n - 1]);
    }
  }

  /** The net number of OK answers minus cancel answers among `rs`. */
  function NetAdvance(rs: seq<Response>): int {
    if rs == [] then 0
    else (match rs[0] case Ok => 1 case Cancel => -1 case Undecided => 0) + NetAdvance(rs[1..])
  }

  /** The stage only moves by single steps: after the responses a run has
      consumed, it equals the starting stage plus the OKs minus the cancels. */
  lemma {:induction false} StageIsNetAdvance(c: Controller, rs: seq<Response>)
    requires Consistent(c)
    ensures var states := Run(c, rs);
            states[|states| - 1].stage == c.stage + NetAdvance(rs[..|states| - 1])
    decreases |rs|
  {
    var states := Run(c, rs);
    if Running(c) && rs != [] {
      var next := Respond(c, rs[0]).next;
      StageIsNetAdvance(next, rs[1..]);
      var tail := Run(next, rs[1..]);
      assert states == [c] + tail;
      var m := |tail| - 1;
      assert rs[..m + 1][1..] == rs[1..][..m];
      assert rs[..m + 1][0] == rs[0];
    }
  }
}
