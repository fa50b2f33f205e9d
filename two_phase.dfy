/**
 * An abstract model of the platform unwinder that drives the personality
 * routine (`_Unwind_RaiseException`; the unwinder is not part of this
 * repository). Frames are listed innermost first. The search phase calls the
 * routine on each frame in turn until one reports HandlerFound; the cleanup
 * phase then calls it again from the innermost frame, with the handler-frame
 * flag set on the frame the search chose, until a frame returns
 * InstallContext.
 *
 * `SearchPass`, `CleanupPass` and `TwoPhaseOutcome` give the traces and the
 * outcome as functions of the frames' LSDAs; `RaiseException` runs the
 * `Personality` method over `Context` objects and is proved to agree with
 * them. The main result is that the frame that installs context is the
 * innermost frame with an LSDA whose landing-pad offset is non-zero.
 */
module TwoPhase {
  import opened Unwind
  import opened PersonalityRoutine

  /** The `version` the unwinder passes: 1, as the ABI fixes it. */
  const ABI_VERSION: Int32 := 1

  /** The actions of a search-phase call. */
  const SEARCH: Actions := Actions(false, true, false)

  /** The actions of a cleanup-phase call, with the handler-frame flag as given. */
  function CleanupActions(isHandlerFrame: bool): Actions
  {
    Actions(false, false, isHandlerFrame)
  }

  /** The frame has a handler: it has an LSDA and the offset stored there is non-zero. */
  predicate HasHandler(frame: Option<Lsda>)
  {
    frame.Some? && frame.value.landingPadOffset != 0
  }

  /** Frame `k` is the innermost frame that has a handler. */
  predicate IsFirstHandler(frames: seq<Option<Lsda>>, k: nat)
  {
    k < |frames| && HasHandler(frames[k]) &&
    forall j :: 0 <= j < k ==> !HasHandler(frames[j])
  }

  /**
   * The reason codes the search phase collects from frame `from` outwards; it
   * stops after the first HandlerFound or when the frames run out.
   */
  function SearchPass(frames: seq<Option<Lsda>>, from: nat, exceptionClass: Word, exceptionObject: Word,
                      excReg: int): (trace: seq<ReasonCode>)
    requires from <= |frames|
    ensures |trace| <= |frames| - from
    decreases |frames| - from
  {
    if from == |frames| then []
    else
      var code := Decide(ABI_VERSION, SEARCH, exceptionClass, exceptionObject, frames[from], excReg).code;
      if code == HandlerFound then [code]
      else [code] + SearchPass(frames, from + 1, exceptionClass, exceptionObject, excReg)
  }

  /** The frame the search phase chose, if any: the one whose call returned HandlerFound. */
  function HandlerFrame(frames: seq<Option<Lsda>>, exceptionClass: Word, exceptionObject: Word,
                        excReg: int): Option<nat>
  {
    var trace := SearchPass(frames, 0, exceptionClass, exceptionObject, excReg);
    if |trace| > 0 && trace[|trace| - 1] == HandlerFound then Some(|trace| - 1) else None
  }

  /**
   * The decisions the cleanup phase collects from frame `from` outwards, with
   * the handler-frame flag set on frame `target` only; it stops after the first
   * InstallContext or when the frames run out.
   */
  function CleanupPass(frames: seq<Option<Lsda>>, target: nat, from: nat, exceptionClass: Word,
                       exceptionObject: Word, excReg: int): (trace: seq<Decision>)
    requires from <= |frames|
    ensures |trace| <= |frames| - from
    decreases |frames| - from
  {
    if from == |frames| then []
    else
      var d := Decide(ABI_VERSION, CleanupActions(from == target), exceptionClass, exceptionObject,
                      frames[from], excReg);
      if d.code == InstallContext then [d]
      else [d] + CleanupPass(frames, target, from + 1, exceptionClass, exceptionObject, excReg)
  }

  /** How a raised exception ends: context installed in one frame, or no frame handles it. */
  datatype Outcome = Installed(frame: nat, install: Install) | Unhandled

  /** Both phases: search for a handler frame, then clean up to it and install its context. */
  function TwoPhaseOutcome(frames: seq<Option<Lsda>>, exceptionClass: Word, exceptionObject: Word,
                           excReg: int): Outcome
  {
    match HandlerFrame(frames, exceptionClass, exceptionObject, excReg)
    case None => Unhandled
    case Some(k) =>
      var trace := CleanupPass(frames, k, 0, exceptionClass, exceptionObject, excReg);
      if |trace| > 0 && trace[|trace| - 1].install.Some? then
        Installed(|trace| - 1, trace[|trace| - 1].install.value)
      else
        Unhandled
  }

  /**
   * The search phase from frame `from` stops at the innermost frame from `from`
   * on that has a handler, with HandlerFound as its last code; when no such
   * frame exists it visits every frame and never reports a handler.
   */
  lemma {:induction false} SearchPassFrom(frames: seq<Option<Lsda>>, from: nat, exceptionClass: Word,
                                          exceptionObject: Word, excReg: int)
    requires from <= |frames|
    ensures var trace := SearchPass(frames, from, exceptionClass, exceptionObject, excReg);
            if |trace| > 0 && trace[|trace| - 1] == HandlerFound then
              HasHandler(frames[from + |trace| - 1]) &&
              forall j :: from <= j < from + |trace| - 1 ==> !HasHandler(frames[j])
            else
              |trace| == |frames| - from &&
              forall j :: from <= j < |frames| ==> !HasHandler(frames[j])
    decreases |frames| - from
  {
    if from < |frames| {
      var code := Decide(ABI_VERSION, SEARCH, exceptionClass, exceptionObject, frames[from], excReg).code;
      if code != HandlerFound {
        assert !HasHandler(frames[from]);
        SearchPassFrom(frames, from + 1, exceptionClass, exceptionObject, excReg);
        var rest := SearchPass(frames, from + 1, exceptionClass, exceptionObject, excReg);
        assert SearchPass(frames, from, exceptionClass, exceptionObject, excReg) == [code] + rest;
      }
    }
  }

  /** Every code of a trace except possibly the last is ContinueUnwind. */
  predicate ContinuesUntilLast(trace: seq<ReasonCode>)
  {
    forall j :: 0 <= j < |trace| - 1 ==> trace[j] == ContinueUnwind
  }

  /** The search phase continues on every frame it visits except possibly the last one. */
  lemma {:induction false} SearchPassContinuesUntilLast(frames: seq<Option<Lsda>>, from: nat, exceptionClass: Word,
                                                        exceptionObject: Word, excReg: int)
    requires from <= |frames|
    ensures ContinuesUntilLast(SearchPass(frames, from, exceptionClass, exceptionObject, excReg))
    decreases |frames| - from
  {
    if from < |frames| {
      var code := Decide(ABI_VERSION, SEARCH, exceptionClass, exceptionObject, frames[from], excReg).code;
      if code != HandlerFound {
        SearchPassContinuesUntilLast(frames, from + 1, exceptionClass, exceptionObject, excReg);
        var rest := SearchPass(frames, from + 1, exceptionClass, exceptionObject, excReg);
        var trace := SearchPass(frames, from, exceptionClass, exceptionObject, excReg);
        assert trace == [code] + rest;
        assert forall j :: 1 <= j < |trace| ==> trace[j] == rest[j - 1];
      }
    }
  }

  /** The search phase chooses frame `k` exactly when `k` is the innermost frame with a handler. */
  lemma SearchFindsInnermostHandler(frames: seq<Option<Lsda>>, exceptionClass: Word, exceptionObject: Word,
                                    excReg: int, k: nat)
    ensures HandlerFrame(frames, exceptionClass, exceptionObject, excReg) == Some(k) <==> IsFirstHandler(frames, k)
  {
    SearchPassFrom(frames, 0, exceptionClass, exceptionObject, excReg);
  }

  /** The search phase chooses no frame exactly when no frame has a handler. */
  lemma SearchFindsNoHandler(frames: seq<Option<Lsda>>, exceptionClass: Word, exceptionObject: Word,
                             excReg: int)
    ensures HandlerFrame(frames, exceptionClass, exceptionObject, excReg) == None <==>
            forall j :: 0 <= j < |frames| ==> !HasHandler(frames[j])
  {
    SearchPassFrom(frames, 0, exceptionClass, exceptionObject, excReg);
  }

  /**
   * The cleanup phase towards a target frame that has an LSDA: every frame
   * before it continues untouched, and the target installs its landing pad and
   * the exception object, whatever its offset.
   */
  lemma {:induction false} CleanupPassFrom(frames: seq<Option<Lsda>>, target: nat, from: nat,
                                           exceptionClass: Word, exceptionObject: Word, excReg: int)
    requires from <= target < |frames| && frames[target].Some?
    ensures var trace := CleanupPass(frames, target, from, exceptionClass, exceptionObject, excReg);
            |trace| == target - from + 1 &&
            (forall j :: 0 <= j < |trace| - 1 ==> trace[j] == Decision(ContinueUnwind, None)) &&
            trace[|trace| - 1] ==
              Decision(InstallContext, Some(Install(LandingPad(frames[target].value), excReg, exceptionObject)))
    decreases target - from
  {
    if from < target {
      CleanupPassFrom(frames, target, from + 1, exceptionClass, exceptionObject, excReg);
      var rest := CleanupPass(frames, target, from + 1, exceptionClass, exceptionObject, excReg);
      var trace := CleanupPass(frames, target, from, exceptionClass, exceptionObject, excReg);
      assert trace == [Decision(ContinueUnwind, None)] + rest;
      assert forall j :: 1 <= j < |trace| ==> trace[j] == rest[j - 1];
    }
  }

  /**
   * End to end: when some frame has a handler, the innermost such frame
   * installs context, resuming at its landing pad with the exception object in
   * register `excReg`; when none has, the exception is unhandled.
   */
  lemma TwoPhaseInstallsInnermostHandler(frames: seq<Option<Lsda>>, exceptionClass: Word, exceptionObject: Word,
                                         excReg: int)
    ensures var outcome := TwoPhaseOutcome(frames, exceptionClass, exceptionObject, excReg);
            (outcome.Installed? ==>
               IsFirstHandler(frames, outcome.frame) &&
               outcome.install == Install(LandingPad(frames[outcome.frame].value), excReg, exceptionObject)) &&
            (outcome.Unhandled? <==> forall j :: 0 <= j < |frames| ==> !HasHandler(frames[j]))
  {
    SearchFindsNoHandler(frames, exceptionClass, exceptionObject, excReg);
    var chosen := HandlerFrame(frames, exceptionClass, exceptionObject, excReg);
    if chosen.Some? {
      var k := chosen.value;
      SearchFindsInnermostHandler(frames, exceptionClass, exceptionObject, excReg, k);
      CleanupPassFrom(frames, k, 0, exceptionClass, exceptionObject, excReg);
    }
  }

  /**
   * Three frames, innermost first: two with a zero offset and an outermost one
   * with offset `d`. The search phase continues twice and then finds the
   * handler; the cleanup phase continues twice and then installs the outermost
   * frame's landing pad, its LSDA address plus `d`.
   */
  lemma {:induction false} ThreeFrameScenario(a1: NonNullAddr, a2: NonNullAddr, a3: NonNullAddr, d: Int32,
                                              exceptionClass: Word, exceptionObject: Word, excReg: int)
    requires d != 0
    ensures var frames := [Some(Lsda(a1, 0)), Some(Lsda(a2, 0)), Some(Lsda(a3, d))];
            var install := Install((a3 + d) % WORD_MODULUS, excReg, exceptionObject);
            SearchPass(frames, 0, exceptionClass, exceptionObject, excReg) ==
              [ContinueUnwind, ContinueUnwind, HandlerFound] &&
            CleanupPass(frames, 2, 0, exceptionClass, exceptionObject, excReg) ==
              [Decision(ContinueUnwind, None), Decision(ContinueUnwind, None), Decision(InstallContext, Some(install))] &&
            TwoPhaseOutcome(frames, exceptionClass, exceptionObject, excReg) == Installed(2, install)
  {
    var frames := [Some(Lsda(a1, 0)), Some(Lsda(a2, 0)), Some(Lsda(a3, d))];
    assert SearchPass(frames, 2, exceptionClass, exceptionObject, excReg) == [HandlerFound];
    assert SearchPass(frames, 1, exceptionClass, exceptionObject, excReg) == [ContinueUnwind, HandlerFound];
    CleanupPassFrom(frames, 2, 0, exceptionClass, exceptionObject, excReg);
  }

  /** The LSDAs of a stack of contexts, innermost first. */
  function Lsdas(stack: seq<Context>): seq<Option<Lsda>>
  {
    seq(|stack|, j requires 0 <= j < |stack| => stack[j].lsda)
  }

  /**
   * The unwinder running both phases over a stack of distinct contexts,
   * innermost first, calling `Personality` on each. The outcome is the one
   * `TwoPhaseOutcome` gives; the installing frame's context has its IP and
   * register `excReg` set as that outcome says and every other context is
   * left as it was.
   */
  method RaiseException(stack: seq<Context>, exceptionClass: Word, exceptionObject: Word, excReg: int)
    returns (outcome: Outcome)
    requires forall i, j :: 0 <= i < j < |stack| ==> stack[i] != stack[j]
    modifies stack
    ensures outcome == TwoPhaseOutcome(Lsdas(stack), exceptionClass, exceptionObject, excReg)
    ensures forall j :: 0 <= j < |stack| ==>
              stack[j].State() ==
                if outcome.Installed? && outcome.frame == j then ApplyInstall(old(stack[j].State()), Some(outcome.install))
                else old(stack[j].State())
  {
    ghost var frames := Lsdas(stack);
    TwoPhaseInstallsInnermostHandler(frames, exceptionClass, exceptionObject, excReg);

    // Search phase.
    var i := 0;
    var found := false;
    while i < |stack| && !found
      invariant 0 <= i <= |stack|
      invariant found ==> i < |stack| && IsFirstHandler(frames, i)
      invariant !found ==> forall j :: 0 <= j < i ==> !HasHandler(frames[j])
      invariant forall j :: 0 <= j < |stack| ==> stack[j].State() == old(stack[j].State())
      decreases |stack| - i, !found
    {
      var code := Personality(ABI_VERSION, SEARCH, exceptionClass, exceptionObject, stack[i], excReg);
      if code == HandlerFound {
        found := true;
      } else {
        i := i + 1;
      }
    }
    if !found {
      return Unhandled;
    }

    // Cleanup phase, up to and including the chosen frame.
    var target := i;
    i := 0;
    while true
      invariant 0 <= i <= target
      invariant forall j :: 0 <= j < |stack| ==> stack[j].State() == old(stack[j].State())
      decreases target - i
    {
      var code := Personality(ABI_VERSION, CleanupActions(i == target), exceptionClass, exceptionObject,
                              stack[i], excReg);
      if code == InstallContext {
        break;
      }
      i := i + 1;
    }
    outcome := Installed(target, Install(LandingPad(stack[target].lsda.value), excReg, exceptionObject));
  }
}
