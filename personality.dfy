/**
 * The personality routine of src/main.c: the per-frame callback the platform
 * unwinder calls in both phases of two-phase unwinding (the personality-routine
 * contract of section 1.6 of the Itanium C++ ABI exception-handling
 * specification).
 *
 * `Decide` is the pure decision rule: the reason code and the context update
 * the routine asks for. `Personality` is the routine itself, which performs
 * that update on a `Context` in place and is proved to follow `Decide`. The
 * lemmas after it state, one by one, what the rule promises.
 */
module PersonalityRoutine {
  import opened Unwind

  /** The reason code a call returns and the context update it performs, if any. */
  datatype Decision = Decision(code: ReasonCode, install: Option<Install>)

  /**
   * The decision taken for one frame. `excReg` stands for the build-time
   * constant `DW_REG_EXC`, the register that carries the exception object to
   * the landing pad. A context update happens exactly when the routine
   * returns InstallContext.
   */
  function Decide(version: Int32, actions: Actions, exceptionClass: Word, exceptionObject: Word,
                  lsda: Option<Lsda>, excReg: int): (d: Decision)
    ensures d.install.Some? <==> d.code == InstallContext
  {
    if actions.forceUnwind then
      Decision(ContinueUnwind, None)
    else if lsda.None? then
      Decision(ContinueUnwind, None)
    else if actions.searchPhase then
      if lsda.value.landingPadOffset == 0 then Decision(ContinueUnwind, None)
      else Decision(HandlerFound, None)
    else if actions.handlerFrame then
      Decision(InstallContext, Some(Install(LandingPad(lsda.value), excReg, exceptionObject)))
    else
      Decision(ContinueUnwind, None)
  }

  /**
   * `personality`: returns the reason code of `Decide` and changes the
   * context's IP and registers exactly as `Decide` asks, and nothing else.
   */
  method Personality(version: Int32, actions: Actions, exceptionClass: Word, exceptionObject: Word,
                     context: Context, excReg: int) returns (r: ReasonCode)
    modifies context`ip, context`regs
    ensures r == Decide(version, actions, exceptionClass, exceptionObject, context.lsda, excReg).code
    ensures context.State() ==
            ApplyInstall(old(context.State()),
                         Decide(version, actions, exceptionClass, exceptionObject, context.lsda, excReg).install)
  {
    if actions.forceUnwind {
      return ContinueUnwind;
    }

    var lsda := context.lsda;
    if lsda.None? {
      return ContinueUnwind;
    }

    var lsdaValue := lsda.value.landingPadOffset;

    if actions.searchPhase {
      if lsdaValue == 0 {
        return ContinueUnwind;
      }
      return HandlerFound;
    } else {
      if actions.handlerFrame {
        var landingPad := AddWrap(lsda.value.addr, ToUintptr(lsdaValue));
        context.SetIP(landingPad);
        context.SetGR(excReg, exceptionObject);
        return InstallContext;
      }
      return ContinueUnwind;
    }
  }

  /** A forced unwind continues, whatever the phase flags and the metadata. */
  lemma ForceUnwindContinues(version: Int32, actions: Actions, exceptionClass: Word, exceptionObject: Word,
                             lsda: Option<Lsda>, excReg: int)
    requires actions.forceUnwind
    ensures Decide(version, actions, exceptionClass, exceptionObject, lsda, excReg) == Decision(ContinueUnwind, None)
  {
  }

  /** A frame without an LSDA continues in either phase and its context is left alone. */
  lemma MissingLsdaContinues(version: Int32, actions: Actions, exceptionClass: Word, exceptionObject: Word,
                             excReg: int)
    ensures Decide(version, actions, exceptionClass, exceptionObject, None, excReg) == Decision(ContinueUnwind, None)
  {
  }

  /**
   * In the search phase (not forced) a frame with an LSDA reports a handler
   * exactly when its landing-pad offset is non-zero, and never asks for a
   * context update.
   */
  lemma SearchPhaseReportsNonZeroOffset(version: Int32, actions: Actions, exceptionClass: Word,
                                        exceptionObject: Word, l: Lsda, excReg: int)
    requires !actions.forceUnwind && actions.searchPhase
    ensures var d := Decide(version, actions, exceptionClass, exceptionObject, Some(l), excReg);
            d.install.None? &&
            (d.code == HandlerFound <==> l.landingPadOffset != 0) &&
            (d.code == ContinueUnwind <==> l.landingPadOffset == 0)
  {
  }

  /** The search phase never changes the context and never returns InstallContext. */
  lemma SearchPhaseNeverInstalls(version: Int32, actions: Actions, exceptionClass: Word, exceptionObject: Word,
                                 lsda: Option<Lsda>, excReg: int)
    requires actions.searchPhase
    ensures var d := Decide(version, actions, exceptionClass, exceptionObject, lsda, excReg);
            d.install.None? && d.code in {ContinueUnwind, HandlerFound}
  {
  }

  /** When the search flag is set, the handler-frame flag is not consulted. */
  lemma SearchFlagOverridesHandlerFrame(version: Int32, actions: Actions, exceptionClass: Word,
                                        exceptionObject: Word, lsda: Option<Lsda>, excReg: int)
    requires actions.searchPhase
    ensures Decide(version, actions.(handlerFrame := true), exceptionClass, exceptionObject, lsda, excReg) ==
            Decide(version, actions.(handlerFrame := false), exceptionClass, exceptionObject, lsda, excReg)
  {
  }

  /**
   * In the install phase a handler frame with an LSDA installs its landing pad
   * (LSDA address plus signed offset, modulo 2^64) and the exception object in
   * register `excReg`, without re-checking the offset.
   */
  lemma HandlerFrameInstalls(version: Int32, actions: Actions, exceptionClass: Word, exceptionObject: Word,
                             l: Lsda, excReg: int)
    requires !actions.forceUnwind && !actions.searchPhase && actions.handlerFrame
    ensures var d := Decide(version, actions, exceptionClass, exceptionObject, Some(l), excReg);
            d.code == InstallContext &&
            d.install == Some(Install((l.addr + l.landingPadOffset) % WORD_MODULUS, excReg, exceptionObject))
  {
  }

  /** With a zero offset the install phase still installs, resuming at the LSDA address itself. */
  lemma ZeroOffsetInstallsAtLsda(version: Int32, actions: Actions, exceptionClass: Word, exceptionObject: Word,
                                 l: Lsda, excReg: int)
    requires !actions.forceUnwind && !actions.searchPhase && actions.handlerFrame
    requires l.landingPadOffset == 0
    ensures var d := Decide(version, actions, exceptionClass, exceptionObject, Some(l), excReg);
            d.code == InstallContext && d.install.Some? && d.install.value.ip == l.addr
  {
  }

  /**
   * Installing changes the IP and register `excReg` only: every other register
   * keeps its presence and its value.
   */
  lemma InstallTouchesOnlyExcRegister(version: Int32, actions: Actions, exceptionClass: Word,
                                      exceptionObject: Word, lsda: Option<Lsda>, excReg: int,
                                      before: ContextState, r: int)
    requires r != excReg
    ensures var after := ApplyInstall(before, Decide(version, actions, exceptionClass, exceptionObject, lsda, excReg).install);
            (r in after.regs <==> r in before.regs) &&
            (r in before.regs ==> after.regs[r] == before.regs[r])
  {
  }

  /** In the install phase a frame that is not the handler frame continues and is left alone. */
  lemma NonHandlerFrameContinues(version: Int32, actions: Actions, exceptionClass: Word, exceptionObject: Word,
                                 lsda: Option<Lsda>, excReg: int)
    requires !actions.searchPhase && !actions.handlerFrame
    ensures Decide(version, actions, exceptionClass, exceptionObject, lsda, excReg) == Decision(ContinueUnwind, None)
  {
  }

  /** The unused `version` and `exceptionClass` arguments never influence the decision. */
  lemma IgnoresVersionAndClass(v1: Int32, v2: Int32, actions: Actions, c1: Word, c2: Word,
                               exceptionObject: Word, lsda: Option<Lsda>, excReg: int)
    ensures Decide(v1, actions, c1, exceptionObject, lsda, excReg) == Decide(v2, actions, c2, exceptionObject, lsda, excReg)
  {
  }

  /**
   * The complete rule, both directions: a handler is reported exactly for an
   * unforced search over an LSDA with non-zero offset, context is installed
   * exactly for an unforced non-search call on a handler frame with an LSDA,
   * and every other call continues unwinding.
   */
  lemma DecisionCharacterized(version: Int32, actions: Actions, exceptionClass: Word, exceptionObject: Word,
                              lsda: Option<Lsda>, excReg: int)
    ensures var d := Decide(version, actions, exceptionClass, exceptionObject, lsda, excReg);
            (d.code == HandlerFound <==>
               !actions.forceUnwind && actions.searchPhase && lsda.Some? && lsda.value.landingPadOffset != 0) &&
            (d.code == InstallContext <==>
               !actions.forceUnwind && !actions.searchPhase && actions.handlerFrame && lsda.Some?) &&
            (d.code == ContinueUnwind <==>
               actions.forceUnwind || lsda.None? ||
               (actions.searchPhase && lsda.value.landingPadOffset == 0) ||
               (!actions.searchPhase && !actions.handlerFrame))
  {
  }
}
