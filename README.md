# libexhelper personality routine, modelled in Dafny

libexhelper supplies the small piece of runtime that a language needs to take
part in the platform's two-phase stack unwinding: a personality routine and a
per-thread exception slot. This project models both and proves what they do.

- **Personality routine** (`personality` in `src/main.c`). The platform unwinder
  calls it once per stack frame in each phase. The routine implements the
  personality-routine contract of section 1.6 of the Itanium C++ ABI
  exception-handling specification. It checks, in this order:
  1. whether the unwind is forced;
  2. whether the frame has a language-specific data area (LSDA);
  3. whether this is the search phase;
  4. whether this is the handler frame.

  It returns ContinueUnwind, HandlerFound or InstallContext. On InstallContext
  it also sets the frame's resume IP to the landing pad and writes the exception
  object's address into register `DW_REG_EXC`. The landing pad is the LSDA
  address plus the `int` stored at that address.
- **Exception slot** (`current_exception_ptr` and `eh_get_exception_ptr`). This
  is one thread-local pointer cell. It starts as null, and the accessor returns
  its address.

Files:

- `unwind.dfy` (module `Unwind`): the word and `int` types of an LP64 target;
  the C conversion of `int` to `uintptr_t` and wrapping addition; the LSDA; the
  action flags and reason codes. It also holds the `Context` class, a per-frame
  context with three capabilities: read the LSDA, `SetIP` and `SetGR`.
- `personality.dfy` (module `PersonalityRoutine`): `Decide`, the decision rule
  as a function, and `Personality`, the routine as a method that updates a
  `Context` in place and is proved to follow `Decide`. It also holds lemmas for
  each property of the rule.
- `exception_slot.dfy` (module `ExceptionSlot`): the slot as a `Cell` owned by a
  `Thread` object, and the accessor.
- `two_phase.dfy` (module `TwoPhase`): an abstract driver for the external
  unwinder, which is not code in this repository. It runs the search phase and
  then the cleanup phase over a stack of frames. It proves that the frame that
  installs context is the innermost frame whose LSDA offset is non-zero. The
  driver exists as functions over LSDAs and as a method over `Context` objects.

`src/main.c:38` reads the LSDA value as a 32-bit `int`, not a native-width
word. The model reads an `Int32` and converts it to `uintptr_t`, so a negative
offset wraps modulo 2^64.

`DW_REG_EXC` comes from `dwarf_reg.inc`, which is not part of this model. It is
the parameter `excReg`, so every result holds for any register number.

## Model

| member | source | states |
|---|---|---|
| `Unwind.ToUintptr` | src/main.c:55 | Converting an `int` offset to `uintptr_t` leaves a non-negative value unchanged and turns a negative value into 2^64 plus that value. |
| `Unwind.AddWrap` | src/main.c:55 | `uintptr_t` addition is the exact sum below 2^64 and the sum minus 2^64 above it. |
| `Unwind.LandingPad` | src/main.c:55 | The landing pad is (LSDA address + signed offset) mod 2^64. It is exactly that sum when the sum fits in a word. |
| `Unwind.Context.SetIP` | src/main.c:56 | `_Unwind_SetIP` sets the resume IP and leaves the registers alone. |
| `Unwind.Context.SetGR` | src/main.c:57 | `_Unwind_SetGR` sets one register and leaves the IP and all other registers alone. |
| `PersonalityRoutine.Decide` | src/main.c:18-62 | The routine asks for a context update exactly when it returns InstallContext. |
| `PersonalityRoutine.Personality` | src/main.c:18-62 | The routine returns the code `Decide` gives. The context's IP and registers become what `Decide`'s update asks for, or stay unchanged when it asks for none. Only `ip` and `regs` may change. |
| `PersonalityRoutine.ForceUnwindContinues` | src/main.c:25-29 | With the force-unwind flag set, the result is ContinueUnwind with no context change, whatever the phase flags and the LSDA. |
| `PersonalityRoutine.MissingLsdaContinues` | src/main.c:31-36 | A frame whose LSDA is null continues, in either phase, with no context change. |
| `PersonalityRoutine.SearchPhaseReportsNonZeroOffset` | src/main.c:38-48 | In an unforced search over a frame with an LSDA, the result is HandlerFound iff the offset is non-zero and ContinueUnwind iff it is zero. The context never changes. |
| `PersonalityRoutine.SearchPhaseNeverInstalls` | src/main.c:40-48 | Any call with the search flag returns ContinueUnwind or HandlerFound and asks for no context change. |
| `PersonalityRoutine.SearchFlagOverridesHandlerFrame` | src/main.c:40-52 | When the search flag is set, the handler-frame flag does not affect the decision. |
| `PersonalityRoutine.HandlerFrameInstalls` | src/main.c:49-58 | An unforced install-phase call on a handler frame with an LSDA returns InstallContext. It sets IP to (LSDA address + offset) mod 2^64 and sets register `excReg` to the exception object, whatever the offset. |
| `PersonalityRoutine.ZeroOffsetInstallsAtLsda` | src/main.c:52-58 | The install phase does not re-check the offset. With offset 0 it still installs, and resumes at the LSDA address itself. |
| `PersonalityRoutine.InstallTouchesOnlyExcRegister` | src/main.c:56-57 | After the routine's update, every register other than `excReg` is present and has its value exactly as before. |
| `PersonalityRoutine.NonHandlerFrameContinues` | src/main.c:49-60 | A non-search call without the handler-frame flag returns ContinueUnwind with no context change. |
| `PersonalityRoutine.IgnoresVersionAndClass` | src/main.c:18-21 | The unused `version` and `exceptionClass` arguments never change the decision. |
| `PersonalityRoutine.DecisionCharacterized` | src/main.c:25-61 | The whole rule, both directions. HandlerFound iff: unforced, search phase, LSDA present, non-zero offset. InstallContext iff: unforced, not search, handler frame, LSDA present. ContinueUnwind in every other case. |
| `ExceptionSlot.Thread.constructor` | src/main.c:9 | Each thread gets its own fresh cell, and the cell starts as null. |
| `ExceptionSlot.Thread.GetExceptionPtr` | src/main.c:12-15 | The accessor returns the calling thread's cell, the same cell on every call, and changes nothing. |
| `ExceptionSlot.SlotLifecycle` | src/test.cpp:19-22 | The slot reads null before a throw. Once glue has stored an exception's address through the accessor, the slot reads that non-null address. |
| `ExceptionSlot.TwoThreadsIndependent` | src/main.c:9-15 | Two threads that store different exceptions in interleaved order each read back only their own. |
| `TwoPhase.SearchPass` | src/main.c:40-48 | The unwinder's search-phase loop: it calls `Decide` with the search flag frame by frame and stops at the first HandlerFound. Its own contract only bounds the trace by the frames left; `SearchPassFrom` and `SearchPassContinuesUntilLast` give its meaning. |
| `TwoPhase.CleanupPass` | src/main.c:49-61 | The unwinder's cleanup-phase loop: it calls `Decide` frame by frame with the handler-frame flag on the target only and stops at the first InstallContext. Its own contract only bounds the trace by the frames left; `CleanupPassFrom` gives its meaning. |
| `TwoPhase.SearchPassFrom` | src/main.c:40-48 | The search phase stops with HandlerFound at the innermost frame that has an LSDA with a non-zero offset. When there is no such frame, it visits every frame. |
| `TwoPhase.SearchPassContinuesUntilLast` | src/main.c:43-47 | Every search-phase code except possibly the last is ContinueUnwind. |
| `TwoPhase.SearchFindsInnermostHandler` | src/main.c:40-48 | The search phase picks frame k iff k is the innermost frame with an LSDA and a non-zero offset. |
| `TwoPhase.SearchFindsNoHandler` | src/main.c:40-48 | The search phase picks no frame iff no frame has an LSDA with a non-zero offset. |
| `TwoPhase.CleanupPassFrom` | src/main.c:49-61 | Cleaning up towards a target frame with an LSDA: every frame before it continues with no change. The target installs its landing pad and the exception object. |
| `TwoPhase.TwoPhaseInstallsInnermostHandler` | src/main.c:25-61 | When some frame has a handler, the innermost one installs context at its landing pad with the exception in `excReg`. When none has, the exception is unhandled. |
| `TwoPhase.ThreeFrameScenario` | src/main.c:40-58 | For frames with offsets 0, 0, D≠0: search gives Continue, Continue, HandlerFound. Cleanup gives Continue, Continue, then InstallContext at (outer LSDA + D) mod 2^64. |
| `TwoPhase.RaiseException` | src/main.c:18-62 | Calling `Personality` over distinct contexts in two phases gives the outcome `TwoPhaseOutcome` predicts. Only the installing frame's IP and `excReg` change; every other context is unchanged. |

## Left out

- The platform unwind library (`_Unwind_RaiseException`, stack walking, the CFA test for the handler frame) is not code in this repository. `TwoPhase` is an abstract stand-in for it, and it does not model forced unwinds, stop functions or `_Unwind_Resume`.
- The numeric values of `_Unwind_Action` and `_Unwind_Reason_Code` in `<unwind.h>` are not modelled: the three flags the routine tests are booleans. `_UA_CLEANUP_PHASE` and `_UA_END_OF_STACK` are never consulted by the routine, so they are left out.
- Reading raw memory through `*(int *)lsdaAddr` is modelled as an LSDA value that pairs a non-null address with the `int` stored there. Memory itself is not modelled.
- Word sizes: the model assumes an LP64 target (64-bit `uintptr_t`, 32-bit `int`). Other data models are not covered.
- `DW_REG_EXC` (from `dwarf_reg.inc`, which is not part of this model) is the parameter `excReg` rather than a fixed number.
- Thread-local storage and concurrency: each `Thread` object owns one cell. Real threads, their scheduling and TLS allocation are not modelled.
- The throw and catch glue that writes and reads the slot (`wrap_caller`, `wrap_throw_ex`) is not in this repository. The slot scenarios write the cell directly in its place.
- `src/test.cpp` is a test harness using C++ `throw`/`catch` and `printf`. It is used only as evidence of the slot's observed behaviour.
- Symbol visibility attributes (`EXPORT`, `HIDDEN`) are a linkage concern and have no model.
- The context update is modelled as the final state of the IP and registers. The order in which `_Unwind_SetIP` and `_Unwind_SetGR` are called is not observable in the model.
