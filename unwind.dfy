/**
 * The parts of the platform unwind interface (<unwind.h>, the Itanium C++ ABI
 * base exception-handling ABI) that the personality routine consumes:
 * machine words, the per-frame context handle with its three capabilities,
 * the action flags and the reason codes.
 *
 * The target is taken to be LP64: `uintptr_t` and pointers are 64 bits wide,
 * `int` is 32 bits wide and two's complement.
 */
module Unwind {

  datatype Option<T> = None | Some(value: T)

  /** 2^64: one more than the largest `uintptr_t`. */
  const WORD_MODULUS: int := 0x1_0000_0000_0000_0000

  /** A `uintptr_t` (or a pointer read as one); 0 is the null pointer. */
  type Word = x: int | 0 <= x < WORD_MODULUS

  /** A non-null address. */
  type NonNullAddr = a: Word | a != 0 witness 1

  /** A C `int` on the target: 32-bit two's complement. */
  type Int32 = x: int | -0x8000_0000 <= x < 0x8000_0000

  /**
   * The C conversion of an `int` to `uintptr_t`: a value is reduced modulo 2^64,
   * so a negative `int` becomes 2^64 plus that value.
   */
  function ToUintptr(v: Int32): (w: Word)
    ensures v >= 0 ==> w == v
    ensures v < 0 ==> w == WORD_MODULUS + v
  {
    v % WORD_MODULUS
  }

  /** Unsigned `uintptr_t` addition, which wraps around modulo 2^64. */
  function AddWrap(a: Word, b: Word): (s: Word)
    ensures a + b < WORD_MODULUS ==> s == a + b
    ensures a + b >= WORD_MODULUS ==> s == a + b - WORD_MODULUS
  {
    (a + b) % WORD_MODULUS
  }

  /**
   * The language-specific data area of one frame as this runtime lays it out:
   * its (non-null) address and the `int` stored there, the landing-pad offset.
   */
  datatype Lsda = Lsda(addr: NonNullAddr, landingPadOffset: Int32)

  /**
   * The landing pad of a frame: `(uintptr_t)lsdaAddr + lsdaValue`. The `int`
   * offset is converted to `uintptr_t` and the sum wraps, so the result is the
   * mathematical sum of address and signed offset modulo 2^64.
   */
  function LandingPad(l: Lsda): (pc: Word)
    ensures pc == (l.addr + l.landingPadOffset) % WORD_MODULUS
    ensures 0 <= l.addr + l.landingPadOffset < WORD_MODULUS ==> pc == l.addr + l.landingPadOffset
  {
    AddWrap(l.addr, ToUintptr(l.landingPadOffset))
  }

  /**
   * The action bits of `_Unwind_Action` that the routine consults:
   * `_UA_FORCE_UNWIND`, `_UA_SEARCH_PHASE` and `_UA_HANDLER_FRAME`.
   */
  datatype Actions = Actions(forceUnwind: bool, searchPhase: bool, handlerFrame: bool)

  /** The `_Unwind_Reason_Code` values the routine returns. */
  datatype ReasonCode = ContinueUnwind | HandlerFound | InstallContext

  /** What a context holds that the routine may change: the resume IP and the registers. */
  datatype ContextState = ContextState(ip: Word, regs: map<int, Word>)

  /** A request to resume at `ip` with register `reg` holding `value`. */
  datatype Install = Install(ip: Word, reg: int, value: Word)

  /** The state of a context after `_Unwind_SetIP` and `_Unwind_SetGR` as `install` asks, if at all. */
  function ApplyInstall(s: ContextState, install: Option<Install>): ContextState
  {
    match install
    case None => s
    case Some(i) => ContextState(i.ip, s.regs[i.reg := i.value])
  }

  /**
   * `struct _Unwind_Context` for one frame, reduced to the three capabilities
   * the routine uses: reading the frame's LSDA (`_Unwind_GetLanguageSpecificData`),
   * setting the resume instruction pointer (`_Unwind_SetIP`) and setting a
   * general-purpose register (`_Unwind_SetGR`).
   */
  class Context {
    /** The frame's LSDA, None when `_Unwind_GetLanguageSpecificData` gives null. */
    const lsda: Option<Lsda>
    var ip: Word
    var regs: map<int, Word>

    constructor (lsda: Option<Lsda>, ip: Word, regs: map<int, Word>)
      ensures this.lsda == lsda && this.ip == ip && this.regs == regs
    {
      this.lsda := lsda;
      this.ip := ip;
      this.regs := regs;
    }

    function State(): ContextState
      reads this
    {
      ContextState(ip, regs)
    }

    /** `_Unwind_SetIP`: the frame resumes at `value`; the registers are untouched. */
    method SetIP(value: Word)
      modifies this`ip
      ensures ip == value && regs == old(regs)
    {
      ip := value;
    }

    /** `_Unwind_SetGR`: register `index` holds `value`; every other register and the IP are untouched. */
    method SetGR(index: int, value: Word)
      modifies this`regs
      ensures regs == old(regs)[index := value] && ip == old(ip)
    {
      regs := regs[index := value];
    }
  }
}
