/**
 * The per-thread exception slot of src/main.c: the thread-local pointer
 * `current_exception_ptr` and the accessor `eh_get_exception_ptr` that hands
 * out its address. Throw glue writes the in-flight exception's address through
 * that address and catch glue reads it back; the glue itself is not part of
 * this model, so the scenarios below write the cell directly in its place.
 *
 * Each thread is an object owning one cell; threads themselves, and their
 * scheduling, are not modelled.
 */
module ExceptionSlot {
  import opened Unwind

  /** A pointer-sized cell; 0 is the null pointer. */
  class Cell {
    var value: Word

    constructor ()
      ensures value == 0
    {
      value := 0;
    }
  }

  /** One thread's thread-local storage. */
  class Thread {
    /** This thread's `current_exception_ptr`, allocated when the thread starts. */
    const currentExceptionPtr: Cell

    /** A thread starts with its own fresh cell holding null. */
    constructor ()
      ensures fresh(currentExceptionPtr) && currentExceptionPtr.value == 0
    {
      currentExceptionPtr := new Cell();
    }

    /**
     * `eh_get_exception_ptr`: the address of the calling thread's cell, the
     * same cell on every call. It changes nothing, the cell's value included.
     */
    method GetExceptionPtr() returns (p: Cell)
      ensures p == currentExceptionPtr
    {
      p := currentExceptionPtr;
    }
  }

  /**
   * One thread's life as the test driver sees it: the slot reads null before
   * anything is thrown, and after throw glue has stored the address of a
   * (non-null) exception object the slot reads that address.
   */
  method SlotLifecycle(exceptionObject: NonNullAddr) returns (before: Word, after: Word)
    ensures before == 0
    ensures after == exceptionObject && after != 0
  {
    var t := new Thread();
    var p := t.GetExceptionPtr();
    before := p.value;
    p.value := exceptionObject;
    var q := t.GetExceptionPtr();
    after := q.value;
  }

  /**
   * Two threads that each store their own exception, in interleaved order,
   * each read back only their own: the cells are distinct.
   */
  method TwoThreadsIndependent(e1: NonNullAddr, e2: NonNullAddr) returns (seen1: Word, seen2: Word)
    ensures seen1 == e1 && seen2 == e2
  {
    var t1 := new Thread();
    var t2 := new Thread();
    var p1 := t1.GetExceptionPtr();
    var p2 := t2.GetExceptionPtr();
    p1.value := e1;
    p2.value := e2;
    var q1 := t1.GetExceptionPtr();
    seen1 := q1.value;
    var q2 := t2.GetExceptionPtr();
    seen2 := q2.value;
  }
}
