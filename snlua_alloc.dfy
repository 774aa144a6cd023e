/**
 * Memory accounting of the snlua service's Lua allocator (`lalloc`).
 *
 * Every allocation request of the Lua VM passes through `lalloc`, which keeps
 * the number of outstanding bytes in `mem`, refuses fresh or growing requests
 * that would take `mem` over a non-zero `mem_limit`, and raises a warning each
 * time `mem` passes the doubling threshold `mem_report`. The real allocation
 * (`skynet_lalloc`) is not modelled: the outcome `Forwarded` stands for the
 * call into it.
 */
module LuaAlloc {
  /** `size_t` is 64 bits wide and its arithmetic wraps. */
  const SIZE_SPAN: int := 0x1_0000_0000_0000_0000
  type Size = x: int | 0 <= x < SIZE_SPAN

  const MEMORY_WARNING_REPORT: Size := 1024 * 1024 * 32

  /** The accounting fields of `struct snlua`. */
  datatype Accounting = Accounting(mem: Size, memReport: Size, memLimit: Size)

  /**
   * What `lalloc` does with one request: refuse it (return NULL with `mem`
   * restored) or forward it to the real allocator, possibly after a warning.
   */
  datatype Outcome = Refused | Forwarded(warned: bool)

  /** `mem + nsize - (ptr ? osize : 0)` in `size_t` arithmetic. */
  function Recount(mem: Size, hasPtr: bool, osize: Size, nsize: Size): (r: Size)
    ensures hasPtr && osize <= mem + nsize && mem + nsize - osize < SIZE_SPAN ==> r == mem + nsize - osize
    ensures !hasPtr && mem + nsize < SIZE_SPAN ==> r == mem + nsize
  {
    var grown := (mem + nsize) % SIZE_SPAN;
    if hasPtr then (grown - osize) % SIZE_SPAN else grown
  }

  /** One call `lalloc(ud, ptr, osize, nsize)`; `hasPtr` is `ptr != NULL`. */
  function LAlloc(a: Accounting, hasPtr: bool, osize: Size, nsize: Size): (r: (Accounting, Outcome))
    ensures var m := Recount(a.mem, hasPtr, osize, nsize);
      r.1 == Refused <==> a.memLimit != 0 && m > a.memLimit && (!hasPtr || nsize > osize)
    ensures r.1 == Refused ==> r.0 == a
    ensures r.1.Forwarded? ==> var m := Recount(a.mem, hasPtr, osize, nsize);
      r.0.mem == m && r.0.memLimit == a.memLimit &&
      (r.1.warned <==> m > a.memReport) &&
      r.0.memReport == if m > a.memReport then (2 * a.memReport) % SIZE_SPAN else a.memReport
  {
    var m := Recount(a.mem, hasPtr, osize, nsize);
    if a.memLimit != 0 && m > a.memLimit && (!hasPtr || nsize > osize) then
      (a, Refused)
    else if m > a.memReport then
      (a.(mem := m, memReport := (2 * a.memReport) % SIZE_SPAN), Forwarded(true))
    else
      (a.(mem := m), Forwarded(false))
  }

  /** Shrinking or freeing a block is never refused, whatever the limit. */
  lemma ShrinkNeverRefused(a: Accounting, osize: Size, nsize: Size)
    requires nsize <= osize
    ensures LAlloc(a, true, osize, nsize).1 != Refused
  {
  }

  /** A zero `mem_limit` means no limit. */
  lemma UnlimitedNeverRefused(a: Accounting, hasPtr: bool, osize: Size, nsize: Size)
    requires a.memLimit == 0
    ensures LAlloc(a, hasPtr, osize, nsize).1 != Refused
  {
  }

  /**
   * The limit is an invariant of the accounting: when `mem` is within a
   * non-zero limit and the VM only frees or resizes blocks it holds (their
   * `osize` is part of `mem`), `mem` stays within the limit.
   */
  lemma LimitKept(a: Accounting, hasPtr: bool, osize: Size, nsize: Size)
    requires a.memLimit != 0 && a.mem <= a.memLimit
    requires hasPtr ==> osize <= a.mem
    ensures LAlloc(a, hasPtr, osize, nsize).0.mem <= a.memLimit
  {
    var m := Recount(a.mem, hasPtr, osize, nsize);
    if hasPtr && nsize <= osize {
      assert a.mem + nsize - osize <= a.mem;
      assert m == a.mem + nsize - osize;
    }
  }

  /**
   * Without wrap-around, `mem` counts outstanding bytes exactly: a forwarded
   * request adds `nsize` and takes back the `osize` of the block it replaces.
   */
  lemma ExactCount(a: Accounting, hasPtr: bool, osize: Size, nsize: Size)
    requires hasPtr ==> osize <= a.mem
    requires a.mem + nsize < SIZE_SPAN
    ensures var r := LAlloc(a, hasPtr, osize, nsize);
      r.0.mem == if r.1 == Refused then a.mem else a.mem + nsize - (if hasPtr then osize else 0)
  {
  }

  /** `mem_report` at most doubles per call, and only when `mem` passed it. */
  lemma ReportDoublesOnce(a: Accounting, hasPtr: bool, osize: Size, nsize: Size)
    requires 2 * a.memReport < SIZE_SPAN
    ensures var r := LAlloc(a, hasPtr, osize, nsize);
      r.0.memReport == a.memReport || (r.0.memReport == 2 * a.memReport && r.1 == Forwarded(true))
  {
  }

  class Snlua {
    var mem: Size
    var memReport: Size
    var memLimit: Size

    function State(): Accounting
      reads this
    {
      Accounting(mem, memReport, memLimit)
    }

    /** The accounting part of `snlua_create`. */
    constructor ()
      ensures State() == Accounting(0, MEMORY_WARNING_REPORT, 0)
    {
      mem := 0;
      memReport := MEMORY_WARNING_REPORT;
      memLimit := 0;
    }

    /** `lalloc`: the caller forwards to the real allocator unless the result is `Refused`. */
    method Alloc(hasPtr: bool, osize: Size, nsize: Size) returns (outcome: Outcome)
      modifies this`mem, this`memReport
      ensures (State(), outcome) == LAlloc(old(State()), hasPtr, osize, nsize)
    {
      var saved := mem;
      mem := (mem + nsize) % SIZE_SPAN;
      if hasPtr {
        mem := (mem - osize) % SIZE_SPAN;
      }
      if memLimit != 0 && mem > memLimit {
        if !hasPtr || nsize > osize {
          mem := saved;
          return Refused;
        }
      }
      var warned := false;
      if mem > memReport {
        memReport := (2 * memReport) % SIZE_SPAN;
        warned := true;
      }
      outcome := Forwarded(warned);
    }
  }
}
