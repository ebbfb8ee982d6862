/** The heap allocator of the bare-metal runtime (cva6/verif/bsp/syscalls.c, _sbrk). */
module Sbrk {
  import opened Wrappers

  datatype Call = Call(incr: nat, sp: int)

  datatype Block = Block(addr: int, size: nat)

  class Heap {
    const heapEnd: int
    var brk: int

    constructor (heapStart: int, heapEnd: int)
      ensures brk == heapStart && this.heapEnd == heapEnd
    {
      brk, this.heapEnd := heapStart, heapEnd;
    }

    /** The break moves even when the call fails. */
    method Sbrk(incr: int, sp: int) returns (r: Option<int>)
      modifies this
      ensures brk == old(brk) + incr
      ensures r == if brk < sp && brk < heapEnd then Some(old(brk)) else None
    {
      var oldBrk := brk;
      brk := brk + incr;
      var newBrk := brk;
      if newBrk < sp && newBrk < heapEnd {
        brk := newBrk;
        return Some(oldBrk);
      } else {
        return None;
      }
    }

    /** A whole run of the program: the blocks it was given, `None` for a failed call. */
    method Run(calls: seq<Call>) returns (given: seq<Option<Block>>)
      modifies this
      ensures given == Given(old(brk), heapEnd, calls) && |given| == |calls|
    {
      given := [];
      ghost var start := brk;
      for i := 0 to |calls|
        invariant brk == start + Requested(calls, i) && |given| == i
        invariant forall k :: 0 <= k < i ==> given[k] == GivenAt(start, heapEnd, calls, k)
      {
        var r := Sbrk(calls[i].incr, calls[i].sp);
        given := given + [if r.Some? then Some(Block(r.value, calls[i].incr)) else None];
      }
    }
  }

  /** All that the first n calls asked for, whether or not they got it. */
  function Requested(calls: seq<Call>, n: nat): (total: nat)
    requires n <= |calls|
  {
    if n == 0 then 0 else Requested(calls, n - 1) + calls[n - 1].incr
  }

  /** Call k succeeds exactly when everything requested up to and including it fits. */
  function GivenAt(start: int, heapEnd: int, calls: seq<Call>, k: nat): Option<Block>
    requires k < |calls|
  {
    var top := start + Requested(calls, k + 1);
    if top < calls[k].sp && top < heapEnd then Some(Block(start + Requested(calls, k), calls[k].incr)) else None
  }

  function Given(start: int, heapEnd: int, calls: seq<Call>): seq<Option<Block>> {
    seq(|calls|, k requires 0 <= k < |calls| => GivenAt(start, heapEnd, calls, k))
  }

  lemma {:induction false} RequestedGrows(calls: seq<Call>, m: nat, n: nat)
    requires m <= n <= |calls|
    ensures Requested(calls, m) <= Requested(calls, n)
  {
    if m < n {
      RequestedGrows(calls, m, n - 1);
    }
  }

  /** A block that any call of any run is given lies inside the heap and below the stack pointer of
      that call. */
  lemma {:induction false} BlockInHeap(start: int, heapEnd: int, calls: seq<Call>, j: nat)
    requires j < |calls| && Given(start, heapEnd, calls)[j].Some?
    ensures var a := Given(start, heapEnd, calls)[j].value;
            && a.size == calls[j].incr
            && start <= a.addr && a.addr + a.size < heapEnd && a.addr + a.size < calls[j].sp
  {
    RequestedGrows(calls, 0, j);
  }

  /** The blocks of any run lie inside the heap, below the stack pointer of their call, and in
      increasing order without overlap, failed calls in between or not. */
  lemma {:induction false} BlocksAreSafe(start: int, heapEnd: int, calls: seq<Call>, j: nat, k: nat)
    requires j < k < |calls|
    requires Given(start, heapEnd, calls)[j].Some? && Given(start, heapEnd, calls)[k].Some?
    ensures var a, b := Given(start, heapEnd, calls)[j].value, Given(start, heapEnd, calls)[k].value;
            && start <= a.addr && a.addr + a.size <= b.addr && b.addr + b.size < heapEnd
            && a.addr + a.size < calls[j].sp && b.addr + b.size < calls[k].sp
  {
    RequestedGrows(calls, j + 1, k);
    BlockInHeap(start, heapEnd, calls, j);
    BlockInHeap(start, heapEnd, calls, k);
  }

  /** A call that does not fit in the heap makes every later call fail too. */
  lemma {:induction false} FailureIsFinal(start: int, heapEnd: int, calls: seq<Call>, j: nat, k: nat)
    requires j <= k < |calls| && start + Requested(calls, j + 1) >= heapEnd
    ensures Given(start, heapEnd, calls)[k].None?
  {
    RequestedGrows(calls, j + 1, k + 1);
  }

  lemma {:induction false} RequestedBefore(calls: seq<Call>, more: seq<Call>, n: nat)
    requires n <= |calls|
    ensures Requested(calls + more, n) == Requested(calls, n)
  {
    if n > 0 {
      RequestedBefore(calls, more, n - 1);
    }
  }

  /** After these calls no call can succeed any more, whatever is called and wherever the stack is. */
  ghost predicate Exhausted(start: int, heapEnd: int, calls: seq<Call>) {
    forall more, k :: |calls| <= k < |calls + more| ==> Given(start, heapEnd, calls + more)[k].None?
  }

  /** That is so exactly when the requests so far, failed ones included, have reached the heap end. */
  lemma {:induction false} ExhaustedIff(start: int, heapEnd: int, calls: seq<Call>)
    ensures Exhausted(start, heapEnd, calls) <==> start + Requested(calls, |calls|) >= heapEnd
  {
    var top := start + Requested(calls, |calls|);
    if top >= heapEnd {
      forall more, k | |calls| <= k < |calls + more|
        ensures Given(start, heapEnd, calls + more)[k].None?
      {
        RequestedBefore(calls, more, |calls|);
        RequestedGrows(calls + more, |calls|, k + 1);
      }
    } else {
      var more, n := [Call(0, top + 1)], |calls|;
      RequestedBefore(calls, more, n);
      assert (calls + more)[n] == Call(0, top + 1);
      assert Requested(calls + more, n + 1) == Requested(calls + more, n);
      assert Given(start, heapEnd, calls + more)[n].Some?;
    }
  }
}
