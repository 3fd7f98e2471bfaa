/** Handing the transactions to the accelerator: the request proxy records
    every `enqueueTransaction` call, and the run loop sends transaction `i`
    of the list with transaction number `i`. */
module Dispatch {
  import opened Base

  /** One `enqueueTransaction` request: the transaction number and the
      sixteen slots passed as its sixteen `Object` arguments. */
  datatype Call = Call(tid: nat, objs: Transaction)

  /** The host-to-accelerator request interface, reduced to the requests it
      has been sent. */
  class HostToPuppetmasterProxy {
    /** Every request received so far, oldest first. */
    var calls: seq<Call>

    constructor ()
      ensures calls == []
    {
      calls := [];
    }

    /** Sends one transaction; the sixteen slots are the call's sixteen
        arguments. */
    method EnqueueTransaction(tid: nat, objs: Transaction)
      requires |objs| == NumObjects
      modifies this
      ensures calls == old(calls) + [Call(tid, objs)]
    {
      calls := calls + [Call(tid, objs)];
    }
  }

  /** The requests for `tests`, numbered from `first` on. */
  function DispatchLog(tests: seq<Transaction>, first: nat): (log: seq<Call>)
    ensures |log| == |tests|
  {
    if tests == [] then [] else [Call(first, tests[0])] + DispatchLog(tests[1..], first + 1)
  }

  /** Request `k` carries transaction `k` under number `first + k`. */
  lemma {:induction false} DispatchLogAt(tests: seq<Transaction>, first: nat, k: nat)
    requires k < |tests|
    ensures DispatchLog(tests, first)[k] == Call(first + k, tests[k])
  {
    if k > 0 {
      DispatchLogAt(tests[1..], first + 1, k - 1);
    }
  }

  /** Sending `a` then `b` numbers `b` on from where `a` stopped. */
  lemma {:induction false} DispatchLogAppend(a: seq<Transaction>, b: seq<Transaction>, first: nat)
    ensures DispatchLog(a + b, first) == DispatchLog(a, first) + DispatchLog(b, first + |a|)
  {
    if a == [] {
      assert a + b == b;
    } else {
      DispatchLogAppend(a[1..], b, first + 1);
      assert (a + b)[0] == a[0];
      assert (a + b)[1..] == a[1..] + b;
    }
  }

  /** Transaction numbers are distinct, so no two requests can be confused
      when the accelerator reports them started or finished. */
  lemma DispatchLogDistinct(tests: seq<Transaction>, first: nat, k1: nat, k2: nat)
    requires k1 < |tests| && k2 < |tests| && k1 != k2
    ensures DispatchLog(tests, first)[k1].tid != DispatchLog(tests, first)[k2].tid
  {
    DispatchLogAt(tests, first, k1);
    DispatchLogAt(tests, first, k2);
  }

  /** The run loop: transaction `i` of `tests` is sent with number `i`, in
      order, one request each. */
  method RunTests(fpga: HostToPuppetmasterProxy, tests: seq<Transaction>)
    requires forall k :: 0 <= k < |tests| ==> |tests[k]| == NumObjects
    modifies fpga
    ensures fpga.calls == old(fpga.calls) + DispatchLog(tests, 0)
  {
    var i := 0;
    assert tests[..0] == [];
    while i < |tests|
      invariant 0 <= i <= |tests|
      invariant fpga.calls == old(fpga.calls) + DispatchLog(tests[..i], 0)
    {
      var objs := tests[i];
      fpga.EnqueueTransaction(i, objs);
      DispatchLogAppend(tests[..i], [objs], 0);
      assert tests[..i + 1] == tests[..i] + [objs];
      i := i + 1;
    }
    assert tests[..i] == tests;
  }
}
