/** What a dispatch loop does, as a trace of its observable steps.
    A listener body and its payload are opaque: invoking listener `l` with
    `params` is the event `Call(l, params)`. The three dispatch modes differ
    only in where the dispatcher waits for a listener's completion. */
module Dispatch {

  /** One invocation `listener(...params)`; in the concurrent mode, also the
      task (promise) that invocation produced. */
  datatype Call<L, P> = Call(listener: L, params: P)

  /** One step of a dispatch loop: invoking a listener, waiting for one
      invocation to complete (`await`), or waiting for a list of tasks
      together (`Promise.all`). */
  datatype Step<L, P> =
    | Invoke(call: Call<L, P>)
    | Await(call: Call<L, P>)
    | AwaitAll(tasks: seq<Call<L, P>>)

  /** Invoking each of `ls`, in order, with the same `params`. */
  function Calls<L, P>(ls: seq<L>, params: P): (r: seq<Call<L, P>>)
    ensures |r| == |ls|
    ensures forall i :: 0 <= i < |ls| ==> r[i] == Call(ls[i], params)
  {
    if ls == [] then [] else [Call(ls[0], params)] + Calls(ls[1..], params)
  }

  /** The sequential-blocking trace: each invocation is awaited before the
      next one starts. */
  function Sequential<L, P>(calls: seq<Call<L, P>>): (r: seq<Step<L, P>>)
    ensures |r| == 2 * |calls|
    ensures forall i :: 0 <= i < |calls| ==> r[2 * i] == Invoke(calls[i]) && r[2 * i + 1] == Await(calls[i])
  {
    if calls == [] then [] else [Invoke(calls[0]), Await(calls[0])] + Sequential(calls[1..])
  }

  /** Invoking every call without waiting in between. */
  function InvokeAll<L, P>(calls: seq<Call<L, P>>): (r: seq<Step<L, P>>)
    ensures |r| == |calls|
    ensures forall i :: 0 <= i < |calls| ==> r[i] == Invoke(calls[i])
  {
    if calls == [] then [] else [Invoke(calls[0])] + InvokeAll(calls[1..])
  }

  /** The concurrent trace: every invocation starts, then all the resulting
      tasks are awaited together; no wait happens before the last invocation. */
  function Concurrently<L, P>(calls: seq<Call<L, P>>): (r: seq<Step<L, P>>)
    ensures |r| == |calls| + 1
    ensures forall k :: 0 <= k < |calls| ==> r[k] == Invoke(calls[k])
    ensures r[|calls|] == AwaitAll(calls)
  {
    InvokeAll(calls) + [AwaitAll(calls)]
  }

  /** The invocations of a trace, in the order they happen. */
  function Invoked<L, P>(steps: seq<Step<L, P>>): seq<Call<L, P>>
  {
    if steps == [] then []
    else if steps[0].Invoke? then [steps[0].call] + Invoked(steps[1..])
    else Invoked(steps[1..])
  }

  lemma {:induction false} InvokedConcat<L, P>(s: seq<Step<L, P>>, t: seq<Step<L, P>>)
    ensures Invoked(s + t) == Invoked(s) + Invoked(t)
  {
    if s == [] {
      assert s + t == t;
    } else {
      assert (s + t)[1..] == s[1..] + t;
      InvokedConcat(s[1..], t);
    }
  }

  /** The blocking mode invokes exactly the given calls, in order. */
  lemma {:induction false} SequentialInvokesInOrder<L, P>(calls: seq<Call<L, P>>)
    ensures Invoked(Sequential(calls)) == calls
  {
    if calls != [] {
      var head: seq<Step<L, P>> := [Invoke(calls[0]), Await(calls[0])];
      InvokedConcat(head, Sequential(calls[1..]));
      assert head[1..] == [Await(calls[0])];
      assert Invoked(head) == [calls[0]];
      SequentialInvokesInOrder(calls[1..]);
    }
  }

  /** The concurrent mode invokes exactly the given calls, in order. */
  lemma {:induction false} ConcurrentInvokesInOrder<L, P>(calls: seq<Call<L, P>>)
    ensures Invoked(Concurrently(calls)) == calls
  {
    InvokedConcat(InvokeAll(calls), [AwaitAll(calls)]);
    InvokeAllInvokes(calls);
    assert [AwaitAll(calls)][1..] == [];
  }

  lemma {:induction false} InvokeAllInvokes<L, P>(calls: seq<Call<L, P>>)
    ensures Invoked(InvokeAll(calls)) == calls
  {
    if calls != [] {
      InvokeAllInvokes(calls[1..]);
    }
  }

  /** In the blocking mode every invocation is followed at once by the wait
      for its own completion, so a listener is never invoked before its
      predecessor has completed. */
  lemma SequentialAwaitsEach<L, P>(calls: seq<Call<L, P>>)
    ensures forall k :: 0 <= k < |Sequential(calls)| && Sequential(calls)[k].Invoke? ==>
      k + 1 < |Sequential(calls)| && Sequential(calls)[k + 1] == Await(Sequential(calls)[k].call)
  {
  }
}
