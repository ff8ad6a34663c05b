/** The full listener registry: an insertion-ordered table from IDs to
    callbacks, updated in place, with three ways of invoking every stored
    listener. */
module Registry {
  import opened Table
  import opened Dispatch

  class Subscriptable<L> {
    /** The `storage` map, in insertion order. */
    var storage: seq<Entry<L>>
    /** The instance's own ID generator: the next ID it hands out. */
    var nextId: Id

    /** Keys are distinct and were all issued before the counter's value. */
    ghost predicate Valid()
      reads this
    {
      WellFormed(storage, nextId)
    }

    constructor ()
      ensures Valid() && storage == [] && nextId == 0
    {
      storage := [];
      nextId := 0;
    }

    /** The number of entries: the number of distinct keys stored. */
    function Length(): (n: nat)
      reads this
      requires Valid()
      ensures n == |Keys(storage)|
    {
      DistinctKeysCount(storage);
      |storage|
    }

    /** Stores `callback` under a fresh ID, last in iteration order, and
        returns the ID. */
    method Register(callback: L) returns (id: Id)
      requires Valid()
      modifies this
      ensures Valid()
      ensures id !in Keys(old(storage))
      ensures storage == old(storage) + [Entry(id, callback)]
      ensures Lookup(storage, id) == Some(callback)
      ensures forall x :: x != id ==> Lookup(storage, x) == Lookup(old(storage), x)
      ensures Length() == old(Length()) + 1
      ensures id == old(nextId) && nextId == old(nextId) + 1
    {
      id := nextId;
      nextId := nextId + 1;
      AppendFresh(storage, id, callback);
      storage := storage + [Entry(id, callback)];
      DistinctKeysCount(old(storage));
    }

    /** Deletes the entry keyed `id`; reports whether there was one. */
    method Remove(id: Id) returns (removed: bool)
      requires Valid()
      modifies this
      ensures Valid()
      ensures removed <==> id in Keys(old(storage))
      ensures storage == Deleted(old(storage), id)
      ensures Keys(storage) == Keys(old(storage)) - {id}
      ensures forall x :: x != id ==> Lookup(storage, x) == Lookup(old(storage), x)
      ensures !removed ==> storage == old(storage)
      ensures Length() == if removed then old(Length()) - 1 else old(Length())
      ensures nextId == old(nextId)
    {
      removed := id in Keys(storage);
      if !removed {
        DeletedAbsent(storage, id);
      }
      DeletedKeys(storage, id);
      DeletedWellFormed(storage, nextId, id);
      storage := Deleted(storage, id);
    }

    /** Fire-and-forget: invokes every stored listener once, in insertion
        order, with `params`. */
    method Execute<P>(params: P) returns (calls: seq<Call<L, P>>)
      ensures calls == Calls(Listeners(storage), params)
    {
      var listeners := Listeners(storage);
      calls := [];
      for i := 0 to |listeners|
        invariant |calls| == i
        invariant forall k :: 0 <= k < i ==> calls[k] == Call(listeners[k], params)
      {
        calls := calls + [Call(listeners[i], params)];
      }
    }

    /** Sequential-blocking: invokes the stored listeners in insertion order,
        awaiting each one's completion before invoking the next. */
    method ExecuteBlocking<P>(params: P) returns (steps: seq<Step<L, P>>)
      ensures steps == Sequential(Calls(Listeners(storage), params))
    {
      var listeners := Listeners(storage);
      ghost var calls := Calls(listeners, params);
      steps := [];
      for i := 0 to |listeners|
        invariant |steps| == 2 * i
        invariant forall k :: 0 <= k < i ==> steps[2 * k] == Invoke(calls[k]) && steps[2 * k + 1] == Await(calls[k])
      {
        var call := Call(listeners[i], params);
        steps := steps + [Invoke(call), Await(call)];
      }
      var want := Sequential(calls);
      forall j | 0 <= j < |steps|
        ensures steps[j] == want[j]
      {
        var k := j / 2;
        assert k < |calls|;
        assert steps[2 * k] == want[2 * k] && steps[2 * k + 1] == want[2 * k + 1];
      }
    }

    /** Concurrent: invokes every stored listener in insertion order without
        waiting, collecting one task per invocation, then awaits all tasks. */
    method ExecuteConcurrent<P>(params: P) returns (tasks: seq<Call<L, P>>, steps: seq<Step<L, P>>)
      requires Valid()
      ensures tasks == Calls(Listeners(storage), params)
      ensures |tasks| == Length()
      ensures steps == Concurrently(tasks)
    {
      var listeners := Listeners(storage);
      tasks, steps := [], [];
      for i := 0 to |listeners|
        invariant |tasks| == |steps| == i
        invariant forall k :: 0 <= k < i ==> tasks[k] == Call(listeners[k], params)
        invariant forall k :: 0 <= k < i ==> steps[k] == Invoke(tasks[k])
      {
        var task := Call(listeners[i], params);
        tasks := tasks + [task];
        steps := steps + [Invoke(task)];
      }
      assert steps == InvokeAll(tasks);
      steps := steps + [AwaitAll(tasks)];
    }
  }
}
