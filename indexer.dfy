/** The registry the event emitter keeps per event: itself an ordered map
    from IDs to listeners, with its own ID generator, a `register` that
    appends under a fresh ID, the map's own `delete`, and a fire-and-forget
    `execute`. */
module Indexing {
  import opened Table
  import opened Dispatch

  class Indexer<L> {
    /** The map's entries, in insertion order. */
    var entries: seq<Entry<L>>
    /** The instance's own ID generator: the next ID it hands out. */
    var nextId: Id

    /** Keys are distinct and were all issued before the counter's value. */
    ghost predicate Valid()
      reads this
    {
      WellFormed(entries, nextId)
    }

    constructor ()
      ensures Valid() && entries == [] && nextId == 0
    {
      entries := [];
      nextId := 0;
    }

    /** Stores `callback` under a fresh ID, last in iteration order, and
        returns the ID. */
    method Register(callback: L) returns (id: Id)
      requires Valid()
      modifies this
      ensures Valid()
      ensures id !in Keys(old(entries))
      ensures entries == old(entries) + [Entry(id, callback)]
      ensures id == old(nextId) && nextId == old(nextId) + 1
    {
      id := nextId;
      nextId := nextId + 1;
      AppendFresh(entries, id, callback);
      entries := entries + [Entry(id, callback)];
    }

    /** The inherited `Map.delete`: removes the entry keyed `id` and reports
        whether there was one. */
    method Delete(id: Id) returns (deleted: bool)
      requires Valid()
      modifies this
      ensures Valid()
      ensures deleted <==> id in Keys(old(entries))
      ensures entries == Deleted(old(entries), id)
      ensures !deleted ==> entries == old(entries)
      ensures nextId == old(nextId)
    {
      deleted := id in Keys(entries);
      if !deleted {
        DeletedAbsent(entries, id);
      }
      DeletedKeys(entries, id);
      DeletedWellFormed(entries, nextId, id);
      entries := Deleted(entries, id);
    }

    /** Invokes every stored listener once, in insertion order, with
        `params`, without waiting for any of them. */
    method Execute<P>(params: P) returns (calls: seq<Call<L, P>>)
      ensures calls == Calls(Listeners(entries), params)
    {
      calls := [];
      for i := 0 to |entries|
        invariant |calls| == i
        invariant forall k :: 0 <= k < i ==> calls[k] == Call(entries[k].listener, params)
      {
        calls := calls + [Call(entries[i].listener, params)];
      }
    }
  }
}
