/** The event bus: a map from event name to the `Indexer` holding that
    event's listeners. An event's indexer is created on its first `on` and
    is never removed, even once it is empty. Event names are compared only
    for equality, so their type is a parameter. */
module Events {
  import opened Table
  import opened Dispatch
  import opened Indexing

  /** What one event's indexer holds: its entries in insertion order and
      the next ID its counter hands out. */
  datatype Slot<L> = Slot(entries: seq<Entry<L>>, nextId: Id)

  class EventEmitter<E(==), L> {
    /** The emitter's own map, event name to indexer. */
    var indexers: map<E, Indexer<L>>
    /** The indexers this emitter owns. */
    ghost var Repr: set<Indexer<L>>
    /** The state of every known event's indexer. */
    ghost var Slots: map<E, Slot<L>>

    /** Every indexer is owned and keeps its invariant, and no two events
        share one. */
    ghost predicate Valid()
      reads this, Repr
    {
      && Slots.Keys == indexers.Keys
      && (forall e :: e in indexers ==> indexers[e] in Repr && indexers[e].Valid())
      && (forall e :: e in indexers ==> Slots[e] == Slot(indexers[e].entries, indexers[e].nextId))
      && (forall e, e' :: e in indexers && e' in indexers && e != e' ==> indexers[e] != indexers[e'])
    }

    /** The state of `event`'s indexer; an unknown event is as empty as a
        new indexer. */
    ghost function SlotOf(event: E): Slot<L>
      reads this
    {
      if event in Slots then Slots[event] else Slot([], 0)
    }

    constructor ()
      ensures Valid() && indexers == map[] && Slots == map[] && Repr == {}
    {
      indexers := map[];
      Repr := {};
      Slots := map[];
    }

    /** Registers `listener` for `event`, creating the event's indexer on
        first use, and returns the ID that indexer's counter issued. */
    method On(event: E, listener: L) returns (id: Id)
      requires Valid()
      modifies this, Repr
      ensures Valid() && fresh(Repr - old(Repr))
      ensures event in indexers && indexers == old(indexers)[event := indexers[event]]
      ensures event in old(indexers) ==> indexers[event] == old(indexers[event])
      ensures event !in old(indexers) ==> fresh(indexers[event])
      ensures id == old(SlotOf(event)).nextId && id !in Keys(old(SlotOf(event)).entries)
      ensures Slots == old(Slots)[event := Slot(old(SlotOf(event)).entries + [Entry(id, listener)], id + 1)]
    {
      var index: Indexer<L>;
      if event in indexers {
        index := indexers[event];
      } else {
        index := new Indexer();
      }
      ghost var mine := SlotOf(event);
      assert index.Valid() && index.entries == mine.entries && index.nextId == mine.nextId;
      id := index.Register(listener);
      indexers, Repr, Slots := indexers[event := index], Repr + {index}, Slots[event := Slot(mine.entries + [Entry(id, listener)], id + 1)];
    }

    /** Removes the listener `id` of `event`: `None` (the source's
        `undefined`) for an unknown event, otherwise whether it was there.
        The event itself stays known and its counter is untouched. */
    method Off(event: E, id: Id) returns (r: Option<bool>)
      requires Valid()
      modifies this, Repr
      ensures Valid()
      ensures indexers == old(indexers) && Repr == old(Repr)
      ensures event !in indexers ==> r == None && Slots == old(Slots) && unchanged(this)
      ensures event in indexers ==>
        && r == Some(id in Keys(old(Slots[event].entries)))
        && Slots == old(Slots)[event := Slot(Deleted(old(Slots[event].entries), id), old(Slots[event].nextId))]
    {
      if event in indexers {
        var deleted := indexers[event].Delete(id);
        r := Some(deleted);
        Slots := Slots[event := Slot(indexers[event].entries, indexers[event].nextId)];
      } else {
        r := None;
      }
    }

    /** Invokes the listeners of `event` in registration order, and nothing
        for an unknown event. */
    method Emit<P>(event: E, param: P) returns (calls: seq<Call<L, P>>)
      requires Valid()
      ensures event !in indexers ==> calls == []
      ensures event in indexers ==> calls == Calls(Listeners(Slots[event].entries), param)
    {
      if event in indexers {
        calls := indexers[event].Execute(param);
      } else {
        calls := [];
      }
    }
  }
}
