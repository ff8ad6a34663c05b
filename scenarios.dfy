/** Clients of the registries: what a caller can conclude from the
    contracts alone about short sequences of calls. */
module Scenarios {
  import opened Table
  import opened Dispatch
  import opened Registry
  import opened Events

  /** Removing an ID succeeds once and then reports false, and the
      registry is back to the entries (and length) it had. */
  method RegisterThenRemoveTwice<L>(s: Subscriptable<L>, cb: L) returns (first: bool, second: bool)
    requires s.Valid()
    modifies s
    ensures s.Valid()
    ensures first && !second
    ensures s.storage == old(s.storage) && s.Length() == old(s.Length())
  {
    ghost var start := s.storage;
    var id := s.Register(cb);
    DeletedSplices(s.storage, |start|);
    assert s.storage[..|start|] == start;
    first := s.Remove(id);
    second := s.Remove(id);
  }

  /** One registration, seen only through the state it leaves: the
      callback appended under the counter's value, the counter advanced. */
  method RegisterOne<L>(s: Subscriptable<L>, cb: L) returns (id: Id)
    requires s.Valid()
    modifies s
    ensures s.Valid() && id == old(s.nextId) && s.nextId == id + 1
    ensures s.storage == old(s.storage) + [Entry(id, cb)]
  {
    id := s.Register(cb);
  }

  /** Registering every callback of `cbs` in turn appends them in that
      order under consecutive fresh IDs. */
  method RegisterAll<L>(s: Subscriptable<L>, cbs: seq<L>) returns (ids: seq<Id>)
    requires s.Valid()
    modifies s
    ensures s.Valid() && s.nextId == old(s.nextId) + |cbs|
    ensures |ids| == |cbs| && forall k :: 0 <= k < |cbs| ==> ids[k] == old(s.nextId) + k
    ensures s.storage == old(s.storage) + Appended(old(s.nextId), cbs)
  {
    ghost var t, n := s.storage, s.nextId;
    ids := [];
    for i := 0 to |cbs|
      invariant s.Valid() && s.nextId == n + i
      invariant |ids| == i && forall k :: 0 <= k < i ==> ids[k] == n + k
      invariant s.storage == t + Appended(n, cbs[..i])
    {
      var id := RegisterOne(s, cbs[i]);
      AppendedSnoc(t, n, cbs[..i], cbs[i]);
      assert cbs[..i + 1] == cbs[..i] + [cbs[i]];
      ids := ids + [id];
    }
    assert cbs[..|cbs|] == cbs;
  }

  /** One removal, seen only through the state it leaves: the ID deleted,
      the counter untouched. */
  method RemoveOne<L>(s: Subscriptable<L>, id: Id)
    requires s.Valid()
    modifies s
    ensures s.Valid() && s.nextId == old(s.nextId)
    ensures s.storage == Deleted(old(s.storage), id)
  {
    var removed := s.Remove(id);
  }

  /** Removing the IDs of `order` in turn deletes each from what the
      earlier removals left. */
  method RemoveAll<L>(s: Subscriptable<L>, order: seq<Id>)
    requires s.Valid()
    modifies s
    ensures s.Valid()
    ensures s.storage == DeletedAll(old(s.storage), order)
  {
    ghost var start := s.storage;
    for j := 0 to |order|
      invariant s.Valid()
      invariant s.storage == DeletedAll(start, order[..j])
    {
      RemoveOne(s, order[j]);
      DeletedAllSnoc(start, order[..j], order[j]);
      assert order[..j + 1] == order[..j] + [order[j]];
    }
    assert order[..|order|] == order;
  }

  /** Registering every callback of `cbs` and then removing all the returned
      IDs, in any order and with repetitions, returns the registry to the
      entries and length it had. */
  method RegisterAllRemoveAll<L>(s: Subscriptable<L>, cbs: seq<L>, order: seq<Id>) returns (ids: seq<Id>)
    requires s.Valid()
    requires forall x :: x in order <==> s.nextId <= x < s.nextId + |cbs|
    modifies s
    ensures s.Valid()
    ensures |ids| == |cbs| && forall k :: 0 <= k < |cbs| ==> ids[k] == old(s.nextId) + k
    ensures s.storage == old(s.storage) && s.Length() == old(s.Length())
  {
    ghost var t, n := s.storage, s.nextId;
    ids := RegisterAll(s, cbs);
    RemoveAll(s, order);
    RegisterRemoveRoundTrip(t, n, cbs, order);
  }

  /** `off` on a known event succeeds once for a registered ID and then
      reports false; the event stays known, with the entries it had and its
      counter one further on. */
  method OffTwice<E(==), L>(em: EventEmitter<E, L>, event: E, l: L) returns (first: Option<bool>, second: Option<bool>)
    requires em.Valid()
    modifies em, em.Repr
    ensures em.Valid()
    ensures first == Some(true) && second == Some(false)
    ensures event in em.indexers
    ensures em.Slots[event] == Slot(old(em.SlotOf(event)).entries, old(em.SlotOf(event)).nextId + 1)
  {
    ghost var start := em.SlotOf(event).entries;
    var id := em.On(event, l);
    ghost var now := em.Slots[event].entries;
    assert Distinct(now) && now == start + [Entry(id, l)] && id !in Keys(start);
    DeletedSplices(now, |start|);
    assert now[..|start|] == start;
    first := em.Off(event, id);
    assert em.Slots[event].entries == start;
    DeletedAbsent(start, id);
    second := em.Off(event, id);
  }

  /** An event's indexer never issues an ID twice: after `off` removed a
      listener, the next `on` gets a different ID, and the removed ID stays
      gone. */
  method IdsNotReissued<E(==), L>(em: EventEmitter<E, L>, event: E, a: L, b: L) returns (first: Id, second: Id, stale: Option<bool>)
    requires em.Valid()
    modifies em, em.Repr
    ensures em.Valid()
    ensures first != second && stale == Some(false)
  {
    first := em.On(event, a);
    ghost var now := em.Slots[event].entries;
    assert Distinct(now);
    var removed := em.Off(event, first);
    ghost var left := em.Slots[event].entries;
    DeletedKeys(now, first);
    second := em.On(event, b);
    KeysAppend(left, Entry(second, b));
    stale := em.Off(event, first);
  }

  /** Listeners registered for one event are invoked in registration
      order, and only they. */
  method EmitInRegistrationOrder<E(==), L, P>(event: E, a: L, b: L, p: P) returns (calls: seq<Call<L, P>>)
    ensures calls == [Call(a, p), Call(b, p)]
  {
    var em := new EventEmitter<E, L>();
    var idA := em.On(event, a);
    var idB := em.On(event, b);
    calls := em.Emit(event, p);
    assert Listeners(em.Slots[event].entries) == [a, b];
  }
}
