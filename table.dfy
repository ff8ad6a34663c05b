/** The insertion-ordered table behind every listener registry.
    A JavaScript `Map` keyed by listener ID is modelled as a sequence of
    entries in insertion order whose IDs are pairwise distinct; IDs are the
    values of a per-instance counter. */
module Table {

  datatype Option<T> = None | Some(value: T)

  /** A listener ID, as drawn from a registry's own counter. */
  type Id = nat

  /** One entry of the table: the ID and the listener stored under it. */
  datatype Entry<L> = Entry(id: Id, listener: L)

  /** The set of IDs present in the table (the keys of the `Map`). */
  function Keys<L>(t: seq<Entry<L>>): (r: set<Id>)
    ensures forall i :: 0 <= i < |t| ==> t[i].id in r
    ensures forall x :: x in r ==> exists i :: 0 <= i < |t| && t[i].id == x
  {
    if t == [] then {} else {t[0].id} + Keys(t[1..])
  }

  /** No ID occurs twice. */
  predicate Distinct<L>(t: seq<Entry<L>>)
  {
    forall i, j :: 0 <= i < j < |t| ==> t[i].id != t[j].id
  }

  /** The invariant a registry keeps: IDs are distinct and all were issued
      by the counter before it reached `next`. */
  predicate WellFormed<L>(t: seq<Entry<L>>, next: Id)
  {
    Distinct(t) && forall i :: 0 <= i < |t| ==> t[i].id < next
  }

  /** The listeners in iteration order (what iterating the `Map`'s values yields). */
  function Listeners<L>(t: seq<Entry<L>>): (r: seq<L>)
    ensures |r| == |t|
    ensures forall i :: 0 <= i < |t| ==> r[i] == t[i].listener
  {
    if t == [] then [] else [t[0].listener] + Listeners(t[1..])
  }

  /** `Map.get`: the listener stored under `id`, if any. */
  function Lookup<L>(t: seq<Entry<L>>, id: Id): (r: Option<L>)
    ensures r.None? <==> id !in Keys(t)
    ensures r.Some? ==> exists i :: 0 <= i < |t| && t[i].id == id && t[i].listener == r.value
  {
    if t == [] then None
    else if t[0].id == id then Some(t[0].listener)
    else Lookup(t[1..], id)
  }

  /** `Map.delete`: the table without the entry keyed `id`. */
  function Deleted<L>(t: seq<Entry<L>>, id: Id): seq<Entry<L>>
  {
    if t == [] then []
    else if t[0].id == id then t[1..]
    else [t[0]] + Deleted(t[1..], id)
  }

  /** The entries whose IDs are not in `ids`, in their original order. */
  function Without<L>(t: seq<Entry<L>>, ids: set<Id>): seq<Entry<L>>
  {
    if t == [] then []
    else if t[0].id in ids then Without(t[1..], ids)
    else [t[0]] + Without(t[1..], ids)
  }

  /** The entries that registering `cbs` one by one adds to a registry whose
      counter stands at `next`. */
  function Appended<L>(next: Id, cbs: seq<L>): (r: seq<Entry<L>>)
    ensures |r| == |cbs|
    ensures forall i :: 0 <= i < |cbs| ==> r[i] == Entry(next + i, cbs[i])
    decreases |cbs|
  {
    if cbs == [] then [] else [Entry(next, cbs[0])] + Appended(next + 1, cbs[1..])
  }

  /** The IDs named in `order`. */
  function Named(order: seq<Id>): set<Id>
  {
    set x | x in order
  }

  /** Removing the IDs of `order` one after the other. */
  function DeletedAll<L>(t: seq<Entry<L>>, order: seq<Id>): seq<Entry<L>>
    decreases |order|
  {
    if order == [] then t else DeletedAll(Deleted(t, order[0]), order[1..])
  }

  // ---------------------------------------------------------------------
  // Appending a fresh entry (`Map.set` with a new key)
  // ---------------------------------------------------------------------

  lemma {:induction false} KeysAppend<L>(t: seq<Entry<L>>, e: Entry<L>)
    ensures Keys(t + [e]) == Keys(t) + {e.id}
  {
    if t != [] {
      assert (t + [e])[1..] == t[1..] + [e];
      KeysAppend(t[1..], e);
    }
  }

  /** The number of keys of a table with distinct IDs is its number of entries
      (so `Map.size` is the entry count). */
  lemma {:induction false} DistinctKeysCount<L>(t: seq<Entry<L>>)
    requires Distinct(t)
    ensures |Keys(t)| == |t|
  {
    if t != [] {
      DistinctKeysCount(t[1..]);
      assert t[0].id !in Keys(t[1..]);
    }
  }

  /** Storing a listener under a fresh ID keeps the table well formed for the
      advanced counter, makes the ID map to that listener, and leaves every
      other lookup as it was. */
  lemma {:induction false} AppendFresh<L>(t: seq<Entry<L>>, next: Id, l: L)
    requires WellFormed(t, next)
    ensures next !in Keys(t)
    ensures WellFormed(t + [Entry(next, l)], next + 1)
    ensures Keys(t + [Entry(next, l)]) == Keys(t) + {next}
    ensures Lookup(t + [Entry(next, l)], next) == Some(l)
    ensures forall x :: x != next ==> Lookup(t + [Entry(next, l)], x) == Lookup(t, x)
  {
    KeysAppend(t, Entry(next, l));
    forall x | x != next
      ensures Lookup(t + [Entry(next, l)], x) == Lookup(t, x)
    {
      LookupAppendOther(t, Entry(next, l), x);
    }
    LookupAppendLast(t, Entry(next, l));
  }

  lemma {:induction false} LookupAppendOther<L>(t: seq<Entry<L>>, e: Entry<L>, x: Id)
    requires x != e.id
    ensures Lookup(t + [e], x) == Lookup(t, x)
  {
    if t == [] {
      assert ([] + [e])[1..] == [];
    } else {
      assert (t + [e])[1..] == t[1..] + [e];
      LookupAppendOther(t[1..], e, x);
    }
  }

  lemma {:induction false} LookupAppendLast<L>(t: seq<Entry<L>>, e: Entry<L>)
    requires e.id !in Keys(t)
    ensures Lookup(t + [e], e.id) == Some(e.listener)
  {
    if t == [] {
    } else {
      assert (t + [e])[1..] == t[1..] + [e];
      LookupAppendLast(t[1..], e);
    }
  }

  // ---------------------------------------------------------------------
  // Deleting an entry (`Map.delete`)
  // ---------------------------------------------------------------------

  /** Deleting a present key splices out exactly its entry: every other entry
      stays, in the same relative order. */
  lemma {:induction false} DeletedSplices<L>(t: seq<Entry<L>>, k: nat)
    requires Distinct(t) && k < |t|
    ensures Deleted(t, t[k].id) == t[..k] + t[k + 1..]
  {
    if k > 0 {
      var tail := t[1..];
      assert tail[k - 1] == t[k];
      DeletedSplices(tail, k - 1);
      assert t[..k] + t[k + 1..] == [t[0]] + (tail[..k - 1] + tail[k..]);
    }
  }

  /** Deleting an absent key changes nothing. */
  lemma {:induction false} DeletedAbsent<L>(t: seq<Entry<L>>, id: Id)
    requires id !in Keys(t)
    ensures Deleted(t, id) == t
  {
    if t != [] {
      DeletedAbsent(t[1..], id);
    }
  }

  /** Deleting from a table with distinct IDs removes exactly the key `id`,
      keeps the IDs distinct, and shrinks the table by one entry exactly when
      `id` was present. */
  lemma {:induction false} DeletedKeys<L>(t: seq<Entry<L>>, id: Id)
    requires Distinct(t)
    ensures Distinct(Deleted(t, id))
    ensures Keys(Deleted(t, id)) == Keys(t) - {id}
    ensures |Deleted(t, id)| == if id in Keys(t) then |t| - 1 else |t|
  {
    if t != [] {
      if t[0].id == id {
        assert id !in Keys(t[1..]);
      } else {
        DeletedKeys(t[1..], id);
        var r := Deleted(t, id);
        assert r == [t[0]] + Deleted(t[1..], id);
        assert t[0].id !in Keys(t[1..]);
      }
    }
  }

  /** After deleting `id`, looking it up finds nothing and every other
      lookup is unchanged. */
  lemma {:induction false} LookupDeleted<L>(t: seq<Entry<L>>, id: Id, x: Id)
    requires Distinct(t)
    ensures Lookup(Deleted(t, id), x) == if x == id then None else Lookup(t, x)
  {
    if t != [] {
      if t[0].id == id {
        if x == id {
          DeletedKeys(t, id);
        }
      } else {
        LookupDeleted(t[1..], id, x);
      }
    }
  }

  /** Deleting keeps a registry's invariant for the same counter and leaves
      every other lookup as it was. */
  lemma DeletedWellFormed<L>(t: seq<Entry<L>>, next: Id, id: Id)
    requires WellFormed(t, next)
    ensures WellFormed(Deleted(t, id), next)
    ensures forall x :: x != id ==> Lookup(Deleted(t, id), x) == Lookup(t, x)
  {
    DeletedKeys(t, id);
    forall x | x != id
      ensures Lookup(Deleted(t, id), x) == Lookup(t, x)
    {
      LookupDeleted(t, id, x);
    }
    var r := Deleted(t, id);
    forall i | 0 <= i < |r|
      ensures r[i].id < next
    {
      assert r[i].id in Keys(t);
    }
  }

  // ---------------------------------------------------------------------
  // Register N, remove all N: the round trip
  // ---------------------------------------------------------------------

  lemma {:induction false} WithoutNone<L>(t: seq<Entry<L>>, ids: set<Id>)
    requires forall i :: 0 <= i < |t| ==> t[i].id !in ids
    ensures Without(t, ids) == t
  {
    if t != [] {
      WithoutNone(t[1..], ids);
    }
  }

  lemma {:induction false} DeletedIsWithout<L>(t: seq<Entry<L>>, id: Id)
    requires Distinct(t)
    ensures Deleted(t, id) == Without(t, {id})
  {
    if t != [] {
      if t[0].id == id {
        WithoutNone(t[1..], {id});
      } else {
        DeletedIsWithout(t[1..], id);
      }
    }
  }

  lemma {:induction false} WithoutWithout<L>(t: seq<Entry<L>>, a: set<Id>, b: set<Id>)
    ensures Without(Without(t, a), b) == Without(t, a + b)
  {
    if t != [] {
      WithoutWithout(t[1..], a, b);
    }
  }

  lemma {:induction false} WithoutConcat<L>(s: seq<Entry<L>>, t: seq<Entry<L>>, ids: set<Id>)
    ensures Without(s + t, ids) == Without(s, ids) + Without(t, ids)
  {
    if s != [] {
      assert (s + t)[1..] == s[1..] + t;
      WithoutConcat(s[1..], t, ids);
    } else {
      assert s + t == t;
    }
  }

  lemma {:induction false} WithoutAll<L>(t: seq<Entry<L>>, ids: set<Id>)
    requires forall i :: 0 <= i < |t| ==> t[i].id in ids
    ensures Without(t, ids) == []
  {
    if t != [] {
      WithoutAll(t[1..], ids);
    }
  }

  /** Removing IDs one after the other, in any order and with repetitions,
      leaves exactly the entries whose IDs were never named. */
  lemma {:induction false} DeletedAllIsWithout<L>(t: seq<Entry<L>>, order: seq<Id>)
    requires Distinct(t)
    ensures DeletedAll(t, order) == Without(t, Named(order))
    decreases |order|
  {
    if order == [] {
      assert Named(order) == {};
      WithoutNone(t, {});
    } else {
      var rest := Named(order[1..]);
      var all := Named(order);
      DeletedIsWithout(t, order[0]);
      DeletedKeys(t, order[0]);
      DeletedAllIsWithout(Deleted(t, order[0]), order[1..]);
      assert DeletedAll(t, order) == Without(Without(t, {order[0]}), rest);
      WithoutWithout(t, {order[0]}, rest);
      assert {order[0]} + rest == all by {
        assert order == [order[0]] + order[1..];
      }
    }
  }

  /** Registering one more callback extends the appended entries by one,
      under the next counter value. */
  lemma {:induction false} AppendedSnoc<L>(t: seq<Entry<L>>, next: Id, cbs: seq<L>, l: L)
    ensures t + Appended(next, cbs + [l]) == (t + Appended(next, cbs)) + [Entry(next + |cbs|, l)]
  {
  }

  /** Removing one more ID after a run of removals deletes it from what
      the run left. */
  lemma {:induction false} DeletedAllSnoc<L>(t: seq<Entry<L>>, order: seq<Id>, x: Id)
    ensures DeletedAll(t, order + [x]) == Deleted(DeletedAll(t, order), x)
    decreases |order|
  {
    if order == [] {
      assert [x][1..] == [];
    } else {
      assert (order + [x])[1..] == order[1..] + [x];
      DeletedAllSnoc(Deleted(t, order[0]), order[1..], x);
    }
  }

  /** Registering N listeners on a well-formed table issues N IDs that are
      pairwise distinct and distinct from every ID already present. */
  lemma {:induction false} AppendedWellFormed<L>(t: seq<Entry<L>>, next: Id, cbs: seq<L>)
    requires WellFormed(t, next)
    ensures WellFormed(t + Appended(next, cbs), next + |cbs|)
  {
  }

  /** Registering N listeners and then removing all N returned IDs, in any
      order, gives back exactly the table one started from (and so the same
      length). */
  lemma {:induction false} RegisterRemoveRoundTrip<L>(t: seq<Entry<L>>, next: Id, cbs: seq<L>, order: seq<Id>)
    requires WellFormed(t, next)
    requires forall x :: x in order <==> next <= x < next + |cbs|
    ensures DeletedAll(t + Appended(next, cbs), order) == t
  {
    var ids := Named(order);
    var added := Appended(next, cbs);
    AppendedWellFormed(t, next, cbs);
    DeletedAllIsWithout(t + added, order);
    WithoutConcat(t, added, ids);
    WithoutNone(t, ids);
    forall i | 0 <= i < |added|
      ensures added[i].id in ids
    {
      assert added[i].id in order;
    }
    WithoutAll(added, ids);
  }
}
