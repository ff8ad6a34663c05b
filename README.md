# event-emitter, modelled in Dafny

This project models the core of a small TypeScript event-emitter library.
It has three classes:

- `Subscriptable` is an ordered registry of callbacks. Each callback is kept
  in a JavaScript `Map` under an ID from the instance's own auto-incrementing
  ID generator. It can register, remove and count callbacks, and it can
  invoke all of them in three ways: fire-and-forget (`execute`),
  sequential-blocking (`executeBlocking`) and concurrent (`executeConcurrent`).
- `Indexer` is the per-event registry of the event bus. It is itself a `Map`
  from IDs to listeners with its own ID generator, a `register`, the
  inherited `Map.delete` and a fire-and-forget `execute`.
- `EventEmitter` is the event bus. It is a `Map` from event names to
  `Indexer`s. `on` creates an event's indexer on first use, `off` deletes a
  listener by ID, and `emit` invokes an event's listeners.

How the model represents them:

- `Table` models a `Map` keyed by listener ID as a sequence of
  `Entry(id, listener)` in insertion order, with pairwise-distinct IDs.
  `WellFormed(t, next)` is the invariant every registry keeps: IDs are
  distinct and were all issued before the counter reached `next`. `Deleted`
  is `Map.delete`, `Lookup` is `Map.get` and `Listeners` is the iteration
  order of the values. The module also proves the register/remove round trip.
- `Dispatch` describes what a dispatch loop does as a trace of observable
  steps. `Invoke(call)` starts a listener and `Await(call)` waits for that
  one invocation. `AwaitAll(tasks)` is `Promise.all` over the collected
  tasks. Listener bodies and payloads are opaque type parameters.
- `Registry.Subscriptable`, `Indexing.Indexer` and `Events.EventEmitter` are
  classes whose fields the methods update in place, as in the source. Each
  dispatch method returns the trace it performs. Each registry carries its
  ID counter `nextId` as a field. The bus keeps a ghost map `Slots` from each
  known event to its indexer's entries and counter, so its contracts can
  speak about every event at once.
- The bus's event names (`keyof T` in the source) are only ever compared for
  equality, so the model takes their type as a parameter `E`.
- `Scenarios` holds short client sequences that follow from the contracts
  alone.

Points of the code's behaviour that the model keeps as written:

- `off` on an event that has no indexer falls off the end of the function
  (src/EventEmitter.ts:18-23), so it returns `undefined` rather than `false`.
  It is modelled as `None`; a known event gives `Some(b)` with `b` the
  result of `Map.delete`.
- The bus dispatches only through `emit` (src/EventEmitter.ts:25-30), which
  calls the indexer's fire-and-forget `execute`. It has no blocking or
  concurrent form.
- Every dispatch loop iterates the live `Map` (src/Subscriptable.ts:86-90,
  src/Indexer.ts:15) rather than a snapshot. This is unobservable here
  because listeners cannot mutate the registry in this model (see
  "Left out").

## Model

`Table.Keys`, `Table.Lookup`, `Table.Deleted`, `Table.Without`,
`Table.Appended` and `Table.DeletedAll` are the specification functions
the contracts below are written in: the key set, `Map.get`, `Map.delete`,
filtering by a set of IDs, the entries N registrations add, and a run of
deletes. Their meaning is fixed by the lemmas in the table.

| member | source | states |
|---|---|---|
| Table.Listeners | src/Subscriptable.ts:86-90 | iteration yields the stored listeners, one per entry, in insertion order |
| Table.DistinctKeysCount | src/Subscriptable.ts:82-84 | with distinct IDs, the number of entries equals the number of keys, so `length` counts the stored callbacks |
| Table.AppendFresh | src/Subscriptable.ts:21-25 | a counter-issued ID is not already a key; appending it keeps the invariant, adds exactly that key, and makes the new ID look up to the callback while every other lookup stays the same |
| Table.AppendedWellFormed | src/Subscriptable.ts:21-25 | registering N callbacks in a row issues N IDs that are pairwise distinct and distinct from all earlier ones |
| Table.Lookup | src/Subscriptable.ts:12 | `Map.get` on the registry's storage finds nothing exactly when the ID is not a key, and otherwise finds the listener stored under that ID |
| Table.AppendedSnoc | src/Subscriptable.ts:21-25 | one more registration adds one entry, under the counter's next value, after those of the earlier registrations |
| Table.DeletedAllSnoc | src/Subscriptable.ts:33-35 | one more removal after a run of removals deletes that ID from what the run left |
| Table.DeletedAbsent | src/Subscriptable.ts:33-35 | deleting an absent ID leaves the table untouched |
| Table.DeletedKeys | src/Subscriptable.ts:33-35 | deleting removes exactly that key, keeps IDs distinct, and shrinks the table by one exactly when the key was present |
| Table.DeletedSplices | src/Subscriptable.ts:33-35 | deleting a present key removes exactly its entry and keeps all other entries in their relative order |
| Table.LookupDeleted | src/Subscriptable.ts:33-35 | after a delete the removed ID looks up to nothing and every other ID looks up as before |
| Table.DeletedWellFormed | src/Indexer.ts:5 | the inherited `Map.delete` preserves the registry invariant and all other lookups |
| Table.DeletedAllIsWithout | src/Subscriptable.ts:33-35 | removing IDs one after another, in any order and with repeats, leaves exactly the entries whose IDs were never named |
| Table.RegisterRemoveRoundTrip | src/Subscriptable.ts:21-35 | registering N callbacks and then removing their N IDs in any order gives back the original table, and so the original length |
| Dispatch.Calls | src/Subscriptable.ts:43-47 | invoking a listener list produces one call per listener, in list order, each with the same parameters |
| Dispatch.Sequential | src/Subscriptable.ts:56-60 | the blocking trace has two steps per listener: invoke it, then await that same invocation |
| Dispatch.Concurrently | src/Subscriptable.ts:69-75 | the concurrent trace invokes every listener in order with no wait in between, then awaits all the tasks together in one final step |
| Dispatch.SequentialInvokesInOrder | src/Subscriptable.ts:56-60 | the blocking mode invokes exactly the given calls, each once, in order |
| Dispatch.SequentialAwaitsEach | src/Subscriptable.ts:56-60 | in the blocking mode every invocation is followed at once by the await of its own completion, before the next invocation |
| Dispatch.ConcurrentInvokesInOrder | src/Subscriptable.ts:69-75 | the concurrent mode invokes exactly the given calls, each once, in order |
| Registry.Subscriptable.constructor | src/Subscriptable.ts:12-13 | a new registry is empty and satisfies the invariant |
| Registry.Subscriptable.Length | src/Subscriptable.ts:82-84 | `length` is the number of distinct keys stored |
| Registry.Subscriptable.Register | src/Subscriptable.ts:21-25 | returns the counter's current value, which is not already stored, and advances the counter by one; appends the callback last under that ID, keeps every other lookup, and raises the length by one |
| Registry.Subscriptable.Remove | src/Subscriptable.ts:33-35 | returns true exactly when the ID was stored; removes only that key, keeps all other lookups, changes nothing when absent, and lowers the length by one exactly when it returns true |
| Registry.Subscriptable.Execute | src/Subscriptable.ts:43-47 | invokes every stored listener exactly once, in insertion order, with the given parameters |
| Registry.Subscriptable.ExecuteBlocking | src/Subscriptable.ts:56-60 | its trace is the sequential trace of the stored listeners in insertion order |
| Registry.Subscriptable.ExecuteConcurrent | src/Subscriptable.ts:69-75 | collects one task per stored listener in insertion order, as many tasks as `length`, and its trace is the concurrent trace over those tasks |
| Indexing.Indexer.constructor | src/Indexer.ts:3-6 | a new indexer is empty and satisfies the invariant |
| Indexing.Indexer.Register | src/Indexer.ts:8-12 | returns the counter's current value, which is not already a key, advances the counter by one, and appends the callback last under that ID |
| Indexing.Indexer.Delete | src/Indexer.ts:5 | the inherited `Map.delete` returns true exactly when the ID was present, removes that entry, and changes nothing otherwise |
| Indexing.Indexer.Execute | src/Indexer.ts:14-18 | invokes every stored listener exactly once, in insertion order, with the given parameters |
| Events.EventEmitter.constructor | src/EventEmitter.ts:4-7 | a new bus knows no events |
| Events.EventEmitter.On | src/EventEmitter.ts:8-16 | reuses the event's indexer if it exists and creates a fresh one otherwise (whose counter starts at 0); returns that indexer's current counter value, an ID new to the event; appends the listener last to that event and advances its counter by one; every other event is unchanged |
| Events.EventEmitter.Off | src/EventEmitter.ts:18-23 | on an unknown event returns undefined and changes nothing; on a known event returns whether the ID was present and deletes it from that event only, leaving the event known and its counter where it was |
| Events.EventEmitter.Emit | src/EventEmitter.ts:25-30 | invokes nothing for an unknown event; otherwise invokes that event's listeners exactly once each, in registration order |
| Scenarios.RegisterThenRemoveTwice | src/Subscriptable.ts:21-35 | removing a freshly registered ID returns true once and then false, and the registry is back to its earlier entries and length |
| Scenarios.RegisterOne | src/Subscriptable.ts:21-25 | one registration appends the callback under the counter's value and advances the counter |
| Scenarios.RegisterAll | src/Subscriptable.ts:21-25 | registering a list of callbacks in turn stores them in that order under consecutive fresh IDs and returns those IDs |
| Scenarios.RemoveOne | src/Subscriptable.ts:33-35 | one removal deletes the ID and leaves the counter alone |
| Scenarios.RemoveAll | src/Subscriptable.ts:33-35 | removing a list of IDs in turn leaves what the run of deletes leaves |
| Scenarios.RegisterAllRemoveAll | src/Subscriptable.ts:21-35 | on the class itself: registering N callbacks and then removing exactly their IDs, in any order and with repeats, gives back the original entries and length |
| Scenarios.OffTwice | src/EventEmitter.ts:8-23 | `off` of a freshly issued ID returns true once and then false; the event stays known with the entries it had and its counter one further on |
| Scenarios.IdsNotReissued | src/EventEmitter.ts:8-23 | after `off` removed a listener, the next `on` for that event gets a different ID, and `off` of the removed ID then reports false |
| Scenarios.EmitInRegistrationOrder | src/EventEmitter.ts:8-30 | on a new bus, two listeners registered for one event are invoked in registration order by `emit` |

## Left out

- Promise semantics are not modelled: when a task settles, rejection, and what `executeBlocking` and `executeConcurrent` resolve to. The model records only where each dispatch mode waits.
- Listener exceptions are not modelled. In the source a listener that throws stops the loop in every mode, and in the async modes it rejects the returned promise. Listeners here always return.
- Re-entrant mutation is not modelled: a listener that registers or removes listeners while a dispatch is running. The source iterates the live `Map`, so such changes would affect the ongoing dispatch.
- The ID generator (`AutoIncrementingID`) is not part of this model. IDs are modelled as a per-instance natural-number counter that starts at 0 and is raised by one per registration. The generator's string format is not represented, so an ID passed to `remove` or `off` that was never issued is simply an absent key.
- `types.ts` holds only type declarations. Listener types and payloads are type parameters here, and a listener's argument list is one opaque value.
- `Map.set` on a key that is already present (an overwrite in place) is not modelled. `register` and `on` only ever set fresh IDs, and `on` sets an event key either to a new indexer or back to the one it already holds.
- Client calls to the `Map` methods that `Indexer` and `EventEmitter` inherit (`clear`, `has`, `get`, `size`, `forEach`, and a direct `set` or `delete` of an event or an ID) are not modelled. Only the library's own uses of them are: `on`, `off` and `emit` look up an event with `get` (src/EventEmitter.ts:12, 19, 26), modelled as `event in indexers` and `indexers[event]`; `on` stores the indexer with `set` (src/EventEmitter.ts:14), modelled as a map update; `off` removes with the indexer's `delete` (src/EventEmitter.ts:21), modelled as `Indexing.Indexer.Delete`.
- Indexing.Indexer.Register: its contract states the resulting entries but not the lookup and length facts that `Registry.Subscriptable.Register` states. Those follow from the entries through `Table.AppendFresh`, and they are kept out of the contract so that the bus's proofs stay small.
