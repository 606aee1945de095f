# observer-rs in Dafny

A Dafny model of the observer/subject bookkeeping of the `observer-rs` crate.

- `registry.dfy` (module `Registry`) models `Observers<E, S>`, found in `src/lib.rs`. It is a table from
  `usize` handles to weak observer references, plus a `next_id` counter.
  - `register` issues the next handle.
  - `unregister` removes an entry by handle.
  - `notify` calls every live observer with one event and one subject. In the same pass it prunes the
    entries whose observer is gone.
- `subject.dfy` (module `Subject`) models `Subject<T>`, found in `src/subject.rs`.
  - It owns a value and an `Observers<(), T>`.
  - `mutate` and `maybe_mutate` edit the value, then notify once. `maybe_mutate` notifies only if the
    closure reports a change.
  - In the source, outside code reaches the registry only through `register` and `unregister`. The
    model cannot hide the registry field; see "## Left out".
  - `into_inner` consumes the subject: a ghost `consumed` flag makes every later call illegal.
- `collections.dfy` (module `Collections`) models `ObservableVec` and `ObservableVecDeque`, found in
  `src/collections.rs`. Every structural operation except a pop on an empty collection makes exactly one
  fan-out, which carries an `Event` and the contents as the subject.
  - `push`, `swap`, `modify` and `clear` change the contents first and notify afterwards.
  - `pop`, `pop_back` and `pop_front` notify first and remove afterwards.
  - A pop on an empty collection returns `None` and makes no fan-out.
- `guarded.dfy` (module `Guarded`) models the guard-based draft in `observable.rs`.
  - `get_mut_notify` hands out a guard that holds the subject's exclusive borrow. A ghost `borrowed`
    flag stands for that borrow: while it is set, `register`, `into_inner` and a second `get_mut_notify`
    cannot be called. A ghost `consumed` flag stands for `into_inner` taking the subject by value.
  - Edits go through the guard.
  - Dropping the guard calls `update` on every registered observer, in registration order.
  - Its four tests are restated as scenario methods.
- `wrappers.dfy` holds the `Option` type returned by the `pop` operations.
- `counter.dfy` (module `Counting`) holds the counter value that the scenario methods observe.

How the source's mechanisms are represented:

- **Weak references.** A weak reference is represented by the identity of its observer (`ObserverId`).
  Each notifying operation takes the set of observers alive at that moment (`alive`). An entry whose
  observer is not in the set is dead, and `upgrade()` fails for it.
- **Observer side effects.** What the observers do is recorded as a log on the registry (`fanOuts`).
  - Each `notify` adds one `FanOut`: the event, the subject, and the `update` calls made.
  - The calls form a sequence in no fixed order, because `HashMap` iteration order is unspecified.
  - `EachOnce` states that the calls hit every live entry exactly once and nothing else.
- **The `notify` loop.** `Observers.Notify` is the `retain` pass. It is written as a loop that takes the
  keys one at a time in an arbitrary order.
- **Closures.** The closure of `maybe_mutate` is a function from the old value to the new value and a
  changed flag. The closure of `mutate` and `modify` is a function from old value to new value.
- **The guard draft's observers.** An observer's `update(&mut V)` is a function
  `(observer, value) -> value`. The `deliveries` log keeps the value each observer was handed.
- **Counters.** `usize` counters are unbounded `nat`s. The scenarios of `Subject` and of the guard
  draft share one counter value, `Counting.Counter`.

Two quirks of `src/collections.rs` are modelled as written:

- `pop`, `pop_back` and `pop_front` notify while the element is still present. The subject is the
  contents before removal.
- The deque's `push_front` and `pop_front` report index `len - 1`, which is the back of the deque. The
  element actually added or removed is at index 0. `DequeFrontScenario` shows this.

## Model

| member | source | states |
|---|---|---|
| Registry.Empty | src/lib.rs:37-42 | `new` has no entries, and the first handle it issues is 0 |
| Registry.NewIsEmpty | src/lib.rs:37-42 | a new registry satisfies the key invariant (every key below the counter) |
| Registry.Registered | src/lib.rs:67-72 | `register` maps the returned handle to the reference; the keys grow by that handle alone; the counter moves past it |
| Registry.Unregistered | src/lib.rs:79-81 | `unregister(h)` returns true iff `h` was a key; `h` alone leaves the keys; the counter stays |
| Registry.Live | src/lib.rs:51-58 | the entries `notify` calls and keeps are a subset of the entries, with the same observers, all of them alive |
| Registry.Pruned | src/lib.rs:49-59 | after `notify` the counter stays, no key is added, no dead observer remains, and the key invariant is kept |
| Registry.Observers.constructor | src/lib.rs:37-42 | `new` gives counter 0, an empty table and no fan-outs |
| Registry.RegisterIssuesFreshHandle | src/lib.rs:67-72 | `register` returns the old counter, which was not a key; it bumps the counter by one and maps the handle to the reference; every other entry is unchanged; the keys stay below the counter |
| Registry.Observers.Register | src/lib.rs:67-72 | the new counter, table and handle are those of `register`; no observer is called |
| Registry.UnregisterRemovesOnlyHandle | src/lib.rs:79-81 | `unregister(h)` returns true iff `h` was a key; afterwards `h` is absent; the counter and all other entries are unchanged; a second `unregister(h)` returns false |
| Registry.Observers.Unregister | src/lib.rs:79-81 | the new table and result are those of `unregister`; no observer is called |
| Registry.UnregisterUndoesRegister | src/lib.rs:67-81 | unregistering a freshly issued handle succeeds and restores the entries; only the counter stays advanced |
| Registry.RegisterTwiceIndependent | src/lib.rs:67-72 | registering one reference twice gives two distinct handles, both mapped to it; removing either one leaves the other |
| Registry.Observers.Notify | src/lib.rs:49-59 | the table becomes exactly its live entries and the counter is unchanged; one fan-out is recorded, in which every observer gets the same event and subject and each live entry is called exactly once (dead entries are not called) |
| Registry.NotifyKeepsExactlyLive | src/lib.rs:51-58 | after `notify` a handle remains iff its observer is alive; it keeps the same observer; the counter is unchanged; no entry refers to a dead observer |
| Registry.NotifyIdempotent | src/lib.rs:51-58 | with the same live set, a second `notify` prunes nothing further |
| Registry.NotifyEmptyChangesNothing | src/lib.rs:51-58 | `notify` on a registry with no entries, new or emptied by `unregister` or pruning, calls nobody and leaves the table (counter included) unchanged |
| Registry.FanOutSize | src/lib.rs:51-58 | a fan-out makes exactly as many `update` calls as there are live entries |
| Registry.CounterNeverDecreases | src/lib.rs:67-81 | no sequence of register, unregister and notify calls lowers the counter |
| Registry.RunPreservesWellFormed | src/lib.rs:67-81 | every sequence of calls keeps all keys below the counter |
| Registry.HandlesNeverReissued | src/lib.rs:67-72 | along any sequence of calls the handles returned are pairwise distinct and none was a key at the start, even after unregistering or pruning |
| Registry.RemovedHandleStaysRemoved | src/lib.rs:49-81 | an absent handle below the counter never reappears, and no later `notify` calls it |
| Registry.RegisterThenUnregisterNeverNotified | src/lib.rs:49-81 | the handle of a registration that was unregistered is called by no later `notify`; the same observer may still be called through another registration |
| Registry.DeadObserverNeverCalledAgain | src/lib.rs:51-58 | a `notify` at which an observer is dead removes all of its entries, and no later `notify` calls them |
| Subject.Subject.constructor | src/subject.rs:13-18 | `new(v)` stores `v` with an empty registry and no fan-outs |
| Subject.Subject.Get | src/subject.rs:21-23 | returns the inner value of a subject not yet consumed, with no notification and no state change |
| Subject.Subject.IntoInner | src/subject.rs:26-28 | returns the value with all mutations applied, without notifying, and consumes the subject: no method can be called on it afterwards |
| Subject.Subject.MaybeMutate | src/subject.rs:31-39 | the value becomes `f`'s result. If `f` reports a change, there is exactly one fan-out of `()` on the new value, and the registry is pruned to its live entries. Otherwise there is no fan-out and the registry is unchanged |
| Subject.Subject.Mutate | src/subject.rs:42-52 | the value becomes `f` of the old value, then exactly one fan-out of `()` on that new value |
| Subject.Subject.Register | src/subject.rs:54-59 | `observers().register` changes only the registry, as `register` does, and makes no fan-out |
| Subject.Subject.Unregister | src/subject.rs:54-59 | `observers().unregister` changes only the registry, as `unregister` does, and makes no fan-out |
| Subject.MutateTwiceScenario | src/subject.rs:42-52 | two `mutate` increments from 42 give 44 and two fan-outs, each calling the one observer once; the last value delivered is 44 |
| Subject.SilentEditScenario | src/subject.rs:31-39 | `maybe_mutate` reporting no change keeps the edit (43) and makes no fan-out |
| Collections.SwapAt | src/collections.rs:32-35 | `swap(a, b)` exchanges positions `a` and `b` and keeps every other position and the length |
| Collections.SwapAtExchanges | src/collections.rs:32-35 | the swapped contents are a permutation of the old ones; swapping again restores them |
| Collections.ModifyAt | src/collections.rs:38-41 | `modify` changes only element `idx`, to `f` of its old value, and keeps the length |
| Collections.ModifyAtReplacesOneElement | src/collections.rs:38-41 | the modified contents are the old multiset with one occurrence of the old element replaced by its image |
| Collections.ObservableVec.constructor | src/collections.rs:24-29 | `new` gives empty contents and an empty registry |
| Collections.ObservableVec.Swap | src/collections.rs:32-35 | the contents are swapped, then one fan-out of `Swapped(a, b)` on the new contents |
| Collections.ObservableVec.Modify | src/collections.rs:38-41 | element `idx` is modified, then one fan-out of `Modified(idx)` |
| Collections.ObservableVec.Clear | src/collections.rs:44-47 | the contents are emptied, then one fan-out of `Reset` |
| Collections.ObservableVec.Register | src/collections.rs:52-54 | forwards to the registry's `register`; no fan-out |
| Collections.ObservableVec.Unregister | src/collections.rs:57-59 | forwards to the registry's `unregister`; no fan-out |
| Collections.ObservableVec.Push | src/collections.rs:68-72 | appends `x`, then one fan-out of `Added(len - 1)`, the new element's index, on the new contents |
| Collections.ObservableVec.Pop | src/collections.rs:75-83 | when empty: `None`, no fan-out, nothing changed. Otherwise: one fan-out of `Remove(len - 1)` on the contents before removal, then the last element is removed and returned |
| Collections.ObservableVecDeque.constructor | src/collections.rs:24-29 | `new` gives empty contents and an empty registry |
| Collections.ObservableVecDeque.Swap | src/collections.rs:32-35 | the contents are swapped, then one fan-out of `Swapped(a, b)` |
| Collections.ObservableVecDeque.Modify | src/collections.rs:38-41 | element `idx` is modified, then one fan-out of `Modified(idx)` |
| Collections.ObservableVecDeque.Clear | src/collections.rs:44-47 | the contents are emptied, then one fan-out of `Reset` |
| Collections.ObservableVecDeque.Register | src/collections.rs:52-54 | forwards to the registry's `register`; no fan-out |
| Collections.ObservableVecDeque.Unregister | src/collections.rs:57-59 | forwards to the registry's `unregister`; no fan-out |
| Collections.ObservableVecDeque.PushBack | src/collections.rs:90-94 | adds at the back, then one fan-out of `Added(len - 1)` on the new contents |
| Collections.ObservableVecDeque.PopBack | src/collections.rs:97-105 | when empty: `None` and no fan-out. Otherwise: one fan-out of `Remove(len - 1)` before removal, then the back element is removed and returned |
| Collections.ObservableVecDeque.PushFront | src/collections.rs:110-114 | adds at the front, then one fan-out of `Added(len - 1)` on the new contents |
| Collections.ObservableVecDeque.PopFront | src/collections.rs:117-125 | when empty: `None` and no fan-out. Otherwise: one fan-out of `Remove(len - 1)` before removal, then the front element is removed and returned |
| Collections.VecScenario | src/collections.rs:32-83 | push 10, push 20, swap, pop, clear give the events `Added(0)`, `Added(1)`, `Swapped(0, 1)`, `Remove(1)`, `Reset`, one per operation; pop returns 10 |
| Collections.DequeFrontScenario | src/collections.rs:90-125 | `push_front` onto `[1]` reports `Added(1)` although the new element is at 0; `pop_front` returns 0 and reports `Remove(1)` |
| Collections.EmptyPopScenario | src/collections.rs:75-78 | `pop` on an empty vector returns `None` and makes no fan-out |
| Guarded.Deliver | observable.rs:32-36 | dropping a guard calls `update` once per registered observer, in list order |
| Guarded.DeliverHandsOnValue | observable.rs:32-36 | the `i`-th observer is handed the value as the guard's edits and the first `i` observers left it |
| Guarded.ReadOnlyDeliverySeesValue | observable.rs:32-36 | with read-only observers, as in the tests, a drop leaves the value unchanged and every observer sees the edited value |
| Guarded.Calls | observable.rs:115-121 | the tests' `calls` counter: the number of times the observer occurs among the observers called; zero iff it was never called |
| Guarded.LastSeen | observable.rs:115-121 | the tests' `last_count`: absent iff the observer was never called; otherwise the value handed in its last call, after which it was not called again |
| Guarded.Subject.constructor | observable.rs:65-70 | `new(v)` stores `v` with an empty observer list; the subject is neither borrowed nor consumed |
| Guarded.Subject.Register | observable.rs:80-82 | appends the observer at the end; the existing order is kept and duplicates are allowed; the value is unchanged and nobody is called; not callable while a guard holds the borrow |
| Guarded.Subject.GetMutNotify | observable.rs:72-74 | returns a fresh guard that holds this subject's exclusive borrow, notifies nobody and changes no value; not callable while another guard holds the borrow |
| Guarded.Subject.IntoInner | observable.rs:76-78 | returns the value with every guarded edit applied and consumes the subject; not callable while a guard holds the borrow |
| Guarded.SubjectGuard.constructor | observable.rs:72-74 | `SubjectGuard(self)` takes the borrow of an available subject and leaves its value, observers and deliveries alone |
| Guarded.SubjectGuard.Deref | observable.rs:46-48 | reads the subject's value through a live guard |
| Guarded.SubjectGuard.DerefMut | observable.rs:56-58 | an edit through a live guard changes the value in place and calls nobody; the guard keeps the borrow |
| Guarded.SubjectGuard.Drop | observable.rs:32-36 | each registered observer is called once, in list order, after the guard's edits; the value and the deliveries are those of `Deliver`; the borrow is given back |
| Guarded.SubjectWrappingScenario | observable.rs:124-137 | one guarded increment of 42 with no observers gives 43 |
| Guarded.SingleObserverScenario | observable.rs:139-160 | one guarded increment with one observer gives 43, one call, and last count 43 |
| Guarded.TwoObserversScenario | observable.rs:162-189 | with two observers: value 43, and each observer is called once and sees 43. The test itself checks the first observer twice and the second never (observable.rs:183-188); the scenario states both |
| Guarded.CalledTwiceScenario | observable.rs:191-213 | two guards, each incrementing once, give 44, two calls (one per guard) and last count 44 |

## Left out

- `Rc`/`Weak` memory management and `upgrade()` (src/lib.rs:22, src/lib.rs:52): object lifetimes are
  replaced by the `alive` set passed to each notifying operation.
- The trait declarations `ObserverRegistry` and `Observer`, and the forwarding implementations for
  `Box<T>` (src/lib.rs:111-119) and `&T` (observable.rs:8-15): they only delegate. `register` and
  `unregister` are modelled directly as methods.
- The capability restriction of `Subject::observers()` (src/subject.rs:54-59): Dafny has no trait objects
  here. It is modelled by `Subject.Register` and `Subject.Unregister`, which never make a fan-out.
  Dafny cannot stop a caller from reaching the registry field itself: `s.observers.Notify(...)` is
  accepted from outside the class, even on a consumed subject, although the source rules it out.
- Private fields (src/subject.rs:7-8, src/collections.rs:18-19, observable.rs:18-19): the model's class
  fields are public. Outside code could assign `Subject.inner` with no fan-out, assign the collections'
  `inner` or call `registry.Notify` directly, and assign `Guarded.Subject.value` while a guard holds the
  borrow. Only the methods modelled here keep the coupling of a change to its one fan-out.
- `Debug` formatting of `Observers` (src/lib.rs:25-32): it is output only.
- `usize` overflow of `next_id` (src/lib.rs:69) and of the test counters: counters are unbounded.
- Panics of `swap` and `modify` on an out-of-range index: these are preconditions (`a, b, idx < len`).
- Re-entrant calls from an observer back into its subject: not supported by the design, and not modelled.
- What observers do in `update` beyond being called: in the registry model an observer is only recorded
  as called with the event and the subject.
- Guarded.LastSeen: the tests' `last_count` starts at 0. The model gives `None` for an observer never
  called.
- The guard's single drop: Rust ensures a guard is dropped once. In the model, a ghost `dropped` flag
  that the guard's methods require to be false stands in for this.
- Guarded.Subject.GetMutNotify: Rust drops the guard on every exit path. The model cannot force a caller
  to call `Drop`: a guard that is never dropped makes no deliveries and leaves the subject borrowed, so
  its only visible effect is that the subject's own methods can no longer be called.
- `src/tests.rs` targets an API that `src/lib.rs` does not define, and it is not a module of the crate.
  `src/tests.rs` is not part of this model.
- The commented-out `ObservableVec` (src/collections.rs:128-178): it is dead code.
