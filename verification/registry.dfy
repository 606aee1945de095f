/**
  The `Observers` registry: a table from handles to weak observer references, with a
  counter that supplies the next handle.

  A weak reference is modelled by the identity of the observer it points to
  (`ObserverId`). Whether that observer is still alive is not stored here: every
  fan-out is given the set of observers that are alive at that moment, and an entry
  whose observer is not in that set is dead.
*/
module Registry {

  /** A handle returned by `register`, used to remove the registration again. */
  type Handle = nat

  /** The identity of the observer object a weak reference points to. */
  type ObserverId = nat

  /** The value of an `Observers` collection: the next handle and the registered entries. */
  datatype Table = Table(nextId: nat, entries: map<Handle, ObserverId>)

  /** Every key lies below `nextId`, so the next handle is not in use. */
  ghost predicate WellFormed(t: Table) {
    forall h :: h in t.entries ==> h < t.nextId
  }

  /** `Observers::new`: no entries, and the first handle it issues is 0. */
  function Empty(): (r: Table)
    ensures |r.entries| == 0
    ensures forall obs :: Registered(r, obs).1 == 0
  {
    Table(0, map[])
  }

  /**
    `register`: the table afterwards and the handle it returns. The handle maps to the
    reference, the keys grow by that handle alone, and the counter has moved past it.
  */
  function Registered(t: Table, obs: ObserverId): (r: (Table, Handle))
    ensures r.1 in r.0.entries && r.0.entries[r.1] == obs
    ensures r.0.entries.Keys == t.entries.Keys + {r.1}
    ensures r.1 < r.0.nextId
  {
    (Table(t.nextId + 1, t.entries[t.nextId := obs]), t.nextId)
  }

  /**
    `unregister`: the table afterwards and whether an entry was removed. The result is
    true iff `h` was a key, `h` alone leaves the keys, and the counter stays.
  */
  function Unregistered(t: Table, h: Handle): (r: (Table, bool))
    ensures r.1 <==> h in t.entries
    ensures r.0.entries.Keys == t.entries.Keys - {h}
    ensures r.0.nextId == t.nextId
  {
    (Table(t.nextId, t.entries - {h}), h in t.entries)
  }

  /**
    The entries whose observer is alive: those `notify` calls and keeps. A subset of
    the entries, with the same observers, all of them alive.
  */
  function Live(entries: map<Handle, ObserverId>, alive: set<ObserverId>): (m: map<Handle, ObserverId>)
    ensures m.Keys <= entries.Keys
    ensures forall h :: h in m ==> m[h] == entries[h]
    ensures m.Values <= alive
  {
    map h | h in entries && entries[h] in alive :: entries[h]
  }

  /**
    The table after `notify`: dead entries are pruned. The counter stays, no key is
    added, no dead observer remains, and the key invariant is kept.
  */
  function Pruned(t: Table, alive: set<ObserverId>): (r: Table)
    ensures r.nextId == t.nextId && r.entries.Keys <= t.entries.Keys
    ensures r.entries.Values <= alive
    ensures WellFormed(t) ==> WellFormed(r)
  {
    Table(t.nextId, Live(t.entries, alive))
  }

  /** A new registry satisfies the key invariant. */
  lemma NewIsEmpty()
    ensures WellFormed(Empty())
  {
  }

  /** `register` hands out the old counter, bumps it by one, and adds exactly that entry. */
  lemma RegisterIssuesFreshHandle(t: Table, obs: ObserverId)
    requires WellFormed(t)
    ensures var (t', h) := Registered(t, obs);
      && h == t.nextId && h !in t.entries
      && t'.nextId == t.nextId + 1
      && h in t'.entries && t'.entries[h] == obs
      && (forall k :: k != h ==> (k in t'.entries <==> k in t.entries))
      && (forall k :: k in t.entries ==> t'.entries[k] == t.entries[k])
      && WellFormed(t')
  {
  }

  /** `unregister(h)` reports whether `h` was a key, removes it, and touches nothing else. */
  lemma UnregisterRemovesOnlyHandle(t: Table, h: Handle)
    requires WellFormed(t)
    ensures var (t', removed) := Unregistered(t, h);
      && (removed <==> h in t.entries)
      && h !in t'.entries
      && t'.nextId == t.nextId
      && (forall k :: k != h ==> (k in t'.entries <==> k in t.entries))
      && (forall k :: k in t'.entries ==> t'.entries[k] == t.entries[k])
      && WellFormed(t')
      && !Unregistered(t', h).1
  {
  }

  /** Unregistering the handle just issued restores the entries; only the counter moved on. */
  lemma UnregisterUndoesRegister(t: Table, obs: ObserverId)
    requires WellFormed(t)
    ensures var (t1, h) := Registered(t, obs);
      Unregistered(t1, h) == (Table(t.nextId + 1, t.entries), true)
  {
    var (t1, h) := Registered(t, obs);
    assert h !in t.entries;
    assert t1.entries - {h} == t.entries;
  }

  /** Registering one observer twice gives two handles, each removable on its own. */
  lemma RegisterTwiceIndependent(t: Table, obs: ObserverId)
    requires WellFormed(t)
    ensures var (t1, h1) := Registered(t, obs);
      var (t2, h2) := Registered(t1, obs);
      && h1 != h2
      && h1 in t2.entries && t2.entries[h1] == obs
      && h2 in t2.entries && t2.entries[h2] == obs
      && Unregistered(t2, h1).1 && h2 in Unregistered(t2, h1).0.entries
      && Unregistered(t2, h2).1 && h1 in Unregistered(t2, h2).0.entries
  {
  }

  /**
    After `notify` exactly the live entries remain, with their handles and observers;
    the counter is unchanged and nothing is added.
  */
  lemma NotifyKeepsExactlyLive(t: Table, alive: set<ObserverId>)
    requires WellFormed(t)
    ensures var t' := Pruned(t, alive);
      && t'.nextId == t.nextId
      && (forall h :: h in t'.entries <==> h in t.entries && t.entries[h] in alive)
      && (forall h :: h in t'.entries ==> t'.entries[h] == t.entries[h])
      && (forall h :: h in t'.entries ==> t'.entries[h] in alive)
      && WellFormed(t')
  {
  }

  /** With liveness unchanged, a second `notify` prunes nothing further. */
  lemma NotifyIdempotent(t: Table, alive: set<ObserverId>)
    ensures Pruned(Pruned(t, alive), alive) == Pruned(t, alive)
  {
  }

  /**
    `notify` on a registry with no entries, whether new or emptied by `unregister` or
    pruning, calls nobody and changes nothing.
  */
  lemma NotifyEmptyChangesNothing(t: Table, alive: set<ObserverId>)
    requires t.entries == map[]
    ensures Pruned(t, alive) == t
    ensures Live(t.entries, alive) == map[]
  {
  }

  // ----- Traces of registry operations -----

  /** One call on the registry. */
  datatype Op = RegisterOp(obs: ObserverId) | UnregisterOp(handle: Handle) | NotifyOp(alive: set<ObserverId>)

  function Step(t: Table, op: Op): Table {
    match op
    case RegisterOp(obs) => Registered(t, obs).0
    case UnregisterOp(h) => Unregistered(t, h).0
    case NotifyOp(alive) => Pruned(t, alive)
  }

  /** The table after performing `ops` in order. */
  function Run(t: Table, ops: seq<Op>): Table
    decreases |ops|
  {
    if ops == [] then t else Run(Step(t, ops[0]), ops[1..])
  }

  /** The handles returned by the `register` calls of `ops`, in call order. */
  function Issued(t: Table, ops: seq<Op>): seq<Handle>
    decreases |ops|
  {
    if ops == [] then []
    else (if ops[0].RegisterOp? then [t.nextId] else []) + Issued(Step(t, ops[0]), ops[1..])
  }

  /** For each `notify` of `ops`, the entries whose observer it calls. */
  function Deliveries(t: Table, ops: seq<Op>): seq<map<Handle, ObserverId>>
    decreases |ops|
  {
    if ops == [] then []
    else (if ops[0].NotifyOp? then [Live(t.entries, ops[0].alive)] else []) + Deliveries(Step(t, ops[0]), ops[1..])
  }

  /** The counter never decreases. */
  lemma {:induction false} CounterNeverDecreases(t: Table, ops: seq<Op>)
    ensures t.nextId <= Run(t, ops).nextId
    decreases |ops|
  {
    if ops != [] {
      CounterNeverDecreases(Step(t, ops[0]), ops[1..]);
    }
  }

  /** Every sequence of calls keeps the keys below the counter. */
  lemma {:induction false} RunPreservesWellFormed(t: Table, ops: seq<Op>)
    requires WellFormed(t)
    ensures WellFormed(Run(t, ops))
    decreases |ops|
  {
    if ops != [] {
      var t1 := Step(t, ops[0]);
      assert WellFormed(t1);
      RunPreservesWellFormed(t1, ops[1..]);
    }
  }

  /** The handles a sequence of calls returns lie between the counter before and after it. */
  lemma {:induction false} IssuedInRange(t: Table, ops: seq<Op>)
    ensures forall i :: 0 <= i < |Issued(t, ops)| ==> t.nextId <= Issued(t, ops)[i] < Run(t, ops).nextId
    decreases |ops|
  {
    if ops != [] {
      var t1 := Step(t, ops[0]);
      IssuedInRange(t1, ops[1..]);
      CounterNeverDecreases(t1, ops[1..]);
      var rest := Issued(t1, ops[1..]);
      assert Run(t, ops) == Run(t1, ops[1..]);
      if ops[0].RegisterOp? {
        assert t1.nextId == t.nextId + 1;
        assert Issued(t, ops) == [t.nextId] + rest;
      } else {
        assert t1.nextId == t.nextId;
        assert Issued(t, ops) == rest;
      }
    }
  }

  /** The handles a sequence of calls returns are strictly increasing, so pairwise distinct. */
  lemma {:induction false} IssuedIncreasing(t: Table, ops: seq<Op>)
    ensures forall i, j :: 0 <= i < j < |Issued(t, ops)| ==> Issued(t, ops)[i] < Issued(t, ops)[j]
    decreases |ops|
  {
    if ops != [] {
      var t1 := Step(t, ops[0]);
      IssuedIncreasing(t1, ops[1..]);
      var rest := Issued(t1, ops[1..]);
      if ops[0].RegisterOp? {
        IssuedInRange(t1, ops[1..]);
        assert t1.nextId == t.nextId + 1;
        assert Issued(t, ops) == [t.nextId] + rest;
      } else {
        assert Issued(t, ops) == rest;
      }
    }
  }

  /**
    Handles are never reissued: along any sequence of calls the handles returned are
    pairwise distinct and none of them was in use when the sequence began, even if
    entries were unregistered or pruned in between.
  */
  lemma HandlesNeverReissued(t: Table, ops: seq<Op>)
    requires WellFormed(t)
    ensures forall i, j :: 0 <= i < j < |Issued(t, ops)| ==> Issued(t, ops)[i] != Issued(t, ops)[j]
    ensures forall i :: 0 <= i < |Issued(t, ops)| ==> Issued(t, ops)[i] !in t.entries
  {
    IssuedInRange(t, ops);
    IssuedIncreasing(t, ops);
  }

  /**
    A handle below the counter that is absent stays absent: no later call brings it
    back, so no later `notify` calls anything under it.
  */
  lemma {:induction false} RemovedHandleStaysRemoved(t: Table, ops: seq<Op>, h: Handle)
    requires h < t.nextId && h !in t.entries
    ensures h !in Run(t, ops).entries
    ensures forall d :: d in Deliveries(t, ops) ==> h !in d
    decreases |ops|
  {
    if ops != [] {
      var t1 := Step(t, ops[0]);
      assert h < t1.nextId && h !in t1.entries;
      RemovedHandleStaysRemoved(t1, ops[1..], h);
      var head := if ops[0].NotifyOp? then [Live(t.entries, ops[0].alive)] else [];
      assert Deliveries(t, ops) == head + Deliveries(t1, ops[1..]);
      forall d | d in head ensures h !in d { }
    }
  }

  /**
    The handle of a registration that was unregistered is called by no later `notify`.
    Handles are per registration: the same observer may still be called through
    another handle it holds.
  */
  lemma RegisterThenUnregisterNeverNotified(t: Table, obs: ObserverId, ops: seq<Op>)
    requires WellFormed(t)
    ensures var (t1, h) := Registered(t, obs);
      var t2 := Unregistered(t1, h).0;
      forall d :: d in Deliveries(t2, ops) ==> h !in d
  {
    var (t1, h) := Registered(t, obs);
    var t2 := Unregistered(t1, h).0;
    RemovedHandleStaysRemoved(t2, ops, h);
  }

  /**
    An observer that is dead at a `notify` loses every entry there; it is neither
    called then nor by any later `notify`, even if it were reported alive again.
  */
  lemma DeadObserverNeverCalledAgain(t: Table, alive: set<ObserverId>, obs: ObserverId, ops: seq<Op>)
    requires WellFormed(t) && obs !in alive
    ensures forall h :: h in t.entries && t.entries[h] == obs ==> h !in Pruned(t, alive).entries
    ensures forall h, d :: h in t.entries && t.entries[h] == obs && d in Deliveries(Pruned(t, alive), ops) ==> h !in d
  {
    var t1 := Pruned(t, alive);
    forall h | h in t.entries && t.entries[h] == obs
      ensures forall d :: d in Deliveries(t1, ops) ==> h !in d
    {
      RemovedHandleStaysRemoved(t1, ops, h);
    }
  }

  // ----- One fan-out -----

  /** One `update` call: the entry's handle and the observer it reached. */
  datatype Call = Call(handle: Handle, observer: ObserverId)

  /** One call of `notify`: the event and subject every observer is handed, and the calls made. */
  datatype FanOut<E, S> = FanOut(event: E, subject: S, calls: seq<Call>)

  /**
    `calls` calls each entry of `live` exactly once, in some order, and nothing else:
    handles are pairwise distinct, each is a live entry with its own observer, and each
    live entry occurs.
  */
  ghost predicate EachOnce(calls: seq<Call>, live: map<Handle, ObserverId>) {
    && (forall i, j :: 0 <= i < j < |calls| ==> calls[i].handle != calls[j].handle)
    && (forall i :: 0 <= i < |calls| ==> calls[i].handle in live && live[calls[i].handle] == calls[i].observer)
    && (forall h :: h in live ==> exists i :: 0 <= i < |calls| && calls[i].handle == h)
  }

  /** The set of handles called. */
  function CalledHandles(calls: seq<Call>): set<Handle> {
    set i | 0 <= i < |calls| :: calls[i].handle
  }

  lemma {:induction false} DistinctHandlesCount(calls: seq<Call>)
    requires forall i, j :: 0 <= i < j < |calls| ==> calls[i].handle != calls[j].handle
    ensures |CalledHandles(calls)| == |calls|
    decreases |calls|
  {
    if calls != [] {
      var last := |calls| - 1;
      var init := calls[..last];
      DistinctHandlesCount(init);
      assert CalledHandles(calls) == CalledHandles(init) + {calls[last].handle};
      assert calls[last].handle !in CalledHandles(init);
    }
  }

  /** A fan-out makes exactly as many `update` calls as there are live entries. */
  lemma FanOutSize(calls: seq<Call>, live: map<Handle, ObserverId>)
    requires EachOnce(calls, live)
    ensures |calls| == |live|
  {
    DistinctHandlesCount(calls);
    assert CalledHandles(calls) == live.Keys;
  }

  /** `after` is `before` with one more fan-out of `event` on `subject`, calling each entry of `live` once. */
  ghost predicate OneMoreFanOut<E, S>(before: seq<FanOut<E, S>>, after: seq<FanOut<E, S>>, event: E, subject: S,
                                      live: map<Handle, ObserverId>) {
    && |after| == |before| + 1
    && after[..|before|] == before
    && after[|before|].event == event
    && after[|before|].subject == subject
    && EachOnce(after[|before|].calls, live)
  }

  /** The registry object of a subject: `next_id`, the `registry` map, and the record of its fan-outs. */
  class Observers<E, S> {
    var nextId: nat
    var registry: map<Handle, ObserverId>
    /** Every `update` call made so far, one fan-out per call of `notify`. */
    var fanOuts: seq<FanOut<E, S>>

    ghost function Abs(): Table
      reads this
    {
      Table(nextId, registry)
    }

    ghost predicate Valid()
      reads this
    {
      WellFormed(Abs())
    }

    constructor ()
      ensures Valid()
      ensures Abs() == Empty() && fanOuts == []
    {
      nextId := 0;
      registry := map[];
      fanOuts := [];
    }

    /**
      Calls every entry whose observer is alive, once, with the same event and subject,
      and drops every entry whose observer is dead, in one pass in no fixed order.
    */
    method Notify(event: E, subject: S, alive: set<ObserverId>)
      requires Valid()
      modifies this
      ensures Valid()
      ensures Abs() == Pruned(old(Abs()), alive)
      ensures OneMoreFanOut(old(fanOuts), fanOuts, event, subject, Live(old(registry), alive))
    {
      ghost var before := registry;
      var calls: seq<Call> := [];
      var pending := registry.Keys;
      while pending != {}
        invariant nextId == old(nextId) && fanOuts == old(fanOuts)
        invariant pending <= before.Keys
        invariant registry.Keys <= before.Keys
        invariant forall h :: h in registry ==> registry[h] == before[h]
        invariant forall h :: h in before ==> (h in registry <==> h in pending || before[h] in alive)
        invariant forall i, j :: 0 <= i < j < |calls| ==> calls[i].handle != calls[j].handle
        invariant forall i :: 0 <= i < |calls| ==>
          && calls[i].handle in before && calls[i].handle !in pending
          && before[calls[i].handle] in alive && calls[i].observer == before[calls[i].handle]
        invariant forall h :: h in before && h !in pending && before[h] in alive ==>
          exists i :: 0 <= i < |calls| && calls[i].handle == h
        decreases pending
      {
        var h :| h in pending;
        ghost var previous := calls;
        if registry[h] in alive {
          calls := calls + [Call(h, registry[h])];
        } else {
          registry := registry - {h};
        }
        pending := pending - {h};
        forall k | k in before && k !in pending && before[k] in alive
          ensures exists i :: 0 <= i < |calls| && calls[i].handle == k
        {
          if k == h {
            assert calls[|calls| - 1].handle == k;
          } else {
            var i :| 0 <= i < |previous| && previous[i].handle == k;
            assert calls[i] == previous[i];
          }
        }
      }
      assert registry == Live(before, alive);
      fanOuts := fanOuts + [FanOut(event, subject, calls)];
    }

    /** Issues the next handle and stores the reference under it. */
    method Register(obs: ObserverId) returns (h: Handle)
      requires Valid()
      modifies this
      ensures Valid()
      ensures (Abs(), h) == Registered(old(Abs()), obs)
      ensures fanOuts == old(fanOuts)
    {
      h := nextId;
      nextId := nextId + 1;
      registry := registry[h := obs];
    }

    /** Removes the entry under `h`, if any, and reports whether there was one. */
    method Unregister(h: Handle) returns (removed: bool)
      requires Valid()
      modifies this
      ensures Valid()
      ensures (Abs(), removed) == Unregistered(old(Abs()), h)
      ensures fanOuts == old(fanOuts)
    {
      removed := h in registry;
      registry := registry - {h};
    }
  }
}
