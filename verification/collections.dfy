/**
  Observable collections: a `Vec` or a `VecDeque` together with an `Observers` registry.
  Every structural operation, except a pop on an empty collection, makes exactly one
  fan-out with an `Event` saying what changed, and the collection's contents as the
  subject. A pop on an empty collection changes nothing and notifies nobody.

  Both wrappers are expanded from one macro (`new`, `swap`, `modify`, `clear`,
  `register`, `unregister`); each adds its own push and pop operations. Two quirks of
  the operations are kept as they are: `pop` notifies while the element is still
  present, and the deque's `push_front` and `pop_front` report the index `len - 1`
  of the back, not the index 0 of the element added or removed.
*/
module Collections {
  import opened Registry
  import opened Wrappers

  /** What a fan-out reports about the change. */
  datatype Event = Added(index: nat) | Remove(index: nat) | Swapped(a: nat, b: nat) | Modified(index: nat) | Reset

  /** The contents after exchanging positions `a` and `b`: those two are exchanged, the rest kept. */
  function SwapAt<T>(s: seq<T>, a: nat, b: nat): (r: seq<T>)
    requires a < |s| && b < |s|
    ensures |r| == |s|
    ensures r[a] == s[b] && r[b] == s[a]
    ensures forall k :: 0 <= k < |s| && k != a && k != b ==> r[k] == s[k]
  {
    s[a := s[b]][b := s[a]]
  }

  /** Swapping keeps every element, and a second swap of the same positions undoes it. */
  lemma SwapAtExchanges<T>(s: seq<T>, a: nat, b: nat)
    requires a < |s| && b < |s|
    ensures multiset(SwapAt(s, a, b)) == multiset(s)
    ensures SwapAt(SwapAt(s, a, b), a, b) == s
  {
  }

  /** The contents after applying `f` to the element at `idx`; every other element is kept. */
  function ModifyAt<T>(s: seq<T>, idx: nat, f: T -> T): (r: seq<T>)
    requires idx < |s|
    ensures |r| == |s|
    ensures r[idx] == f(s[idx])
    ensures forall k :: 0 <= k < |s| && k != idx ==> r[k] == s[k]
  {
    s[idx := f(s[idx])]
  }

  /** Modifying replaces one occurrence of the old element by its image and keeps all other elements. */
  lemma ModifyAtReplacesOneElement<T>(s: seq<T>, idx: nat, f: T -> T)
    requires idx < |s|
    ensures multiset(ModifyAt(s, idx, f)) == multiset(s) - multiset{s[idx]} + multiset{f(s[idx])}
  {
  }

  /**
    The observers of `registry` were notified exactly once, with `event` on `subject`,
    starting from the table `before` and the fan-out record `log`.
  */
  ghost predicate NotifiedOnce<S>(registry: Observers<Event, S>, before: Table, log: seq<FanOut<Event, S>>,
                                  event: Event, subject: S, alive: set<ObserverId>)
    reads registry
  {
    && registry.Abs() == Pruned(before, alive)
    && OneMoreFanOut(log, registry.fanOuts, event, subject, Live(before.entries, alive))
  }

  /** `ObservableVec<T>`. */
  class ObservableVec<T> {
    var inner: seq<T>
    const registry: Observers<Event, seq<T>>

    ghost predicate Valid()
      reads this, registry
    {
      registry.Valid()
    }

    /** An empty vector and an empty registry. */
    constructor ()
      ensures Valid() && fresh(registry)
      ensures inner == []
      ensures registry.Abs() == Empty() && registry.fanOuts == []
    {
      inner := [];
      registry := new Observers();
    }

    /** Exchanges positions `a` and `b`, then notifies `Swapped(a, b)`. */
    method Swap(a: nat, b: nat, alive: set<ObserverId>)
      requires Valid() && a < |inner| && b < |inner|
      modifies this, registry
      ensures Valid()
      ensures inner == SwapAt(old(inner), a, b)
      ensures NotifiedOnce(registry, old(registry.Abs()), old(registry.fanOuts), Swapped(a, b), inner, alive)
    {
      inner := SwapAt(inner, a, b);
      registry.Notify(Swapped(a, b), inner, alive);
    }

    /** Applies `f` to the element at `idx`, then notifies `Modified(idx)`. */
    method Modify(idx: nat, f: T -> T, alive: set<ObserverId>)
      requires Valid() && idx < |inner|
      modifies this, registry
      ensures Valid()
      ensures inner == ModifyAt(old(inner), idx, f)
      ensures NotifiedOnce(registry, old(registry.Abs()), old(registry.fanOuts), Modified(idx), inner, alive)
    {
      inner := ModifyAt(inner, idx, f);
      registry.Notify(Modified(idx), inner, alive);
    }

    /** Empties the vector, then notifies `Reset`. */
    method Clear(alive: set<ObserverId>)
      requires Valid()
      modifies this, registry
      ensures Valid()
      ensures inner == []
      ensures NotifiedOnce(registry, old(registry.Abs()), old(registry.fanOuts), Reset, inner, alive)
    {
      inner := [];
      registry.Notify(Reset, inner, alive);
    }

    method Register(obs: ObserverId) returns (h: Handle)
      requires Valid()
      modifies registry
      ensures Valid()
      ensures (registry.Abs(), h) == Registered(old(registry.Abs()), obs)
      ensures registry.fanOuts == old(registry.fanOuts)
    {
      h := registry.Register(obs);
    }

    method Unregister(h: Handle) returns (removed: bool)
      requires Valid()
      modifies registry
      ensures Valid()
      ensures (registry.Abs(), removed) == Unregistered(old(registry.Abs()), h)
      ensures registry.fanOuts == old(registry.fanOuts)
    {
      removed := registry.Unregister(h);
    }

    /** Appends `value`, then notifies `Added` with the new element's index on the new contents. */
    method Push(value: T, alive: set<ObserverId>)
      requires Valid()
      modifies this, registry
      ensures Valid()
      ensures inner == old(inner) + [value]
      ensures NotifiedOnce(registry, old(registry.Abs()), old(registry.fanOuts), Added(|inner| - 1), inner, alive)
    {
      inner := inner + [value];
      registry.Notify(Added(|inner| - 1), inner, alive);
    }

    /**
      On an empty vector returns `None` and notifies nobody. Otherwise notifies
      `Remove(len - 1)` with the last element still present, then removes and returns it.
    */
    method Pop(alive: set<ObserverId>) returns (r: Option<T>)
      requires Valid()
      modifies this, registry
      ensures Valid()
      ensures old(inner) == [] ==>
        && r.None? && inner == []
        && registry.Abs() == old(registry.Abs()) && registry.fanOuts == old(registry.fanOuts)
      ensures old(inner) != [] ==>
        && r == Some(old(inner)[|old(inner)| - 1])
        && inner == old(inner)[..|old(inner)| - 1]
        && NotifiedOnce(registry, old(registry.Abs()), old(registry.fanOuts), Remove(|old(inner)| - 1), old(inner), alive)
    {
      if |inner| == 0 {
        return None;
      }
      registry.Notify(Remove(|inner| - 1), inner, alive);
      r := Some(inner[|inner| - 1]);
      inner := inner[..|inner| - 1];
    }
  }

  /** `ObservableVecDeque<T>`. */
  class ObservableVecDeque<T> {
    var inner: seq<T>
    const registry: Observers<Event, seq<T>>

    ghost predicate Valid()
      reads this, registry
    {
      registry.Valid()
    }

    /** An empty deque and an empty registry. */
    constructor ()
      ensures Valid() && fresh(registry)
      ensures inner == []
      ensures registry.Abs() == Empty() && registry.fanOuts == []
    {
      inner := [];
      registry := new Observers();
    }

    /** Exchanges positions `a` and `b`, then notifies `Swapped(a, b)`. */
    method Swap(a: nat, b: nat, alive: set<ObserverId>)
      requires Valid() && a < |inner| && b < |inner|
      modifies this, registry
      ensures Valid()
      ensures inner == SwapAt(old(inner), a, b)
      ensures NotifiedOnce(registry, old(registry.Abs()), old(registry.fanOuts), Swapped(a, b), inner, alive)
    {
      inner := SwapAt(inner, a, b);
      registry.Notify(Swapped(a, b), inner, alive);
    }

    /** Applies `f` to the element at `idx`, then notifies `Modified(idx)`. */
    method Modify(idx: nat, f: T -> T, alive: set<ObserverId>)
      requires Valid() && idx < |inner|
      modifies this, registry
      ensures Valid()
      ensures inner == ModifyAt(old(inner), idx, f)
      ensures NotifiedOnce(registry, old(registry.Abs()), old(registry.fanOuts), Modified(idx), inner, alive)
    {
      inner := ModifyAt(inner, idx, f);
      registry.Notify(Modified(idx), inner, alive);
    }

    /** Empties the deque, then notifies `Reset`. */
    method Clear(alive: set<ObserverId>)
      requires Valid()
      modifies this, registry
      ensures Valid()
      ensures inner == []
      ensures NotifiedOnce(registry, old(registry.Abs()), old(registry.fanOuts), Reset, inner, alive)
    {
      inner := [];
      registry.Notify(Reset, inner, alive);
    }

    method Register(obs: ObserverId) returns (h: Handle)
      requires Valid()
      modifies registry
      ensures Valid()
      ensures (registry.Abs(), h) == Registered(old(registry.Abs()), obs)
      ensures registry.fanOuts == old(registry.fanOuts)
    {
      h := registry.Register(obs);
    }

    method Unregister(h: Handle) returns (removed: bool)
      requires Valid()
      modifies registry
      ensures Valid()
      ensures (registry.Abs(), removed) == Unregistered(old(registry.Abs()), h)
      ensures registry.fanOuts == old(registry.fanOuts)
    {
      removed := registry.Unregister(h);
    }

    /** Adds `value` at the back, then notifies `Added(len - 1)` on the new contents. */
    method PushBack(value: T, alive: set<ObserverId>)
      requires Valid()
      modifies this, registry
      ensures Valid()
      ensures inner == old(inner) + [value]
      ensures NotifiedOnce(registry, old(registry.Abs()), old(registry.fanOuts), Added(|inner| - 1), inner, alive)
    {
      inner := inner + [value];
      registry.Notify(Added(|inner| - 1), inner, alive);
    }

    /**
      On an empty deque returns `None` and notifies nobody. Otherwise notifies
      `Remove(len - 1)` with the back element still present, then removes and returns it.
    */
    method PopBack(alive: set<ObserverId>) returns (r: Option<T>)
      requires Valid()
      modifies this, registry
      ensures Valid()
      ensures old(inner) == [] ==>
        && r.None? && inner == []
        && registry.Abs() == old(registry.Abs()) && registry.fanOuts == old(registry.fanOuts)
      ensures old(inner) != [] ==>
        && r == Some(old(inner)[|old(inner)| - 1])
        && inner == old(inner)[..|old(inner)| - 1]
        && NotifiedOnce(registry, old(registry.Abs()), old(registry.fanOuts), Remove(|old(inner)| - 1), old(inner), alive)
    {
      if |inner| == 0 {
        return None;
      }
      registry.Notify(Remove(|inner| - 1), inner, alive);
      r := Some(inner[|inner| - 1]);
      inner := inner[..|inner| - 1];
    }

    /**
      Adds `value` at the front, then notifies `Added(len - 1)` on the new contents:
      the index reported is that of the back, although the new element is at 0.
    */
    method PushFront(value: T, alive: set<ObserverId>)
      requires Valid()
      modifies this, registry
      ensures Valid()
      ensures inner == [value] + old(inner)
      ensures NotifiedOnce(registry, old(registry.Abs()), old(registry.fanOuts), Added(|inner| - 1), inner, alive)
    {
      inner := [value] + inner;
      registry.Notify(Added(|inner| - 1), inner, alive);
    }

    /**
      On an empty deque returns `None` and notifies nobody. Otherwise notifies
      `Remove(len - 1)` with the front element still present, then removes and returns
      the front element: the index reported is that of the back.
    */
    method PopFront(alive: set<ObserverId>) returns (r: Option<T>)
      requires Valid()
      modifies this, registry
      ensures Valid()
      ensures old(inner) == [] ==>
        && r.None? && inner == []
        && registry.Abs() == old(registry.Abs()) && registry.fanOuts == old(registry.fanOuts)
      ensures old(inner) != [] ==>
        && r == Some(old(inner)[0])
        && inner == old(inner)[1..]
        && NotifiedOnce(registry, old(registry.Abs()), old(registry.fanOuts), Remove(|old(inner)| - 1), old(inner), alive)
    {
      if |inner| == 0 {
        return None;
      }
      registry.Notify(Remove(|inner| - 1), inner, alive);
      r := Some(inner[0]);
      inner := inner[1..];
    }
  }

  /** The events of a record of fan-outs, in order. */
  function Events<S>(log: seq<FanOut<Event, S>>): (r: seq<Event>)
    ensures |r| == |log|
    ensures forall i :: 0 <= i < |log| ==> r[i] == log[i].event
  {
    seq(|log|, i requires 0 <= i < |log| => log[i].event)
  }

  /**
    A vector with one live observer: two pushes, a swap, a pop and a clear. Each
    operation makes one fan-out with its own event, and `pop` returns the element
    that the swap moved to the back.
  */
  method VecScenario() returns (events: seq<Event>, popped: Option<int>, contents: seq<int>)
    ensures events == [Added(0), Added(1), Swapped(0, 1), Remove(1), Reset]
    ensures popped == Some(10)
    ensures contents == []
  {
    var v := new ObservableVec<int>();
    var h := v.Register(1);
    v.Push(10, {1});
    v.Push(20, {1});
    v.Swap(0, 1, {1});
    popped := v.Pop({1});
    v.Clear({1});
    events := Events(v.registry.fanOuts);
    contents := v.inner;
  }

  /**
    A deque: `push_back(1)` then `push_front(0)` gives contents [0, 1], and the second
    fan-out reports `Added(1)`, the index of the back, not that of the new element.
    `pop_front` then returns 0 and reports `Remove(1)`.
  */
  method DequeFrontScenario() returns (events: seq<Event>, popped: Option<int>, contents: seq<int>)
    ensures events == [Added(0), Added(1), Remove(1)]
    ensures popped == Some(0)
    ensures contents == [1]
  {
    var d := new ObservableVecDeque<int>();
    d.PushBack(1, {});
    d.PushFront(0, {});
    popped := d.PopFront({});
    events := Events(d.registry.fanOuts);
    contents := d.inner;
  }

  /** Pop on an empty vector returns nothing and makes no fan-out. */
  method EmptyPopScenario() returns (popped: Option<int>, fanOuts: nat)
    ensures popped == None
    ensures fanOuts == 0
  {
    var v := new ObservableVec<int>();
    var h := v.Register(1);
    popped := v.Pop({1});
    fanOuts := |v.registry.fanOuts|;
  }
}
