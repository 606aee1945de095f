/**
  `Subject<T>`: a value together with the `Observers` registry that is told, with the
  event `()`, whenever the value is changed through `mutate` or `maybe_mutate`.

  A closure that edits the value in place and reports whether it changed anything is
  modelled as a function from the old value to the new value and that report.
*/
module Subject {
  import opened Registry
  import opened Counting

  class Subject<T> {
    var inner: T
    const observers: Observers<(), T>
    /** Whether `into_inner` has taken the subject by value; a consumed subject is no longer used. */
    ghost var consumed: bool

    ghost predicate Valid()
      reads this, observers
    {
      !consumed && observers.Valid()
    }

    /** `Subject::new`: the given value and an empty registry. */
    constructor (inner: T)
      ensures Valid() && fresh(observers)
      ensures this.inner == inner
      ensures observers.Abs() == Empty() && observers.fanOuts == []
    {
      this.inner := inner;
      observers := new Observers();
      consumed := false;
    }

    /** Read access: the value, with no notification. */
    method Get() returns (v: T)
      requires Valid()
      ensures v == inner
    {
      v := inner;
    }

    /**
      Gives the value back with every mutation applied; nobody is notified. The subject
      is consumed: no method can be called on it afterwards.
    */
    method IntoInner() returns (v: T)
      requires Valid()
      modifies this
      ensures v == old(inner) && inner == old(inner)
      ensures consumed
    {
      v := inner;
      consumed := true;
    }

    /**
      Applies `f` to the value in place; if `f` reports a change, performs exactly one
      fan-out of `()` on the changed value, otherwise notifies nobody and leaves the
      registry as it was.
    */
    method MaybeMutate(f: T -> (T, bool), alive: set<ObserverId>)
      requires Valid()
      modifies this, observers
      ensures Valid()
      ensures inner == f(old(inner)).0
      ensures f(old(inner)).1 ==>
        && observers.Abs() == Pruned(old(observers.Abs()), alive)
        && OneMoreFanOut(old(observers.fanOuts), observers.fanOuts, (), inner, Live(old(observers.registry), alive))
      ensures !f(old(inner)).1 ==>
        observers.Abs() == old(observers.Abs()) && observers.fanOuts == old(observers.fanOuts)
    {
      var (v, changed) := f(inner);
      inner := v;
      if changed {
        observers.Notify((), inner, alive);
      }
    }

    /** Applies `f` to the value, then performs exactly one fan-out of `()` on the result. */
    method Mutate(f: T -> T, alive: set<ObserverId>)
      requires Valid()
      modifies this, observers
      ensures Valid()
      ensures inner == f(old(inner))
      ensures observers.Abs() == Pruned(old(observers.Abs()), alive)
      ensures OneMoreFanOut(old(observers.fanOuts), observers.fanOuts, (), inner, Live(old(observers.registry), alive))
    {
      MaybeMutate(v => (f(v), true), alive);
    }

    /** `observers().register`: adds a registration; never notifies and leaves the value alone. */
    method Register(obs: ObserverId) returns (h: Handle)
      requires Valid()
      modifies observers
      ensures Valid()
      ensures (observers.Abs(), h) == Registered(old(observers.Abs()), obs)
      ensures observers.fanOuts == old(observers.fanOuts)
    {
      h := observers.Register(obs);
    }

    /** `observers().unregister`: removes a registration; never notifies and leaves the value alone. */
    method Unregister(h: Handle) returns (removed: bool)
      requires Valid()
      modifies observers
      ensures Valid()
      ensures (observers.Abs(), removed) == Unregistered(old(observers.Abs()), h)
      ensures observers.fanOuts == old(observers.fanOuts)
    {
      removed := observers.Unregister(h);
    }
  }

  /**
    A counter at 42 with one live observer, mutated by two separate increments: each
    `mutate` makes its own fan-out, the observer is called once per fan-out, and the
    last value it was handed is the final value 44.
  */
  method MutateTwiceScenario() returns (value: nat, fanOuts: nat, callsPerFanOut: seq<nat>, lastSeen: nat)
    ensures value == 44
    ensures fanOuts == 2
    ensures callsPerFanOut == [1, 1]
    ensures lastSeen == 44
  {
    var s := new Subject(Counter(42));
    var h := s.Register(7);
    s.Mutate(Increment, {7});
    assert Live(map[h := 7], {7}) == map[h := 7];
    FanOutSize(s.observers.fanOuts[0].calls, map[h := 7]);
    s.Mutate(Increment, {7});
    FanOutSize(s.observers.fanOuts[1].calls, map[h := 7]);
    var v := s.IntoInner();
    value := v.counter;
    fanOuts := |s.observers.fanOuts|;
    callsPerFanOut := [|s.observers.fanOuts[0].calls|, |s.observers.fanOuts[1].calls|];
    lastSeen := s.observers.fanOuts[1].subject.counter;
  }

  /**
    `maybe_mutate` whose closure edits the value but reports no change: the edit stays,
    and no observer is called.
  */
  method SilentEditScenario() returns (value: nat, fanOuts: nat)
    ensures value == 43
    ensures fanOuts == 0
  {
    var s := new Subject(Counter(42));
    var h := s.Register(7);
    s.MaybeMutate(c => (Increment(c), false), {7});
    var v := s.Get();
    value := v.counter;
    fanOuts := |s.observers.fanOuts|;
  }
}
