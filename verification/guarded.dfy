/**
  The guard-based draft of a subject: a value with a list of observers. Edits are made
  through a guard obtained from `get_mut_notify`; dropping the guard calls `update` on
  every observer, in the order they were registered.

  An observer's `update` receives the value by mutable reference, so it is modelled as
  a function `(observer, value) -> value`. What each observer was handed is recorded in
  `deliveries`, which stands for the observers' own side effects.
*/
module Guarded {
  import opened Wrappers
  import opened Counting

  /** One `update` call: the observer and the value it was handed. */
  datatype Delivery<O, V> = Delivery(observer: O, value: V)

  /**
    The effect of one guard drop, as a value: the observers are called in list order,
    each handed the value as the previous ones left it. Returns the final value and the
    calls made.
  */
  function Deliver<O, V>(observers: seq<O>, update: (O, V) -> V, v: V): (r: (V, seq<Delivery<O, V>>))
    ensures |r.1| == |observers|
    ensures forall i :: 0 <= i < |observers| ==> r.1[i].observer == observers[i]
    decreases |observers|
  {
    if observers == [] then (v, [])
    else
      var last := |observers| - 1;
      var before := Deliver(observers[..last], update, v);
      (update(observers[last], before.0), before.1 + [Delivery(observers[last], before.0)])
  }

  /**
    The `i`-th observer is handed the value as the guard's edits and the first `i`
    observers left it, so it sees every edit made before the drop.
  */
  lemma {:induction false} DeliverHandsOnValue<O, V>(observers: seq<O>, update: (O, V) -> V, v: V, i: nat)
    requires i < |observers|
    ensures Deliver(observers, update, v).1[i] == Delivery(observers[i], Deliver(observers[..i], update, v).0)
    decreases |observers|
  {
    var last := |observers| - 1;
    var before := Deliver(observers[..last], update, v);
    if i < last {
      DeliverHandsOnValue(observers[..last], update, v, i);
      assert observers[..last][..i] == observers[..i];
      assert Deliver(observers, update, v).1[i] == before.1[i];
    } else {
      assert observers[..i] == observers[..last];
    }
  }

  /** Observers that leave the value alone: every observer is handed the value as it stands. */
  ghost predicate ReadOnly<O(!new), V(!new)>(update: (O, V) -> V) {
    forall o, v :: update(o, v) == v
  }

  /**
    With read-only observers a drop leaves the value unchanged and every observer is
    handed that same value, the one the guard's edits produced.
  */
  lemma {:induction false} ReadOnlyDeliverySeesValue<O(!new), V(!new)>(observers: seq<O>, update: (O, V) -> V, v: V)
    requires ReadOnly(update)
    ensures Deliver(observers, update, v).0 == v
    ensures forall i :: 0 <= i < |observers| ==> Deliver(observers, update, v).1[i].value == v
    decreases |observers|
  {
    if observers != [] {
      var last := |observers| - 1;
      ReadOnlyDeliverySeesValue(observers[..last], update, v);
      assert update(observers[last], v) == v;
    }
  }

  /** The observers called, in call order. */
  function CalledObservers<O, V>(log: seq<Delivery<O, V>>): seq<O> {
    seq(|log|, i requires 0 <= i < |log| => log[i].observer)
  }

  /** How many times `o` was called: its multiplicity among the observers called. */
  function Calls<O(==), V>(log: seq<Delivery<O, V>>, o: O): (n: nat)
    ensures n == multiset(CalledObservers(log))[o]
    ensures n <= |log|
    ensures n == 0 <==> forall i :: 0 <= i < |log| ==> log[i].observer != o
    decreases |log|
  {
    if log == [] then 0
    else
      var last := |log| - 1;
      assert CalledObservers(log) == CalledObservers(log[..last]) + [log[last].observer];
      Calls(log[..last], o) + (if log[last].observer == o then 1 else 0)
  }

  /**
    The value `o` was handed last, if it was called at all: the value of its call after
    which it was not called again.
  */
  function LastSeen<O(==), V>(log: seq<Delivery<O, V>>, o: O): (r: Option<V>)
    ensures r.None? <==> forall i :: 0 <= i < |log| ==> log[i].observer != o
    ensures r.Some? ==> exists j ::
      && 0 <= j < |log| && log[j] == Delivery(o, r.value)
      && forall k :: j < k < |log| ==> log[k].observer != o
    decreases |log|
  {
    if log == [] then None
    else if log[|log| - 1].observer == o then Some(log[|log| - 1].value)
    else LastSeen(log[..|log| - 1], o)
  }

  /** `Subject<V, O>`: the value, the registered observers, and what they were handed. */
  class Subject<V, O> {
    var value: V
    var observers: seq<O>
    var deliveries: seq<Delivery<O, V>>
    /** Whether a guard holds the subject's exclusive borrow. */
    ghost var borrowed: bool
    /** Whether `into_inner` has taken the subject by value. */
    ghost var consumed: bool

    /** Neither borrowed by a guard nor consumed: the subject's own methods may be called. */
    ghost predicate Available()
      reads this
    {
      !borrowed && !consumed
    }

    /** `Subject::new`: the given value and no observers. */
    constructor (value: V)
      ensures this.value == value && observers == [] && deliveries == []
      ensures Available()
    {
      this.value := value;
      observers := [];
      deliveries := [];
      borrowed := false;
      consumed := false;
    }

    /** Appends `observer` at the end of the list; the same observer may be registered twice. */
    method Register(observer: O)
      requires Available()
      modifies this
      ensures Available()
      ensures observers == old(observers) + [observer]
      ensures value == old(value) && deliveries == old(deliveries)
    {
      observers := observers + [observer];
    }

    /**
      Hands out a guard over this subject; nobody is notified yet. The guard holds the
      subject's exclusive borrow until it is dropped.
    */
    method GetMutNotify() returns (g: SubjectGuard<V, O>)
      requires Available()
      modifies this
      ensures fresh(g) && g.subject == this && g.Active()
      ensures value == old(value) && observers == old(observers) && deliveries == old(deliveries)
    {
      g := new SubjectGuard(this);
    }

    /** Gives the value back with every guarded edit applied; the subject is consumed. */
    method IntoInner() returns (v: V)
      requires Available()
      modifies this
      ensures v == old(value)
      ensures value == old(value) && observers == old(observers) && deliveries == old(deliveries)
      ensures consumed
    {
      v := value;
      consumed := true;
    }
  }

  /** `SubjectGuard`: mutable access to a subject until it is dropped. */
  class SubjectGuard<V, O> {
    const subject: Subject<V, O>
    /** Whether the guard has been dropped; a guard is dropped once and then no longer used. */
    ghost var dropped: bool

    /** Not yet dropped, and holding its subject's borrow. */
    ghost predicate Active()
      reads this, subject
    {
      !dropped && subject.borrowed && !subject.consumed
    }

    /** `SubjectGuard(self)`: takes the exclusive borrow of an available subject. */
    constructor (subject: Subject<V, O>)
      requires subject.Available()
      modifies subject
      ensures this.subject == subject && Active()
      ensures subject.value == old(subject.value) && subject.observers == old(subject.observers)
      ensures subject.deliveries == old(subject.deliveries)
    {
      this.subject := subject;
      dropped := false;
      new;
      subject.borrowed := true;
    }

    /** `Deref`: reads the value through the guard. */
    method Deref() returns (v: V)
      requires Active()
      ensures v == subject.value
    {
      v := subject.value;
    }

    /** `DerefMut`: an edit through the guard changes the value in place and notifies nobody. */
    method DerefMut(edit: V -> V)
      requires Active()
      modifies subject
      ensures Active()
      ensures subject.value == edit(old(subject.value))
      ensures subject.observers == old(subject.observers) && subject.deliveries == old(subject.deliveries)
    {
      subject.value := edit(subject.value);
    }

    /**
      `Drop`: calls `update` once on each registered observer, in list order, on the
      value as the guard's edits left it, and gives the borrow back.
    */
    method Drop(update: (O, V) -> V)
      requires Active()
      modifies this, subject
      ensures dropped && subject.Available()
      ensures subject.observers == old(subject.observers)
      ensures var r := Deliver(old(subject.observers), update, old(subject.value));
        subject.value == r.0 && subject.deliveries == old(subject.deliveries) + r.1
    {
      var i := 0;
      while i < |subject.observers|
        invariant 0 <= i <= |subject.observers|
        invariant subject.observers == old(subject.observers) && !subject.consumed
        invariant var done := Deliver(subject.observers[..i], update, old(subject.value));
          subject.value == done.0 && subject.deliveries == old(subject.deliveries) + done.1
      {
        assert subject.observers[..i + 1][..i] == subject.observers[..i];
        subject.deliveries := subject.deliveries + [Delivery(subject.observers[i], subject.value)];
        subject.value := update(subject.observers[i], subject.value);
        i := i + 1;
      }
      assert subject.observers[..i] == subject.observers;
      dropped := true;
      subject.borrowed := false;
    }
  }

  /** The tests' observer reads the value and changes nothing. */
  function Observe(o: nat, c: Counter): Counter {
    c
  }

  /** One guarded increment of 42 with no observers: the value taken back is 43. */
  method SubjectWrappingScenario() returns (counter: nat)
    ensures counter == 43
  {
    var s := new Subject<Counter, nat>(Counter(42));
    var g := s.GetMutNotify();
    g.DerefMut(Increment);
    g.Drop(Observe);
    var m := s.IntoInner();
    counter := m.counter;
  }

  /** One guarded increment of 42 with one observer: value 43, one call, and it saw 43. */
  method SingleObserverScenario() returns (counter: nat, calls: nat, lastCount: Option<nat>)
    ensures counter == 43 && calls == 1 && lastCount == Some(43)
  {
    var s := new Subject<Counter, nat>(Counter(42));
    s.Register(1);
    var g := s.GetMutNotify();
    g.DerefMut(Increment);
    g.Drop(Observe);
    var m := s.IntoInner();
    counter := m.counter;
    calls := Calls(s.deliveries, 1);
    var seen := LastSeen(s.deliveries, 1);
    lastCount := if seen.Some? then Some(seen.value.counter) else None;
  }

  /** One guarded increment of 42 with two observers: value 43, and each observer called once, seeing 43. */
  method TwoObserversScenario() returns (counter: nat, calls1: nat, last1: Option<nat>, calls2: nat, last2: Option<nat>)
    ensures counter == 43
    ensures calls1 == 1 && last1 == Some(43)
    ensures calls2 == 1 && last2 == Some(43)
  {
    var s := new Subject<Counter, nat>(Counter(42));
    s.Register(1);
    s.Register(2);
    var g := s.GetMutNotify();
    g.DerefMut(Increment);
    ReadOnlyDeliverySeesValue<nat, Counter>(s.observers, Observe, Counter(43));
    g.Drop(Observe);
    var log := [Delivery(1, Counter(43)), Delivery(2, Counter(43))];
    assert s.deliveries == log;
    assert log[..1] == [log[0]] && [log[0]][..0] == [];
    var m := s.IntoInner();
    counter := m.counter;
    calls1 := Calls(s.deliveries, 1);
    calls2 := Calls(s.deliveries, 2);
    var seen1 := LastSeen(s.deliveries, 1);
    var seen2 := LastSeen(s.deliveries, 2);
    last1 := if seen1.Some? then Some(seen1.value.counter) else None;
    last2 := if seen2.Some? then Some(seen2.value.counter) else None;
  }

  /**
    Two guards, each making one increment: value 44, two calls to the one observer
    (one per guard), and the last value it saw is 44.
  */
  method CalledTwiceScenario() returns (counter: nat, calls: nat, lastCount: Option<nat>)
    ensures counter == 44 && calls == 2 && lastCount == Some(44)
  {
    var s := new Subject<Counter, nat>(Counter(42));
    s.Register(1);
    var g1 := s.GetMutNotify();
    g1.DerefMut(Increment);
    g1.Drop(Observe);
    var g2 := s.GetMutNotify();
    g2.DerefMut(Increment);
    g2.Drop(Observe);
    var log := [Delivery(1, Counter(43)), Delivery(1, Counter(44))];
    assert s.deliveries == log;
    assert log[..1] == [log[0]] && [log[0]][..0] == [];
    var m := s.IntoInner();
    counter := m.counter;
    calls := Calls(s.deliveries, 1);
    var seen := LastSeen(s.deliveries, 1);
    lastCount := if seen.Some? then Some(seen.value.counter) else None;
  }
}
