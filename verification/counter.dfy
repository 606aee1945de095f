/** The value the scenarios below observe: a counter, as in the crate's tests. */
module Counting {

  datatype Counter = Counter(counter: nat)

  function Increment(c: Counter): Counter {
    Counter(c.counter + 1)
  }
}
