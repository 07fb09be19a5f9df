/** Small failure-compatible wrapper used for "absent" and "could not parse". */
module Wrappers {
  datatype Option<+T> = None | Some(value: T)
}

/**
 The timer record (TimerType) and the record updates that the list commands
 apply with object spread. Numbers are JavaScript numbers in the application;
 here they are unbounded integers.
 */
module TimerModel {

  datatype Timer = Timer(
    id: int,
    name: string,
    duration: int,
    category: string,
    remainingTime: int,
    running: bool,
    completed: bool)

  /** The bounds invariant: remaining time lies between zero and the full duration. */
  predicate InBounds(t: Timer) {
    0 <= t.remainingTime <= t.duration
  }

  predicate AllInBounds(ts: seq<Timer>) {
    forall i :: 0 <= i < |ts| ==> InBounds(ts[i])
  }

  /** A timer that is running is not also completed. */
  predicate Exclusive(t: Timer) {
    t.running ==> !t.completed
  }

  predicate AllExclusive(ts: seq<Timer>) {
    forall i :: 0 <= i < |ts| ==> Exclusive(ts[i])
  }

  /** The fields that no list command rewrites: id, name, duration and category. */
  predicate SameIdentity(a: Timer, b: Timer) {
    a.id == b.id && a.name == b.name && a.duration == b.duration && a.category == b.category
  }

  // The record updates `{ ...timer, ... }` shared by the per-id and the bulk commands.

  function Started(t: Timer): Timer {
    t.(running := true)
  }

  function Paused(t: Timer): Timer {
    t.(running := false)
  }

  function Rewound(t: Timer): Timer {
    t.(running := false, remainingTime := t.duration, completed := false)
  }

  function Finished(t: Timer): Timer {
    t.(running := false, remainingTime := 0, completed := true)
  }

  /** The state a reset leaves a record in. */
  predicate IsReset(t: Timer) {
    t.remainingTime == t.duration && !t.running && !t.completed
  }
}
