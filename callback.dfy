/**
  `createCallback(limit, fn)`: a function that counts its own calls and runs
  `fn` on the call that brings the count to `limit`.  The analyser's cache uses
  it to join a batch of asynchronous reads: one call per finished read, `fn`
  once all have finished.
 */
module Completion {

  /** The closure's state: the captured `limit` and the running count `complete`. */
  class Counter {
    const limit: int
    var complete: nat

    constructor (limit: int)
      ensures this.limit == limit && complete == 0
    {
      this.limit := limit;
      complete := 0;
    }

    /** One call of the returned function: the count goes up by one, and `fn` runs exactly when it then equals `limit`. */
    method Call() returns (fired: bool)
      modifies this`complete
      ensures complete == old(complete) + 1
      ensures fired <==> complete == limit
      ensures fired == FiresAt(limit, complete)
    {
      complete := complete + 1;
      fired := complete == limit;
    }

    /** `n` calls in a row; `firings` is how many of them ran `fn`. */
    method CallTimes(n: nat) returns (firings: nat)
      modifies this`complete
      ensures complete == old(complete) + n
      ensures firings == Firings(limit, old(complete), n)
    {
      firings := 0;
      var k := 0;
      while k < n
        invariant 0 <= k <= n
        invariant complete == old(complete) + k
        invariant firings == Firings(limit, old(complete), k)
      {
        var fired := Call();
        if fired {
          firings := firings + 1;
        }
        k := k + 1;
      }
    }
  }

  /** Whether the call that makes the count `count` runs `fn`. */
  predicate FiresAt(limit: int, count: nat) {
    count == limit
  }

  /** How many of the `n` calls after the count stood at `start` run `fn`. */
  function Firings(limit: int, start: nat, n: nat): nat
    decreases n
  {
    if n == 0 then 0 else Firings(limit, start, n - 1) + (if FiresAt(limit, start + n) then 1 else 0)
  }

  /**
    From a fresh closure, `n` calls run `fn` once when `1 <= limit <= n` and
    never otherwise: exactly on the limit-th call, never twice, and never at all
    for a limit of zero or less.
   */
  lemma {:induction false} FiresOnce(limit: int, n: nat)
    ensures Firings(limit, 0, n) == (if 1 <= limit <= n then 1 else 0)
    decreases n
  {
    if n > 0 {
      FiresOnce(limit, n - 1);
    }
  }

  /** Calls past the limit never run `fn` again. */
  lemma {:induction false} NoFiringPastLimit(limit: int, start: nat, n: nat)
    requires limit <= start
    ensures Firings(limit, start, n) == 0
    decreases n
  {
    if n > 0 {
      NoFiringPastLimit(limit, start, n - 1);
    }
  }

  /** `fn` has run after the first `n` calls exactly when the limit is among the counts reached. */
  lemma FiredBy(limit: int, n: nat)
    ensures Firings(limit, 0, n) > 0 <==> 1 <= limit <= n
  {
    FiresOnce(limit, n);
  }
}
