/** What holds since when: steps that begin something, and steps that end it. */
module Histories {

  /** It was begun at one of the first n steps, and no later one of them ended it. */
  ghost predicate Since(starts: set<nat>, ends: set<nat>, n: nat) {
    exists k :: k in starts && NotEnded(ends, k, n)
  }

  ghost predicate NotEnded(ends: set<nat>, k: nat, n: nat) {
    k < n && forall j :: k < j < n ==> j !in ends
  }

  lemma SinceNext(starts: set<nat>, ends: set<nat>, n: nat)
    ensures Since(starts, ends, n + 1) <==> n in starts || (Since(starts, ends, n) && n !in ends)
  {
    if k :| k in starts && NotEnded(ends, k, n + 1) && k != n {
      assert NotEnded(ends, k, n);
    }
    if k :| k in starts && NotEnded(ends, k, n) && n !in ends {
      assert NotEnded(ends, k, n + 1);
    }
    if n in starts {
      assert NotEnded(ends, n, n + 1);
    }
  }

  /** What each step turns on or off holds exactly since it was turned on. */
  lemma {:induction false} SinceExactly(holds: set<nat>, starts: set<nat>, ends: set<nat>, n: nat)
    requires 0 !in holds
    requires forall k: nat :: k < n ==> (k + 1 in holds <==> k in starts || (k in holds && k !in ends))
    ensures n in holds <==> Since(starts, ends, n)
  {
    if n > 0 {
      SinceExactly(holds, starts, ends, n - 1);
      SinceNext(starts, ends, n - 1);
      assert n - 1 + 1 in holds <==> n - 1 in starts || (n - 1 in holds && n - 1 !in ends);
    }
  }
}
