/**
 * Recamán's sequence as `RecamansSequence.run` computes it: a(0) = 0, and
 * a(n) = a(n-1) - n when that is positive and not yet in the sequence,
 * a(n-1) + n otherwise. `Run` is the loop over `current` and `seen`, with
 * the terms collected instead of printed; `Term` is the same rule as a
 * function, and the lemmas state what the rule guarantees.
 */
module Recaman {

  /** Number of terms the loop produces, a(0) through a(MAX_TERMS - 1). */
  const MAX_TERMS: nat := 1000

  /** The loop state after a step: the current term and the set of terms so far. */
  datatype Progress = Progress(current: int, seen: set<int>)

  /**
   * Step `n`: subtract `n` if the result is positive and unseen, add it
   * otherwise, and record the new term.
   */
  function Step(p: Progress, n: nat): (q: Progress)
    ensures q.seen == p.seen + {q.current}
    ensures q.current == p.current - n || q.current == p.current + n
    ensures n > 0 && q.current == p.current - n ==> q.current > 0 && q.current !in p.seen
    ensures p.current - n > 0 && p.current - n !in p.seen ==> q.current == p.current - n
  {
    var candidate := p.current - n;
    var current := if candidate > 0 && candidate !in p.seen then candidate else p.current + n;
    Progress(current, p.seen + {current})
  }

  /** The state after step `n`; step 0 is the initialisation `current = 0`, `seen = {0}`. */
  function After(n: nat): Progress
    decreases n
  {
    if n == 0 then Progress(0, {0}) else Step(After(n - 1), n)
  }

  /** a(n). */
  function Term(n: nat): int {
    After(n).current
  }

  /** The terms a(0), ..., a(n - 1). */
  function Prefix(n: nat): set<int> {
    set k | 0 <= k < n :: Term(k)
  }

  /** The prefix grows by one term at a time. */
  lemma PrefixGrows(n: nat)
    ensures Prefix(n + 1) == Prefix(n) + {Term(n)}
  {
    forall x | x in Prefix(n + 1)
      ensures x in Prefix(n) + {Term(n)}
    {
      var k :| 0 <= k < n + 1 && x == Term(k);
      if k < n {
        assert x in Prefix(n);
      }
    }
  }

  /** After step `n`, `seen` holds exactly a(0), ..., a(n). */
  lemma {:induction false} SeenIsEarlierTerms(n: nat)
    ensures After(n).seen == Prefix(n + 1)
    decreases n
  {
    PrefixGrows(n);
    if n == 0 {
      assert Prefix(0) == {};
    } else {
      SeenIsEarlierTerms(n - 1);
    }
  }

  /**
   * The recurrence in the sequence's own terms: for n >= 1, a(n) is
   * a(n-1) - n exactly when that value is positive and none of a(0), ...,
   * a(n-1); otherwise it is a(n-1) + n.
   */
  lemma Recurrence(n: nat)
    requires n >= 1
    ensures var candidate := Term(n - 1) - n;
      Term(n) == if candidate > 0 && candidate !in Prefix(n) then candidate else Term(n - 1) + n
  {
    SeenIsEarlierTerms(n - 1);
  }

  /** Consecutive terms differ by exactly the step number. */
  lemma StepSize(n: nat)
    requires n >= 1
    ensures Term(n) - Term(n - 1) == n || Term(n - 1) - Term(n) == n
  {
    assert After(n) == Step(After(n - 1), n);
  }

  /** a(0) is 0 and every later term is strictly positive. */
  lemma {:induction false} Positive(n: nat)
    ensures n == 0 ==> Term(n) == 0
    ensures n >= 1 ==> Term(n) > 0
    decreases n
  {
    if n >= 1 {
      Positive(n - 1);
      assert After(n) == Step(After(n - 1), n);
    }
  }

  /** A subtraction step yields a value that is not among the earlier terms. */
  lemma SubtractionIsNew(n: nat, k: nat)
    requires n >= 1 && Term(n) == Term(n - 1) - n && k < n
    ensures Term(k) != Term(n)
  {
    assert After(n) == Step(After(n - 1), n);
    SeenIsEarlierTerms(n - 1);
    assert Term(k) in Prefix(n);
  }

  /**
   * `RecamansSequence.run` with the terms collected: the loop `for n in
   * range(1, MAX_TERMS)` keeps `current` and `seen` and appends each new
   * term. It yields exactly MAX_TERMS terms, the n-th being a(n).
   */
  method Run() returns (terms: seq<int>)
    ensures |terms| == MAX_TERMS
    ensures forall n :: 0 <= n < |terms| ==> terms[n] == Term(n)
  {
    var current := 0;
    var seen := {current};
    terms := [current];
    for n := 1 to MAX_TERMS
      invariant |terms| == n
      invariant Progress(current, seen) == After(n - 1)
      invariant forall k :: 0 <= k < n ==> terms[k] == Term(k)
    {
      var candidate := current - n;
      if candidate > 0 && candidate !in seen {
        current := candidate;
      } else {
        current := current + n;
      }
      seen := seen + {current};
      terms := terms + [current];
    }
  }
}
