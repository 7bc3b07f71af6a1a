/**
 * The frequency calibration solver: the running total of a list of
 * frequency adjustments (part 1) and the first running total reached twice
 * when the list is applied over and over (part 2).
 */
module Frequency {
  import opened Options

  /** The resulting frequency after one pass: the plain sum of the adjustments. */
  function Sum(adjustments: seq<int>): int
  {
    if adjustments == [] then 0
    else Sum(adjustments[..|adjustments| - 1]) + adjustments[|adjustments| - 1]
  }

  /** The running total after n adjustments, taken in cyclic order starting
      from 0. Without adjustments the total never moves. */
  function Total(adjustments: seq<int>, n: nat): int
  {
    if n == 0 || adjustments == [] then 0
    else Total(adjustments, n - 1) + Adjustment(adjustments, n - 1)
  }

  /** The adjustment applied at step k (counting from 0): the list is
      taken from the start again each time it runs out. */
  function Adjustment(adjustments: seq<int>, k: nat): int
    requires adjustments != []
  {
    if k < |adjustments| then adjustments[k] else Adjustment(adjustments, k - |adjustments|)
  }

  /** Step pass * len + i of the cycle applies the i-th adjustment. */
  lemma {:induction false} AdjustmentInPass(adjustments: seq<int>, pass: nat, i: nat)
    requires i < |adjustments|
    ensures Adjustment(adjustments, pass * |adjustments| + i) == adjustments[i]
  {
    if pass > 0 {
      AdjustmentInPass(adjustments, pass - 1, i);
      assert pass * |adjustments| + i - |adjustments| == (pass - 1) * |adjustments| + i;
    }
  }

  /** The totals produced before step n, the starting 0 included. */
  function Seen(adjustments: seq<int>, n: nat): set<int>
  {
    set m | 0 <= m < n :: Total(adjustments, m)
  }

  /** Step n produces a total that was already produced. */
  predicate RepeatAt(adjustments: seq<int>, n: nat)
  {
    Total(adjustments, n) in Seen(adjustments, n)
  }

  /** No step n, from <= n < to, repeats an earlier total. */
  predicate NoRepeatIn(adjustments: seq<int>, from: nat, to: nat)
  {
    forall n :: from <= n < to ==> !RepeatAt(adjustments, n)
  }

  /** The first step n, from <= n < to, whose total repeats an earlier one. */
  ghost function FirstRepeatStep(adjustments: seq<int>, from: nat, to: nat): (r: Option<nat>)
    ensures r.None? <==> NoRepeatIn(adjustments, from, to)
    ensures r.Some? ==> from <= r.value < to && RepeatAt(adjustments, r.value)
                        && NoRepeatIn(adjustments, from, r.value)
    decreases (to as int) - (from as int)
  {
    if from >= to then None
    else if RepeatAt(adjustments, from) then Some(from)
    else FirstRepeatStep(adjustments, from + 1, to)
  }

  /** The total produced at a step, if there is one. */
  ghost function TotalAt(adjustments: seq<int>, step: Option<nat>): Option<int>
  {
    match step
    case None => None
    case Some(n) => Some(Total(adjustments, n))
  }

  /** A repeat at n preceded by none from `from` on is the first one. */
  lemma {:induction false} FirstRepeatStepSkipsNone(adjustments: seq<int>, from: nat, n: nat, to: nat)
    requires from <= n < to
    requires NoRepeatIn(adjustments, from, n) && RepeatAt(adjustments, n)
    ensures FirstRepeatStep(adjustments, from, to) == Some(n)
    decreases n - from
  {
    if from < n {
      assert !RepeatAt(adjustments, from);
      FirstRepeatStepSkipsNone(adjustments, from + 1, n, to);
    }
  }

  /**
   * The search for the first repeated frequency. The source loops until a
   * total repeats, which need not ever happen; here the number of passes
   * over the adjustments is a parameter, and None means that no total
   * repeated within that many passes.
   */
  method FindRepeat(adjustments: seq<int>, passes: nat) returns (r: Option<int>)
    ensures r == TotalAt(adjustments, FirstRepeatStep(adjustments, 1, passes * |adjustments| + 1))
  {
    var visited: set<int> := {0};
    var current := 0;
    ghost var steps: nat := 0;
    for pass := 0 to passes
      invariant steps == pass * |adjustments|
      invariant current == Total(adjustments, steps)
      invariant visited == Seen(adjustments, steps + 1) && |visited| == steps + 1
      invariant NoRepeatIn(adjustments, 1, steps + 1)
    {
      for i := 0 to |adjustments|
        invariant steps == pass * |adjustments| + i
        invariant current == Total(adjustments, steps)
        invariant visited == Seen(adjustments, steps + 1) && |visited| == steps + 1
        invariant NoRepeatIn(adjustments, 1, steps + 1)
      {
        NextTotal(adjustments, pass, i);
        current := current + adjustments[i];
        steps := steps + 1;
        if current in visited {
          WithinPasses(pass, passes, i, |adjustments|);
          FirstRepeatStepSkipsNone(adjustments, 1, steps, passes * |adjustments| + 1);
          return Some(current);
        }
        NewTotal(adjustments, steps, visited);
        visited := visited + {current};
      }
      assert pass * |adjustments| + |adjustments| == (pass + 1) * |adjustments|;
    }
    return None;
  }

  /** A step taken during pass `pass` stays within `passes` passes. */
  lemma WithinPasses(pass: nat, passes: nat, i: nat, len: nat)
    requires pass < passes && i < len
    ensures pass * len + i + 1 <= passes * len
  {
    assert passes * len == (pass + 1) * len + (passes - pass - 1) * len;
  }

  /** Step pass * len + i adds the i-th adjustment to the total. */
  lemma NextTotal(adjustments: seq<int>, pass: nat, i: nat)
    requires i < |adjustments|
    ensures Total(adjustments, pass * |adjustments| + i + 1)
         == Total(adjustments, pass * |adjustments| + i) + adjustments[i]
  {
    AdjustmentInPass(adjustments, pass, i);
  }

  /** A total not produced before extends the distinct totals by one. */
  lemma NewTotal(adjustments: seq<int>, n: nat, visited: set<int>)
    requires visited == Seen(adjustments, n) && |visited| == n
    requires NoRepeatIn(adjustments, 1, n) && Total(adjustments, n) !in visited
    ensures visited + {Total(adjustments, n)} == Seen(adjustments, n + 1)
    ensures |visited + {Total(adjustments, n)}| == n + 1
    ensures NoRepeatIn(adjustments, 1, n + 1)
  {
  }

  /** The total after the first n adjustments is the sum of those adjustments. */
  lemma {:induction false} TotalIsPrefixSum(adjustments: seq<int>, n: nat)
    requires n <= |adjustments|
    ensures Total(adjustments, n) == Sum(adjustments[..n])
  {
    if n > 0 {
      TotalIsPrefixSum(adjustments, n - 1);
      assert Adjustment(adjustments, n - 1) == adjustments[n - 1];
      assert adjustments[..n][..n - 1] == adjustments[..n - 1];
    }
  }

  /** Part 1 is the total after one full pass. */
  lemma OnePassIsSum(adjustments: seq<int>)
    ensures Total(adjustments, |adjustments|) == Sum(adjustments)
  {
    TotalIsPrefixSum(adjustments, |adjustments|);
    assert adjustments[..|adjustments|] == adjustments;
  }

  /** Every further pass shifts the totals by the sum of the adjustments. */
  lemma {:induction false} TotalPeriodic(adjustments: seq<int>, n: nat)
    ensures Total(adjustments, n + |adjustments|) == Total(adjustments, n) + Sum(adjustments)
  {
    if n == 0 {
      OnePassIsSum(adjustments);
    } else if adjustments != [] {
      TotalPeriodic(adjustments, n - 1);
    }
  }

  /** When a full pass sums to 0 the frequency is back at 0 after it, so a
      repeat is found during the first pass. */
  lemma ZeroSumRepeatsInFirstPass(adjustments: seq<int>, passes: nat)
    requires adjustments != [] && Sum(adjustments) == 0 && passes >= 1
    ensures FirstRepeatStep(adjustments, 1, passes * |adjustments| + 1).Some?
    ensures FirstRepeatStep(adjustments, 1, passes * |adjustments| + 1).value <= |adjustments|
  {
    var bound := passes * |adjustments| + 1;
    OnePassIsSum(adjustments);
    assert Total(adjustments, 0) in Seen(adjustments, |adjustments|);
    assert RepeatAt(adjustments, |adjustments|);
    assert |adjustments| < bound by {
      assert passes * |adjustments| >= |adjustments|;
    }
  }

  /** With the single adjustment +1 the total after n steps is n. */
  lemma {:induction false} OnesCount(n: nat)
    ensures Total([1], n) == n
  {
    if n > 0 {
      OnesCount(n - 1);
      AdjustmentInPass([1], n - 1, 0);
    }
  }

  /** With the single adjustment +1 every total is new, so the search as
      written never stops. */
  lemma OnesNeverRepeat(passes: nat)
    ensures FirstRepeatStep([1], 1, passes + 1) == None
  {
    forall n | 1 <= n < passes + 1
      ensures !RepeatAt([1], n)
    {
      OnesCount(n);
      forall m | 0 <= m < n
        ensures Total([1], m) != n
      {
        OnesCount(m);
      }
    }
  }

  /** The running totals of the documented example for its first 13 steps. */
  lemma ExampleTotals()
    ensures forall n: nat :: n < 14 ==> Total([7, 7, -2, -7, -4], n) == [0, 7, 14, 12, 5, 1, 8, 15, 13, 6, 2, 9, 16, 14][n]
  {
    var adjustments := [7, 7, -2, -7, -4];
    NextTotal(adjustments, 0, 0);
    NextTotal(adjustments, 0, 1);
    NextTotal(adjustments, 0, 2);
    NextTotal(adjustments, 0, 3);
    NextTotal(adjustments, 0, 4);
    NextTotal(adjustments, 1, 0);
    NextTotal(adjustments, 1, 1);
    NextTotal(adjustments, 1, 2);
    NextTotal(adjustments, 1, 3);
    NextTotal(adjustments, 1, 4);
    NextTotal(adjustments, 2, 0);
    NextTotal(adjustments, 2, 1);
    NextTotal(adjustments, 2, 2);
  }

  /** The documented example: the frequency 14 is the first reached twice,
      at the 13th step, during the third pass. */
  lemma RepeatExample(passes: nat)
    requires passes >= 3
    ensures FirstRepeatStep([7, 7, -2, -7, -4], 1, passes * 5 + 1) == Some(13)
    ensures Total([7, 7, -2, -7, -4], 13) == 14
  {
    var adjustments := [7, 7, -2, -7, -4];
    var totals := [0, 7, 14, 12, 5, 1, 8, 15, 13, 6, 2, 9, 16, 14];
    ExampleTotals();
    forall n | 1 <= n < 13
      ensures !RepeatAt(adjustments, n)
    {
      forall m | 0 <= m < n
        ensures Total(adjustments, m) != Total(adjustments, n)
      {
        assert totals[m] != totals[n];
      }
    }
    assert Total(adjustments, 2) == Total(adjustments, 13);
    assert RepeatAt(adjustments, 13);
    FirstRepeatStepSkipsNone(adjustments, 1, 13, passes * 5 + 1);
  }
}
