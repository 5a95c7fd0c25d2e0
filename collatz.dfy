/**
 The length of a Collatz-style sequence as the source computes it: while the
 value exceeds 1, an even value is halved and an odd value n becomes 2n+1 (the
 rule the code applies, not the 3n+1 of its comment), and a counter that starts
 at 1 grows by one per step.

 The value is an `i32`. The odd step overflows once n > 1073741823; a debug
 build then panics. The model makes that panic an outcome of its own, so every
 `i32` start value has a defined result.
 */
module Collatz {
  import opened Int32

  /** How a run ends: the number of values visited, or an overflow of the odd step at value `at`. */
  datatype Outcome = Length(count: nat) | Overflow(at: int)

  datatype Option<T> = None | Some(value: T)

  /** The odd step `2 * n + 1` of n stays within `i32` (even steps always do). */
  predicate StepFits(n: int) {
    n % 2 == 0 || 2 * n + 1 <= I32_MAX
  }

  /** One transformation of the loop body, under the rule the code applies. */
  function Step(n: I32): (r: I32)
    requires n > 1 && StepFits(n)
  {
    if n % 2 == 0 then n / 2 else 2 * n + 1
  }

  /** Adds d to the count of a run that ended normally. */
  function Shift(o: Outcome, d: nat): (r: Outcome)
    ensures r.Length? <==> o.Length?
    ensures o.Length? ==> r.count == o.count + d
    ensures o.Overflow? ==> r == o
  {
    match o
    case Length(c) => Length(c + d)
    case Overflow(_) => o
  }

  /**
   The whole run of the loop from n. Even values only shrink and an odd value
   only grows and stays odd, so the recursion ends: it counts first the
   halvings of an even value, then the growth of an odd one towards the `i32`
   bound.
   */
  function Run(n: I32): (r: Outcome)
    decreases if n % 2 == 0 then 1 else 0, if n % 2 == 0 then n else I32_MAX - n
  {
    if n <= 1 then Length(1)
    else if !StepFits(n) then Overflow(n)
    else Shift(Run(Step(n)), 1)
  }

  /** 2 to the power k. */
  function Pow2(k: nat): (r: nat)
    ensures r >= 1
  {
    if k == 0 then 1 else 2 * Pow2(k - 1)
  }

  /** n is 1, 2, 4, 8, ... */
  predicate IsPowerOfTwo(n: int)
    decreases n
  {
    n == 1 || (n > 1 && n % 2 == 0 && IsPowerOfTwo(n / 2))
  }

  /**
   The loop of the source. The parameter is copied to a local because Dafny
   parameters are immutable; the overflow check stands for the panic of the
   odd step.
   */
  method CollatzLength(n: I32) returns (r: Outcome)
    ensures r == Run(n)
    ensures r.Length? <==> n <= 1 || IsPowerOfTwo(n)
    // A count of at most 31 is far inside `u32`: the counter never overflows.
    ensures r.Length? ==> 1 <= r.count <= 31
    ensures r.Length? ==> (n <= 1 && r.count == 1) || n == Pow2(r.count - 1)
    ensures r.Overflow? ==> r.at > 1 && !StepFits(r.at)
  {
    var v: I32 := n;
    var count: nat := 1;
    while v > 1
      invariant count >= 1
      invariant Run(n) == Shift(Run(v), count - 1)
      decreases if v % 2 == 0 then 1 else 0, if v % 2 == 0 then v else I32_MAX - v
    {
      if v % 2 == 0 {
        v := v / 2;
      } else if 2 * v + 1 > I32_MAX {
        r := Overflow(v);
        RunProperties(n);
        return;
      } else {
        v := 2 * v + 1;
      }
      count := count + 1;
    }
    r := Length(count);
    RunProperties(n);
  }

  /** A start value of at most 1 (zero and negatives included) never enters the loop. */
  lemma RunAtMostOne(n: I32)
    requires n <= 1
    ensures Run(n) == Length(1)
  {
  }

  /** An even step strictly shrinks a value above 1 and keeps it positive. */
  lemma EvenStepShrinks(n: I32)
    requires n > 1 && n % 2 == 0
    ensures 1 <= Step(n) < n
  {
  }

  /** An odd step strictly grows the value and keeps it odd. */
  lemma OddStepGrows(n: I32)
    requires n > 1 && n % 2 == 1 && StepFits(n)
    ensures Step(n) % 2 == 1 && Step(n) > n
  {
  }

  /** From an odd value above 1 the run never comes back to 1: it ends in overflow at an odd value. */
  lemma {:induction false} OddRunOverflows(n: I32)
    requires n > 1 && n % 2 == 1
    ensures Run(n).Overflow? && Run(n).at % 2 == 1 && Run(n).at >= n && !StepFits(Run(n).at)
    decreases I32_MAX - n
  {
    if StepFits(n) {
      OddRunOverflows(Step(n));
    }
  }

  /** For n == 2^k the loop ends and returns k + 1. */
  lemma {:induction false} RunOfPowerOfTwo(n: I32, k: nat)
    requires n == Pow2(k)
    ensures Run(n) == Length(k + 1)
  {
    if k > 0 {
      RunOfPowerOfTwo(n / 2, k - 1);
    }
  }

  /** Pow2 gives exactly the powers of two. */
  lemma {:induction false} Pow2IsPowerOfTwo(k: nat)
    ensures IsPowerOfTwo(Pow2(k))
  {
    if k > 0 {
      Pow2IsPowerOfTwo(k - 1);
      assert Pow2(k) / 2 == Pow2(k - 1);
    }
  }

  /** The loop ends without overflow exactly when the start value is at most 1 or a power of two. */
  lemma {:induction false} RunEndsIff(n: I32)
    ensures Run(n).Length? <==> n <= 1 || IsPowerOfTwo(n)
    decreases if n < 0 then 0 else n
  {
    if n > 1 {
      if n % 2 == 0 {
        RunEndsIff(n / 2);
      } else {
        OddRunOverflows(n);
      }
    }
  }

  /** A run from n > 1 that ends normally with count c started at n == 2^(c-1): the count is log2(n) + 1. */
  lemma {:induction false} NormalRunIsPow2(n: I32, c: nat)
    requires n > 1 && Run(n) == Length(c)
    ensures c >= 2 && n == Pow2(c - 1)
    decreases n
  {
    if n % 2 == 0 {
      if n / 2 > 1 {
        NormalRunIsPow2(n / 2, c - 1);
      }
    } else {
      OddRunOverflows(n);
    }
  }

  lemma {:induction false} Pow2Monotone(k: nat, l: nat)
    ensures k <= l ==> Pow2(k) <= Pow2(l)
    decreases l
  {
    if k < l {
      Pow2Monotone(k, l - 1);
    }
  }

  /** A run that ends normally from n >= 2 visits c values with 2^(c-1) <= n. */
  lemma {:induction false} RunCountBelowLog(n: I32, c: nat)
    requires Run(n) == Length(c)
    ensures c == 1 || Pow2(c - 1) <= n
    decreases if n < 0 then 0 else n
  {
    if n > 1 {
      if n % 2 == 0 {
        RunCountBelowLog(n / 2, c - 1);
      } else {
        OddRunOverflows(n);
      }
    }
  }

  /** The count of a normal run is at most 31, far inside `u32`, so the counter never overflows. */
  lemma RunCountBound(n: I32)
    requires Run(n).Length?
    ensures 1 <= Run(n).count <= 31
  {
    var c := Run(n).count;
    RunCountBelowLog(n, c);
    Pow2Monotone(31, c - 1);
    Pow2Of31();
  }

  lemma Pow2Of31()
    ensures Pow2(31) == 0x8000_0000
  {
    assert Pow2(8) == 0x100;
    assert Pow2(16) == 0x1_0000;
    assert Pow2(24) == 0x100_0000;
  }

  /** What the method promises, collected from the lemmas above. */
  lemma RunProperties(n: I32)
    ensures Run(n).Length? <==> n <= 1 || IsPowerOfTwo(n)
    ensures Run(n).Length? ==> 1 <= Run(n).count <= 31
    ensures Run(n).Length? ==> (n <= 1 && Run(n).count == 1) || n == Pow2(Run(n).count - 1)
    ensures Run(n).Overflow? ==> Run(n).at > 1 && !StepFits(Run(n).at)
    decreases if n < 0 then 0 else n
  {
    RunEndsIff(n);
    if Run(n).Length? {
      RunCountBound(n);
      if n > 1 {
        NormalRunIsPow2(n, Run(n).count);
      }
    }
    if n > 1 {
      if n % 2 == 0 {
        RunProperties(n / 2);
      } else {
        OddRunOverflows(n);
      }
    }
  }

  /** The start value of the source's entry point overflows under the rule the code applies. */
  lemma ElevenOverflows()
    ensures Run(11).Overflow?
  {
    OddRunOverflows(11);
  }

  // The rule of the source's comment: an odd n becomes 3n + 1.

  predicate CanonicalStepFits(n: int) {
    n % 2 == 0 || 3 * n + 1 <= I32_MAX
  }

  function CanonicalStep(n: I32): (r: I32)
    requires n > 1 && CanonicalStepFits(n)
  {
    if n % 2 == 0 then n / 2 else 3 * n + 1
  }

  /**
   The run under the 3n + 1 rule, with at most `fuel` steps: whether every
   start value reaches 1 is the open Collatz conjecture, so None stands for
   "not finished within fuel steps".
   */
  function CanonicalRun(n: I32, fuel: nat): (r: Option<Outcome>)
    decreases fuel
  {
    if n <= 1 then Some(Length(1))
    else if !CanonicalStepFits(n) then Some(Overflow(n))
    else if fuel == 0 then None
    else
      match CanonicalRun(CanonicalStep(n), fuel - 1)
      case None => None
      case Some(o) => Some(Shift(o, 1))
  }

  /** Under the 3n + 1 rule an even step shrinks the value and an odd step grows it. */
  lemma CanonicalStepDirection(n: I32)
    requires n > 1 && CanonicalStepFits(n)
    ensures n % 2 == 0 ==> 1 <= CanonicalStep(n) < n
    ensures n % 2 == 1 ==> CanonicalStep(n) > n && CanonicalStep(n) % 2 == 0
  {
  }

  /** More fuel never changes a finished run. */
  lemma {:induction false} CanonicalFuelMonotone(n: I32, f: nat, g: nat)
    requires f <= g && CanonicalRun(n, f).Some?
    ensures CanonicalRun(n, g) == CanonicalRun(n, f)
    decreases f
  {
    if n > 1 && CanonicalStepFits(n) {
      CanonicalFuelMonotone(CanonicalStep(n), f - 1, g - 1);
    }
  }

  /** Under the 3n + 1 rule, 11 visits 15 values, as the entry point's comment expects. */
  lemma CanonicalElevenIs15()
    ensures CanonicalRun(11, 14) == Some(Length(15))
  {
    // 11, 34, 17, 52, 26, 13, 40, 20, 10, 5, 16, 8, 4, 2, 1
    assert CanonicalRun(1, 0) == Some(Length(1));
    assert CanonicalRun(2, 1) == Some(Length(2));
    assert CanonicalRun(4, 2) == Some(Length(3));
    assert CanonicalRun(8, 3) == Some(Length(4));
    assert CanonicalRun(16, 4) == Some(Length(5));
    assert CanonicalRun(5, 5) == Some(Length(6));
    assert CanonicalRun(10, 6) == Some(Length(7));
    assert CanonicalRun(20, 7) == Some(Length(8));
    assert CanonicalRun(40, 8) == Some(Length(9));
    assert CanonicalRun(13, 9) == Some(Length(10));
    assert CanonicalRun(26, 10) == Some(Length(11));
    assert CanonicalRun(52, 11) == Some(Length(12));
    assert CanonicalRun(17, 12) == Some(Length(13));
    assert CanonicalRun(34, 13) == Some(Length(14));
  }

  /** On powers of two both rules only halve, so they give the same result. */
  lemma {:induction false} RulesAgreeOnPowersOfTwo(n: I32, fuel: nat)
    requires IsPowerOfTwo(n) && fuel >= n
    ensures CanonicalRun(n, fuel) == Some(Run(n))
    decreases n
  {
    if n > 1 {
      RulesAgreeOnPowersOfTwo(n / 2, fuel - 1);
    }
  }
}
