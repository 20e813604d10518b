/** The integer part of the size-series computation: the argument guard and
    the rounding of each raw step. The raw steps, which the source obtains by
    truncating `exp` of an interpolated logarithm, are given as a sequence. */
module Analyzer {
  import opened Sorter

  /** Whether the series cannot be computed: a negative lower bound, an upper
      bound below 1, no steps, or bounds in the wrong order. The arguments
      are valid exactly when they describe a non-empty interval of sizes
      within the naturals that reaches at least 1, and at least one step is
      asked for. */
  function InvalidArguments(minLength: int, maxLength: int, stepsCount: int): (invalid: bool)
    ensures !invalid <==> 0 <= minLength <= maxLength && 1 <= maxLength && 1 <= stepsCount
  {
    minLength < 0 || maxLength < 1 || stepsCount < 1 || minLength > maxLength
  }

  /** Java's `Math.round(n / (double) d)` for a positive `d`: the quotient
      rounded to the nearest whole number, halves rounded up. */
  function RoundDiv(n: int, d: int): (q: int)
    requires d > 0
    ensures d * q - d <= 2 * n - d * q < d * q + d
  {
    (2 * n + d) / (2 * d)
  }

  /** One raw step as stored: above 1000 the nearest multiple of 100, above
      100 the nearest multiple of 10, otherwise unchanged; halves round up. */
  function RoundStep(step: int): (r: int)
    ensures step <= 100 ==> r == step
    ensures 100 < step <= 1000 ==> r % 10 == 0 && step - 5 < r <= step + 5
    ensures 1000 < step ==> r % 100 == 0 && step - 50 < r <= step + 50
  {
    if step > 100 then
      if step > 1000 then RoundDiv(step, 100) * 100 else RoundDiv(step, 10) * 10
    else step
  }

  /** Every raw step rounded: one stored step per raw step, kept up to 100,
      a multiple of 10 up to 1000 and a multiple of 100 above. */
  function RoundedSteps(raw: seq<int>): (steps: seq<int>)
    ensures |steps| == |raw|
    ensures forall k :: 0 <= k < |raw| && raw[k] <= 100 ==> steps[k] == raw[k]
    ensures forall k :: 0 <= k < |raw| && 100 < raw[k] <= 1000 ==> steps[k] % 10 == 0
    ensures forall k :: 0 <= k < |raw| && 1000 < raw[k] ==> steps[k] % 100 == 0
  {
    seq(|raw|, k requires 0 <= k < |raw| => RoundStep(raw[k]))
  }

  /** A multiple of 10 (or of 100) within a half-open window of that width
      is the only one there. */
  lemma UniqueMultiple(m: int, a: int, b: int, lo: int)
    requires (m == 10 || m == 100) && a % m == 0 && b % m == 0
    requires lo < a <= lo + m && lo < b <= lo + m
    ensures a == b
  {
    var qa, qb := a / m, b / m;
    if m == 10 {
      assert a == 10 * qa && b == 10 * qb;
      assert -10 < 10 * (qa - qb) < 10;
    } else {
      assert a == 100 * qa && b == 100 * qb;
      assert -100 < 100 * (qa - qb) < 100;
    }
  }

  /** Rounding never reverses the order of two steps, so an ascending series
      of raw steps stays ascending. */
  lemma RoundStepMonotone(a: int, b: int)
    requires a <= b
    ensures RoundStep(a) <= RoundStep(b)
  {
    var ra, rb := RoundStep(a), RoundStep(b);
    if 100 < a && b <= 1000 {
      assert ra == RoundDiv(a, 10) * 10 && rb == RoundDiv(b, 10) * 10;
      assert (2 * a + 10) / 20 <= (2 * b + 10) / 20;
    } else if 1000 < a {
      assert ra == RoundDiv(a, 100) * 100 && rb == RoundDiv(b, 100) * 100;
      assert (2 * a + 100) / 200 <= (2 * b + 100) / 200;
    } else if 100 < a && 1000 < b {
      assert ra <= 1000 by {
        assert ra % 10 == 0 && ra <= 1005;
      }
      assert 1000 <= rb by {
        assert rb % 100 == 0 && 950 < rb;
      }
    } else if a <= 100 < b {
      assert 100 <= rb by {
        assert rb % 10 == 0 && 95 < rb;
      }
    }
  }

  /** A stored step is left as it is by a second rounding. */
  lemma RoundStepIdempotent(step: int)
    ensures RoundStep(RoundStep(step)) == RoundStep(step)
  {
    var r := RoundStep(step);
    if 1000 < step {
      assert 1000 <= r by {
        assert r % 100 == 0 && 950 < r;
      }
      if r > 1000 {
        UniqueMultiple(100, RoundStep(r), r, r - 50);
      }
    } else if 100 < step {
      assert 100 <= r <= 1000 by {
        assert r % 10 == 0 && 95 < r <= 1005;
      }
      if r > 100 {
        UniqueMultiple(10, RoundStep(r), r, r - 5);
      }
    }
  }

  /** A raw step in the range of a Java `int` stays in that range when
      rounded, so the `int` multiplication in the source cannot overflow. */
  lemma RoundStepFitsInt(step: int)
    requires 0 <= step <= 0x7fff_ffff
    ensures 0 <= RoundStep(step) <= 0x7fff_ffff
  {
    if step > 1000 {
      var q := RoundDiv(step, 100);
      assert q <= 21474836 by {
        assert 100 * q <= 2 * step - 100 * q + 100 <= 0x7fff_ffff * 2 - 100 * q + 100;
      }
    }
  }

  /** Rounding an ascending series of raw steps gives an ascending series. */
  lemma RoundedStepsAscending(raw: seq<int>)
    requires Sorted(raw)
    ensures Sorted(RoundedSteps(raw))
  {
    forall a, b | 0 <= a < b < |raw|
      ensures RoundedSteps(raw)[a] <= RoundedSteps(raw)[b]
    {
      RoundStepMonotone(raw[a], raw[b]);
    }
  }

  /** How the computation ends: with the series stored, or with the
      invalid-argument exception and its message. */
  datatype Outcome = Success | Failure(message: string)

  class Analyzer {
    /** The series of array sizes; null until one has been computed. */
    var lengthSteps: array?<int>

    constructor ()
      ensures lengthSteps == null
    {
      lengthSteps := null;
    }

    /** Rejects invalid bounds; otherwise stores one rounded step per raw
        step, `stepsCount` of them. */
    method CalcStepsOnInterval(minLength: int, maxLength: int, stepsCount: int, rawSteps: seq<int>)
      returns (outcome: Outcome)
      requires !InvalidArguments(minLength, maxLength, stepsCount) ==> |rawSteps| == stepsCount
      modifies this
      ensures outcome.Failure? <==> InvalidArguments(minLength, maxLength, stepsCount)
      ensures outcome.Failure? ==> outcome.message == "One or more arguments are invalid"
      ensures outcome.Failure? ==> lengthSteps == old(lengthSteps)
      ensures outcome.Success? ==> lengthSteps != null && fresh(lengthSteps)
      ensures outcome.Success? ==> lengthSteps.Length == stepsCount && lengthSteps[..] == RoundedSteps(rawSteps)
    {
      if minLength < 0 || maxLength < 1 || stepsCount < 1 || minLength > maxLength {
        return Failure("One or more arguments are invalid");
      }
      var result := new int[stepsCount];
      for i := 0 to result.Length
        invariant forall k :: 0 <= k < i ==> result[k] == RoundStep(rawSteps[k])
      {
        var step := rawSteps[i];
        if step > 100 {
          if step > 1000 {
            step := RoundDiv(step, 100) * 100;
          } else {
            step := RoundDiv(step, 10) * 10;
          }
        }
        result[i] := step;
      }
      lengthSteps := result;
      return Success;
    }
  }
}
