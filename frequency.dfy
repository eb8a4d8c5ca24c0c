/** Frequency inference (gov_bench.c, cpu_freq): the iteration count scaled to
    one second, divided by the elapsed nanoseconds, in uint64_t. */
module Frequency {
  import opened Uint64
  import opened Clock

  /** cpu_freq(delta, loop_iterations). The product wraps modulo 2^64 and the
      division truncates; the source divides by `delta` unguarded, so a zero
      delta is excluded here. */
  function CpuFreq(delta: U64, loopIterations: U64): U64
    requires delta != 0
  {
    Mul(loopIterations, ONE_SEC) / delta
  }

  /** Truncating division brackets its dividend. */
  lemma DivBrackets(n: nat, d: nat)
    requires d > 0
    ensures (n / d) * d <= n < (n / d + 1) * d
  {
    assert n == (n / d) * d + n % d;
    assert (n / d + 1) * d == (n / d) * d + d;
  }

  /** The result is the truncated quotient: the largest r with r * delta not
      above the wrapped product. */
  lemma CpuFreqTruncates(delta: U64, loopIterations: U64)
    requires delta != 0
    ensures var r := CpuFreq(delta, loopIterations);
      r * delta <= Mul(loopIterations, ONE_SEC) < (r + 1) * delta
  {
    DivBrackets(Mul(loopIterations, ONE_SEC), delta);
  }

  /** A non-negative factor keeps a non-strict inequality. */
  lemma MulMonotone(q: nat, a: nat, b: nat)
    requires a <= b
    ensures q * a <= q * b
  {
  }

  /** A positive factor can be cancelled from a strict inequality. */
  lemma CancelFactor(a: int, b: int, c: int)
    requires c > 0 && a * c < b * c
    ensures a < b
  {
  }

  /** Dividing the same amount by a larger divisor never gives more. */
  lemma QuotientAntitone(n: nat, shorter: nat, longer: nat)
    requires 0 < shorter <= longer
    ensures n / longer <= n / shorter
  {
    var slow, fast := n / longer, n / shorter;
    DivBrackets(n, longer);
    DivBrackets(n, shorter);
    MulMonotone(slow, shorter, longer);
    assert slow * shorter < (fast + 1) * shorter;
    CancelFactor(slow, fast + 1, shorter);
  }

  /** A longer measured time never yields a higher frequency. */
  lemma CpuFreqNonIncreasing(shorter: U64, longer: U64, loopIterations: U64)
    requires 0 < shorter <= longer
    ensures CpuFreq(longer, loopIterations) <= CpuFreq(shorter, loopIterations)
  {
    QuotientAntitone(Mul(loopIterations, ONE_SEC), shorter, longer);
  }

  /** Below 2^64 / 10^9 iterations the product does not wrap and the result is
      the mathematical quotient. */
  lemma CpuFreqWithoutWrap(delta: U64, loopIterations: U64)
    requires delta != 0 && loopIterations * ONE_SEC < MODULUS
    ensures CpuFreq(delta, loopIterations) == (loopIterations * ONE_SEC) / delta
  {
  }

  /** From 18446744074 iterations on the product wraps: that count over one
      nanosecond reports 290448384 Hz instead of 18446744074 * 10^9 Hz. */
  lemma CpuFreqWraps()
    ensures CpuFreq(1, 18_446_744_074) == 290_448_384 == 18_446_744_074 * ONE_SEC - MODULUS
  {
  }
}
