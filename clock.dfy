/** Timestamps of the monotonic clock and the nanosecond difference of two of
    them (gov_bench.c, time_delta). Reading the clock itself is an effect of
    the operating system and is not modelled here: readings are inputs. */
module Clock {
  import opened Uint64

  /** ONE_SEC: nanoseconds per second. */
  const ONE_SEC: U64 := 1_000_000_000

  /** struct timespec on x86-64: tv_sec is a time_t, tv_nsec a long. */
  datatype Timespec = Timespec(sec: I64, nsec: I64)

  /** The instant a timestamp denotes, as a count of nanoseconds: tv_sec
      seconds of ONE_SEC nanoseconds each, plus tv_nsec. */
  function Nanos(t: Timespec): int {
    t.sec * 1_000_000_000 + t.nsec
  }

  /** The clock keeps tv_nsec within one second. */
  predicate Normalized(t: Timespec) {
    0 <= t.nsec < ONE_SEC
  }

  /** `a` is at or after `b`, read field by field. */
  predicate NotBefore(a: Timespec, b: Timespec) {
    a.sec > b.sec || (a.sec == b.sec && a.nsec >= b.nsec)
  }

  /** The value time_delta(a, b) returns: the nanoseconds from `b` to `a`,
      reduced modulo 2^64 (TimeDelta shows the statements compute this). */
  function Delta(a: Timespec, b: Timespec): (r: U64)
    ensures a == b ==> r == 0
    ensures 0 <= Nanos(a) - Nanos(b) < MODULUS ==> r == Nanos(a) - Nanos(b)
  {
    Wrap(Nanos(a) - Nanos(b))
  }

  /** time_delta: a uint64_t accumulator updated one C statement at a time;
      each signed field is converted to uint64_t before it is combined. */
  method TimeDelta(a: Timespec, b: Timespec) returns (result: U64)
    ensures result == Delta(a, b)
  {
    ghost var scaled := (a.sec - b.sec) * ONE_SEC;
    result := 0;
    result := Add(result, Wrap(a.sec));
    assert result == Wrap(a.sec);
    result := Sub(result, Wrap(b.sec));
    WrapSub(a.sec, b.sec);
    assert result == Wrap(a.sec - b.sec);
    result := Mul(result, ONE_SEC);
    WrapMul(a.sec - b.sec, ONE_SEC);
    assert result == Wrap(scaled);
    result := Add(result, Wrap(a.nsec));
    WrapAdd(scaled, a.nsec);
    assert result == Wrap(scaled + a.nsec);
    result := Sub(result, Wrap(b.nsec));
    WrapSub(scaled + a.nsec, b.nsec);
    DeltaByFields(a, b);
  }

  /** The same difference, grouped as time_delta's statements group it. */
  lemma DeltaByFields(a: Timespec, b: Timespec)
    ensures Delta(a, b) == Wrap((a.sec - b.sec) * ONE_SEC + a.nsec - b.nsec)
  {
    assert Nanos(a) - Nanos(b) == (a.sec - b.sec) * ONE_SEC + a.nsec - b.nsec;
  }

  /** For normalized timestamps, comparing the fields agrees with comparing
      the instants. */
  lemma NotBeforeIffLater(a: Timespec, b: Timespec)
    requires Normalized(a) && Normalized(b)
    ensures NotBefore(a, b) <==> Nanos(a) >= Nanos(b)
  {
  }

  /** When `a` is at or after `b` and the difference fits in 64 bits, the
      result is the exact difference in nanoseconds. */
  lemma DeltaExact(a: Timespec, b: Timespec)
    requires Normalized(a) && Normalized(b) && NotBefore(a, b)
    requires (a.sec - b.sec) * ONE_SEC + a.nsec - b.nsec < MODULUS
    ensures Delta(a, b) == (a.sec - b.sec) * ONE_SEC + a.nsec - b.nsec
  {
    NotBeforeIffLater(a, b);
  }

  /** There is no underflow guard: an `a` earlier than `b` yields 2^64 minus
      the true distance. */
  lemma DeltaWrapsWhenEarlier(a: Timespec, b: Timespec)
    requires 0 < Nanos(b) - Nanos(a) < MODULUS
    ensures Delta(a, b) == MODULUS - (Nanos(b) - Nanos(a))
  {
    ModUnique(Nanos(a) - Nanos(b), -1, MODULUS - (Nanos(b) - Nanos(a)));
  }

  /** Consecutive differences add up, modulo 2^64, to the difference across
      the whole span. */
  lemma DeltaChain(a: Timespec, b: Timespec, c: Timespec)
    ensures Add(Delta(c, b), Delta(b, a)) == Delta(c, a)
  {
    WrapAdd(Nanos(c) - Nanos(b), Nanos(b) - Nanos(a));
  }

  /** Swapping the arguments negates the result modulo 2^64. */
  lemma DeltaSwap(a: Timespec, b: Timespec)
    ensures Add(Delta(a, b), Delta(b, a)) == 0
  {
    DeltaChain(a, b, a);
  }
}
