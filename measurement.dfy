/** The measurement loop of gov_bench.c's main: run the workload, read the
    clock, store {time offset, frequency}, accumulate the offset, until an add
    fails. The workload (x86 assembly whose only effect is elapsed time) is a
    no-op here, and the clock is an input, the sequence of its readings:
    `clock[0]` is the reading taken before the loop and `clock[k + 1]` the one
    taken in round k. */
module Measurement {
  import opened Uint64
  import opened Clock
  import opened Frequency
  import opened Buffer

  /** The time_delta computed in round k. */
  function StepDelta(clock: seq<Timespec>, k: nat): U64
    requires k + 1 < |clock|
  {
    Delta(clock[k + 1], clock[k])
  }

  /** There is a reading for each of the first `rounds` rounds, and each
      round sees the clock move, so cpu_freq never divides by zero. */
  predicate ClockAdvances(clock: seq<Timespec>, rounds: nat) {
    rounds < |clock| && forall k :: 0 <= k < rounds ==> StepDelta(clock, k) != 0
  }

  /** The value of time_offset at the start of round k: the running uint64_t
      sum of the earlier rounds' deltas. */
  function Offset(clock: seq<Timespec>, k: nat): U64
    requires k < |clock|
  {
    if k == 0 then 0 else Add(Offset(clock, k - 1), StepDelta(clock, k - 1))
  }

  /** The unreduced sum of the first k deltas. */
  function DeltaSum(clock: seq<Timespec>, k: nat): int
    requires k < |clock|
  {
    if k == 0 then 0 else DeltaSum(clock, k - 1) + StepDelta(clock, k - 1)
  }

  /** The entry built in round k. */
  function Sample(clock: seq<Timespec>, loopIterations: U64, k: nat): Entry
    requires k + 1 < |clock| && StepDelta(clock, k) != 0
  {
    Entry(Offset(clock, k), CpuFreq(StepDelta(clock, k), loopIterations))
  }

  /** The entries of the first n rounds, in order. */
  function Samples(clock: seq<Timespec>, loopIterations: U64, n: nat): (samples: seq<Entry>)
    requires ClockAdvances(clock, n)
    ensures |samples| == n
  {
    if n == 0 then [] else Samples(clock, loopIterations, n - 1) + [Sample(clock, loopIterations, n - 1)]
  }

  /** Lines 130-147 with the buffer of lines 111-112, followed by the reading
      entry_buffer_print does (the stored entries, in order) and destroy.
      `rounds` counts the executions of the loop body. */
  method Measure(entryCount: U64, loopIterations: U64, clock: seq<Timespec>)
    returns (samples: seq<Entry>, rounds: nat)
    requires ClockAdvances(clock, entryCount + 1)
    ensures rounds == entryCount + 1
    ensures |samples| == entryCount
    ensures samples == Samples(clock, loopIterations, entryCount)
  {
    var buffer := new EntryBuffer.Create(entryCount);
    var prevTime := clock[0];
    var timeOffset: U64 := 0;
    var doContinue := true;
    rounds := 0;
    while doContinue
      invariant buffer.Valid() && buffer.entryArray != null && fresh(buffer.entryArray)
      invariant buffer.entryCount == entryCount
      invariant rounds <= entryCount + 1
      invariant doContinue ==> rounds == buffer.entryIndex
      invariant !doContinue ==> rounds == entryCount + 1 && buffer.entryIndex == entryCount
      invariant prevTime == clock[rounds]
      invariant timeOffset == Offset(clock, rounds)
      invariant buffer.Entries() == Samples(clock, loopIterations, buffer.entryIndex)
      decreases entryCount + 1 - rounds
    {
      var currTime := clock[rounds + 1];
      var delta := TimeDelta(currTime, prevTime);
      assert delta == StepDelta(clock, rounds) != 0;
      var entry := Entry(timeOffset, CpuFreq(delta, loopIterations));
      assert entry == Sample(clock, loopIterations, rounds);
      doContinue := buffer.Add(entry);
      timeOffset := Add(timeOffset, delta);
      prevTime := currTime;
      rounds := rounds + 1;
    }
    samples := buffer.entryArray[..buffer.entryIndex];
    buffer.Destroy();
  }

  /** Entry k of the stored sequence is the sample of round k. */
  lemma {:induction false} SamplesAt(clock: seq<Timespec>, loopIterations: U64, n: nat, k: nat)
    requires ClockAdvances(clock, n) && k < n
    ensures Samples(clock, loopIterations, n)[k] == Sample(clock, loopIterations, k)
  {
    var earlier := Samples(clock, loopIterations, n - 1);
    assert Samples(clock, loopIterations, n) == earlier + [Sample(clock, loopIterations, n - 1)];
    if k < n - 1 {
      SamplesAt(clock, loopIterations, n - 1, k);
    }
  }

  /** The stored offset of round k is the sum of the first k deltas modulo
      2^64 (0 for the first entry). */
  lemma {:induction false} OffsetIsPrefixSum(clock: seq<Timespec>, k: nat)
    requires k < |clock|
    ensures Offset(clock, k) == Wrap(DeltaSum(clock, k))
  {
    if k > 0 {
      OffsetIsPrefixSum(clock, k - 1);
      AddToReduced(Offset(clock, k - 1), DeltaSum(clock, k - 1), StepDelta(clock, k - 1));
    }
  }

  /** The stored offset of round k is the time from the first clock reading to
      the k-th, modulo 2^64: the per-round deltas telescope. */
  lemma {:induction false} OffsetIsElapsed(clock: seq<Timespec>, k: nat)
    requires k < |clock|
    ensures Offset(clock, k) == Delta(clock[k], clock[0])
  {
    if k > 0 {
      var earlier, last := Delta(clock[k - 1], clock[0]), StepDelta(clock, k - 1);
      calc {
        Offset(clock, k);
        Add(Offset(clock, k - 1), last);
        { OffsetIsElapsed(clock, k - 1); }
        Add(earlier, last);
        Add(last, earlier);
        { DeltaChain(clock[0], clock[k - 1], clock[k]); }
        Delta(clock[k], clock[0]);
      }
    }
  }

  /** What the entry stored in round k holds: as time offset the first k
      deltas summed modulo 2^64, which is also the time between the first
      and the k-th clock reading modulo 2^64; as frequency cpu_freq of round
      k's delta. */
  lemma StoredEntry(clock: seq<Timespec>, loopIterations: U64, n: nat, k: nat)
    requires ClockAdvances(clock, n) && k < n
    ensures |Samples(clock, loopIterations, n)| == n
    ensures Samples(clock, loopIterations, n)[k].timeNsec == Wrap(DeltaSum(clock, k))
    ensures Samples(clock, loopIterations, n)[k].timeNsec == Delta(clock[k], clock[0])
    ensures Samples(clock, loopIterations, n)[k].freqHz == CpuFreq(StepDelta(clock, k), loopIterations)
  {
    SamplesAt(clock, loopIterations, n, k);
    OffsetIsPrefixSum(clock, k);
    OffsetIsElapsed(clock, k);
  }

  /** The clock never runs backwards over the first n readings. */
  predicate Monotone(clock: seq<Timespec>, n: nat) {
    n < |clock| && forall k :: 0 <= k < n ==> Nanos(clock[k]) <= Nanos(clock[k + 1])
  }

  lemma {:induction false} MonotoneSpan(clock: seq<Timespec>, n: nat, j: nat, k: nat)
    requires Monotone(clock, n) && j <= k <= n
    ensures Nanos(clock[j]) <= Nanos(clock[k])
  {
    if j < k {
      MonotoneSpan(clock, n, j, k - 1);
    }
  }

  /** With a monotonic clock and a run shorter than 2^64 ns, each offset is
      the exact elapsed time and offsets never decrease. */
  lemma OffsetsNonDecreasing(clock: seq<Timespec>, n: nat, j: nat, k: nat)
    requires Monotone(clock, n) && Nanos(clock[n]) - Nanos(clock[0]) < MODULUS
    requires j <= k <= n
    ensures Offset(clock, k) == Nanos(clock[k]) - Nanos(clock[0])
    ensures Offset(clock, j) <= Offset(clock, k)
  {
    MonotoneSpan(clock, n, 0, j);
    MonotoneSpan(clock, n, j, k);
    MonotoneSpan(clock, n, k, n);
    OffsetIsElapsed(clock, j);
    OffsetIsElapsed(clock, k);
  }

  /** If moreover every round's delta is non-zero, as cpu_freq needs, the
      stored offsets strictly increase. */
  lemma OffsetsIncreasing(clock: seq<Timespec>, n: nat, j: nat, k: nat)
    requires Monotone(clock, n) && ClockAdvances(clock, n)
    requires Nanos(clock[n]) - Nanos(clock[0]) < MODULUS
    requires j < k <= n
    ensures Offset(clock, j) < Offset(clock, k)
  {
    OffsetsNonDecreasing(clock, n, j, k - 1);
    OffsetsNonDecreasing(clock, n, k - 1, k);
    assert StepDelta(clock, k - 1) != 0;
  }
}
