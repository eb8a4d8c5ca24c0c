# gov_bench: a verified model of the CPU-governor benchmark

gov_bench measures how a CPU's frequency governor reacts to sustained load.
It repeatedly runs a fixed-length busy loop, reads a monotonic clock after
each run, and infers a frequency from the elapsed nanoseconds. Each
`{time offset, frequency}` sample goes into a fixed-capacity buffer, and the
program stops at the first add that finds the buffer full.

This project models the integer core of `gov_bench.c` in Dafny and proves
properties of it:

- `uint64.dfy`, module `Uint64`: uint64_t arithmetic as C performs it. Every
  `+`, `-` and `*` is reduced modulo 2^64, and signed values convert by the
  same reduction. `U64` and `I64` are the 64-bit ranges of x86-64.
- `clock.dfy`, module `Clock`: `struct timespec` and `time_delta`. The
  source's accumulator is the method `TimeDelta`, which is proved equal to
  the closed form `Delta`.
- `frequency.dfy`, module `Frequency`: `cpu_freq`.
- `number_parser.dfy`, module `NumberParser`: `parse_number` over the bytes
  of a NUL-terminated C string. The method `ParseNumber` is proved equal to
  the fold `Parse`, and `Parse` is related to the positional base-ten value
  `Positional`.
- `entry_buffer.dfy`, module `Buffer`: `entry_t` as the datatype `Entry`, and
  `entry_buffer_t` as the class `EntryBuffer`. The class holds an array and
  a fill index that `Add` updates in place.
- `measurement.dfy`, module `Measurement`: the measurement loop of `main`.
  `Measure` creates the buffer and runs the loop until an add fails. It then
  returns the stored entries, which are what `entry_buffer_print` iterates
  over, and destroys the buffer. The clock is a parameter
  `clock: seq<Timespec>`, the sequence of its readings: `clock[0]` is taken
  before the loop, and `clock[k + 1]` is taken in round k.

Where the tool's documented design and `gov_bench.c` differ, the model
follows the code:

- `cpu_freq` does not multiply by a cycles-per-iteration constant.
- `cpu_freq` has no zero-delta guard.
- With a sample count of 0, the loop body still runs once: `Measure` gives
  `rounds == 1`.
- After `entry_buffer_destroy` the buffer is not unusable. Both counters are
  0, so every later add fails (`Destroy`, then `Add`).

## Model

| member | source | states |
|---|---|---|
| Uint64.Wrap | gov_bench.c:64-68 | Converting an integer to uint64_t keeps a value already in [0, 2^64). Otherwise it changes the value by a multiple of 2^64. This includes a negative time_t or long field. |
| Uint64.WrapAdd | gov_bench.c:64 | A uint64_t sum of two converted operands is their exact sum reduced once modulo 2^64. |
| Uint64.WrapSub | gov_bench.c:65 | A uint64_t difference of two converted operands is their exact difference reduced once modulo 2^64. A negative difference wraps. |
| Uint64.WrapMul | gov_bench.c:66 | A uint64_t product of two converted operands is their exact product reduced once modulo 2^64. |
| Clock.Delta | gov_bench.c:62-70 | time_delta of a timestamp with itself is 0. When the distance from b to a is in [0, 2^64) nanoseconds, the result is exactly that distance. |
| Clock.DeltaByFields | gov_bench.c:64-68 | The instant difference equals, modulo 2^64, the source's grouping: seconds difference times 10^9, plus a.nsec, minus b.nsec. |
| Clock.TimeDelta | gov_bench.c:62-70 | The five in-place updates of the accumulator end at ((a.sec - b.sec) * 10^9 + a.nsec - b.nsec) mod 2^64, with each signed field converted first. |
| Clock.NotBeforeIffLater | gov_bench.c:62-70 | For timestamps with tv_nsec in [0, 10^9), "a.sec > b.sec, or equal seconds and a.nsec >= b.nsec" holds exactly when a's instant is at or after b's. |
| Clock.DeltaExact | gov_bench.c:62-70 | Take normalized timestamps with a at or after b, whose distance fits in 64 bits. Then time_delta is (a.sec - b.sec) * 10^9 + a.nsec - b.nsec. |
| Clock.DeltaWrapsWhenEarlier | gov_bench.c:62-70 | There is no underflow check: if a is d > 0 ns earlier than b, time_delta(a, b) is 2^64 - d. |
| Clock.DeltaChain | gov_bench.c:62-70 | time_delta(c, b) + time_delta(b, a) in uint64_t equals time_delta(c, a), for any three timestamps. |
| Clock.DeltaSwap | gov_bench.c:62-70 | time_delta(a, b) + time_delta(b, a) is 0 in uint64_t: swapping the arguments negates the result modulo 2^64. |
| Frequency.CpuFreqTruncates | gov_bench.c:73-75 | For delta != 0, the result r of cpu_freq is the truncated quotient: r * delta <= (iterations * 10^9 mod 2^64) < (r + 1) * delta. |
| Frequency.CpuFreqNonIncreasing | gov_bench.c:73-75 | For fixed iterations, a longer delta never gives a higher frequency. |
| Frequency.CpuFreqWithoutWrap | gov_bench.c:73-75 | When iterations * 10^9 is below 2^64, the result is (iterations * 10^9) / delta with no wrap. |
| Frequency.CpuFreqWraps | gov_bench.c:73-75 | The product wraps with no guard: 18446744074 iterations over 1 ns give 290448384 Hz. |
| NumberParser.CharValue | gov_bench.c:82 | A byte read as plain (signed) char keeps values below 0x80. Higher values read as the byte minus 256. |
| NumberParser.CStringLength | gov_bench.c:80 | The loop's stopping index is the first NUL: it is a NUL, and no earlier byte is. |
| NumberParser.ParseNumber | gov_bench.c:78-85 | The loop over the string returns the uint64_t fold Parse of the bytes before the NUL. |
| NumberParser.ParseAppend | gov_bench.c:81-82 | Appending a byte c gives (parse(s) * 10 + (c - '0')) mod 2^64. |
| NumberParser.ParseIsPositional | gov_bench.c:78-85 | For every byte string, digit or not, the result is the positional base-ten value Σ (c_i - '0') * 10^(n-1-i) reduced modulo 2^64. No byte is rejected. |
| NumberParser.DigitsBounded | gov_bench.c:78-85 | An all-digit string of n bytes has a positional value in [0, 10^n). |
| NumberParser.DecimalValue | gov_bench.c:78-85 | An all-digit string parses to its decimal value modulo 2^64. With at most 19 digits it parses to its exact decimal value. |
| NumberParser.ParseEmpty | gov_bench.c:79-84 | The empty string (a NUL first) parses to 0. |
| NumberParser.MinusOneIsNotRejected | gov_bench.c:82 | Non-digits are folded in as c - '0': "-1" parses to 2^64 - 29. |
| Buffer.EntryBuffer.Create | gov_bench.c:23-27 | entry_count is the requested capacity and entry_index is 0. New storage holds exactly entry_count entries, and nothing is stored yet. |
| Buffer.EntryBuffer.Add | gov_bench.c:38-43 | Add succeeds iff entry_index < entry_count beforehand. On success it writes the entry at the old index and increments the index by 1. It leaves entry_count, the array and every other slot alone, and the stored entries gain the new one at the end. On failure nothing changes. entry_index <= entry_count is preserved. |
| Buffer.EntryBuffer.Destroy | gov_bench.c:30-35 | Destroy releases the storage and zeroes both counters, so nothing is stored and every later add fails. |
| Buffer.AllocationBytes | gov_bench.c:26 | The malloc size sizeof(entry_t) * entry_count equals 16 * entry_count only while that product fits in size_t. |
| Buffer.AllocationWraps | gov_bench.c:26 | 2^60 entries request 0 bytes. |
| Buffer.AllocationShortWhenWrapped | gov_bench.c:26 | Every count from 2^60 on gets room for fewer entries than its capacity. |
| Measurement.Measure | gov_bench.c:130-147 | The loop body runs entry_count + 1 times, because only the last add fails. The buffer then holds exactly entry_count entries, and they are the samples of rounds 0 .. entry_count - 1 in order. |
| Measurement.SamplesAt | gov_bench.c:140-143 | Stored entry k is the entry built in round k: {time_offset at round k, cpu_freq of round k's delta}. |
| Measurement.StoredEntry | gov_bench.c:130-147 | Stored entry k has as time offset the sum of the first k deltas modulo 2^64 (0 for the first entry). That equals the clock distance from the first reading to the k-th, modulo 2^64. Its frequency is cpu_freq of round k's delta. |
| Measurement.OffsetIsPrefixSum | gov_bench.c:131-145 | time_offset at round k is the sum of the first k deltas, reduced modulo 2^64. |
| Measurement.OffsetIsElapsed | gov_bench.c:130-146 | time_offset at round k equals time_delta(k-th reading, first reading): the per-round deltas telescope. |
| Measurement.OffsetsNonDecreasing | gov_bench.c:130-147 | Assume a clock that never runs backwards, and a run shorter than 2^64 ns. Then each offset is the exact elapsed time, and offsets never decrease. |
| Measurement.OffsetsIncreasing | gov_bench.c:130-147 | If every round's delta is also non-zero, offsets strictly increase. |

## Left out

- execute_loop (gov_bench.c:88-100) is x86 inline assembly whose only effect is elapsed time. It is a no-op in the model: its duration is whatever the clock readings say.
- time_get (gov_bench.c:55-59) reads CLOCK_MONOTONIC_RAW. The readings are the `clock` parameter of `Measure`. The clock's monotonicity is a hypothesis (`Monotone`) of the ordering lemmas, not a fact the model proves.
- The one-second nanosleep warm-up (gov_bench.c:120-125) is pure waiting and is not modelled.
- entry_buffer_print (gov_bench.c:46-52) prints doubles divided by 10^6. Floating-point formatting is not modelled. `Measure` returns the entries print would visit, in order.
- The argc/argv selection and the defaults 2000 and 500000 (gov_bench.c:106-118) are not modelled. `Measure` takes both counts as parameters.
- A malloc that returns NULL (gov_bench.c:26) is not modelled: `Create` always obtains storage. free is modelled only as dropping the array.
- Frequency.CpuFreq: requires delta != 0. Integer division by zero is undefined behaviour in C, and the model does not say what the program does then.
- Measurement.Measure: requires a clock reading for each of the entry_count + 1 rounds, and a non-zero delta in each round for the same reason as cpu_freq.
- Buffer.EntryBuffer.Add: returns a bool where the source returns the uint32_t values 1 and 0.
- NumberParser.ParseNumber: the uint64_t index `i` is an unbounded integer, so strings of 2^64 bytes or more are not covered.
- Plain char is taken to be signed, as on x86-64, the only target the assembly allows. An unsigned-char platform would read bytes from 0x80 on differently.

## Findings

| source | as written | input that shows it | evidently intended | confidence | as-written member | corrected member |
|---|---|---|---|---|---|---|
| gov_bench.c:26 | `malloc(sizeof(entry_t) * entry_count)` multiplies in size_t, so the byte count wraps for entry_count >= 2^60 | argument "1152921504606846976" (2^60): malloc(0) succeeds, yet entry_count is 2^60, so add writes past the allocation | storage for exactly entry_count entries, or an allocation failure | high; not executed | Buffer.AllocationWraps | Buffer.EntryBuffer.Create |
