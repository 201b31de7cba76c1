# Snowflake id generator, modelled in Dafny

This project models the core of the `snowflakeid` Go package: a generator
of 64-bit, time-ordered ids. It covers construction, where option directives
are folded over the defaults and five checks run in a fixed order. It also
covers `Next`, which packs an id from three fields, high to low:

    [ elapsed timestamp units | shard | sequence value ]

It then proves properties of the model.

- **Config** (`config.dfy`) holds the options, that is, the sequence width,
  the shard width and the timestamp unit. The defaults are 8, 6 and 1 ms.
  The directives `WithSequenceBitsLen`, `WithShardBitsLen` and
  `WithTimestampUnit` are a datatype, and construction applies them from
  left to right.
- **Snowflake** (`snowflake.dfy`) holds the five configuration errors and
  `Validate`, whose first failing check wins. It also holds `NewGenerator`,
  the generator state and `Next`. Next takes the clock reading as a
  parameter `d`, the nanoseconds elapsed since the epoch. The decoders
  `TimestampOf`, `ShardOf` and `SequenceOf` read the fields back.
- **Runs** (`runs.dfy`) covers consecutive calls of `Next` on one
  generator. `Generate` threads the generator from call to call. The lemmas
  state that any 2^seqBits consecutive ids are distinct and that call
  i + 2^seqBits repeats the sequence value of call i. They also state that
  the first id carries sequence value 1 and that later units sort later.
- **Bits** (`bits.dfy`) models the bit operations on integers:
  - `<<` is `Shl` (repeated doubling) and `1 << k` is `Pow2`. The decoders
    read fields back with `Shr`, a right shift (repeated halving, rounding
    down); the source itself never shifts right.
  - The decoders read the low k bits with `Low`, a mask `x & (1<<k - 1)`.
    The source itself has no mask; `Bits.LowIsMod` shows `Low` equals the
    `seq % g.maxSeq` at generator.go:90.
  - Go's `/` and `%` on non-negative operands are `Div` and `Rem`
    (repeated subtraction).
  - An OR of fields whose bits do not overlap is `+`.
  - Go's signed 64-bit shift overflow is `Wrap64`, the int64 congruent to
    the exact value modulo 2^64.

  Lemmas tie each of these to multiplication, Euclidean division and
  remainder.

Construction has three outcomes: `Built`, `Rejected(error)` and
`NegativeShiftPanic`. A negative shard width passes all five checks in the
source. It then panics on the negative shift count `1 << n`
(generator.go:78), so the model keeps that as its own outcome and does not
invent a sixth error. This contradicts the source's own error message at
generator.go:64, which gives the range of the shard width as [0,8]: the
check at generator.go:63 rejects only widths above 8
(`NegativeShardWidthPanics`).

With the default layout and shard 3, the first id at 10 ms is 164609.
Shifted right by 14 it gives the timestamp 10; shifted right by 8 it gives
`10 << 6 | 3` (`DefaultLayoutFirstId`).

Ids are guaranteed to be ordered by time and non-negative only while the
timestamp fits below 2^(63 - seqBits - shardBits) units, which is what
`Fits` states. Past that bound Go's `<<` wraps the shifted timestamp modulo
2^64. The ids are negative for the next 2^(63 - seqBits - shardBits) units,
then small and non-negative again, and the cycle repeats, so order across
the bound is lost. Construction accepts a 1 us unit with
seqBits + shardBits = 19, where the first wrap comes 2^44 us (about 203
days) after the epoch; at 2^45 us the id is 1 again (`OrderLostPastFit`). The shard and sequence fields
are not affected: the wrap only changes bits above them.

## Model

| member | source | states |
|---|---|---|
| Config.Apply | generator.go:18-34 | a directive sets the one option it names to its argument and leaves the other two options as they were |
| Config.ApplyAll | generator.go:51-53 | runs the directives in order over the options; what it computes is stated by Config.UntouchedOptionKept and Config.LastDirectiveWins |
| Config.Configure | generator.go:45-53 | starts from the defaults 8 / 6 / 1 ms and runs the directives; what it computes is stated by Config.DefaultsWhenUnset and Config.LastDirectiveWins |
| Config.UntouchedOptionKept | generator.go:51-53 | an option that no directive names keeps the value it had before the directives ran |
| Config.LastDirectiveWins | generator.go:51-53 | when several directives name one option, the last of them decides its value |
| Config.DefaultsWhenUnset | generator.go:45-53 | an option no directive names takes its default: sequence width 8, shard width 6, unit 1 ms |
| Snowflake.Validate | generator.go:55-73 | a refusal reports a check that really fails, and every earlier check in the order passes; acceptance means none of the five conditions is violated |
| Snowflake.NewGenerator | generator.go:44-81 | construction succeeds exactly when the sequence width is in [1,16], the unit in [1us,1s], the shard width in [0,8], the shard is non-negative and the two widths sum below 20; otherwise it reports the first failing check, or panics on a negative shard width; a built generator has counter 0, shard `shard mod 2^shardBits`, maxSeq `2^seqBits` and at least 44 timestamp bits |
| Snowflake.Next | generator.go:83-92 | each call advances the counter by exactly one and changes nothing else; the low seqBits bits of the id are the new counter mod maxSeq, even when the timestamp overflows into the sign bit |
| Snowflake.Elapsed | generator.go:84 | the whole timestamp units in the elapsed time; stated by Snowflake.ElapsedMonotone and Snowflake.FinerUnitCountsMore, and equal to Go's truncating `/` by Bits.DivRemAreEuclid |
| Snowflake.ShardField | generator.go:86-88 | the shard shifted above the sequence field when the shard width is positive, nothing otherwise; stated by Snowflake.PackedValue |
| Snowflake.ElapsedMonotone | generator.go:84 | a later clock reading never falls in an earlier timestamp unit |
| Snowflake.PackedValue | generator.go:85-88 | the shifted timestamp plus the optional shard field equals the timestamp placed above a low part that holds the shard above the sequence value, and the low part fits in seqBits + shardBits bits |
| Snowflake.NextPacked | generator.go:84-90 | while the timestamp fits below 2^(63 - seqBits - shardBits), the id is the exact packing of timestamp, shard and sequence value, with no wrap, and it is non-negative |
| Snowflake.DecodePacked | generator.go:85-90 | an exact packing gives back its timestamp, shard and sequence value through the three decoders |
| Snowflake.NextDecodes | generator.go:84-90 | round trip: while the timestamp fits below 2^(63 - seqBits - shardBits), an id of Next is non-negative and decodes to the elapsed units, the generator's shard and the incremented counter mod maxSeq |
| Snowflake.NextMonotoneInTime | generator.go:84-85 | on one generator, while the later timestamp fits below 2^(63 - seqBits - shardBits), a call in a later timestamp unit gives a strictly larger id than a call in an earlier one, whatever their sequence values |
| Snowflake.NextWrapsAround | generator.go:89-90 | maxSeq calls later the sequence field repeats, and in the same timestamp unit the whole id repeats |
| Snowflake.FinerUnitCountsMore | generator.go:84 | at the same instant, a finer timestamp unit counts at least as many whole units as a coarser one |
| Snowflake.FinerUnitNeverSmaller | generator_test.go:44-49 | at the same instant, while the finer timestamp fits below 2^(63 - seqBits - shardBits), a generator with a finer timestamp unit never gives a smaller id than one that differs only in a coarser unit |
| Snowflake.SameLayoutOrder | generator.go:84-90 | on generators with the same widths, shard and counter, a timestamp no later gives an id no larger, while the later timestamp fits |
| Snowflake.ShardSurvivesWrap | generator.go:85-88 | the shard read back from the packed and wrapped id is the generator's shard for every timestamp, including one that overflows into the sign bit |
| Snowflake.NextKeepsShard | generator.go:83-92 | every id of Next carries the generator's shard at any clock reading |
| Snowflake.OrderLostPastFit | generator.go:84-90 | with 16 sequence bits, 3 shard bits and 1 us units, which construction accepts, the id at 2^44 units is negative and smaller than the id at 2^44 - 1 units, the last that fits; at 2^45 units the wrap has come full turn and the id is 1, non-negative again but still smaller |
| Snowflake.ShardsDistinguish | generator.go:86-88 | generators differing only in shard never give the same id at the same instant and counter, at any clock reading, including after the timestamp wraps |
| Snowflake.DefaultLayoutBuilt | generator.go:44-81 | with no directives, shard 3 builds the 8/6/1 ms layout with counter 0 and maxSeq 256 |
| Snowflake.DefaultLayoutFirstId | generator.go:83-92 | with the default layout and shard 3 at 10 ms, the first id shifted right by 14 is 10, shifted right by 8 is 10 * 64 + 3, and its low 8 bits are 1 |
| Snowflake.NegativeShardWidthPanics | generator.go:78 | a shard width of -1 passes the five checks, and construction then panics instead of returning an error |
| Snowflake.SequenceSurvivesWrap | generator.go:85-90 | the low seqBits bits of the id are exactly the sequence value, even after the shifted timestamp wraps past 2^63 |
| Bits.PackFields | generator.go:85-90 | three fields packed high to low nest as shifts, the low part stays below 2^(h+s), and right shifts and masks give each field back |
| Bits.Pow2 | generator.go:78-79 | `1 << k`, the shard modulus and maxSeq; at least 1, and multiplicative in the exponent by Bits.Pow2Add |
| Bits.WrapThenAdd | generator.go:85-90 | wrapping the shifted timestamp to int64 and then adding a low part below 2^k, as Go does, gives the same int64 as wrapping the exact sum |
| Bits.Shl | generator.go:85 | Go's `<<` on unbounded integers; equal to multiplication by 2^k by Bits.ShlIsMul |
| Bits.Shr | generator.go:85-90 | the right shift with which the decoders read back the fields packed there (the source itself never shifts right); floor division by 2^k by Bits.ShrIsDiv |
| Bits.Low | generator.go:90 | the mask with which the decoders read the low k bits (the source has none; line 90 takes `%`); its result lies in [0, 2^k), and it equals the remainder modulo 2^k by Bits.LowIsMod |
| Bits.Div | generator.go:84 | Go's `/` on non-negative operands; equal to Euclidean division by Bits.DivRemAreEuclid |
| Bits.Rem | generator.go:78 | Go's `%` on non-negative operands; its result lies below the divisor and never exceeds the dividend, and equals the Euclidean remainder by Bits.DivRemAreEuclid |
| Bits.WrapIsRepack | generator.go:85 | wrapping a packing `hi << k + low` to 64 bits gives another packing over the same low part: only bits above k change |
| Bits.WrappedLowFields | generator.go:85-90 | after the wrap, the shift and mask that read the shard and the sequence field still give them back |
| Bits.ShlIsMul | generator.go:85 | a left shift by k multiplies by 2^k |
| Bits.Wrap64 | generator.go:85 | the int64 result is congruent to the exact value modulo 2^64 and equals it when it already lies in the int64 range |
| Bits.PackedInRange | generator.go:85 | a timestamp below 2^(63-k) shifted left by k, plus a k-bit low part, stays within [0, 2^63) |
| Bits.ShrIsDiv | generator.go:85-90 | the decoders' right shift by k, used to read the packed fields back, is floor division by 2^k |
| Bits.LowIsMod | generator.go:90 | the low k bits of a value are its remainder modulo 2^k |
| Bits.DivRemAreEuclid | generator.go:84 | Div and Rem by repeated subtraction give the Euclidean quotient and remainder, which Go's truncating operators agree with for non-negative operands |
| Runs.Generate | generator.go:89 | calling Next once per clock reading advances the counter by the number of calls, and call i returns the id Next gives with the counter advanced i times |
| Runs.RunSequenceField | generator.go:89-90 | call i of a run carries sequence value (counter + i + 1) mod maxSeq |
| Runs.FirstIdSequenceIsOne | generator.go:89-90 | the counter is incremented before it is read, so the first id of a fresh generator has sequence value 1 |
| Runs.RunDistinct | generator.go:89-90 | any maxSeq or fewer consecutive calls give pairwise distinct ids, whatever the clock readings |
| Runs.RunWraps | generator.go:89-90 | call i + maxSeq repeats the sequence value of call i, and in the same unit repeats its whole id |
| Runs.RunMonotone | generator.go:84-90 | within a run, while the later timestamp fits below 2^(63 - seqBits - shardBits), a call in a later timestamp unit gives a larger id than an earlier call |

## Left out

- id.go, the package-level default generator and its helpers. It is a thin wrapper around the core and is not part of this model.
- The real clock. `time.Since(epoch)` becomes the parameter `d` of Next, and the epoch is kept as an opaque integer.
- Concurrency. The atomic add on the counter is modelled as a pure step that returns the new generator state; interleavings of concurrent callers are not modelled.
- Snowflake.Next: does not model a clock earlier than the epoch, because it takes the elapsed duration `d` as a `nat`. Go's `/` truncates toward zero, so a clock less than one unit before the epoch (-unit < d < 0) still gives the timestamp field 0, the same as the first unit after it. Only d <= -unit gives a negative field.
- Snowflake.Next: does not model int64 wrap-around of the counter, because it requires `counter < 2^63 - 1`, which excludes a counter that has made 2^63 - 1 calls.
- The generic result type `T ~int64`. Ids are int64 values.
- The text of error messages. Only which check failed is modelled.
- The bitwise OR is modelled as addition. The fields it combines never share a bit, so the two agree. This holds even after the timestamp wraps, because the wrapped timestamp keeps its low seqBits + shardBits bits zero. Go wraps the shifted timestamp before it ORs the low fields in, while the model wraps the exact sum; Bits.WrapThenAdd proves the two orders agree. Only the bit-level step, that an OR of fields with no common bit is their sum, is argued here rather than proved.
- The test's uniqueness check across three generators sharing one id map (generator_test.go:23-42) is not modelled. Only uniqueness within one generator is proved (Runs.RunDistinct).
