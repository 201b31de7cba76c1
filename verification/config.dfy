/** The generator's tuning options and the directives that override them.
    A directive sets exactly one option; a constructor applies its
    directives left to right over the defaults. */
module Config {
  import opened Bits

  /** time.Duration values, in nanoseconds. */
  const Microsecond: int := 1_000
  const Millisecond: int := 1_000_000
  const Second: int := 1_000_000_000

  /** Widths of the sequence and shard fields, and the duration (ns) of one
      step of the timestamp field. */
  datatype Options = Options(seqBits: Int64, shardBits: Int64, unit: Int64)

  /** The defaults: 256 sequence values per unit, 64 shards, 1 ms units. */
  const Defaults: Options := Options(8, 6, Millisecond)

  datatype Field = SequenceBits | ShardBits | TimestampUnit

  /** One option setter: WithSequenceBitsLen, WithShardBitsLen or
      WithTimestampUnit together with its argument. */
  datatype Directive =
    | WithSequenceBitsLen(n: Int64)
    | WithShardBitsLen(n: Int64)
    | WithTimestampUnit(t: Int64)

  function Get(o: Options, f: Field): int
  {
    match f
    case SequenceBits => o.seqBits
    case ShardBits => o.shardBits
    case TimestampUnit => o.unit
  }

  /** The option a directive sets. */
  function Target(d: Directive): Field
  {
    match d
    case WithSequenceBitsLen(_) => SequenceBits
    case WithShardBitsLen(_) => ShardBits
    case WithTimestampUnit(_) => TimestampUnit
  }

  /** The value a directive stores. */
  function Value(d: Directive): Int64
  {
    match d
    case WithSequenceBitsLen(n) => n
    case WithShardBitsLen(n) => n
    case WithTimestampUnit(t) => t
  }

  /** Running one directive: its option takes its value, the others keep
      theirs. */
  function Apply(o: Options, d: Directive): (o': Options)
    ensures Get(o', Target(d)) == Value(d)
    ensures forall f :: f != Target(d) ==> Get(o', f) == Get(o, f)
  {
    match d
    case WithSequenceBitsLen(n) => o.(seqBits := n)
    case WithShardBitsLen(n) => o.(shardBits := n)
    case WithTimestampUnit(t) => o.(unit := t)
  }

  /** Running the directives in order. */
  function ApplyAll(o: Options, ds: seq<Directive>): Options
    decreases |ds|
  {
    if ds == [] then o else ApplyAll(Apply(o, ds[0]), ds[1..])
  }

  /** The options a constructor resolves from its directives. */
  function Configure(ds: seq<Directive>): Options
  {
    ApplyAll(Defaults, ds)
  }

  /** An option no directive names keeps its starting value. */
  lemma {:induction false} UntouchedOptionKept(o: Options, ds: seq<Directive>, f: Field)
    requires forall j :: 0 <= j < |ds| ==> Target(ds[j]) != f
    ensures Get(ApplyAll(o, ds), f) == Get(o, f)
    decreases |ds|
  {
    if ds != [] {
      assert Target(ds[0]) != f;
      UntouchedOptionKept(Apply(o, ds[0]), ds[1..], f);
    }
  }

  /** The last directive naming an option decides its value. */
  lemma {:induction false} LastDirectiveWins(o: Options, ds: seq<Directive>, f: Field, i: nat)
    requires i < |ds| && Target(ds[i]) == f
    requires forall j :: i < j < |ds| ==> Target(ds[j]) != f
    ensures Get(ApplyAll(o, ds), f) == Value(ds[i])
    decreases |ds|
  {
    if i == 0 {
      UntouchedOptionKept(Apply(o, ds[0]), ds[1..], f);
    } else {
      LastDirectiveWins(Apply(o, ds[0]), ds[1..], f, i - 1);
    }
  }

  /** With no directive for an option, the constructor uses its default. */
  lemma DefaultsWhenUnset(ds: seq<Directive>, f: Field)
    requires forall j :: 0 <= j < |ds| ==> Target(ds[j]) != f
    ensures Get(Configure(ds), f) == Get(Defaults, f)
    ensures f == SequenceBits ==> Configure(ds).seqBits == 8
    ensures f == ShardBits ==> Configure(ds).shardBits == 6
    ensures f == TimestampUnit ==> Configure(ds).unit == Millisecond
  {
    UntouchedOptionKept(Defaults, ds, f);
  }
}
