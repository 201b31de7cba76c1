/** The generator: construction with its five ordered checks, and the
    packing of one id as [ timestamp | shard | sequence ], high to low bits. */
module Snowflake {
  import opened Bits
  import opened Config

  /** The five ways construction is refused, in the order they are checked. */
  datatype ConfigError =
    | SequenceBitsOutOfRange   // sequence width outside [1, 16]
    | TimestampUnitOutOfRange  // unit outside [1 us, 1 s]
    | ShardBitsTooWide         // shard width above 8
    | NegativeShard            // shard id below zero
    | LayoutTooWide            // shard width + sequence width >= 20

  /** A generator: its resolved options, the shared sequence counter, the
      shard id reduced to its field, the epoch (an opaque instant, in ns)
      and the sequence modulus. */
  datatype Generator = Generator(
    options: Options,
    counter: int,
    shard: int,
    epoch: int,
    maxSeq: int)

  /** What construction yields. A negative shard width passes all five
      checks and then panics on the negative shift count `1 << n`. */
  datatype Construction =
    | Built(gen: Generator)
    | Rejected(error: ConfigError)
    | NegativeShiftPanic

  datatype Verdict = Accepted | Refused(error: ConfigError)

  /** One id and the generator after producing it. */
  datatype Step = Step(gen: Generator, id: Int64)

  /** Position of each check in the validation order. */
  function Rank(e: ConfigError): nat
  {
    match e
    case SequenceBitsOutOfRange => 0
    case TimestampUnitOutOfRange => 1
    case ShardBitsTooWide => 2
    case NegativeShard => 3
    case LayoutTooWide => 4
  }

  /** The condition each error reports, stated on its own. */
  predicate Violates(e: ConfigError, o: Options, shard: int)
  {
    match e
    case SequenceBitsOutOfRange => !(1 <= o.seqBits <= 16)
    case TimestampUnitOutOfRange => !(Microsecond <= o.unit <= Second)
    case ShardBitsTooWide => o.shardBits > 8
    case NegativeShard => shard < 0
    case LayoutTooWide => o.shardBits + o.seqBits >= 20
  }

  /** The five checks run in order; the first that fails is reported. */
  function Validate(o: Options, shard: int): (v: Verdict)
    ensures v.Refused? ==> Violates(v.error, o, shard)
    ensures v.Refused? ==> forall e :: Rank(e) < Rank(v.error) ==> !Violates(e, o, shard)
    ensures v.Accepted? ==> forall e :: !Violates(e, o, shard)
  {
    if o.seqBits < 1 || o.seqBits > 16 then Refused(SequenceBitsOutOfRange)
    else if o.unit < Microsecond || o.unit > Second then Refused(TimestampUnitOutOfRange)
    else if o.shardBits > 8 then Refused(ShardBitsTooWide)
    else if shard < 0 then Refused(NegativeShard)
    // cannot overflow in Go: seqBits is in [1, 16] and shardBits at most 8 here
    else if o.shardBits + o.seqBits >= 20 then Refused(LayoutTooWide)
    else Accepted
  }

  /** What a built generator satisfies; every operation below relies on it. */
  predicate Valid(g: Generator)
  {
    && 1 <= g.options.seqBits <= 16
    && 0 <= g.options.shardBits <= 8
    && g.options.seqBits + g.options.shardBits < 20
    && Microsecond <= g.options.unit <= Second
    && 0 <= g.shard < Pow2(g.options.shardBits)
    && g.maxSeq == Pow2(g.options.seqBits)
    && 0 <= g.counter <= MaxInt64
  }

  /** Builds a generator for `shard` from the directives `opts`. */
  function NewGenerator(shard: Int64, epoch: int, opts: seq<Directive>): (r: Construction)
    ensures r.Built? <==>
      var o := Configure(opts);
      && 1 <= o.seqBits <= 16
      && Microsecond <= o.unit <= Second
      && 0 <= o.shardBits <= 8
      && shard >= 0
      && o.shardBits + o.seqBits < 20
    ensures r.Rejected? <==> Validate(Configure(opts), shard).Refused?
    ensures r.Rejected? ==> r.error == Validate(Configure(opts), shard).error
    ensures r.NegativeShiftPanic? <==>
      Validate(Configure(opts), shard).Accepted? && Configure(opts).shardBits < 0
    ensures r.Built? ==>
      var o := Configure(opts);
      && Valid(r.gen)
      && r.gen.options == o
      && r.gen.counter == 0
      && r.gen.epoch == epoch
      && r.gen.shard == Rem(shard, Pow2(o.shardBits))
      && r.gen.maxSeq == Pow2(o.seqBits)
      && 63 - (o.seqBits + o.shardBits) >= 44
  {
    var o := Configure(opts);
    match Validate(o, shard)
    case Refused(e) => Rejected(e)
    case Accepted =>
      if o.shardBits < 0 then NegativeShiftPanic
      else
        assert !Violates(NegativeShard, o, shard);
        Built(Generator(o, 0, Rem(shard, Pow2(o.shardBits)), epoch, Pow2(o.seqBits)))
  }


  /** Width of the two low fields; the timestamp is shifted left by it. */
  function LowWidth(g: Generator): nat
    requires Valid(g)
  {
    g.options.shardBits + g.options.seqBits
  }

  /** The timestamp field: whole units elapsed since the epoch, `d` being
      now - epoch in nanoseconds. Go divides durations truncating toward
      zero, which for d >= 0 is the whole number of units in d. */
  function Elapsed(g: Generator, d: nat): nat
    requires Valid(g)
  {
    Div(d, g.options.unit)
  }

  /** A later clock reading never falls in an earlier timestamp unit. */
  lemma ElapsedMonotone(g: Generator, d1: nat, d2: nat)
    requires Valid(g) && d1 <= d2
    ensures Elapsed(g, d1) <= Elapsed(g, d2)
  {
    DivIsMonotone(d1, d2, g.options.unit);
  }

  /** The timestamp fits its field: the shifted value stays below 2^63. */
  predicate Fits(g: Generator, d: nat)
    requires Valid(g)
  {
    Elapsed(g, d) < Pow2(63 - LowWidth(g))
  }

  /** The three fields read back from an id. */
  function TimestampOf(g: Generator, id: int): int
    requires Valid(g)
  {
    Shr(id, LowWidth(g))
  }

  function ShardOf(g: Generator, id: int): int
    requires Valid(g)
  {
    Low(Shr(id, g.options.seqBits), g.options.shardBits)
  }

  function SequenceOf(g: Generator, id: int): int
    requires Valid(g)
  {
    Low(id, g.options.seqBits)
  }

  /** The shard field, present only when the shard width is positive. */
  function ShardField(g: Generator): int
    requires Valid(g)
  {
    if g.options.shardBits > 0 then Shl(g.shard, g.options.seqBits) else 0
  }

  /** Produces one id after `d` nanoseconds since the epoch. The counter is
      incremented first, so the sequence field is the new counter value
      modulo maxSeq. The exact packed value is wrapped to int64 as Go's
      shift does when the timestamp outgrows its field. */
  function Next(g: Generator, d: nat): (s: Step)
    requires Valid(g)
    requires d <= MaxInt64
    requires g.counter < MaxInt64
    ensures Valid(s.gen)
    ensures s.gen == g.(counter := g.counter + 1)
    ensures SequenceOf(g, s.id) == Rem(s.gen.counter, g.maxSeq)
  {
    var counter := g.counter + 1;
    SequenceSurvivesWrap(g, Elapsed(g, d), Rem(counter, g.maxSeq));
    Step(g.(counter := counter),
         Wrap64(Shl(Elapsed(g, d), LowWidth(g)) + ShardField(g) + Rem(counter, g.maxSeq)))
  }

  /** The exact packed value, before any wrap: the timestamp shifted above
      the shard, itself shifted above the sequence value. With a zero shard
      width the shard is 0, so the skipped OR changes nothing. The low part
      fits in shardBits + seqBits bits. */
  lemma PackedValue(g: Generator, e: nat, sq: nat)
    requires Valid(g) && sq < g.maxSeq
    ensures Shl(e, LowWidth(g)) + ShardField(g) + sq
         == Shl(e, LowWidth(g)) + (Shl(g.shard, g.options.seqBits) + sq)
    ensures 0 <= Shl(g.shard, g.options.seqBits) + sq < Pow2(LowWidth(g))
  {
    var s, h := g.options.seqBits, g.options.shardBits;
    if h == 0 {
      assert g.shard == 0;
      ShlIsMul(0, s);
    }
    assert ShardField(g) == Shl(g.shard, s);
    assert LowWidth(g) == h + s;
    ShlBound(g.shard, sq, h, s);
  }

  /** The low seqBits bits of the id are its sequence part, whether or not
      the shifted timestamp overflowed into the sign bit. */
  lemma SequenceSurvivesWrap(g: Generator, e: nat, sq: nat)
    requires Valid(g) && sq < g.maxSeq
    ensures Low(Wrap64(Shl(e, LowWidth(g)) + ShardField(g) + sq), g.options.seqBits) == sq
  {
    var s, h := g.options.seqBits, g.options.shardBits;
    PackedValue(g, e, sq);
    assert LowWidth(g) == h + s;
    WrappedLowFields(e, g.shard, sq, h, s);
  }

  /** The shard field survives the wrap as well: the overflow only touches
      bits above the two low fields, so the shard read back from the id is
      the generator's shard at any clock reading. */
  lemma ShardSurvivesWrap(g: Generator, e: nat, sq: nat)
    requires Valid(g) && sq < g.maxSeq
    ensures ShardOf(g, Wrap64(Shl(e, LowWidth(g)) + ShardField(g) + sq)) == g.shard
  {
    var s, h := g.options.seqBits, g.options.shardBits;
    var x := Shl(e, LowWidth(g)) + ShardField(g) + sq;
    PackedValue(g, e, sq);
    assert x == Shl(e, h + s) + (Shl(g.shard, s) + sq);
    WrappedLowFields(e, g.shard, sq, h, s);
    assert ShardOf(g, Wrap64(x)) == Low(Shr(Wrap64(x), s), h);
  }

  /** Every id of Next carries the generator's shard, at any clock reading. */
  lemma NextKeepsShard(g: Generator, d: nat)
    requires Valid(g) && d <= MaxInt64 && g.counter < MaxInt64
    ensures ShardOf(g, Next(g, d).id) == g.shard
  {
    ShardSurvivesWrap(g, Elapsed(g, d), Rem(g.counter + 1, g.maxSeq));
  }

  /** Below the sign bit the id is the exact packing: the timestamp shifted
      above a low part that holds the shard over the sequence value. */
  lemma NextPacked(g: Generator, d: nat) returns (low: nat)
    requires Valid(g) && d <= MaxInt64 && g.counter < MaxInt64
    requires Fits(g, d)
    ensures low == Shl(g.shard, g.options.seqBits) + Rem(g.counter + 1, g.maxSeq)
    ensures low < Pow2(LowWidth(g))
    ensures Next(g, d).id == Shl(Elapsed(g, d), LowWidth(g)) + low
    ensures 0 <= Next(g, d).id
  {
    var sq := Rem(g.counter + 1, g.maxSeq);
    PackedValue(g, Elapsed(g, d), sq);
    low := Shl(g.shard, g.options.seqBits) + sq;
    PackedInRange(Elapsed(g, d), low, LowWidth(g));
  }

  /** Reading the fields back from an exact packing: the timestamp, the
      shard and the sequence value are recovered. */
  lemma DecodePacked(g: Generator, e: nat, sq: nat, id: int)
    requires Valid(g) && sq < g.maxSeq
    requires id == Shl(e, LowWidth(g)) + (Shl(g.shard, g.options.seqBits) + sq)
    ensures TimestampOf(g, id) == e
    ensures ShardOf(g, id) == g.shard
    ensures SequenceOf(g, id) == sq
  {
    var h, s := g.options.shardBits, g.options.seqBits;
    assert LowWidth(g) == h + s && g.maxSeq == Pow2(s);
    PackFields(e, g.shard, sq, h, s);
  }

  /** Round trip: the timestamp, the shard and the sequence value packed by
      Next are recovered from the id, which is non-negative. */
  lemma NextDecodes(g: Generator, d: nat)
    requires Valid(g) && d <= MaxInt64 && g.counter < MaxInt64
    requires Fits(g, d)
    ensures 0 <= Next(g, d).id
    ensures TimestampOf(g, Next(g, d).id) == Elapsed(g, d)
    ensures ShardOf(g, Next(g, d).id) == g.shard
    ensures SequenceOf(g, Next(g, d).id) == Rem(g.counter + 1, g.maxSeq)
  {
    var low := NextPacked(g, d);
    DecodePacked(g, Elapsed(g, d), Rem(g.counter + 1, g.maxSeq), Next(g, d).id);
  }

  /** On one generator, a later timestamp unit gives a larger id whatever the
      two sequence values are. */
  lemma NextMonotoneInTime(g1: Generator, g2: Generator, d1: nat, d2: nat)
    requires Valid(g1) && g2 == g1.(counter := g2.counter) && 0 <= g2.counter
    requires d1 <= MaxInt64 && d2 <= MaxInt64
    requires g1.counter < MaxInt64 && g2.counter < MaxInt64
    requires Elapsed(g1, d1) < Elapsed(g2, d2) && Fits(g2, d2)
    ensures Next(g1, d1).id < Next(g2, d2).id
  {
    var low1 := NextPacked(g1, d1);
    var low2 := NextPacked(g2, d2);
    ShlOrder(Elapsed(g1, d1), low1, Elapsed(g2, d2), low2, LowWidth(g1));
  }

  /** maxSeq calls after a given call, the counter has come round to the
      same sequence value: the id repeats the sequence field, and repeats
      the whole id within the same timestamp unit. */
  lemma NextWrapsAround(g: Generator, d1: nat, d2: nat, i: nat, j: nat)
    requires Valid(g) && d1 <= MaxInt64 && d2 <= MaxInt64
    requires j == i + g.maxSeq && g.counter + j < MaxInt64
    ensures SequenceOf(g, Next(g.(counter := g.counter + i), d1).id)
         == SequenceOf(g, Next(g.(counter := g.counter + j), d2).id)
    ensures Elapsed(g, d1) == Elapsed(g, d2) ==>
      Next(g.(counter := g.counter + i), d1).id == Next(g.(counter := g.counter + j), d2).id
  {
    var gi, gj := g.(counter := g.counter + i), g.(counter := g.counter + j);
    RemAddDivisor(g.counter + i + 1, g.maxSeq);
    assert ShardField(gi) == ShardField(gj) && LowWidth(gi) == LowWidth(gj);
    assert Elapsed(gi, d1) == Elapsed(g, d1) && Elapsed(gj, d2) == Elapsed(g, d2);
  }

  /** At the same instant, a finer timestamp unit counts at least as many
      units as a coarser one. */
  lemma FinerUnitCountsMore(g1: Generator, g2: Generator, d: nat)
    requires Valid(g1) && Valid(g2)
    requires g1.options.unit <= g2.options.unit
    ensures Elapsed(g1, d) >= Elapsed(g2, d)
  {
    DivIsAntitone(d, g1.options.unit, g2.options.unit);
  }

  /** Two generators differing only in the timestamp unit, read at the same
      instant: the finer unit never gives the smaller id. */
  lemma FinerUnitNeverSmaller(g1: Generator, g2: Generator, d: nat)
    requires Valid(g1) && Valid(g2)
    requires g2 == g1.(options := g1.options.(unit := g2.options.unit))
    requires g1.options.unit <= g2.options.unit
    requires d <= MaxInt64 && g1.counter < MaxInt64
    requires Fits(g1, d)
    ensures Next(g1, d).id >= Next(g2, d).id
  {
    FinerUnitCountsMore(g1, g2, d);
    SameLayoutOrder(g2, g1, d, d);
  }

  /** On generators with the same layout, shard and counter, a timestamp
      that is no later, where both fit, never gives a larger id. */
  lemma SameLayoutOrder(g1: Generator, g2: Generator, d1: nat, d2: nat)
    requires Valid(g1) && Valid(g2)
    requires g1.options.seqBits == g2.options.seqBits && g1.options.shardBits == g2.options.shardBits
    requires g1.shard == g2.shard && g1.counter == g2.counter
    requires d1 <= MaxInt64 && d2 <= MaxInt64 && g1.counter < MaxInt64
    requires Elapsed(g1, d1) <= Elapsed(g2, d2) && Fits(g2, d2)
    ensures Next(g1, d1).id <= Next(g2, d2).id
  {
    var low1 := NextPacked(g1, d1);
    var low2 := NextPacked(g2, d2);
    ShlMonotone(Elapsed(g1, d1), Elapsed(g2, d2), low1, LowWidth(g1));
  }

  /** Generators differing only in their shard never produce the same id
      at the same instant and counter, even once the timestamp has
      overflowed its field. */
  lemma ShardsDistinguish(g1: Generator, g2: Generator, d: nat)
    requires Valid(g1) && Valid(g2) && g2 == g1.(shard := g2.shard)
    requires g1.shard != g2.shard
    requires d <= MaxInt64 && g1.counter < MaxInt64
    ensures Next(g1, d).id != Next(g2, d).id
  {
    NextKeepsShard(g1, d);
    NextKeepsShard(g2, d);
  }

  /** Past the bound of Fits, ids are no longer ordered or non-negative.
      With 16 sequence bits, 3 shard bits and 1 us units, a layout
      construction accepts, the timestamp reaches the sign bit after 2^44
      units (about 203 days): the id at 2^44 units is negative and smaller
      than the one at 2^44 - 1 units. At 2^45 units the shift has wrapped a
      full turn and the id is non-negative again, yet still smaller. */
  lemma OrderLostPastFit(epoch: int)
    ensures NewGenerator(0, epoch, WideLayout).Built?
    ensures var g := NewGenerator(0, epoch, WideLayout).gen;
      && Elapsed(g, WideLast) < Elapsed(g, WideFirst)
      && Fits(g, WideLast) && !Fits(g, WideFirst)
      && Next(g.(counter := 1), WideFirst).id < 0 <= Next(g, WideLast).id
      && 0 <= Next(g, WideAgain).id < Next(g, WideLast).id
  {
    WideLayoutBuilt(epoch);
    var g := NewGenerator(0, epoch, WideLayout).gen;
    WideIds(g, WideLast, WideFirst);
    WideIdAgain(g, WideAgain);
  }

  /** The directives of the wide layout build a 16/3/1 us generator. */
  lemma WideLayoutBuilt(epoch: int)
    ensures NewGenerator(0, epoch, WideLayout)
         == Built(Generator(Options(16, 3, Microsecond), 0, 0, epoch, 65536))
  {
    var o := Options(16, 3, Microsecond);
    assert Configure(WideLayout) == o by {
      var rest := [WithShardBitsLen(3), WithTimestampUnit(Microsecond)];
      assert WideLayout[1..] == rest && rest[1..] == [WithTimestampUnit(Microsecond)];
      assert ApplyAll(Options(16, 3, Millisecond), rest[1..]) == o;
      assert ApplyAll(Options(16, 6, Millisecond), rest) == o;
    }
    assert Pow2(3) == 8;
    assert Pow2(16) == 65536 by { Pow2Values(); Pow2Add(8, 8); }
  }

  /** The two ids of the wide layout on either side of the bound. */
  lemma WideIds(g: Generator, last: nat, first: nat)
    requires g.options == Options(16, 3, Microsecond)
    requires g.counter == 0 && g.shard == 0 && g.maxSeq == 65536
    requires last == WideLast && first == WideFirst
    ensures Valid(g)
    ensures Elapsed(g, last) < Elapsed(g, first)
    ensures Fits(g, last) && !Fits(g, first)
    ensures Next(g.(counter := 1), first).id < 0 <= Next(g, last).id
    ensures Next(g, last).id == 0x7FFF_FFFF_FFF8_0001
  {
    WidePowers();
    assert Valid(g) && LowWidth(g) == 19;
    WideElapsed(g, last, first);
    var x1 := Shl(Elapsed(g, last), 19) + ShardField(g) + Rem(1, 65536);
    var x2 := Shl(Elapsed(g, first), 19) + ShardField(g) + Rem(2, 65536);
    assert ShardField(g) == 0 by { ShlIsMul(0, 16); }
    assert x1 == 0x7FFF_FFFF_FFF8_0001 by { ShlIsMul(0xFFF_FFFF_FFFF, 19); }
    assert x2 == 0x8000_0000_0000_0002 by { ShlIsMul(0x1000_0000_0000, 19); }
    assert Next(g, last).id == Wrap64(x1);
    assert Next(g.(counter := 1), first).id == Wrap64(x2);
  }

  /** The powers of two the wide layout needs: 2^44 units is where its
      timestamp, shifted by 19, reaches the sign bit. */
  lemma WidePowers()
    ensures Pow2(3) == 8 && Pow2(16) == 65536 && Pow2(19) == 524288
    ensures Pow2(44) == 0x1000_0000_0000 && Pow2(63 - 19) == Pow2(44)
  {
    Pow2Values();
    assert Pow2(16) == 65536 by { Pow2Add(8, 8); }
    assert Pow2(19) == 524288 by { Pow2Add(16, 3); }
    assert Pow2(25) == 0x200_0000 by { Pow2Add(19, 6); }
    assert Pow2(44) == 0x1000_0000_0000 by { Pow2Add(19, 25); }
  }

  /** A full turn later, at 2^45 units, the shifted timestamp is 2^64 and
      wraps to 0: the id is 1, non-negative again but smaller than the ids
      before the bound. */
  lemma WideIdAgain(g: Generator, again: nat)
    requires g.options == Options(16, 3, Microsecond)
    requires g.counter == 0 && g.shard == 0 && g.maxSeq == 65536
    requires again == WideAgain
    ensures Valid(g) && !Fits(g, again)
    ensures Next(g, again).id == 1
  {
    WidePowers();
    assert Valid(g) && LowWidth(g) == 19;
    assert Elapsed(g, again) == 0x2000_0000_0000 by {
      DivRemAreEuclid(again, Microsecond);
    }
    var x := Shl(Elapsed(g, again), 19) + ShardField(g) + Rem(1, 65536);
    assert ShardField(g) == 0 by { ShlIsMul(0, 16); }
    assert x == 0x1_0000_0000_0000_0001 by { ShlIsMul(0x2000_0000_0000, 19); }
    assert Next(g, again).id == Wrap64(x);
  }

  /** Both readings are whole numbers of microseconds. */
  lemma WideElapsed(g: Generator, last: nat, first: nat)
    requires Valid(g) && g.options.unit == Microsecond
    requires last == WideLast && first == WideFirst
    ensures Elapsed(g, last) == 0xFFF_FFFF_FFFF
    ensures Elapsed(g, first) == 0x1000_0000_0000
  {
    DivRemAreEuclid(last, Microsecond);
    DivRemAreEuclid(first, Microsecond);
  }

  /** The directives of that layout, and the clock readings (ns) of the
      last unit below the bound, the first unit at it, and the unit a full
      turn of 2^64 later. */
  const WideLayout: seq<Directive> :=
    [WithSequenceBitsLen(16), WithShardBitsLen(3), WithTimestampUnit(Microsecond)]
  const WideLast: nat := 0xFFF_FFFF_FFFF * 1_000
  const WideFirst: nat := 0x1000_0000_0000 * 1_000
  const WideAgain: nat := 0x2000_0000_0000 * 1_000

  /** With no directives, shard 3 builds the default layout: 8 sequence
      bits, 6 shard bits, 1 ms units, 256 sequence values. */
  lemma DefaultLayoutBuilt(epoch: int)
    ensures NewGenerator(3, epoch, []) == Built(Generator(Defaults, 0, 3, epoch, 256))
  {
  }

  /** The default layout with shard 3, read 10 ms after the epoch: the first
      id shifted right by 14 is 10, shifted right by 8 it is 10 << 6 | 3,
      and its low 8 bits are 1. */
  lemma DefaultLayoutFirstId(epoch: int)
    ensures NewGenerator(3, epoch, []).Built?
    ensures var g := NewGenerator(3, epoch, []).gen;
      && g.counter == 0
      && Shr(Next(g, 10 * Millisecond).id, 14) == 10
      && Shr(Next(g, 10 * Millisecond).id, 8) == 10 * 64 + 3
      && Low(Next(g, 10 * Millisecond).id, 8) == 1
  {
    DefaultLayoutBuilt(epoch);
    var g := Generator(Defaults, 0, 3, epoch, 256);
    Pow2Values();
    assert Valid(g) && LowWidth(g) == 14;
    DivRemAreEuclid(10 * Millisecond, Millisecond);
    assert Elapsed(g, 10 * Millisecond) == 10;
    Pow2Monotone(14, 49);
    DivRemAreEuclid(1, 256);
    var low := NextPacked(g, 10 * Millisecond);
    ShlIsMul(10, 14);
    ShlIsMul(3, 8);
    var id := Next(g, 10 * Millisecond).id;
    assert id == 164609;
    ShrIsDiv(id, 14);
    ShrIsDiv(id, 8);
    LowIsMod(id, 8);
  }

  /** A negative shard width passes the five checks; construction then
      panics rather than reporting an error. */
  lemma NegativeShardWidthPanics(epoch: int)
    ensures NewGenerator(0, epoch, [WithShardBitsLen(-1)]).NegativeShiftPanic?
  {
  }
}
