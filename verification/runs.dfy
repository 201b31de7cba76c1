/** Successive calls of Next on one generator: the counter steps by one per
    call, so any 2^seqBits consecutive ids differ, call 2^seqBits + 1 repeats
    the sequence value of call 1, and later timestamp units sort later. */
module Runs {
  import opened Bits
  import opened Snowflake

  /** Clock readings a run can see: nanoseconds since the epoch as a
      non-negative time.Duration. */
  predicate Readings(ds: seq<int>)
  {
    forall i :: 0 <= i < |ds| ==> 0 <= ds[i] <= MaxInt64
  }

  /** `ids` are what |ds| consecutive calls of Next return, starting from
      `g`: call i reads the clock as ds[i] and runs on g with its counter
      already advanced i times. */
  predicate IsRun(g: Generator, ds: seq<int>, ids: seq<int>)
    requires Valid(g) && Readings(ds)
    requires g.counter + |ds| <= MaxInt64
  {
    && |ids| == |ds|
    && forall i :: 0 <= i < |ds| ==> ids[i] == Next(g.(counter := g.counter + i), ds[i]).id
  }

  /** Calls Next once per reading, threading the generator from call to
      call, as a caller looping over Next does. */
  method Generate(g: Generator, ds: seq<int>) returns (last: Generator, ids: seq<int>)
    requires Valid(g) && Readings(ds)
    requires g.counter + |ds| <= MaxInt64
    ensures last == g.(counter := g.counter + |ds|)
    ensures IsRun(g, ds, ids)
  {
    last, ids := g, [];
    var k := 0;
    while k < |ds|
      invariant 0 <= k <= |ds|
      invariant last == g.(counter := g.counter + k)
      invariant |ids| == k
      invariant forall i :: 0 <= i < k ==> ids[i] == Next(g.(counter := g.counter + i), ds[i]).id
    {
      var s := Next(last, ds[k]);
      ids := ids + [s.id];
      last := s.gen;
      k := k + 1;
    }
  }

  /** The sequence field of call i (counting from 0) is (counter + i + 1)
      modulo 2^seqBits, so on a fresh generator call k (counting from 1)
      carries k mod 2^seqBits. Holds even when the timestamp overflows its
      field. */
  lemma RunSequenceField(g: Generator, ds: seq<int>, ids: seq<int>, i: nat)
    requires Valid(g) && Readings(ds)
    requires g.counter + |ds| <= MaxInt64 && IsRun(g, ds, ids)
    requires i < |ds|
    ensures SequenceOf(g, ids[i]) == Rem(g.counter + i + 1, g.maxSeq)
  {
  }

  /** The counter is incremented before it is read: the first id of a fresh
      generator carries sequence value 1, not 0. */
  lemma FirstIdSequenceIsOne(g: Generator, ds: seq<int>, ids: seq<int>)
    requires Valid(g) && Readings(ds) && 1 <= |ds| <= MaxInt64
    requires g.counter == 0 && IsRun(g, ds, ids)
    ensures SequenceOf(g, ids[0]) == 1
  {
  }

  /** At most 2^seqBits consecutive calls give pairwise distinct ids, at any
      clock readings: their sequence fields already differ. */
  lemma RunDistinct(g: Generator, ds: seq<int>, ids: seq<int>)
    requires Valid(g) && Readings(ds)
    requires g.counter + |ds| <= MaxInt64 && IsRun(g, ds, ids)
    requires |ds| <= g.maxSeq
    ensures forall i, j :: 0 <= i < j < |ds| ==> ids[i] != ids[j]
  {
    forall i, j | 0 <= i < j < |ds|
      ensures ids[i] != ids[j]
    {
      RunSequenceField(g, ds, ids, i);
      RunSequenceField(g, ds, ids, j);
      RemDistinct(g.counter + i + 1, g.counter + j + 1, g.maxSeq);
    }
  }

  /** Wraparound: call i + 2^seqBits carries the sequence value of call i,
      and within one timestamp unit it repeats that call's id exactly. */
  lemma RunWraps(g: Generator, ds: seq<int>, ids: seq<int>, i: nat)
    requires Valid(g) && Readings(ds)
    requires g.counter + |ds| <= MaxInt64 && IsRun(g, ds, ids)
    requires i + g.maxSeq < |ds|
    ensures SequenceOf(g, ids[i]) == SequenceOf(g, ids[i + g.maxSeq])
    ensures Elapsed(g, ds[i]) == Elapsed(g, ds[i + g.maxSeq]) ==> ids[i] == ids[i + g.maxSeq]
  {
    var j := i + g.maxSeq;
    NextWrapsAround(g, ds[i], ds[j], i, j);
  }

  /** Across a run, a call in a later timestamp unit gives a larger id than
      an earlier call, as long as the later timestamp fits its field. */
  lemma RunMonotone(g: Generator, ds: seq<int>, ids: seq<int>, i: nat, j: nat)
    requires Valid(g) && Readings(ds)
    requires g.counter + |ds| <= MaxInt64 && IsRun(g, ds, ids)
    requires i < |ds| && j < |ds|
    requires Elapsed(g, ds[i]) < Elapsed(g, ds[j]) && Fits(g, ds[j])
    ensures ids[i] < ids[j]
  {
    var gi, gj := g.(counter := g.counter + i), g.(counter := g.counter + j);
    assert ids[i] == Next(gi, ds[i]).id && ids[j] == Next(gj, ds[j]).id;
    NextMonotoneInTime(gi, gj, ds[i], ds[j]);
  }
}
