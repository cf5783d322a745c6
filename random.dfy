/**
 * The random source the engine draws from, as an injected oracle. The source
 * is an arbitrary infinite stream of words plus a read position; every draw
 * consumes the word at the position and advances it by one. How a word becomes
 * a value in the requested range is this model's own choice: only the ranges
 * are promised, and nothing is claimed about distributions.
 */
module Random {
  /** An infinite stream of raw words. */
  type Stream = nat -> nat

  /** Number of fractional steps of a unit draw (53 bits, the precision of an f64 fraction). */
  const UnitScale: nat := 0x20_0000_0000_0000

  /** A uniform-integer draw from the half-open range [lo, hi). */
  function Range(src: Stream, pos: nat, lo: int, hi: int): (v: int)
    requires lo < hi
    ensures lo <= v < hi
  {
    lo + src(pos) % (hi - lo)
  }

  /** A unit draw from [0, 1). */
  function Unit(src: Stream, pos: nat): (u: real)
    ensures 0.0 <= u < 1.0
  {
    (src(pos) % UnitScale) as real / UnitScale as real
  }

  /** A choice of one of n entries of a table, as its position. */
  function Choice(src: Stream, pos: nat, n: nat): (i: nat)
    requires 0 < n
    ensures i < n
  {
    src(pos) % n
  }

  /** A unit draw is below every threshold of at least 1 and below no
      threshold of at most 0, so those two stickiness values decide the
      stick test without regard to the stream. */
  lemma UnitAgainstExtremes(src: Stream, pos: nat, threshold: real)
    ensures 1.0 <= threshold ==> Unit(src, pos) < threshold
    ensures threshold <= 0.0 ==> !(Unit(src, pos) < threshold)
  {
  }

  /** The generator object carried by a grid: a stream and a read position. */
  class Rng {
    const src: Stream
    var pos: nat

    constructor (src: Stream)
      ensures this.src == src && pos == 0
    {
      this.src := src;
      pos := 0;
    }

    method GenRange(lo: int, hi: int) returns (v: int)
      requires lo < hi
      modifies this
      ensures v == Range(src, old(pos), lo, hi) && pos == old(pos) + 1
    {
      v := Range(src, pos, lo, hi);
      pos := pos + 1;
    }

    method GenUnit() returns (u: real)
      modifies this
      ensures u == Unit(src, old(pos)) && pos == old(pos) + 1
    {
      u := Unit(src, pos);
      pos := pos + 1;
    }

    method Choose(n: nat) returns (i: nat)
      requires 0 < n
      modifies this
      ensures i == Choice(src, old(pos), n) && pos == old(pos) + 1
    {
      i := Choice(src, pos, n);
      pos := pos + 1;
    }
  }
}
