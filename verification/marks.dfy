/**
 Mark generation: one year's module marks, drawn from a random source.

 `Student.java` draws each mark with `nextInt(40, 101)`, whose upper bound is
 exclusive. The random source is modelled as an arbitrary natural number per
 draw, reduced into the half-open range; this fixes which marks can occur and
 says nothing about how likely each one is.
 */
module Marks {

  /** Number of modules, and so of marks, in one year of study. */
  const ModulesPerYear: nat := 6

  /** Inclusive lower bound passed to the random draw. */
  const LowestMark: int := 40

  /** Exclusive upper bound passed to the random draw. */
  const MarkBound: int := 101

  /** One call `nextInt(origin, bound)` on the random source, given the raw draw `raw`. */
  function NextInt(origin: int, bound: int, raw: nat): (r: int)
    requires origin < bound
    ensures origin <= r < bound
  {
    origin + raw % (bound - origin)
  }

  /** Every value of the half-open range is the outcome of some raw draw. */
  lemma NextIntReachesEveryValue(origin: int, bound: int, v: int)
    requires origin <= v < bound
    ensures exists raw: nat :: NextInt(origin, bound, raw) == v
  {
    var raw: nat := v - origin;
    assert raw % (bound - origin) == raw;
    assert NextInt(origin, bound, raw) == v;
  }

  /** A mark a module can receive: 40 to 100 inclusive. */
  predicate ValidMark(m: int) {
    LowestMark <= m < MarkBound
  }

  /** A year's mark set as the record stores it. */
  predicate ValidMarkSet(ms: seq<int>) {
    |ms| == ModulesPerYear && forall j | 0 <= j < |ms| :: ValidMark(ms[j])
  }

  /** The marks obtained from the raw draws `draws`, one mark per draw, in order. */
  function Drawn(draws: seq<nat>): (ms: seq<int>)
    ensures |ms| == |draws|
  {
    seq(|draws|, j requires 0 <= j < |draws| => NextInt(LowestMark, MarkBound, draws[j]))
  }

  /**
   Builds one year's marks from the first `ModulesPerYear` draws of `draws`,
   filling the array slot by slot as `Student.java` does.
   */
  method GenerateMarks(draws: seq<nat>) returns (marks: seq<int>)
    requires |draws| >= ModulesPerYear
    ensures ValidMarkSet(marks)
    ensures marks == Drawn(draws[..ModulesPerYear])
  {
    marks := [];
    var j := 0;
    while j < ModulesPerYear
      invariant 0 <= j <= ModulesPerYear
      invariant |marks| == j
      invariant forall k | 0 <= k < j :: marks[k] == NextInt(LowestMark, MarkBound, draws[k])
    {
      marks := marks + [NextInt(LowestMark, MarkBound, draws[j])];
      j := j + 1;
    }
  }

  /**
   The mark sets the generator can produce are exactly the valid ones: every
   set drawn is valid, and every valid set (including one holding 100) is drawn
   by some sequence of raw draws.
   */
  lemma DrawableIffValid(ms: seq<int>)
    ensures ValidMarkSet(ms) <==> exists draws: seq<nat> :: |draws| == ModulesPerYear && Drawn(draws) == ms
  {
    if ValidMarkSet(ms) {
      var draws: seq<nat> := seq(|ms|, j requires 0 <= j < |ms| => (ms[j] - LowestMark) as nat);
      forall j | 0 <= j < |ms|
        ensures Drawn(draws)[j] == ms[j]
      {
        assert ValidMark(ms[j]);
        assert draws[j] < MarkBound - LowestMark;
      }
      assert Drawn(draws) == ms;
    }
    if exists draws: seq<nat> :: |draws| == ModulesPerYear && Drawn(draws) == ms {
      var draws: seq<nat> :| |draws| == ModulesPerYear && Drawn(draws) == ms;
      assert forall j | 0 <= j < |ms| :: ms[j] == NextInt(LowestMark, MarkBound, draws[j]);
    }
  }
}
