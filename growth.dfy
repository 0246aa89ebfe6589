/** `generate_growth_pattern` (app.py lines 12-32): three synthetic yearly
    counts for one tag, by a formula chosen from the tag's base count. */
module Growth {

  /** The three branches of the dispatch. */
  datatype Bracket =
    | Popular    // base_count > 1500
    | Moderate   // 800 < base_count <= 1500
    | Niche      // base_count <= 800

  function BracketOf(baseCount: int): Bracket {
    if baseCount > 1500 then Popular
    else if baseCount > 800 then Moderate
    else Niche
  }

  /** Brackets in increasing order of base count. */
  function Rank(b: Bracket): nat {
    match b
    case Niche => 0
    case Moderate => 1
    case Popular => 2
  }

  /** A larger base count never falls into a lower bracket. */
  lemma BracketMonotone(a: int, b: int)
    requires a <= b
    ensures Rank(BracketOf(a)) <= Rank(BracketOf(b))
  {
  }

  /** The thresholds themselves belong to the lower bracket. */
  lemma BracketBoundaries()
    ensures BracketOf(1500) == Moderate && BracketOf(1501) == Popular
    ensures BracketOf(800) == Niche && BracketOf(801) == Moderate
  {
  }

  /** The growth formulas and their random variation, injected:
      `model(bracket, baseCount, yearIndex, draw)` is the count
      `int(base_count * growth ...)` that the bracket's formula gives for the
      year index when `random.uniform` yields its `draw`-th sample. */
  type GrowthModel = (Bracket, nat, nat, nat) -> nat

  /** Every branch loops over `range(3)`. */
  const PatternLength := 3

  /** The counts of one call that starts at sample `draw` of the random
      stream: each year index draws exactly one sample. */
  function Pattern(baseCount: nat, model: GrowthModel, draw: nat): (counts: seq<nat>)
    ensures |counts| == PatternLength
  {
    seq(PatternLength, yi requires 0 <= yi < PatternLength => model(BracketOf(baseCount), baseCount, yi, draw + yi))
  }

  /** The function itself. `years` is accepted and ignored, as in the
      source: the length is three whatever it holds. */
  method GenerateGrowthPattern(baseCount: nat, years: seq<int>, model: GrowthModel, draw: nat)
    returns (counts: seq<nat>)
    ensures counts == Pattern(baseCount, model, draw)
    ensures |counts| == PatternLength
    ensures forall yi :: 0 <= yi < PatternLength ==>
      counts[yi] == model(BracketOf(baseCount), baseCount, yi, draw + yi)
  {
    var bracket;
    if baseCount > 1500 {
      bracket := Popular;
    } else if baseCount > 800 {
      bracket := Moderate;
    } else {
      bracket := Niche;
    }
    counts := [];
    for yi := 0 to PatternLength
      invariant |counts| == yi
      invariant forall k :: 0 <= k < yi ==> counts[k] == model(bracket, baseCount, k, draw + k)
    {
      counts := counts + [model(bracket, baseCount, yi, draw + yi)];
    }
  }
}
