/** How a listing's matching scores are composed (ai.service.ts, matching-vision.util.ts). */
module Matching {
  import opened Common

  /** A number the program computed or received; anything not finite counts as 0 when clamped. */
  datatype Number = Finite(value: real) | NotFinite

  datatype Items<T> = Items(
    brand: T, model: T, productName: T, price: T, option: T, color: T, image: T, description: T, ocr: T)

  datatype Scores = Scores(items: Items<int>, matching: int, ai: int)

  /** The model's reply after parsing: every number may be missing. */
  datatype Parsed = Parsed(items: Items<Option<real>>, matching: Option<real>, ai: Option<real>)

  function Clamp(n: Number): int {
    if n.Finite? then ClampScore(n.value) else 0
  }

  function ClampOption(n: Option<real>): int {
    ClampScore(if n.Some? then n.value else 0.0)
  }

  function NormalizeItems(p: Items<Option<real>>): Items<int> {
    Items(ClampOption(p.brand), ClampOption(p.model), ClampOption(p.productName), ClampOption(p.price),
          ClampOption(p.option), ClampOption(p.color), ClampOption(p.image), ClampOption(p.description), ClampOption(p.ocr))
  }

  /** Each item score with its weight, in declaration order. */
  function Weighted(s: Items<int>): seq<(int, real)> {
    [(s.brand, 0.15), (s.model, 0.15), (s.productName, 0.2), (s.price, 0.1), (s.option, 0.08),
     (s.color, 0.07), (s.image, 0.15), (s.description, 0.05), (s.ocr, 0.05)]
  }

  function WeightedSum(entries: seq<(int, real)>): real {
    if entries == [] then 0.0 else entries[0].0 as real * entries[0].1 + WeightedSum(entries[1..])
  }

  function WeightSum(entries: seq<(int, real)>): real {
    if entries == [] then 0.0 else entries[0].1 + WeightSum(entries[1..])
  }

  function AverageOf(entries: seq<(int, real)>): real {
    if WeightSum(entries) > 0.0 then WeightedSum(entries) / WeightSum(entries) else 0.0
  }

  /** The accumulator loop over a weight table. */
  method WeightedAverage(entries: seq<(int, real)>) returns (avg: real)
    ensures avg == AverageOf(entries)
  {
    var sum, w := 0.0, 0.0;
    var i := 0;
    while i < |entries|
      invariant i <= |entries|
      invariant sum + WeightedSum(entries[i..]) == WeightedSum(entries)
      invariant w + WeightSum(entries[i..]) == WeightSum(entries)
    {
      assert entries[i..][0] == entries[i] && entries[i..][1..] == entries[i + 1..];
      sum := sum + entries[i].0 as real * entries[i].1;
      w := w + entries[i].1;
      i := i + 1;
    }
    avg := if w > 0.0 then sum / w else 0.0;
  }

  /** A weighted average lies between any bounds of its scores, whatever the positive weights. */
  lemma {:induction false} WeightedSumBounds(entries: seq<(int, real)>, low: int, high: int)
    requires forall e :: e in entries ==> low <= e.0 <= high && e.1 > 0.0
    ensures low as real * WeightSum(entries) <= WeightedSum(entries) <= high as real * WeightSum(entries)
    ensures entries != [] ==> WeightSum(entries) > 0.0
  {
    if entries == [] {
    } else {
      var rest := entries[1..];
      assert entries == [entries[0]] + rest;
      WeightedSumBounds(rest, low, high);
      CombineBounds(low as real, entries[0].0 as real, high as real, entries[0].1, WeightedSum(rest), WeightSum(rest));
    }
  }

  lemma CombineBounds(low: real, x: real, high: real, w: real, sum: real, r: real)
    requires low <= x <= high && w > 0.0 && low * r <= sum <= high * r
    ensures low * (w + r) <= x * w + sum <= high * (w + r)
  {
    MulBounds(low, x, high, w);
    Distribute(low, w, r);
    Distribute(high, w, r);
  }

  lemma Distribute(a: real, w: real, r: real)
    ensures a * (w + r) == a * w + a * r
  {
  }

  lemma MulBounds(low: real, x: real, high: real, w: real)
    requires low <= x <= high && w > 0.0
    ensures low * w <= x * w <= high * w
  {
  }

  predicate ItemsWithin(s: Items<int>, low: int, high: int) {
    forall e :: e in Weighted(s) ==> low <= e.0 <= high
  }

  lemma AverageOfWithin(entries: seq<(int, real)>, low: int, high: int)
    requires entries != [] && forall e :: e in entries ==> low <= e.0 <= high && e.1 > 0.0
    ensures low as real <= AverageOf(entries) <= high as real
  {
    WeightedSumBounds(entries, low, high);
    var w := WeightSum(entries);
    DivideMonotone(low as real * w, WeightedSum(entries), w);
    DivideMonotone(WeightedSum(entries), high as real * w, w);
    assert low as real * w / w == low as real && high as real * w / w == high as real;
  }

  lemma AverageWithin(s: Items<int>, low: int, high: int)
    requires ItemsWithin(s, low, high)
    ensures low as real <= AverageOf(Weighted(s)) <= high as real
  {
    AverageOfWithin(Weighted(s), low, high);
  }

  // ----- The first scores and the image correction -----

  function Blend(matching: int, avg: real): real {
    matching as real * 0.55 + avg * 0.45
  }

  function FirstScores(p: Parsed): Scores {
    var items := NormalizeItems(p.items);
    var avg := AverageOf(Weighted(items));
    var matching := ClampScore(if p.matching.Some? then p.matching.value else avg);
    Scores(items, matching, ClampScore(if p.ai.Some? then p.ai.value else Blend(matching, avg)))
  }

  /** The scores after an image comparison that found `sim` percent similarity. */
  function Corrected(s: Scores, sim: int): Scores {
    var items := s.items.(image := sim);
    var matching0, ai0 := ClampScore(s.matching as real), ClampScore(s.ai as real);
    var avg := AverageOf(Weighted(items));
    if sim < 40 then
      var matching := Min(matching0, Max(sim + 15, 25));
      Scores(items, matching, Min(Min(ai0, matching), Max(sim + 10, 20)))
    else if sim < 60 then
      var matching := Min(matching0, sim + 25);
      Scores(items, matching, Min(Min(ai0, sim + 20), matching))
    else
      var matching := ClampScore(Blend(matching0, avg));
      Scores(items, matching, ClampScore(Blend(matching, avg)))
  }

  method ApplyVisionToMatching(s: Scores, similarity: Number) returns (r: Scores)
    ensures r == Corrected(s, Clamp(similarity))
  {
    var visionSim := Clamp(similarity);
    var items := s.items.(image := visionSim);
    var matchingScore := ClampScore(s.matching as real);
    var aiScore := ClampScore(s.ai as real);
    var weighted := WeightedAverage(Weighted(items));
    if visionSim < 40 {
      matchingScore := Min(matchingScore, Max(visionSim + 15, 25));
      aiScore := Min(Min(aiScore, matchingScore), Max(visionSim + 10, 20));
    } else if visionSim < 60 {
      matchingScore := Min(matchingScore, visionSim + 25);
      aiScore := Min(Min(aiScore, visionSim + 20), matchingScore);
    } else {
      matchingScore := ClampScore(matchingScore as real * 0.55 + weighted * 0.45);
      aiScore := ClampScore(matchingScore as real * 0.55 + weighted * 0.45);
    }
    r := Scores(items, matchingScore, aiScore);
  }

  predicate Percentages(s: Scores) {
    ItemsWithin(s.items, 0, 100) && 0 <= s.matching <= 100 && 0 <= s.ai <= 100
  }

  /** The caps of the two lower bands, for all scores. */
  lemma CorrectionCaps(s: Scores, sim: int)
    requires 0 <= sim <= 100
    ensures var r := Corrected(s, sim);
      && r.items == s.items.(image := sim)
      && 0 <= r.matching <= 100 && 0 <= r.ai <= 100
      && (sim < 40 ==> r.matching <= 54 && r.ai <= 49 && r.ai <= r.matching)
      && (40 <= sim < 60 ==> r.matching <= sim + 25 && r.ai <= sim + 20 <= 79 && r.ai <= r.matching)
  {
  }

  lemma FieldsWithin(s: Items<int>, low: int, high: int)
    requires low <= s.brand <= high && low <= s.model <= high && low <= s.productName <= high && low <= s.price <= high
    requires low <= s.option <= high && low <= s.color <= high && low <= s.image <= high
    requires low <= s.description <= high && low <= s.ocr <= high
    ensures ItemsWithin(s, low, high)
  {
    var w := Weighted(s);
    forall e | e in w ensures low <= e.0 <= high {
      var i :| 0 <= i < 9 && w[i] == e;
    }
  }

  lemma FirstScoresArePercentages(p: Parsed)
    ensures Percentages(FirstScores(p))
  {
    FieldsWithin(NormalizeItems(p.items), 0, 100);
  }

  /**
   * In the top band both scores stay within any integer bounds that hold the matching score,
   * the image similarity and every other item score.
   */
  lemma TopBandIsConsensus(s: Scores, sim: int, low: int, high: int)
    requires 60 <= sim <= 100 && 0 <= low <= s.matching <= high <= 100
    requires ItemsWithin(s.items.(image := sim), low, high)
    ensures var r := Corrected(s, sim); low <= r.matching <= high && low <= r.ai <= high
  {
    var avg := AverageOf(Weighted(s.items.(image := sim)));
    AverageWithin(s.items.(image := sim), low, high);
    RoundOfInt(s.matching);
    BlendWithin(s.matching, avg, low, high);
    BlendWithin(ClampScore(Blend(s.matching, avg)), avg, low, high);
  }

  lemma BlendWithin(m: int, avg: real, low: int, high: int)
    requires 0 <= low <= m <= high <= 100 && low as real <= avg <= high as real
    ensures low <= ClampScore(Blend(m, avg)) <= high
  {
    RoundBelow(Blend(m, avg), low);
    RoundBelow(Blend(m, avg), high + 1);
  }

  // ----- The scores in closed form -----

  function OrZero(n: Option<real>): real {
    if n.Some? then n.value else 0.0
  }

  /** What the nine item scores come to: shares that add up to 1. */
  function Mean(s: Items<int>): real {
    0.2 * s.productName as real + 0.15 * (s.brand + s.model + s.image) as real + 0.1 * s.price as real
    + 0.08 * s.option as real + 0.07 * s.color as real + 0.05 * (s.description + s.ocr) as real
  }

  lemma ConsSums(score: int, weight: real, rest: seq<(int, real)>)
    ensures WeightedSum([(score, weight)] + rest) == score as real * weight + WeightedSum(rest)
    ensures WeightSum([(score, weight)] + rest) == weight + WeightSum(rest)
  {
    assert ([(score, weight)] + rest)[1..] == rest;
  }

  lemma ThreeSums(a: (int, real), b: (int, real), c: (int, real), rest: seq<(int, real)>)
    ensures WeightedSum([a, b, c] + rest) == a.0 as real * a.1 + b.0 as real * b.1 + c.0 as real * c.1 + WeightedSum(rest)
    ensures WeightSum([a, b, c] + rest) == a.1 + b.1 + c.1 + WeightSum(rest)
  {
    ConsSums(c.0, c.1, rest);
    ConsSums(b.0, b.1, [c] + rest);
    ConsSums(a.0, a.1, [b] + ([c] + rest));
    assert [a] + ([b] + ([c] + rest)) == [a, b, c] + rest;
  }

  lemma AverageIsMean(s: Items<int>)
    ensures AverageOf(Weighted(s)) == Mean(s)
  {
    var w := Weighted(s);
    ThreeSums(w[6], w[7], w[8], []);
    ThreeSums(w[3], w[4], w[5], w[6..]);
    ThreeSums(w[0], w[1], w[2], w[3..]);
    assert w[6..] == [w[6], w[7], w[8]] + [];
    assert w[3..] == [w[3], w[4], w[5]] + w[6..];
    assert w == [w[0], w[1], w[2]] + w[3..];
  }

  /** The scores of a reply without images: a missing matching score is the mean, a missing AI score blends both. */
  lemma FirstScoresAreExact(p: Parsed)
    ensures var s := FirstScores(p);
      && IsPercent(s.items.brand, OrZero(p.items.brand)) && IsPercent(s.items.model, OrZero(p.items.model))
      && IsPercent(s.items.productName, OrZero(p.items.productName)) && IsPercent(s.items.price, OrZero(p.items.price))
      && IsPercent(s.items.option, OrZero(p.items.option)) && IsPercent(s.items.color, OrZero(p.items.color))
      && IsPercent(s.items.image, OrZero(p.items.image)) && IsPercent(s.items.description, OrZero(p.items.description))
      && IsPercent(s.items.ocr, OrZero(p.items.ocr))
      && IsPercent(s.matching, if p.matching.Some? then p.matching.value else Mean(s.items))
      && IsPercent(s.ai, if p.ai.Some? then p.ai.value else 0.55 * s.matching as real + 0.45 * Mean(s.items))
  {
    var s := FirstScores(p);
    AverageIsMean(s.items);
    forall x: real ensures IsPercent(ClampScore(x), x) {
      ClampScoreIsPercent(x);
    }
  }

  /** `x` is the least of `a` and the greater of `b` and `c`. */
  predicate IsCapped(x: int, a: int, b: int, c: int) {
    x <= a && (x <= b || x <= c) && (x == a || (x >= b && x >= c))
  }

  /** Below 60 the correction only caps. */
  lemma CapsAreExact(s: Scores, sim: int)
    requires Percentages(s) && 0 <= sim < 60
    ensures var r := Corrected(s, sim); var ai := Min(s.ai, r.matching);
      && r.items == s.items.(image := sim)
      && (sim < 40 ==> IsCapped(r.matching, s.matching, sim + 15, 25) && IsCapped(r.ai, ai, sim + 10, 20))
      && (sim >= 40 ==> IsCapped(r.matching, s.matching, sim + 25, sim + 25) && IsCapped(r.ai, ai, sim + 20, sim + 20))
  {
    RoundOfInt(s.matching);
    RoundOfInt(s.ai);
  }

  /** From 60 on the mean with the new image score is blended into both scores. */
  lemma TopBandIsExact(s: Scores, sim: int)
    requires Percentages(s) && 60 <= sim <= 100
    ensures var r := Corrected(s, sim);
      && r.items == s.items.(image := sim)
      && IsPercent(r.matching, 0.55 * s.matching as real + 0.45 * Mean(r.items))
      && IsPercent(r.ai, 0.55 * r.matching as real + 0.45 * Mean(r.items))
  {
    var r := Corrected(s, sim);
    AverageIsMean(r.items);
    RoundOfInt(s.matching);
    ClampScoreIsPercent(Blend(s.matching, Mean(r.items)));
    ClampScoreIsPercent(Blend(r.matching, Mean(r.items)));
  }

  /**
   * The correction, band by band: different images cap both scores by the similarity plus 15
   * and 10 with floors of 25 and 20, doubtful ones by the similarity plus 25 and 20, and alike
   * ones blend the mean with the new image score into both.
   */
  lemma CorrectionIsExact(s: Scores, sim: int)
    requires Percentages(s) && 0 <= sim <= 100
    ensures var r := Corrected(s, sim); var ai := Min(s.ai, r.matching);
      && r.items == s.items.(image := sim)
      && (sim < 40 ==> IsCapped(r.matching, s.matching, sim + 15, 25) && IsCapped(r.ai, ai, sim + 10, 20))
      && (40 <= sim < 60 ==> IsCapped(r.matching, s.matching, sim + 25, sim + 25) && IsCapped(r.ai, ai, sim + 20, sim + 20))
      && (sim >= 60 ==>
            && IsPercent(r.matching, 0.55 * s.matching as real + 0.45 * Mean(r.items))
            && IsPercent(r.ai, 0.55 * r.matching as real + 0.45 * Mean(r.items)))
  {
    if sim < 60 {
      CapsAreExact(s, sim);
    } else {
      TopBandIsExact(s, sim);
    }
  }
}
