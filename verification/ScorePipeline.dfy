/**
 * From a model reply and two images to the fate of a listing: local gate, score correction,
 * the 0..1 score, the rule engine and the create decision, across five source files.
 */
module ScorePipeline {
  import opened Common
  import opened LocalGate
  import opened Matching
  import opened RuleEngine

  /** What the local gate stage did: switched off, no images, an exception, or a result. */
  datatype GateOutcome = GateOff | NoImages | GateThrew | Gated(result: GateResult)

  datatype VisionOutcome = VisionOff | VisionThrew | Compared(similarity: Number)

  datatype Comparison = Comparison(enabled: bool, bothUrls: bool, gate: GateOutcome, vision: VisionOutcome)

  /** Image comparison is worth its cost only for listings whose text already matches somewhat. */
  predicate ShouldCompare(s: Matching.Scores, c: Comparison) {
    && c.enabled && c.bothUrls
    && (s.matching >= 50 || s.items.brand >= 60 || s.items.productName >= 60 || s.items.model >= 60)
  }

  /** The image similarity that ends up correcting the scores, if any does. */
  function ImageVerdict(s: Matching.Scores, c: Comparison): Option<int> {
    if !ShouldCompare(s, c) || c.gate.GateThrew? then None
    else if c.gate.Gated? && !c.gate.result.callVision then Some(ClampScore(c.gate.result.localSimilarity as real))
    else if c.vision.Compared? then Some(Clamp(c.vision.similarity))
    else None
  }

  function MatchListing(p: Parsed, c: Comparison): Matching.Scores {
    var s := FirstScores(p);
    var verdict := ImageVerdict(s, c);
    if verdict.Some? then Corrected(s, verdict.value) else s
  }

  // ----- The 0..1 score of a result -----

  /** The score fields of a search result; a stored number may be missing or not finite. */
  datatype ResultScores = ResultScores(
    ai: Option<Number>, matching: Option<Number>, title: Option<Number>, image: Option<Number>)

  function Clamp01(x: real): real {
    MaxReal(0.0, MinReal(1.0, x))
  }

  predicate Usable(n: Option<Number>) {
    n.Some? && n.value.Finite?
  }

  function ValueOrZero(n: Option<Number>): real {
    if Usable(n) then n.value.value else 0.0
  }

  /** The engine's own score first, then the matching score, then the better similarity. */
  function ComputeAiScore(r: ResultScores): real {
    if Usable(r.ai) then Clamp01(r.ai.value.value / 100.0)
    else if Usable(r.matching) then Clamp01(r.matching.value.value / 100.0)
    else Clamp01(MaxReal(ValueOrZero(r.title), ValueOrZero(r.image)))
  }

  function ScorePercent(r: ResultScores): int {
    Round(ComputeAiScore(r) * 100.0)
  }

  lemma ScorePercentInRange(r: ResultScores)
    ensures 0.0 <= ComputeAiScore(r) <= 1.0 && 0 <= ScorePercent(r) <= 100
  {
    RoundBelow(ComputeAiScore(r) * 100.0, 0);
    RoundBelow(ComputeAiScore(r) * 100.0, 101);
  }

  /** A matched listing carries its scores as numbers, the item scores as fractions. */
  function ToResult(s: Matching.Scores): ResultScores {
    ResultScores(Some(Finite(s.ai as real)), Some(Finite(s.matching as real)),
      Some(Finite(s.items.productName as real / 100.0)), Some(Finite(s.items.image as real / 100.0)))
  }

  /** An integer score survives the trip through 0..1 and back. */
  lemma ScoreRoundTrip(s: Matching.Scores)
    requires 0 <= s.ai <= 100
    ensures ScorePercent(ToResult(s)) == s.ai
  {
    var x := s.ai as real / 100.0;
    assert 0.0 <= x <= 1.0 && x * 100.0 == s.ai as real;
    RoundOfInt(s.ai);
  }

  // ----- The decision about one result -----

  datatype Settings = Settings(rules: Option<seq<Rule>>, threshold: Number, watchlistMin: int)

  datatype Prices = Prices(rental: Option<real>, listing: Option<real>)

  datatype Decision =
    | Excluded(matched: seq<Rule>)
    | NotCreated(warnings: seq<Rule>)
    | Opened(watchlisted: bool, warnings: seq<Rule>)

  function ContextOf(r: ResultScores, p: Prices): Context {
    NormalizeContext(RawContext(Finite(ScorePercent(r) as real), r.matching, r.title, r.image, p.rental, p.listing))
  }

  /** The rules read a matched listing's scores as they are: item scores survive as fractions and back. */
  lemma ScoresAreRead(s: Matching.Scores, p: Prices)
    requires Percentages(s) && 0 <= s.items.productName <= 100 && 0 <= s.items.image <= 100
    ensures var c := ContextOf(ToResult(s), p);
      && c.aiScore == s.ai && c.matchingScore == Some(s.matching)
      && c.title == Some(s.items.productName) && c.image == Some(s.items.image)
  {
    ScoreRoundTrip(s);
    RoundOfInt(s.ai);
    RoundOfInt(s.matching);
    RoundOfInt(s.items.productName);
    RoundOfInt(s.items.image);
  }

  predicate BelowThreshold(score: int, threshold: Number) {
    threshold.Finite? && (score as real) < threshold.value
  }

  predicate AtThreshold(score: int, threshold: Number) {
    threshold.Finite? && (score as real) >= threshold.value
  }

  function Decide(settings: Settings, r: ResultScores, p: Prices): Decision {
    var score := ScorePercent(r);
    var watch := settings.watchlistMin > 0 && score >= settings.watchlistMin;
    match settings.rules
    case Some(rules) =>
      var e := Evaluated(rules, ContextOf(r, p));
      if e.exclude then Excluded(e.matched)
      else if e.create then Opened(false, e.warnings)
      else if watch && BelowThreshold(score, settings.threshold) then Opened(true, e.warnings)
      else NotCreated(e.warnings)
    case None =>
      if AtThreshold(score, settings.threshold) then Opened(false, [])
      else if watch then Opened(true, [])
      else NotCreated([])
  }

  /** The default rules, in whatever order, with their own create threshold. */
  predicate UsesDefaultRules(settings: Settings, createThreshold: Number) {
    && settings.rules.Some?
    && multiset(settings.rules.value) == multiset(DefaultRules(createThreshold))
    && settings.threshold == CreateThreshold(settings.rules.value, NotFinite)
  }

  lemma ContextScore(r: ResultScores, p: Prices)
    ensures ContextOf(r, p).aiScore == ScorePercent(r)
  {
    ScorePercentInRange(r);
    RoundOfInt(ScorePercent(r));
  }

  lemma {:induction false} FirstCreateIsSome(rules: seq<Rule>)
    ensures FirstCreateValue(rules).Some? <==> exists r :: r in rules && r.action.CreateInvestigation?
    ensures FirstCreateValue(rules).Some? ==>
      exists r :: r in rules && r.action.CreateInvestigation? && FirstCreateValue(rules) == Some(r.value)
  {
    if rules == [] {
    } else {
      FirstCreateIsSome(rules[1..]);
      assert rules == [rules[0]] + rules[1..];
    }
  }

  /** Reordering the default rules does not move the threshold. */
  lemma DefaultThreshold(rules: seq<Rule>, createThreshold: Number)
    requires multiset(rules) == multiset(DefaultRules(createThreshold))
    ensures CreateThreshold(rules, NotFinite) == Finite(Clamp(createThreshold) as real)
  {
    var defaults := DefaultRules(createThreshold);
    var create := CreateHighScore(Clamp(createThreshold));
    assert defaults[1] == create && create in defaults;
    assert forall r :: r in rules <==> r in multiset(rules);
    assert forall r :: r in defaults <==> r in multiset(defaults);
    assert create in rules;
    assert forall r :: r in defaults ==> r == ExcludeLowScore() || r == create || r == PriceWarning();
    FirstCreateIsSome(rules);
    RoundOfInt(Clamp(createThreshold));
  }

  /**
   * What the default rules make of a score, exactly: below 50 always excluded; opened from the
   * threshold on; watchlisted between the watchlist minimum and the threshold.
   */
  lemma DefaultDecision(settings: Settings, createThreshold: Number, r: ResultScores, p: Prices)
    requires UsesDefaultRules(settings, createThreshold)
    ensures var score, t := ScorePercent(r), Clamp(createThreshold); var d := Decide(settings, r, p);
      && (d.Excluded? <==> score < 50)
      && (d.Opened? && !d.watchlisted <==> score >= 50 && score >= t)
      && (d.Opened? && d.watchlisted <==> score >= 50 && settings.watchlistMin > 0 && settings.watchlistMin <= score < t)
  {
    ContextScore(r, p);
    DefaultRulesDecide(settings.rules.value, createThreshold, ContextOf(r, p));
    DefaultThreshold(settings.rules.value, createThreshold);
  }

  /** The percentage is the engine's score, else the matching score, else the better similarity in percent. */
  lemma ScorePercentIsExact(r: ResultScores)
    ensures IsPercent(ScorePercent(r),
      if Usable(r.ai) then r.ai.value.value
      else if Usable(r.matching) then r.matching.value.value
      else 100.0 * MaxReal(ValueOrZero(r.title), ValueOrZero(r.image)))
    ensures forall n: Option<Number> :: ValueOrZero(n) == (if n.Some? && n.value.Finite? then n.value.value else 0.0)
  {
    var x :=
      if Usable(r.ai) then r.ai.value.value
      else if Usable(r.matching) then r.matching.value.value
      else 100.0 * MaxReal(ValueOrZero(r.title), ValueOrZero(r.image));
    assert ComputeAiScore(r) * 100.0 == MaxReal(0.0, MinReal(100.0, x));
    ScorePercentInRange(r);
    RoundBelow(x, ScorePercent(r));
    RoundBelow(x, ScorePercent(r) + 1);
    RoundOfInt(0);
    RoundOfInt(100);
  }

  /** Some rule with this action holds for the result. */
  predicate Triggers(rules: seq<Rule>, r: ResultScores, p: Prices, action: Action) {
    exists rule :: rule in rules && rule.action == action && Matches(rule, ContextOf(r, p))
  }

  predicate Watched(settings: Settings, score: int) {
    settings.watchlistMin > 0 && score >= settings.watchlistMin
  }

  /**
   * The decision by any rules: excluded iff an exclude rule holds, opened iff otherwise a create
   * rule holds, watchlisted iff neither does and the score is from the watchlist minimum up to
   * below the threshold. Without rules there is no exclusion and the threshold alone opens.
   */
  lemma DecisionIsExact(settings: Settings, r: ResultScores, p: Prices)
    ensures var d := Decide(settings, r, p); var score := ScorePercent(r);
      && (settings.rules.Some? ==>
            var rules := settings.rules.value;
            && (d.Excluded? <==> Triggers(rules, r, p, Exclude))
            && (d.Opened? && !d.watchlisted <==> !Triggers(rules, r, p, Exclude) && Triggers(rules, r, p, CreateInvestigation))
            && (d.Opened? && d.watchlisted <==>
                  && !Triggers(rules, r, p, Exclude) && !Triggers(rules, r, p, CreateInvestigation)
                  && Watched(settings, score) && settings.threshold.Finite? && (score as real) < settings.threshold.value)
            && (!d.Excluded? ==> (d.warnings != [] <==> Triggers(rules, r, p, Warning))))
      && (settings.rules.None? ==>
            && !d.Excluded? && d.warnings == []
            && (d.Opened? && !d.watchlisted <==> settings.threshold.Finite? && score as real >= settings.threshold.value)
            && (d.Opened? && d.watchlisted <==>
                  Watched(settings, score) && !(settings.threshold.Finite? && score as real >= settings.threshold.value)))
  {
    if settings.rules.Some? {
      WarningsIff(settings.rules.value, ContextOf(r, p));
    }
  }

  // ----- When images are compared -----

  /** The text of the listing matches somewhat: at least 50 overall, or 60 in brand, name or model. */
  predicate SomewhatAlike(p: Parsed) {
    var s := FirstScores(p);
    s.matching >= 50 || s.items.brand >= 60 || s.items.productName >= 60 || s.items.model >= 60
  }

  predicate GateRefuses(c: Comparison) {
    c.gate.Gated? && !c.gate.result.callVision
  }

  /**
   * The images are rated `v`: by the gate that refuses with its local similarity, or else by the
   * vision model, where an answer that is no finite number counts as 0.
   */
  predicate ImagesRated(c: Comparison, v: int) {
    if GateRefuses(c) then IsPercent(v, c.gate.result.localSimilarity as real)
    else
      && !c.gate.GateThrew? && c.vision.Compared?
      && if c.vision.similarity.Finite? then IsPercent(v, c.vision.similarity.value) else v == 0
  }

  /**
   * A listing keeps its first scores for want of a comparison exactly when the comparison is
   * off, a URL is missing, its text is not alike enough, the gate threw, or the gate let it go on
   * and the vision model was off or threw.
   */
  lemma NoVerdictIff(p: Parsed, c: Comparison)
    ensures ImageVerdict(FirstScores(p), c).None? <==>
      || !c.enabled || !c.bothUrls || !SomewhatAlike(p) || c.gate.GateThrew?
      || (!GateRefuses(c) && (c.vision.VisionOff? || c.vision.VisionThrew?))
    ensures ImageVerdict(FirstScores(p), c).None? ==> MatchListing(p, c) == FirstScores(p)
    ensures ImageVerdict(FirstScores(p), c).Some? ==> MatchListing(p, c).items.image == ImageVerdict(FirstScores(p), c).value
  {
  }

  lemma VerdictIsRating(p: Parsed, c: Comparison, v: int)
    requires c.enabled && c.bothUrls && SomewhatAlike(p)
    ensures ImagesRated(c, v) <==> ImageVerdict(FirstScores(p), c) == Some(v)
  {
    if GateRefuses(c) {
      ClampScoreIsPercent(c.gate.result.localSimilarity as real);
    } else if c.vision.Compared? && c.vision.similarity.Finite? {
      ClampScoreIsPercent(c.vision.similarity.value);
    }
  }

  // ----- The theorems across the pipeline -----

  function Fate(settings: Settings, p: Parsed, c: Comparison, prices: Prices): Decision {
    Decide(settings, ToResult(MatchListing(p, c)), prices)
  }

  lemma VerdictCaps(p: Parsed, c: Comparison)
    ensures var s := MatchListing(p, c); var v := ImageVerdict(FirstScores(p), c);
      && 0 <= s.ai <= 100
      && (v.Some? ==> 0 <= v.value <= 100 && s.items.image == v.value)
      && (v.Some? && v.value < 40 ==> s.ai <= 49)
      && (v.Some? && 40 <= v.value < 60 ==> s.ai <= 79)
  {
    FirstScoresArePercentages(p);
    var v := ImageVerdict(FirstScores(p), c);
    if v.Some? {
      CorrectionCaps(FirstScores(p), v.value);
    }
  }

  /**
   * A listing whose images are rated below 40 is always excluded and never opens a case: for
   * every model reply alike enough to be compared, every price and every ordering of the default
   * rules.
   */
  lemma DifferentImagesAreExcluded(
      settings: Settings, createThreshold: Number, p: Parsed, c: Comparison, prices: Prices, v: int)
    requires UsesDefaultRules(settings, createThreshold)
    requires c.enabled && c.bothUrls && SomewhatAlike(p) && ImagesRated(c, v) && v < 40
    ensures MatchListing(p, c).ai <= 49
    ensures Fate(settings, p, c, prices).Excluded?
  {
    VerdictIsRating(p, c, v);
    VerdictCaps(p, c);
    ScoreRoundTrip(MatchListing(p, c));
    DefaultDecision(settings, createThreshold, ToResult(MatchListing(p, c)), prices);
  }

  /** The early gate's blocks are such listings under any thresholds that keep them low. */
  lemma EarlyBlockIsExcluded(
      settings: Settings, createThreshold: Number, p: Parsed, c: Comparison, prices: Prices,
      color: Engine, pHash: Engine, ssim: Engine, looksSame: Engine, openCv: Engine, t: Thresholds)
    requires UsesDefaultRules(settings, createThreshold)
    requires t.colorReject <= 39.5 && t.pHashReject <= 39.5
    requires InRange(color) && InRange(pHash) && (Below(color, t.colorReject) || Below(pHash, t.pHashReject))
    requires c.gate == Gated(Evaluate(color, pHash, ssim, looksSame, openCv, t))
    requires c.enabled && c.bothUrls && SomewhatAlike(p)
    ensures Fate(settings, p, c, prices).Excluded?
  {
    EarlyBlocksLandLow(t);
    assert DecideEarly(color, pHash, t).Block?;
    var local := c.gate.result.localSimilarity;
    ClampScoreIsPercent(local as real);
    RoundOfInt(local);
    DifferentImagesAreExcluded(settings, createThreshold, p, c, prices, ClampScore(local as real));
  }

  /**
   * A listing whose images are rated 40 to 59 is never auto-created at a threshold of 80 or
   * more. It is not ignored either: it opens a watchlisted case exactly from the watchlist
   * minimum on.
   */
  lemma DoubtfulImagesAreNotAutoCreated(
      settings: Settings, createThreshold: Number, p: Parsed, c: Comparison, prices: Prices, v: int)
    requires UsesDefaultRules(settings, createThreshold) && Clamp(createThreshold) >= 80
    requires c.enabled && c.bothUrls && SomewhatAlike(p) && ImagesRated(c, v) && 40 <= v < 60
    ensures MatchListing(p, c).ai <= 79
    ensures var d := Fate(settings, p, c, prices); var ai := MatchListing(p, c).ai;
      && (d.Opened? ==> d.watchlisted)
      && (d.Opened? <==> ai >= 50 && settings.watchlistMin > 0 && ai >= settings.watchlistMin)
      && (d.Excluded? <==> ai < 50)
  {
    VerdictIsRating(p, c, v);
    VerdictCaps(p, c);
    ScoreRoundTrip(MatchListing(p, c));
    DefaultDecision(settings, createThreshold, ToResult(MatchListing(p, c)), prices);
  }

  /** With the configured defaults (90 and 70) a doubtful listing can indeed open a case. */
  lemma DoubtfulImagesCanBeWatchlisted(prices: Prices)
    ensures
      var rules := DefaultRules(Finite(90.0));
      var settings := Settings(Some(rules), CreateThreshold(rules, NotFinite), 70);
      var full := Some(100.0);
      var p := Parsed(Items(full, full, full, full, full, full, full, full, full), full, full);
      var c := Comparison(true, true, GateOff, Compared(Finite(55.0)));
      MatchListing(p, c).ai == 75 && Fate(settings, p, c, prices).Opened? && Fate(settings, p, c, prices).watchlisted
  {
    var rules := DefaultRules(Finite(90.0));
    var settings := Settings(Some(rules), CreateThreshold(rules, NotFinite), 70);
    var full := Some(100.0);
    var p := Parsed(Items(full, full, full, full, full, full, full, full, full), full, full);
    var c := Comparison(true, true, GateOff, Compared(Finite(55.0)));
    RoundOfInt(100);
    RoundOfInt(55);
    RoundOfInt(90);
    var s := FirstScores(p);
    assert s.matching == 100 && s.ai == 100;
    assert ImageVerdict(s, c) == Some(55);
    VerdictIsRating(p, c, 55);
    assert MatchListing(p, c).ai == 75;
    DoubtfulImagesAreNotAutoCreated(settings, Finite(90.0), p, c, prices, 55);
  }
}
