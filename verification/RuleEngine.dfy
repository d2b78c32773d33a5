/** The rule engine that excludes, creates or warns (ai-rule-engine.service.ts, default-rules.ts). */
module RuleEngine {
  import opened Common
  import opened Matching
  import opened Sorting

  datatype Field = AiScoreField | MatchingScoreField | PriceDiffField | TitleField | ImageField | OtherField
  datatype Operator = Gte | Lte | Gt | Lt | Eq | OtherOperator
  datatype Action = Exclude | CreateInvestigation | Warning | OtherAction

  /** A rule in force; disabled ones are not loaded. */
  datatype Rule = Rule(code: string, priority: int, field: Field, operator: Operator, value: real, action: Action)

  datatype RawContext = RawContext(
    aiScore: Number, matchingScore: Option<Number>, title: Option<Number>, image: Option<Number>,
    rentalPrice: Option<real>, listingPrice: Option<real>)

  datatype Context = Context(
    aiScore: int, matchingScore: Option<int>, title: Option<int>, image: Option<int>, priceDiffPercent: Option<real>)

  datatype Evaluation = Evaluation(create: bool, exclude: bool, warnings: seq<Rule>, matched: seq<Rule>, createThreshold: Option<real>)

  // ----- Normalising the context -----

  /** A similarity in 0..1 or in 0..100, as 0..100. */
  function NormalizeSimilarity(n: Number): int {
    if n.NotFinite? then 0
    else if 0.0 <= n.value <= 1.0 then Round(n.value * 100.0)
    else Clamp(n)
  }

  function Abs(x: real): real {
    if x < 0.0 then -x else x
  }

  function PriceDiff(rental: Option<real>, listing: Option<real>): Option<real> {
    if rental.None? || listing.None? || rental.value <= 0.0 then None
    else Some(Abs((listing.value - rental.value) / rental.value * 100.0))
  }

  function NormalizeContext(c: RawContext): Context {
    Context(
      Clamp(c.aiScore),
      if c.matchingScore.Some? then Some(Clamp(c.matchingScore.value)) else None,
      if c.title.Some? then Some(NormalizeSimilarity(c.title.value)) else None,
      if c.image.Some? then Some(NormalizeSimilarity(c.image.value)) else None,
      PriceDiff(c.rentalPrice, c.listingPrice))
  }

  function IntField(n: Option<int>): Option<real> {
    if n.Some? then Some(n.value as real) else None
  }

  function ReadField(c: Context, f: Field): Option<real> {
    match f
    case AiScoreField => Some(c.aiScore as real)
    case MatchingScoreField => IntField(c.matchingScore)
    case PriceDiffField => c.priceDiffPercent
    case TitleField => IntField(c.title)
    case ImageField => IntField(c.image)
    case OtherField => None
  }

  function Compare(actual: real, op: Operator, expected: real): bool {
    match op
    case Gte => actual >= expected
    case Lte => actual <= expected
    case Gt => actual > expected
    case Lt => actual < expected
    case Eq => Abs(actual - expected) < 0.000000001
    case OtherOperator => false
  }

  predicate Matches(r: Rule, c: Context) {
    ReadField(c, r.field).Some? && Compare(ReadField(c, r.field).value, r.operator, r.value)
  }

  // ----- Evaluating -----

  function HigherPriorityFirst(): (Rule, Rule) -> bool {
    (a: Rule, b: Rule) => a.priority >= b.priority
  }

  function MatchedRules(rules: seq<Rule>, c: Context): seq<Rule> {
    if rules == [] then []
    else (if Matches(rules[0], c) then [rules[0]] else []) + MatchedRules(rules[1..], c)
  }

  function WithAction(rules: seq<Rule>, a: Action): seq<Rule> {
    if rules == [] then []
    else (if rules[0].action == a then [rules[0]] else []) + WithAction(rules[1..], a)
  }

  predicate Fires(rules: seq<Rule>, c: Context, a: Action) {
    exists r :: r in rules && r.action == a && Matches(r, c)
  }

  function FirstCreateValue(rules: seq<Rule>): Option<real> {
    if rules == [] then None
    else if rules[0].action.CreateInvestigation? then Some(rules[0].value)
    else FirstCreateValue(rules[1..])
  }

  function Evaluated(rules: seq<Rule>, c: Context): Evaluation {
    var sorted := Sort(rules, HigherPriorityFirst());
    var matched := MatchedRules(sorted, c);
    Evaluation(
      Fires(rules, c, CreateInvestigation) && !Fires(rules, c, Exclude),
      Fires(rules, c, Exclude),
      WithAction(matched, Warning),
      matched,
      FirstCreateValue(sorted))
  }

  lemma {:induction false} MatchedSnoc(rules: seq<Rule>, c: Context, k: nat)
    requires k < |rules|
    ensures MatchedRules(rules[..k + 1], c) ==
      MatchedRules(rules[..k], c) + (if Matches(rules[k], c) then [rules[k]] else [])
    decreases k
  {
    assert rules[..k + 1][0] == rules[0];
    if k == 0 {
      assert rules[..1][1..] == [] && rules[..0] == [];
    } else {
      assert rules[..k + 1][1..] == rules[1..][..k] && rules[..k][1..] == rules[1..][..k - 1];
      MatchedSnoc(rules[1..], c, k - 1);
    }
  }

  lemma {:induction false} ActionSnoc(rules: seq<Rule>, r: Rule, a: Action)
    ensures WithAction(rules + [r], a) == WithAction(rules, a) + (if r.action == a then [r] else [])
  {
    if rules == [] {
      assert [] + [r] == [r] && [r][1..] == [];
    } else {
      var first := if rules[0].action == a then [rules[0]] else [];
      var last := if r.action == a then [r] else [];
      assert (rules + [r])[0] == rules[0] && (rules + [r])[1..] == rules[1..] + [r];
      ActionSnoc(rules[1..], r, a);
      assert first + (WithAction(rules[1..], a) + last) == (first + WithAction(rules[1..], a)) + last;
    }
  }

  lemma {:induction false} FirstCreateSnoc(rules: seq<Rule>, k: nat)
    requires k < |rules|
    ensures FirstCreateValue(rules[..k + 1]) ==
      OrElse(FirstCreateValue(rules[..k]), if rules[k].action.CreateInvestigation? then Some(rules[k].value) else None)
    decreases k
  {
    assert rules[..k + 1][0] == rules[0];
    if k == 0 {
      assert rules[..1][1..] == [] && rules[..0] == [];
    } else {
      assert rules[..k + 1][1..] == rules[1..][..k] && rules[..k][1..] == rules[1..][..k - 1];
      FirstCreateSnoc(rules[1..], k - 1);
    }
  }

  /**
   * The evaluation loop. Whether it excludes or creates depends only on which rules match, in no
   * way on their order; the lists of matches follow descending priority.
   */
  method EvaluateRules(rules: seq<Rule>, c: Context) returns (e: Evaluation)
    ensures e == Evaluated(rules, c)
  {
    var sorted := Sort(rules, HigherPriorityFirst());
    var matched, warnings: seq<Rule> := [], [];
    var exclude, create := false, false;
    var createThreshold: Option<real> := None;
    var i := 0;
    while i < |sorted|
      invariant i <= |sorted|
      invariant matched == MatchedRules(sorted[..i], c)
      invariant warnings == WithAction(matched, Warning)
      invariant exclude <==> Fires(sorted[..i], c, Exclude)
      invariant create <==> Fires(sorted[..i], c, CreateInvestigation)
      invariant createThreshold == FirstCreateValue(sorted[..i])
    {
      var rule := sorted[i];
      MatchedSnoc(sorted, c, i);
      FirstCreateSnoc(sorted, i);
      ActionSnoc(matched, rule, Warning);
      assert sorted[..i + 1] == sorted[..i] + [rule];
      i := i + 1;
      if rule.action.CreateInvestigation? && createThreshold.None? {
        createThreshold := Some(rule.value);
      }
      var actual := ReadField(c, rule.field);
      if actual.None? || !Compare(actual.value, rule.operator, rule.value) {
        continue;
      }
      matched := matched + [rule];
      match rule.action {
        case Exclude => exclude := true;
        case CreateInvestigation => create := true;
        case Warning => warnings := warnings + [rule];
        case OtherAction =>
      }
    }
    assert sorted[..i] == sorted;
    SortKeepsMembers(rules, HigherPriorityFirst());
    if exclude {
      create := false;
    }
    e := Evaluation(create, exclude, warnings, matched, createThreshold);
  }

  /** The verdict is the same for every ordering of the rules. */
  lemma VerdictIgnoresOrder(a: seq<Rule>, b: seq<Rule>, c: Context)
    requires multiset(a) == multiset(b)
    ensures Evaluated(a, c).exclude == Evaluated(b, c).exclude
    ensures Evaluated(a, c).create == Evaluated(b, c).create
  {
    assert forall r :: r in a <==> r in multiset(a);
    assert forall r :: r in b <==> r in multiset(b);
  }

  lemma {:induction false} MatchedMembers(rules: seq<Rule>, c: Context)
    ensures forall r :: r in MatchedRules(rules, c) <==> r in rules && Matches(r, c)
  {
    if rules == [] {
    } else {
      MatchedMembers(rules[1..], c);
      assert rules == [rules[0]] + rules[1..];
    }
  }

  /** A rule is reported as matched exactly when it is one of the rules and its comparison holds. */
  lemma MatchedIsExact(rules: seq<Rule>, c: Context)
    ensures forall r :: r in Evaluated(rules, c).matched <==> r in rules && Matches(r, c)
    ensures Evaluated(rules, c).exclude <==> exists r :: r in Evaluated(rules, c).matched && r.action.Exclude?
  {
    SortKeepsMembers(rules, HigherPriorityFirst());
    MatchedMembers(Sort(rules, HigherPriorityFirst()), c);
  }

  // ----- The default rules -----

  function ExcludeLowScore(): Rule {
    Rule("auto_exclude_low_score", 200, AiScoreField, Lt, 50.0, Exclude)
  }

  function CreateHighScore(threshold: int): Rule {
    Rule("auto_create_high_score", 100, AiScoreField, Gte, threshold as real, CreateInvestigation)
  }

  function PriceWarning(): Rule {
    Rule("price_diff_warning", 50, PriceDiffField, Gte, 70.0, Warning)
  }

  function DefaultRules(createThreshold: Number): seq<Rule> {
    [ExcludeLowScore(), CreateHighScore(Clamp(createThreshold)), PriceWarning()]
  }

  /** What the default rules decide, in any order and for any context. */
  lemma DefaultRulesDecide(rules: seq<Rule>, createThreshold: Number, c: Context)
    requires multiset(rules) == multiset(DefaultRules(createThreshold))
    ensures Evaluated(rules, c).exclude <==> c.aiScore < 50
    ensures Evaluated(rules, c).create <==> c.aiScore >= 50 && c.aiScore >= Clamp(createThreshold)
  {
    var defaults := DefaultRules(createThreshold);
    assert forall r :: r in rules <==> r in multiset(rules);
    assert forall r :: r in defaults <==> r in multiset(defaults);
    var create := CreateHighScore(Clamp(createThreshold));
    assert forall r :: r in defaults <==> r == ExcludeLowScore() || r == create || r == PriceWarning();
    assert Matches(ExcludeLowScore(), c) <==> c.aiScore < 50;
    assert Matches(create, c) <==> c.aiScore >= Clamp(createThreshold);
  }

  lemma FiresCons(rules: seq<Rule>, c: Context, a: Action)
    requires rules != []
    ensures Fires(rules, c, a) <==> (rules[0].action == a && Matches(rules[0], c)) || Fires(rules[1..], c, a)
  {
    assert rules == [rules[0]] + rules[1..];
  }

  lemma {:induction false} WarningsAreMatches(rules: seq<Rule>, c: Context)
    ensures WithAction(MatchedRules(rules, c), Warning) != [] <==> Fires(rules, c, Warning)
  {
    if rules == [] {
    } else {
      var rest := MatchedRules(rules[1..], c);
      FiresCons(rules, c, Warning);
      WarningsAreMatches(rules[1..], c);
      if Matches(rules[0], c) {
        assert MatchedRules(rules, c) == [rules[0]] + rest && ([rules[0]] + rest)[1..] == rest;
      } else {
        assert MatchedRules(rules, c) == rest;
      }
    }
  }

  lemma WarningsIff(rules: seq<Rule>, c: Context)
    ensures Evaluated(rules, c).warnings != [] <==> Fires(rules, c, Warning)
  {
    SortKeepsMembers(rules, HigherPriorityFirst());
    WarningsAreMatches(Sort(rules, HigherPriorityFirst()), c);
  }

  lemma PriceDiffAtLeast70(rental: real, listing: real)
    requires rental > 0.0
    ensures Abs((listing - rental) / rental * 100.0) >= 70.0 <==> listing <= 0.3 * rental || listing >= 1.7 * rental
  {
    var q := (listing - rental) / rental;
    assert q * rental == listing - rental;
    if q >= 0.7 {
      assert (q - 0.7) * rental >= 0.0;
    } else if q <= -0.7 {
      assert (-0.7 - q) * rental >= 0.0;
    } else {
      assert (0.7 - q) * rental > 0.0 && (q + 0.7) * rental > 0.0;
    }
  }

  lemma OnlyPriceWarns(rules: seq<Rule>, createThreshold: Number, c: Context)
    requires multiset(rules) == multiset(DefaultRules(createThreshold))
    ensures Fires(rules, c, Warning) <==> Matches(PriceWarning(), c)
  {
    var defaults := DefaultRules(createThreshold);
    assert forall r :: r in rules <==> r in multiset(rules);
    assert forall r :: r in defaults <==> r in multiset(defaults);
    assert defaults[2] == PriceWarning() && PriceWarning() in rules;
  }

  /**
   * The default rules warn about the price exactly when both prices are known, the rental price is
   * positive, and the listing asks at most 30 or at least 170 percent of it.
   */
  lemma DefaultRulesWarnIff(rules: seq<Rule>, createThreshold: Number, raw: RawContext)
    requires multiset(rules) == multiset(DefaultRules(createThreshold))
    ensures Evaluated(rules, NormalizeContext(raw)).warnings != [] <==>
      && raw.rentalPrice.Some? && raw.listingPrice.Some? && raw.rentalPrice.value > 0.0
      && (raw.listingPrice.value <= 0.3 * raw.rentalPrice.value || raw.listingPrice.value >= 1.7 * raw.rentalPrice.value)
  {
    var c := NormalizeContext(raw);
    WarningsIff(rules, c);
    OnlyPriceWarns(rules, createThreshold, c);
    if raw.rentalPrice.Some? && raw.listingPrice.Some? && raw.rentalPrice.value > 0.0 {
      PriceDiffAtLeast70(raw.rentalPrice.value, raw.listingPrice.value);
    }
  }

  /**
   * Similarities are accepted as fractions or as percentages, told apart by size alone: a
   * percentage is read as one exactly when it is above 1 or rounds to nothing; 1 percent counts
   * as 100.
   */
  lemma PercentageIsReadIff(p: real)
    requires 0.0 <= p <= 100.0
    ensures NormalizeSimilarity(Finite(p)) == Round(p) <==> p > 1.0 || p < 0.005
    ensures NormalizeSimilarity(Finite(1.0)) == 100
  {
    RoundOfInt(100);
    RoundBelow(p, 0);
    RoundBelow(p, 101);
    RoundBelow(p, 1);
    RoundBelow(p, 2);
    RoundBelow(p * 100.0, 1);
    RoundBelow(p * 100.0, 2);
    RoundBelow(p * 100.0, 0);
  }

  /** The threshold shown and used for the watchlist: the first create rule's, or the configured one. */
  function CreateThreshold(rules: seq<Rule>, configured: Number): Number {
    var value := FirstCreateValue(rules);
    if value.Some? then Finite(ClampScore(value.value) as real)
    else if configured.Finite? then configured
    else Finite(90.0)
  }

  // ----- What a rule compares -----

  /** The value read for a score is the percentage of the number stored for it. */
  predicate HoldsPercent(v: Option<real>, n: Number) {
    v.Some? && v.value == v.value.Floor as real && IsPercent(v.value.Floor, if n.Finite? then n.value else 0.0)
  }

  /** A similarity from 0 to 1 stands for a fraction, any other number for a percentage. */
  function AsPercentage(n: Number): Number {
    if n.Finite? && 0.0 <= n.value <= 1.0 then Finite(100.0 * n.value) else n
  }

  lemma ClampHolds(n: Number)
    ensures HoldsPercent(Some(Clamp(n) as real), n)
  {
    if n.Finite? {
      ClampScoreIsPercent(n.value);
    }
  }

  lemma SimilarityHolds(n: Number)
    ensures HoldsPercent(Some(NormalizeSimilarity(n) as real), AsPercentage(n))
  {
    ClampHolds(n);
    if n.Finite? && 0.0 <= n.value <= 1.0 {
      ClampScoreIsPercent(100.0 * n.value);
      RoundBelow(100.0 * n.value, 0);
      RoundBelow(100.0 * n.value, 101);
    }
  }

  /** `d` is the distance of the two prices in percent of the rental price. */
  predicate IsPriceDiff(d: real, rental: real, listing: real) {
    d >= 0.0 && (d * rental == 100.0 * (listing - rental) || d * rental == 100.0 * (rental - listing))
  }

  lemma PriceDiffIs(rental: real, listing: real)
    requires rental > 0.0
    ensures IsPriceDiff(Abs((listing - rental) / rental * 100.0), rental, listing)
  {
    var q := (listing - rental) / rental;
    assert q * rental == listing - rental;
    assert (q * 100.0) * rental == 100.0 * (q * rental);
    assert (-(q * 100.0)) * rental == -(100.0 * (q * rental));
  }

  /** What each field of a rule reads from the scores and prices it is evaluated on. */
  lemma FieldIsExact(raw: RawContext, f: Field)
    ensures var v := ReadField(NormalizeContext(raw), f);
      && (f.AiScoreField? ==> HoldsPercent(v, raw.aiScore))
      && (f.MatchingScoreField? ==>
            && (v.Some? <==> raw.matchingScore.Some?)
            && (v.Some? ==> HoldsPercent(v, raw.matchingScore.value)))
      && (f.TitleField? ==>
            && (v.Some? <==> raw.title.Some?)
            && (v.Some? ==> HoldsPercent(v, AsPercentage(raw.title.value))))
      && (f.ImageField? ==>
            && (v.Some? <==> raw.image.Some?)
            && (v.Some? ==> HoldsPercent(v, AsPercentage(raw.image.value))))
      && (f.PriceDiffField? ==>
            && (v.Some? <==> raw.rentalPrice.Some? && raw.listingPrice.Some? && raw.rentalPrice.value > 0.0)
            && (v.Some? ==> IsPriceDiff(v.value, raw.rentalPrice.value, raw.listingPrice.value)))
      && (f.OtherField? ==> v.None?)
  {
    match f
    case AiScoreField => ClampHolds(raw.aiScore);
    case MatchingScoreField => if raw.matchingScore.Some? { ClampHolds(raw.matchingScore.value); }
    case TitleField => if raw.title.Some? { SimilarityHolds(raw.title.value); }
    case ImageField => if raw.image.Some? { SimilarityHolds(raw.image.value); }
    case PriceDiffField =>
      if raw.rentalPrice.Some? && raw.listingPrice.Some? && raw.rentalPrice.value > 0.0 {
        PriceDiffIs(raw.rentalPrice.value, raw.listingPrice.value);
      }
    case OtherField =>
  }

  /** A rule holds iff its field can be read and stands to its value as its operator says. */
  lemma RuleHoldsIff(r: Rule, c: Context)
    ensures var v := ReadField(c, r.field);
      Matches(r, c) <==>
        v.Some? && (
          || (r.operator.Gte? && r.value <= v.value) || (r.operator.Gt? && r.value < v.value)
          || (r.operator.Lte? && v.value <= r.value) || (r.operator.Lt? && v.value < r.value)
          || (r.operator.Eq? && -0.000000001 < v.value - r.value < 0.000000001))
  {
  }

  lemma {:induction false} ActionMembers(rules: seq<Rule>, a: Action)
    ensures forall r :: r in WithAction(rules, a) <==> r in rules && r.action == a
  {
    if rules == [] {
    } else {
      ActionMembers(rules[1..], a);
      assert rules == [rules[0]] + rules[1..];
    }
  }

  /** No rule comes before one of higher priority. */
  predicate Ranked(rules: seq<Rule>) {
    forall i, j :: 0 <= i < j < |rules| ==> rules[i].priority >= rules[j].priority
  }

  lemma {:induction false} MatchedStayRanked(rules: seq<Rule>, c: Context)
    requires Ranked(rules)
    ensures Ranked(MatchedRules(rules, c))
  {
    if rules == [] {
    } else {
      MatchedStayRanked(rules[1..], c);
      MatchedMembers(rules[1..], c);
      var rest := MatchedRules(rules[1..], c);
      forall r | r in rest ensures rules[0].priority >= r.priority {
        var i :| 0 <= i < |rules[1..]| && rules[1..][i] == r;
        assert rules[i + 1] == r;
      }
    }
  }

  lemma {:induction false} ActionStaysRanked(rules: seq<Rule>, a: Action)
    requires Ranked(rules)
    ensures Ranked(WithAction(rules, a))
  {
    if rules == [] {
    } else {
      ActionStaysRanked(rules[1..], a);
      ActionMembers(rules[1..], a);
      var rest := WithAction(rules[1..], a);
      forall r | r in rest ensures rules[0].priority >= r.priority {
        var i :| 0 <= i < |rules[1..]| && rules[1..][i] == r;
        assert rules[i + 1] == r;
      }
    }
  }

  lemma SortRanks(rules: seq<Rule>)
    ensures Ranked(Sort(rules, HigherPriorityFirst()))
  {
    SortSorts(rules, HigherPriorityFirst());
  }

  /** Warnings are the warning rules that hold; they and the matches come by descending priority. */
  lemma WarningsAreExact(rules: seq<Rule>, c: Context)
    ensures forall r :: r in Evaluated(rules, c).warnings <==> r in rules && r.action.Warning? && Matches(r, c)
    ensures Ranked(Evaluated(rules, c).warnings) && Ranked(Evaluated(rules, c).matched)
  {
    var e := Evaluated(rules, c);
    MatchedIsExact(rules, c);
    ActionMembers(e.matched, Warning);
    SortRanks(rules);
    MatchedStayRanked(Sort(rules, HigherPriorityFirst()), c);
    ActionStaysRanked(e.matched, Warning);
  }

  lemma {:induction false} FirstCreateLeads(rules: seq<Rule>)
    requires Ranked(rules)
    ensures FirstCreateValue(rules).None? <==> forall r :: r in rules ==> !r.action.CreateInvestigation?
    ensures FirstCreateValue(rules).Some? ==> exists r :: LeadsCreation(r, rules) && r.value == FirstCreateValue(rules).value
  {
    if rules == [] {
    } else {
      assert rules == [rules[0]] + rules[1..];
      forall r | r in rules ensures rules[0].priority >= r.priority {
        var i :| 0 <= i < |rules| && rules[i] == r;
      }
      if rules[0].action.CreateInvestigation? {
        assert LeadsCreation(rules[0], rules);
      } else {
        FirstCreateLeads(rules[1..]);
        if FirstCreateValue(rules).Some? {
          var r :| LeadsCreation(r, rules[1..]) && r.value == FirstCreateValue(rules[1..]).value;
          assert LeadsCreation(r, rules);
        }
      }
    }
  }

  /** A create rule of the highest priority among them. */
  predicate LeadsCreation(r: Rule, rules: seq<Rule>) {
    && r in rules && r.action.CreateInvestigation?
    && forall q :: q in rules && q.action.CreateInvestigation? ==> r.priority >= q.priority
  }

  /** The threshold an evaluation reports is that of a create rule of highest priority, matched or not. */
  lemma ThresholdIsOfLeader(rules: seq<Rule>, c: Context)
    ensures Evaluated(rules, c).createThreshold.None? <==> forall r :: r in rules ==> !r.action.CreateInvestigation?
    ensures Evaluated(rules, c).createThreshold.Some? ==>
      exists r :: LeadsCreation(r, rules) && r.value == Evaluated(rules, c).createThreshold.value
  {
    var sorted := Sort(rules, HigherPriorityFirst());
    SortRanks(rules);
    SortKeepsMembers(rules, HigherPriorityFirst());
    FirstCreateLeads(sorted);
    if FirstCreateValue(sorted).Some? {
      var r :| LeadsCreation(r, sorted) && r.value == FirstCreateValue(sorted).value;
      assert LeadsCreation(r, rules);
    }
  }

  /** The first create rule in the given order. */
  predicate IsFirstCreate(rules: seq<Rule>, k: int) {
    0 <= k < |rules| && rules[k].action.CreateInvestigation? && forall j | 0 <= j < k :: !rules[j].action.CreateInvestigation?
  }

  lemma {:induction false} FirstCreateIs(rules: seq<Rule>, k: nat)
    requires IsFirstCreate(rules, k)
    ensures FirstCreateValue(rules) == Some(rules[k].value)
  {
    if k > 0 {
      assert rules[1..][k - 1] == rules[k] && forall j | 0 <= j < k - 1 :: rules[1..][j] == rules[j + 1];
      FirstCreateIs(rules[1..], k - 1);
    }
  }

  lemma {:induction false} NoCreateIs(rules: seq<Rule>)
    requires forall k | 0 <= k < |rules| :: !rules[k].action.CreateInvestigation?
    ensures FirstCreateValue(rules).None?
  {
    if rules != [] {
      assert forall k | 0 <= k < |rules[1..]| :: rules[1..][k] == rules[k + 1];
      NoCreateIs(rules[1..]);
    }
  }

  /** The threshold is that of the first create rule as a percentage; without one the configured one, or 90. */
  lemma CreateThresholdIsExact(rules: seq<Rule>, configured: Number)
    ensures var t := CreateThreshold(rules, configured);
      && t.Finite?
      && (forall k | IsFirstCreate(rules, k) :: t.value == t.value.Floor as real && IsPercent(t.value.Floor, rules[k].value))
      && ((forall k | 0 <= k < |rules| :: !rules[k].action.CreateInvestigation?) ==>
            t.value == if configured.Finite? then configured.value else 90.0)
  {
    forall k: nat | IsFirstCreate(rules, k) ensures FirstCreateValue(rules) == Some(rules[k].value) {
      FirstCreateIs(rules, k);
      ClampScoreIsPercent(rules[k].value);
    }
    if forall k | 0 <= k < |rules| :: !rules[k].action.CreateInvestigation? {
      NoCreateIs(rules);
    }
  }
}
