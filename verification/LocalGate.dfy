/** The local image gates that decide whether the vision model is asked (decide-local-vision-gate.ts). */
module LocalGate {
  import opened Common

  /** One local engine's similarity (0..100), or skipped because the engine failed or was not run. */
  datatype Engine = Skipped | Scored(similarity: real)

  datatype Stage = ColorStage | PHashStage | SsimStage | HeavyStage | FallbackStage

  datatype GateResult = GateResult(callVision: bool, localSimilarity: int, stage: Stage)

  datatype Early = Continue | Block(result: GateResult) | PassHigh(result: GateResult)

  datatype Thresholds = Thresholds(
    colorReject: real, pHashReject: real, pHashPass: real,
    ssim: real, ssimPass: real, looksSame: real, openCv: real)

  /** The configured defaults. */
  const DEFAULT_THRESHOLDS := Thresholds(35.0, 30.0, 90.0, 75.0, 92.0, 70.0, 60.0)

  predicate Reaches(e: Engine, threshold: real) {
    e.Scored? && e.similarity >= threshold
  }

  function DecideEarly(color: Engine, pHash: Engine, t: Thresholds): Early {
    if color.Skipped? && pHash.Skipped? then Continue
    else if color.Scored? && color.similarity < t.colorReject then
      Block(GateResult(false, Round(color.similarity), ColorStage))
    else if pHash.Scored? && pHash.similarity < t.pHashReject then
      Block(GateResult(false,
        Round(MinReal(pHash.similarity, if color.Skipped? then pHash.similarity else color.similarity)), PHashStage))
    else if Reaches(pHash, t.pHashPass) then
      PassHigh(GateResult(false, Round(pHash.similarity), PHashStage))
    else Continue
  }

  /** The similarities that were actually computed, in engine order. */
  function Scores(engines: seq<Engine>): seq<real> {
    if engines == [] then []
    else (if engines[0].Scored? then [engines[0].similarity] else []) + Scores(engines[1..])
  }

  function MaxOf(scores: seq<real>): real
    requires scores != []
  {
    if |scores| == 1 then scores[0] else MaxReal(scores[0], MaxOf(scores[1..]))
  }

  function BestScore(engines: seq<Engine>): int {
    var scores := Scores(engines);
    if |scores| > 0 then Round(MaxOf(scores)) else 0
  }

  function DecideLate(color: Engine, pHash: Engine, ssim: Engine, looksSame: Engine, openCv: Engine, t: Thresholds): GateResult {
    if Reaches(ssim, t.ssimPass) then GateResult(false, Round(ssim.similarity), SsimStage)
    else
      var allSkipped := looksSame.Skipped? && openCv.Skipped? && ssim.Skipped?;
      var call := allSkipped || Reaches(looksSame, t.looksSame) || Reaches(openCv, t.openCv) || Reaches(ssim, t.ssim);
      GateResult(call, BestScore([color, pHash, ssim, looksSame, openCv]), if allSkipped then FallbackStage else HeavyStage)
  }

  /** The whole gate: the cheap engines first, the heavy ones only if they do not decide. */
  function Evaluate(color: Engine, pHash: Engine, ssim: Engine, looksSame: Engine, openCv: Engine, t: Thresholds): GateResult {
    var early := DecideEarly(color, pHash, t);
    if early.Continue? then DecideLate(color, pHash, ssim, looksSame, openCv, t) else early.result
  }

  predicate InRange(e: Engine) {
    e.Scored? ==> 0.0 <= e.similarity <= 100.0
  }

  /** Below this local similarity a listing counts as a visibly different product. */
  const DIFFERENT_PRODUCT := 40

  ghost predicate BlocksLandLow(t: Thresholds) {
    forall color, pHash :: InRange(color) && InRange(pHash) && DecideEarly(color, pHash, t).Block? ==>
      DecideEarly(color, pHash, t).result.localSimilarity < DIFFERENT_PRODUCT
  }

  /**
   * An early block always lands in the different-product band exactly when neither reject
   * threshold exceeds 39.5; the defaults 35 and 30 satisfy it.
   */
  lemma EarlyBlocksLandLowIff(t: Thresholds)
    ensures BlocksLandLow(t) <==> t.colorReject <= 39.5 && t.pHashReject <= 39.5
    ensures BlocksLandLow(DEFAULT_THRESHOLDS)
  {
    EarlyBlocksLandLow(t);
    EarlyBlocksLandLow(DEFAULT_THRESHOLDS);
    RoundBelow(39.5, 40);
    if t.colorReject > 39.5 {
      var color := Scored(39.5);
      assert DecideEarly(color, Skipped, t).Block? && InRange(color) && InRange(Engine.Skipped);
    } else if t.pHashReject > 39.5 {
      var pHash := Scored(39.5);
      assert DecideEarly(Skipped, pHash, t).Block? && InRange(pHash) && InRange(Engine.Skipped);
    }
  }

  lemma EarlyBlocksLandLow(t: Thresholds)
    ensures t.colorReject <= 39.5 && t.pHashReject <= 39.5 ==> BlocksLandLow(t)
  {
    forall color, pHash | InRange(color) && InRange(pHash) && DecideEarly(color, pHash, t).Block?
      && t.colorReject <= 39.5 && t.pHashReject <= 39.5
      ensures DecideEarly(color, pHash, t).result.localSimilarity < DIFFERENT_PRODUCT
    {
      if color.Scored? { RoundBelow(color.similarity, 40); }
      if pHash.Scored? {
        RoundBelow(pHash.similarity, 40);
        RoundBelow(MinReal(pHash.similarity, if color.Skipped? then pHash.similarity else color.similarity), 40);
      }
    }
  }

  lemma {:induction false} ScoresBelow(engines: seq<Engine>, bound: real)
    ensures (Scores(engines) == [] || MaxOf(Scores(engines)) < bound)
      <==> forall e :: e in engines && e.Scored? ==> e.similarity < bound
  {
    if engines == [] {
    } else {
      ScoresBelow(engines[1..], bound);
      assert engines == [engines[0]] + engines[1..];
      var rest := Scores(engines[1..]);
      if engines[0].Scored? {
        assert Scores(engines) == [engines[0].similarity] + rest;
        assert ([engines[0].similarity] + rest)[1..] == rest;
      } else {
        assert Scores(engines) == rest;
      }
    }
  }

  /**
   * The late gate passes on the best of all engines, not the ones that failed their thresholds:
   * it lands in the different-product band exactly when every engine stayed below 39.5. If the
   * structural similarity alone lets it pass, that one decides.
   */
  lemma LateBlockLandsLowIff(color: Engine, pHash: Engine, ssim: Engine, looksSame: Engine, openCv: Engine, t: Thresholds)
    ensures DecideLate(color, pHash, ssim, looksSame, openCv, t).localSimilarity < DIFFERENT_PRODUCT
      <==> if Reaches(ssim, t.ssimPass) then ssim.similarity < 39.5
           else forall e :: e in [color, pHash, ssim, looksSame, openCv] && e.Scored? ==> e.similarity < 39.5
  {
    var engines := [color, pHash, ssim, looksSame, openCv];
    ScoresBelow(engines, 39.5);
    if Reaches(ssim, t.ssimPass) {
      RoundBelow(ssim.similarity, 40);
    } else if Scores(engines) != [] {
      RoundBelow(MaxOf(Scores(engines)), 40);
    }
  }

  /** So a listing the late gate refuses can still be scored as if the images matched. */
  lemma LateBlockCanLandHigh()
    ensures var g := Evaluate(Scored(95.0), Scored(55.0), Scored(50.0), Scored(60.0), Scored(30.0), DEFAULT_THRESHOLDS);
      !g.callVision && g.localSimilarity == 95
  {
    var c, p, s, l, o := Scored(95.0), Scored(55.0), Scored(50.0), Scored(60.0), Scored(30.0);
    var engines := [c, p, s, l, o];
    ScoresBelow(engines, 95.5);
    ScoresBelow(engines, 95.0);
    assert c in engines && (forall e :: e in engines ==> e.similarity < 95.5);
    RoundBelow(MaxOf(Scores(engines)), 95);
    RoundBelow(MaxOf(Scores(engines)), 96);
    ScoresBelow(engines, 94.5);
  }

  // ----- The gate as a whole -----

  predicate Below(e: Engine, threshold: real) {
    e.Scored? && e.similarity < threshold
  }

  /** An engine that ran is below a threshold or reaches it, also by meeting it exactly. */
  lemma BelowOrReaches(e: Engine, threshold: real)
    ensures e.Scored? ==> (Reaches(e, threshold) <==> !Below(e, threshold))
    ensures e.Skipped? ==> !Reaches(e, threshold) && !Below(e, threshold)
  {
  }

  /** No cheap engine decides, and the structural similarity alone does not either. */
  predicate Undecided(color: Engine, pHash: Engine, ssim: Engine, t: Thresholds) {
    !Below(color, t.colorReject) && !Below(pHash, t.pHashReject) && !Reaches(pHash, t.pHashPass) && !Reaches(ssim, t.ssimPass)
  }

  /**
   * The vision model is asked exactly when neither colour nor perceptual hash rejects, neither
   * hash nor structure is sure of a match, and one of the three heavy engines reaches its own
   * threshold or none of them ran.
   */
  lemma VisionIsAskedIff(color: Engine, pHash: Engine, ssim: Engine, looksSame: Engine, openCv: Engine, t: Thresholds)
    ensures Evaluate(color, pHash, ssim, looksSame, openCv, t).callVision <==>
      && Undecided(color, pHash, ssim, t)
      && (|| (ssim.Skipped? && looksSame.Skipped? && openCv.Skipped?)
          || Reaches(looksSame, t.looksSame) || Reaches(openCv, t.openCv) || Reaches(ssim, t.ssim))
  {
  }

  /** Which engine decided, and whose similarity stands for the images. */
  lemma GateStageIsExact(color: Engine, pHash: Engine, ssim: Engine, looksSame: Engine, openCv: Engine, t: Thresholds)
    ensures var g := Evaluate(color, pHash, ssim, looksSame, openCv, t);
      && (g.stage.ColorStage? <==> Below(color, t.colorReject))
      && (g.stage.ColorStage? ==> IsNearest(g.localSimilarity, color.similarity))
      && (g.stage.PHashStage? <==>
            !Below(color, t.colorReject) && (Below(pHash, t.pHashReject) || Reaches(pHash, t.pHashPass)))
      && (g.stage.PHashStage? && !Below(pHash, t.pHashReject) ==> IsNearest(g.localSimilarity, pHash.similarity))
      && (g.stage.PHashStage? && Below(pHash, t.pHashReject) ==>
            || IsNearest(g.localSimilarity, pHash.similarity)
            || (Below(color, pHash.similarity) && IsNearest(g.localSimilarity, color.similarity)))
      && (g.stage.PHashStage? && Below(pHash, t.pHashReject) && Below(color, pHash.similarity) ==>
            IsNearest(g.localSimilarity, color.similarity))
      && (g.stage.SsimStage? <==> !g.stage.ColorStage? && !g.stage.PHashStage? && Reaches(ssim, t.ssimPass))
      && (g.stage.SsimStage? ==> IsNearest(g.localSimilarity, ssim.similarity))
      && (g.stage.FallbackStage? <==>
            Undecided(color, pHash, ssim, t) && ssim.Skipped? && looksSame.Skipped? && openCv.Skipped?)
  {
    forall x: real ensures IsNearest(Round(x), x) {
      RoundIsNearest(x);
    }
  }

  /** In the last two stages the best of the engines that ran stands for the images, 0 if none did. */
  lemma BestEngineStands(color: Engine, pHash: Engine, ssim: Engine, looksSame: Engine, openCv: Engine, t: Thresholds, n: int)
    requires Undecided(color, pHash, ssim, t)
    ensures var g := Evaluate(color, pHash, ssim, looksSame, openCv, t); var engines := [color, pHash, ssim, looksSame, openCv];
      && ((exists e :: e in engines && e.Scored?) ==>
            (g.localSimilarity < n <==> forall e :: e in engines && e.Scored? ==> e.similarity < n as real - 0.5))
      && (!(exists e :: e in engines && e.Scored?) ==> g.localSimilarity == 0)
  {
    var engines := [color, pHash, ssim, looksSame, openCv];
    SomeScore(engines);
    ScoresBelow(engines, n as real - 0.5);
    if Scores(engines) != [] {
      RoundBelow(MaxOf(Scores(engines)), n);
    }
  }

  lemma {:induction false} SomeScore(engines: seq<Engine>)
    ensures Scores(engines) != [] <==> exists e :: e in engines && e.Scored?
  {
    if engines == [] {
    } else {
      SomeScore(engines[1..]);
      assert engines == [engines[0]] + engines[1..];
    }
  }
}
