/** The score of an image and its label (`cal_score` and `identifies_img`).

    The edge-loss ratios of the two smoothed maps are added; the score is
    0.8 times the reciprocal of that sum plus 0.2 times the colour fraction
    over 100, scaled by 0.625. The label is "illust" only for a score strictly
    above 0.5. */
module Scoring {
  import opened Outcomes
  import opened EdgeLoss
  import opened ColorDominance

  datatype Label = Illust | Picture

  /** `cal_score`. There is no guard: a zero sum of ratios divides by zero. */
  function CalScore(gauResult: real, medResult: real, colorResult: real): (r: real)
    requires gauResult + medResult != 0.0
    ensures gauResult + medResult > 0.0 && colorResult >= 0.0 ==> r > 0.0
  {
    (1.0 / (gauResult + medResult)) * 0.8 + (colorResult / 100.0) * 0.2
  }

  /** The score `identifies_img` compares with the threshold. */
  function Score(gauResult: real, medResult: real, colorResult: real): (s: real)
    requires gauResult + medResult != 0.0
    ensures gauResult + medResult > 0.0 && colorResult >= 0.0 ==>
      0.0 < s < CalScore(gauResult, medResult, colorResult)
  {
    CalScore(gauResult, medResult, colorResult) * 0.625
  }

  /** The threshold test of `identifies_img`: a score at or below 0.5 is a
      picture. */
  function Decide(score: real): (l: Label)
    ensures l == Picture <==> score <= 0.5
  {
    if score > 0.5 then Illust else Picture
  }

  /** What `identifies_img` returns for the three edge maps of an image and
      its decoded buffer. */
  ghost function Classify(can: EdgeMap, gauCan: EdgeMap, medCan: EdgeMap, img: Buffer): Result<Label, ColorError>
    requires SameShape(can, gauCan) && SameShape(can, medCan) && Sum(can) != 0
    requires LossRatio(can, gauCan) + LossRatio(can, medCan) != 0.0
  {
    match ColorResult(img)
    case Err(e) => Err(e)
    case Ok(c) => Ok(Decide(Score(LossRatio(can, gauCan), LossRatio(can, medCan), c)))
  }

  /** `identifies_img` once the edge maps and the buffer are given: the two
      ratios, the colour fraction, the scaled score and the threshold. */
  method IdentifiesImg(can: EdgeMap, gauCan: EdgeMap, medCan: EdgeMap, img: Buffer)
    returns (verdict: Result<Label, ColorError>)
    requires SameShape(can, gauCan) && SameShape(can, medCan) && Sum(can) != 0
    requires LossRatio(can, gauCan) + LossRatio(can, medCan) != 0.0
    ensures verdict == Classify(can, gauCan, medCan, img)
  {
    var gauResult := CalDiff(can, gauCan);
    var medResult := CalDiff(can, medCan);
    var colorResult := GetColor(img);
    if colorResult.Err? {
      return Err(colorResult.error);
    }
    var score := Score(gauResult, medResult, colorResult.value);
    verdict := Ok(Decide(score));
  }

  /** The scaled score is 1/2 over the sum of ratios plus the colour fraction
      over 800. */
  lemma ScoreClosedForm(g: real, m: real, c: real)
    requires g + m != 0.0
    ensures Score(g, m, c) == 0.5 / (g + m) + c / 800.0
  {
  }

  /** The label is "illust" exactly when 1/(g + m) + c/400 exceeds 1. */
  lemma IllustIff(g: real, m: real, c: real)
    requires g + m != 0.0
    ensures Decide(Score(g, m, c)) == Illust <==> 1.0 / (g + m) + c / 400.0 > 1.0
  {
  }

  /** The comparison is strict: ratios 0.5 and 0.5 with colour fraction 0
      give a score of exactly 0.5, labelled "picture". */
  lemma BoundaryIsPicture()
    ensures Score(0.5, 0.5, 0.0) == 0.5
    ensures Decide(Score(0.5, 0.5, 0.0)) == Picture
  {
  }

  /** A larger colour fraction never lowers the score. */
  lemma ScoreMonotoneInColor(g: real, m: real, c1: real, c2: real)
    requires g + m != 0.0 && c1 <= c2
    ensures Score(g, m, c1) <= Score(g, m, c2)
  {
  }

  /** A larger positive sum of edge-loss ratios never raises the score. */
  lemma ScoreAntitoneInEdgeLoss(g1: real, m1: real, g2: real, m2: real, c: real)
    requires 0.0 < g1 + m1 <= g2 + m2
    ensures Score(g2, m2, c) <= Score(g1, m1, c)
  {
    ScoreClosedForm(g1, m1, c);
    ScoreClosedForm(g2, m2, c);
    ReciprocalAntitone(g1 + m1, g2 + m2);
  }

  lemma ReciprocalAntitone(x: real, y: real)
    requires 0.0 < x <= y
    ensures 0.5 / y <= 0.5 / x
  {
  }

  /** An image labelled "illust" stays so when its edges are more stable
      under smoothing and its dominant colour is more frequent. */
  lemma IllustPreserved(g1: real, m1: real, c1: real, g2: real, m2: real, c2: real)
    requires 0.0 < g2 + m2 <= g1 + m1 && c1 <= c2
    requires Decide(Score(g1, m1, c1)) == Illust
    ensures Decide(Score(g2, m2, c2)) == Illust
  {
    ScoreAntitoneInEdgeLoss(g2, m2, g1, m1, c1);
    ScoreMonotoneInColor(g2, m2, c1, c2);
  }

  /** The sum of ratios, the divisor of `cal_score`, is 0 exactly when both
      smoothed maps are identical to the raw one. */
  lemma UnchangedEdgesDivideByZero(can: EdgeMap, gauCan: EdgeMap, medCan: EdgeMap)
    requires SameShape(can, gauCan) && SameShape(can, medCan) && Sum(can) != 0
    ensures LossRatio(can, gauCan) + LossRatio(can, medCan) == 0.0 <==> gauCan == can && medCan == can
  {
    LossRatioNonnegative(can, gauCan);
    LossRatioNonnegative(can, medCan);
    NoLossIffUnchanged(can, gauCan);
    NoLossIffUnchanged(can, medCan);
  }

  /** When both smoothing steps remove every edge, the image is labelled
      "illust" exactly when its colour fraction exceeds 200. */
  lemma CompleteEdgeLoss(can: EdgeMap, gauCan: EdgeMap, medCan: EdgeMap, img: Buffer)
    requires SameShape(can, gauCan) && SameShape(can, medCan) && Sum(can) != 0
    requires AllZero(gauCan) && AllZero(medCan)
    ensures LossRatio(can, gauCan) + LossRatio(can, medCan) == 2.0
    ensures ColorResult(img).Ok? ==>
      (Classify(can, gauCan, medCan, img) == Ok(Illust) <==> ColorResult(img).value > 200.0)
    ensures ColorResult(img).Err? ==> Classify(can, gauCan, medCan, img) == Err(EmptyHistogram)
  {
    BlankLosesEverything(can, gauCan);
    BlankLosesEverything(can, medCan);
    if ColorResult(img).Ok? {
      IllustIff(1.0, 1.0, ColorResult(img).value);
    }
  }
}
