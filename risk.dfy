/** The rule-based diabetes risk estimate of the `/predict` handler: six
    threshold ladders add points to an integer risk score, from which a
    probability and a yes/no prediction follow. */
module Risk {
  import opened Common

  /** The parsed request features (the `features` object the reply echoes). */
  datatype Features = Features(
    pregnancies: int,
    glucose: real,
    bloodPressure: real,
    skinThickness: real,
    insulin: real,
    bmi: real,
    diabetesPedigree: real,
    age: int)

  /** The request body with each field already parsed; `None` is a field that
      is missing or falsy. */
  datatype PredictRequest = PredictRequest(
    pregnancies: Option<int>,
    glucose: Option<real>,
    bloodPressure: Option<real>,
    skinThickness: Option<real>,
    insulin: Option<real>,
    bmi: Option<real>,
    diabetesPedigree: Option<real>,
    age: Option<int>)

  /** The success reply. */
  datatype Assessment = Assessment(
    prediction: bool,
    probability: real,
    riskScore: int,
    features: Features)

  // Thresholds of the six rules: above the upper one scores 2, above the
  // lower one scores 1.
  const GlucoseRaised := 100.0
  const GlucoseHigh := 140.0
  const PressureRaised := 120.0
  const PressureHigh := 140.0
  const BmiRaised := 25.0
  const BmiHigh := 30.0
  const AgeRaised := 35
  const AgeHigh := 45
  const InsulinHigh := 25.0
  const PedigreeRaised := 0.8
  const PedigreeHigh := 1.5

  const MaxScore := 11

  /** One threshold ladder: 2 points above `upper`, else 1 above `lower`,
      else 0. */
  function Points(x: real, lower: real, upper: real): (p: int)
    requires lower < upper
    ensures 0 <= p <= 2
    ensures p == 2 <==> x > upper
    ensures p == 1 <==> lower < x <= upper
    ensures p == 0 <==> x <= lower
  {
    if x > upper then 2 else if x > lower then 1 else 0
  }

  function GlucosePoints(f: Features): (p: int) { Points(f.glucose, GlucoseRaised, GlucoseHigh) }
  function PressurePoints(f: Features): (p: int) { Points(f.bloodPressure, PressureRaised, PressureHigh) }
  function BmiPoints(f: Features): (p: int) { Points(f.bmi, BmiRaised, BmiHigh) }
  function AgePoints(f: Features): (p: int) { Points(f.age as real, AgeRaised as real, AgeHigh as real) }
  function PedigreePoints(f: Features): (p: int) { Points(f.diabetesPedigree, PedigreeRaised, PedigreeHigh) }

  /** The insulin rule has a single step: 1 point above the threshold. */
  function InsulinPoints(f: Features): (p: int)
    ensures p == 1 <==> f.insulin > InsulinHigh
    ensures p == 0 <==> f.insulin <= InsulinHigh
  {
    if f.insulin > InsulinHigh then 1 else 0
  }

  /** The accumulated `riskScore`. */
  function RiskScore(f: Features): (score: int)
    ensures 0 <= score <= MaxScore
  {
    GlucosePoints(f) + PressurePoints(f) + BmiPoints(f) + AgePoints(f)
      + InsulinPoints(f) + PedigreePoints(f)
  }

  /** `Math.min(riskScore / 10, 1)`. */
  function Probability(score: int): (p: real)
    requires 0 <= score
    ensures 0.0 <= p <= 1.0
    ensures score >= 10 ==> p == 1.0
    ensures score <= 10 ==> p * 10.0 == score as real
  {
    var ratio := score as real / 10.0;
    if ratio < 1.0 then ratio else 1.0
  }

  /** The reply for well-formed features. */
  function Assess(f: Features): (a: Assessment)
    ensures a.features == f
    ensures a.riskScore == RiskScore(f)
    ensures a.probability == Probability(a.riskScore)
    ensures 0.0 <= a.probability <= 1.0
    ensures a.prediction <==> a.probability > 0.5
    ensures a.prediction <==> a.riskScore >= 6
  {
    var score := RiskScore(f);
    var probability := Probability(score);
    PredictionThreshold(score);
    Assessment(probability > 0.5, probability, score, f)
  }

  /** Every field but `pregnancies` is required (including the unused skin
      thickness). */
  predicate RequiredPresent(req: PredictRequest) {
    && req.glucose.Some? && req.bloodPressure.Some? && req.skinThickness.Some?
    && req.insulin.Some? && req.bmi.Some? && req.diabetesPedigree.Some?
    && req.age.Some?
  }

  /** The features object built from a complete request; a missing
      pregnancies count becomes 0. */
  function ToFeatures(req: PredictRequest): (f: Features)
    requires RequiredPresent(req)
    ensures f.pregnancies == if req.pregnancies.Some? then req.pregnancies.value else 0
    ensures f.glucose == req.glucose.value && f.bloodPressure == req.bloodPressure.value
    ensures f.skinThickness == req.skinThickness.value && f.insulin == req.insulin.value
    ensures f.bmi == req.bmi.value && f.diabetesPedigree == req.diabetesPedigree.value
    ensures f.age == req.age.value
  {
    Features(req.pregnancies.GetOr(0), req.glucose.value, req.bloodPressure.value,
             req.skinThickness.value, req.insulin.value, req.bmi.value,
             req.diabetesPedigree.value, req.age.value)
  }

  /** The `/predict` handler: session check, field check, then the score. */
  function Predict(session: Option<string>, req: PredictRequest): (r: Result<Assessment>)
    ensures !SignedIn(session) ==> r == Failure(NotAuthenticated)
    ensures SignedIn(session) && !RequiredPresent(req) ==> r == Failure(Invalid(AllFieldsRequired))
    ensures SignedIn(session) && RequiredPresent(req) ==> r == Success(Assess(ToFeatures(req)))
    ensures r.Success? ==> r.value.features.pregnancies == (if req.pregnancies.Some? then req.pregnancies.value else 0)
    ensures r.Success? ==> r.value.riskScore == RiskScore(r.value.features)
    ensures r.Success? ==> r.value.probability == Probability(r.value.riskScore)
    ensures r.Success? ==> 0 <= r.value.riskScore <= MaxScore && 0.0 <= r.value.probability <= 1.0
    ensures r.Success? ==> (r.value.prediction <==> r.value.riskScore >= 6)
  {
    if !SignedIn(session) then Failure(NotAuthenticated)
    else if !RequiredPresent(req) then Failure(Invalid(AllFieldsRequired))
    else Success(Assess(ToFeatures(req)))
  }

  /** `probability > 0.5` exactly when the score is at least 6. */
  lemma PredictionThreshold(score: int)
    requires 0 <= score
    ensures Probability(score) > 0.5 <==> score >= 6
  {
    if score < 10 {
      assert Probability(score) == score as real / 10.0;
    }
  }

  /** One ladder never decreases as its input grows. */
  lemma PointsMonotone(x: real, y: real, lower: real, upper: real)
    requires lower < upper && x <= y
    ensures Points(x, lower, upper) <= Points(y, lower, upper)
  {
  }

  /** Raising any of the six scored inputs never lowers the score. */
  lemma ScoreMonotone(f: Features, g: Features)
    requires f.glucose <= g.glucose && f.bloodPressure <= g.bloodPressure
    requires f.bmi <= g.bmi && f.age <= g.age
    requires f.insulin <= g.insulin && f.diabetesPedigree <= g.diabetesPedigree
    ensures RiskScore(f) <= RiskScore(g)
  {
    PointsMonotone(f.glucose, g.glucose, GlucoseRaised, GlucoseHigh);
    PointsMonotone(f.bloodPressure, g.bloodPressure, PressureRaised, PressureHigh);
    PointsMonotone(f.bmi, g.bmi, BmiRaised, BmiHigh);
    PointsMonotone(f.age as real, g.age as real, AgeRaised as real, AgeHigh as real);
    PointsMonotone(f.diabetesPedigree, g.diabetesPedigree, PedigreeRaised, PedigreeHigh);
  }

  /** Pregnancies and skin thickness are read but never scored. */
  lemma ScoreIgnoresUnscoredFields(f: Features, pregnancies: int, skinThickness: real)
    ensures RiskScore(f.(pregnancies := pregnancies, skinThickness := skinThickness)) == RiskScore(f)
  {
  }

  /** The bound 11 is reached: every ladder at its top step. */
  lemma MaxScoreReached(f: Features)
    requires f.glucose > GlucoseHigh && f.bloodPressure > PressureHigh && f.bmi > BmiHigh
    requires f.age > AgeHigh && f.insulin > InsulinHigh && f.diabetesPedigree > PedigreeHigh
    ensures RiskScore(f) == MaxScore
    ensures Probability(RiskScore(f)) == 1.0
  {
  }

  /** All six inputs at or below their lower thresholds score nothing. */
  lemma ZeroScoreWhenAllNormal(f: Features)
    requires f.glucose <= GlucoseRaised && f.bloodPressure <= PressureRaised && f.bmi <= BmiRaised
    requires f.age <= AgeRaised && f.insulin <= InsulinHigh && f.diabetesPedigree <= PedigreeRaised
    ensures RiskScore(f) == 0
    ensures Probability(RiskScore(f)) == 0.0
    ensures !Assess(f).prediction
  {
  }

  /** Glucose 150, pressure 130, bmi 32, age 50, insulin 30, pedigree 1.6:
      2 + 1 + 2 + 2 + 1 + 2 = 10 points, probability 1, positive. */
  lemma HighRiskExample()
    ensures var a := Assess(Features(2, 150.0, 130.0, 0.0, 30.0, 32.0, 1.6, 50));
            a.riskScore == 10 && a.probability == 1.0 && a.prediction
  {
  }

  /** Glucose 90, pressure 80, bmi 22, age 20, insulin 10, pedigree 0.3:
      no points, probability 0, negative. */
  lemma LowRiskExample()
    ensures var a := Assess(Features(0, 90.0, 80.0, 0.0, 10.0, 22.0, 0.3, 20));
            a.riskScore == 0 && a.probability == 0.0 && !a.prediction
  {
  }
}
