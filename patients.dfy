/**
 * The patient record of the service: the request body a client submits, the
 * field constraints it must meet, and the two computed fields (bmi and
 * verdict) that are derived from height and weight.
 */
module Patients {

  /** The four BMI categories, in increasing order of BMI. */
  datatype Verdict = Underweight | Normal | Overweight | Obese

  /** Position of a category in the increasing order of BMI. */
  function Rank(v: Verdict): nat
  {
    match v
    case Underweight => 0
    case Normal => 1
    case Overweight => 2
    case Obese => 3
  }

  /** The lower edges of Normal, Overweight and Obese. */
  const Thresholds: seq<real> := [18.5, 25.0, 30.0]

  /**
   * The bucket table, written independently of the if/elif chain: category v
   * covers the half-open interval [Thresholds[Rank(v) - 1], Thresholds[Rank(v)]),
   * unbounded below for Underweight and above for Obese.
   */
  predicate InBucket(bmi: real, v: Verdict)
  {
    (Rank(v) == 0 || Thresholds[Rank(v) - 1] <= bmi) &&
    (Rank(v) == 3 || bmi < Thresholds[Rank(v)])
  }

  /** The `verdict` computed field: an if/elif chain on the (rounded) bmi. */
  function VerdictOf(bmi: real): (v: Verdict)
    ensures InBucket(bmi, v)
  {
    if bmi < 18.5 then Underweight
    else if bmi < 25.0 then Normal
    else if bmi < 30.0 then Overweight
    else Obese
  }

  /** Every BMI lies in exactly one bucket, and that bucket is the verdict. */
  lemma VerdictIsTheOnlyBucket(bmi: real, v: Verdict)
    ensures InBucket(bmi, v) <==> v == VerdictOf(bmi)
  {
  }

  /** The edges belong to the upper bucket; anything below 18.5 or from 30 on is at an end. */
  lemma VerdictEdges(bmi: real)
    ensures VerdictOf(18.5) == Normal && VerdictOf(25.0) == Overweight && VerdictOf(30.0) == Obese
    ensures bmi < 18.5 ==> VerdictOf(bmi) == Underweight
    ensures bmi >= 30.0 ==> VerdictOf(bmi) == Obese
  {
  }

  /** A larger BMI never gives a lower category. */
  lemma VerdictMonotone(bmi1: real, bmi2: real)
    requires bmi1 <= bmi2
    ensures Rank(VerdictOf(bmi1)) <= Rank(VerdictOf(bmi2))
  {
  }

  /** The request body of a create call, as submitted (the id included). */
  datatype Patient = Patient(
    id: string,
    name: string,
    city: string,
    age: int,
    gender: string,
    height: real,
    weight: real)

  /** The constrained fields, named as in a validation error. */
  datatype Field = Age | Gender | Height | Weight

  const Genders: seq<string> := ["male", "female", "other"]

  /** The constrained fields whose value the patient violates. */
  function Violations(p: Patient): (bad: set<Field>)
    ensures Age in bad <==> !(0 < p.age < 120)
    ensures Gender in bad <==> p.gender !in Genders
    ensures Height in bad <==> !(p.height > 0.0)
    ensures Weight in bad <==> !(p.weight > 0.0)
  {
    (if 0 < p.age < 120 then {} else {Age}) +
    (if p.gender in Genders then {} else {Gender}) +
    (if p.height > 0.0 then {} else {Height}) +
    (if p.weight > 0.0 then {} else {Weight})
  }

  /** A patient passes validation when no constrained field is violated. */
  predicate ValidPatient(p: Patient)
  {
    Violations(p) == {}
  }

  lemma ValidPatientExactly(p: Patient)
    ensures ValidPatient(p) <==>
      0 < p.age < 120 && p.height > 0.0 && p.weight > 0.0 &&
      (p.gender == "male" || p.gender == "female" || p.gender == "other")
  {
  }

  /**
   * x rounded to two decimals, as a whole number of hundredths: the integer
   * nearest to 100 * x, with an exact tie going to the even neighbour (the
   * rule of the built-in round applied to the exact value).
   */
  function RoundHundredths(x: real): (n: int)
    ensures -0.5 <= n as real - 100.0 * x <= 0.5
    ensures (n as real - 100.0 * x == 0.5 || n as real - 100.0 * x == -0.5) ==> n % 2 == 0
  {
    var y := 100.0 * x;
    var f := y.Floor;
    if y - f as real < 0.5 then f
    else if y - f as real > 0.5 then f + 1
    else if f % 2 == 0 then f
    else f + 1
  }

  /** The two contract clauses of RoundHundredths single out one integer. */
  lemma RoundingIsUnique(x: real, n: int)
    requires -0.5 <= n as real - 100.0 * x <= 0.5
    requires (n as real - 100.0 * x == 0.5 || n as real - 100.0 * x == -0.5) ==> n % 2 == 0
    ensures n == RoundHundredths(x)
  {
  }

  /** weight / height^2, before rounding. */
  function Ratio(weight: real, height: real): real
    requires height > 0.0
  {
    weight / (height * height)
  }

  /** The `bmi` computed field: the ratio rounded to two decimals. */
  function Bmi(weight: real, height: real): (bmi: real)
    requires height > 0.0
    ensures (100.0 * bmi).Floor as real == 100.0 * bmi
    ensures -0.005 <= bmi - Ratio(weight, height) <= 0.005
    ensures (bmi - Ratio(weight, height) == 0.005 || bmi - Ratio(weight, height) == -0.005) ==>
      (100.0 * bmi).Floor % 2 == 0
  {
    RoundHundredths(Ratio(weight, height)) as real / 100.0
  }

  /**
   * Because of the rounding, the verdict of a patient is the bucket of the
   * unrounded ratio with every edge lowered by 0.005 (and each edge, a tie
   * that rounds up to an even number of hundredths, still in the upper bucket).
   */
  lemma VerdictOfRatio(weight: real, height: real)
    requires height > 0.0
    ensures VerdictOf(Bmi(weight, height)) == Underweight <==> Ratio(weight, height) < 18.495
    ensures VerdictOf(Bmi(weight, height)) == Normal <==> 18.495 <= Ratio(weight, height) < 24.995
    ensures VerdictOf(Bmi(weight, height)) == Overweight <==> 24.995 <= Ratio(weight, height) < 29.995
    ensures VerdictOf(Bmi(weight, height)) == Obese <==> 29.995 <= Ratio(weight, height)
  {
  }

  /** What the service stores under the id: every field but the id, with bmi and verdict. */
  datatype Record = Record(
    name: string,
    city: string,
    age: int,
    gender: string,
    height: real,
    weight: real,
    bmi: real,
    verdict: Verdict)

  /** The record dump of a patient, without the id. */
  function Dump(p: Patient): Record
    requires p.height > 0.0
  {
    var bmi := Bmi(p.weight, p.height);
    Record(p.name, p.city, p.age, p.gender, p.height, p.weight, bmi, VerdictOf(bmi))
  }

  /** The dump keeps every submitted field and derives bmi and verdict from height and weight. */
  lemma DumpKeepsFields(p: Patient)
    requires ValidPatient(p)
    ensures var r := Dump(p);
      r.name == p.name && r.city == p.city && r.age == p.age && r.gender == p.gender &&
      r.height == p.height && r.weight == p.weight &&
      (100.0 * r.bmi).Floor as real == 100.0 * r.bmi &&
      -0.005 <= r.bmi - Ratio(p.weight, p.height) <= 0.005 &&
      ((r.bmi - Ratio(p.weight, p.height) == 0.005 || r.bmi - Ratio(p.weight, p.height) == -0.005) ==>
        (100.0 * r.bmi).Floor % 2 == 0) &&
      InBucket(r.bmi, r.verdict)
  {
  }
}
