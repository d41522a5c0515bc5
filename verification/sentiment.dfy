/** The scorer adapter: the lexicon analyzer's polarity scores plus a
    three-way label derived from the compound score. */
module Sentiment {
  import opened Wrappers

  datatype Label = Positive | Neutral | Negative

  /** The analyzer's polarity_scores: a dictionary from "compound", "pos",
      "neu" and "neg" to scores. The analyzer itself is not modelled; every
      operation that scores text takes it as a parameter. */
  type Analyzer = string -> map<string, real>

  /** The scores attached to one row. */
  datatype Scores = Scores(compound: real, pos: real, neu: real, neg: real, category: Label)

  /** The label's name as written into a row. */
  function LabelName(l: Label): string {
    match l
    case Positive => "positive"
    case Neutral => "neutral"
    case Negative => "negative"
  }

  /** Position of a label on the negative-to-positive scale. */
  function Rank(l: Label): int {
    match l
    case Negative => 0
    case Neutral => 1
    case Positive => 2
  }

  /** The label thresholds: compound >= 0.05 is positive, compound <= -0.05
      is negative, anything strictly between is neutral. */
  function Classify(compound: real): (l: Label)
    ensures l == Positive <==> compound >= 0.05
    ensures l == Negative <==> compound <= -0.05
    ensures l == Neutral <==> -0.05 < compound < 0.05
  {
    if compound >= 0.05 then Positive
    else if compound <= -0.05 then Negative
    else Neutral
  }

  /** The label never decreases as the compound score grows. */
  lemma ClassifyMonotone(a: real, b: real)
    requires a <= b
    ensures Rank(Classify(a)) <= Rank(Classify(b))
  {
  }

  /** The boundaries themselves: 0.05 is positive, -0.05 negative, 0.0 neutral. */
  lemma ClassifyBoundaries()
    ensures Classify(0.05) == Positive
    ensures Classify(-0.05) == Negative
    ensures Classify(0.0) == Neutral
  {
  }

  /** The analyzer's score under `key`, read as 0.0 when the key is missing. */
  function ScoreOr0(scores: map<string, real>, key: string): (v: real)
    ensures key in scores ==> v == scores[key]
    ensures key !in scores ==> v == 0.0
  {
    if key in scores then scores[key] else 0.0
  }

  /** score_text: the analyzer's scores for `text` (a missing text is scored
      as ""), each missing score read as 0.0, and the label of the compound. */
  function ScoreText(analyzer: Analyzer, text: Option<string>): (s: Scores)
    ensures var p := analyzer(text.GetOr(""));
      && ("compound" in p ==> s.compound == p["compound"])
      && ("pos" in p ==> s.pos == p["pos"])
      && ("neu" in p ==> s.neu == p["neu"])
      && ("neg" in p ==> s.neg == p["neg"])
      && ("compound" !in p ==> s.compound == 0.0 && s.category == Neutral)
      && ("pos" !in p ==> s.pos == 0.0)
      && ("neu" !in p ==> s.neu == 0.0)
      && ("neg" !in p ==> s.neg == 0.0)
    ensures s.category == Positive <==> s.compound >= 0.05
    ensures s.category == Negative <==> s.compound <= -0.05
  {
    var p := analyzer(text.GetOr(""));
    var compound := ScoreOr0(p, "compound");
    Scores(compound, ScoreOr0(p, "pos"), ScoreOr0(p, "neu"), ScoreOr0(p, "neg"), Classify(compound))
  }

  /** A missing text and the empty text get the same scores. */
  lemma NoTextScoredAsEmpty(analyzer: Analyzer)
    ensures ScoreText(analyzer, None) == ScoreText(analyzer, Some(""))
  {
  }
}
