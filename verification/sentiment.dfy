/**
 Sentiment labelling of one chat message. The polarity scorer (VADER's
 `polarity_scores`) is not part of this model: it enters as a function
 parameter, so every property here holds whatever lexicon produced the scores.
 */
module Sentiment {

  datatype Label = Positive | Negative | Neutral

  /** The four scores the lexicon reports for a text. */
  datatype Polarity = Polarity(compound: real, pos: real, neg: real, neu: real)

  /** The pluggable scorer: text to polarity scores. */
  type Scorer = string -> Polarity

  /** What `analyze_sentiment` returns: the scorer's numbers plus a label. */
  datatype SentimentData = SentimentData(
    compound: real, positive: real, negative: real, neutral: real, sentimentLabel: Label)

  const PositiveThreshold: real := 0.05
  const NegativeThreshold: real := -0.05

  /** The three-way partition of the compound score: at or above 0.05 is
      positive, at or below -0.05 is negative, strictly between is neutral. */
  function LabelOf(compound: real): (l: Label)
    ensures l == Positive <==> compound >= PositiveThreshold
    ensures l == Negative <==> compound <= NegativeThreshold
    ensures l == Neutral <==> NegativeThreshold < compound < PositiveThreshold
  {
    if compound >= PositiveThreshold then Positive
    else if compound <= NegativeThreshold then Negative
    else Neutral
  }

  /** Position of a label on the negative-to-positive scale. */
  function Rank(l: Label): int {
    match l
    case Negative => -1
    case Neutral => 0
    case Positive => 1
  }

  function Mirror(l: Label): Label {
    match l
    case Negative => Positive
    case Neutral => Neutral
    case Positive => Negative
  }

  /** A higher compound score never gets a lower label. */
  lemma LabelMonotone(a: real, b: real)
    requires a <= b
    ensures Rank(LabelOf(a)) <= Rank(LabelOf(b))
  {
  }

  /** The thresholds are symmetric: negating the score mirrors the label. */
  lemma LabelSymmetric(c: real)
    ensures LabelOf(-c) == Mirror(LabelOf(c))
  {
  }

  /** The boundary values the thresholds decide. */
  lemma LabelBoundaries()
    ensures LabelOf(0.05) == Positive
    ensures LabelOf(-0.05) == Negative
    ensures LabelOf(0.0) == Neutral
    ensures LabelOf(0.049) == Neutral && LabelOf(-0.049) == Neutral
  {
  }

  /** `analyze_sentiment`: the scores pass through unchanged and the label is
      decided by the compound score alone. */
  function Analyze(scorer: Scorer, text: string): (d: SentimentData)
    ensures d.compound == scorer(text).compound
    ensures d.positive == scorer(text).pos
    ensures d.negative == scorer(text).neg
    ensures d.neutral == scorer(text).neu
    ensures d.sentimentLabel == LabelOf(d.compound)
  {
    var scores := scorer(text);
    SentimentData(scores.compound, scores.pos, scores.neg, scores.neu, LabelOf(scores.compound))
  }

  /** Two texts with the same compound score get the same label, whatever
      their other scores. */
  lemma LabelDependsOnlyOnCompound(scorer: Scorer, a: string, b: string)
    requires scorer(a).compound == scorer(b).compound
    ensures Analyze(scorer, a).sentimentLabel == Analyze(scorer, b).sentimentLabel
  {
  }
}
