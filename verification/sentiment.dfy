/** The sentiment stage: an external polarity analyzer gives each text a
    compound score, and two fixed thresholds turn the score into a label.

    The analyzer is not modelled: it is an injected function from text to a
    real number. Scores are real numbers, not binary floating point.
 */
module SentimentScorer {

  datatype Sentiment = Positive | Negative | Neutral

  /** Scores strictly above this are positive. */
  const PositiveThreshold: real := 0.05

  /** Scores strictly below this are negative. */
  const NegativeThreshold: real := -0.05

  /** The compound-score-to-label mapping of `get_sentiment`. Both thresholds
      are strict, so the boundary scores themselves are neutral. */
  function Label(score: real): (s: Sentiment)
    ensures s == Positive <==> score > PositiveThreshold
    ensures s == Negative <==> score < NegativeThreshold
    ensures s == Neutral <==> NegativeThreshold <= score <= PositiveThreshold
  {
    if score > PositiveThreshold then Positive
    else if score < NegativeThreshold then Negative
    else Neutral
  }

  /** `get_sentiment(text)`: label the analyzer's compound score for `text`. */
  function Score(polarity: string -> real, text: string): (s: Sentiment)
    ensures polarity(text) > 0.05 ==> s == Positive
    ensures polarity(text) < -0.05 ==> s == Negative
    ensures -0.05 <= polarity(text) <= 0.05 ==> s == Neutral
  {
    Label(polarity(text))
  }

  /** Position of a label on the polarity axis. */
  function SentimentRank(s: Sentiment): int {
    match s
    case Negative => -1
    case Neutral => 0
    case Positive => 1
  }

  /** The label swapped with its opposite. */
  function Opposite(s: Sentiment): Sentiment {
    match s
    case Positive => Negative
    case Negative => Positive
    case Neutral => Neutral
  }

  /** The thresholds are symmetric around zero: negating the score swaps
      Positive and Negative and keeps Neutral. */
  lemma LabelSymmetric(score: real)
    ensures Label(-score) == Opposite(Label(score))
  {
  }

  /** A higher score never gives a more negative label. */
  lemma LabelMonotone(x: real, y: real)
    requires x <= y
    ensures SentimentRank(Label(x)) <= SentimentRank(Label(y))
  {
  }

  /** The neutral dead zone is closed: both boundary scores are neutral,
      and anything beyond them is not. */
  lemma LabelBoundaries(eps: real)
    requires eps > 0.0
    ensures Label(0.05) == Neutral && Label(-0.05) == Neutral
    ensures Label(0.05 + eps) == Positive && Label(-0.05 - eps) == Negative
  {
  }
}
