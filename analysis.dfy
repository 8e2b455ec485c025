/**
 * The sentiment label: a three-way threshold on the compound score, and
 * the scored frame it produces for the update loop. The scorer itself is
 * outside the model; its scores arrive as data.
 */
module Analysis {
  import opened Wrappers
  import opened Persistence

  datatype Sentiment = Negative | Neutral | Positive

  /** The label of a compound score: 0.05 and up is positive, below -0.05 negative. */
  function Label(score: real): Sentiment
  {
    if score >= 0.05 then Positive
    else if score < -0.05 then Negative
    else Neutral
  }

  /** The text stored in the `sentiment` column. */
  function Name(s: Sentiment): string
  {
    match s
    case Positive => "positive"
    case Negative => "negative"
    case Neutral => "neutral"
  }

  /** The order negative < neutral < positive. */
  function Rank(s: Sentiment): (r: nat)
    ensures r <= 2
  {
    match s
    case Negative => 0
    case Neutral => 1
    case Positive => 2
  }

  /** Each label holds on exactly one band of scores; the bands cover every score. */
  lemma LabelBands(score: real)
    ensures Label(score) == Positive <==> score >= 0.05
    ensures Label(score) == Negative <==> score < -0.05
    ensures Label(score) == Neutral <==> -0.05 <= score < 0.05
  {
  }

  /** The bands are closed below and open above: 0.05 is positive, -0.05 neutral. */
  lemma LabelBoundaries()
    ensures Label(0.05) == Positive
    ensures Label(-0.05) == Neutral
    ensures Label(0.0) == Neutral
  {
  }

  /** A higher score never gets a lower label. */
  lemma LabelMonotone(a: real, b: real)
    requires a <= b
    ensures Rank(Label(a)) <= Rank(Label(b))
  {
  }

  /** The stored texts tell the three labels apart, and are the only texts stored. */
  lemma NameInjective(s: Sentiment, t: Sentiment)
    ensures Name(s) == Name(t) <==> s == t
    ensures Name(s) in {"positive", "negative", "neutral"}
  {
  }

  /** The label column computed from the score column, row by row. */
  function LabelFrame(scored: seq<(nat, real)>): (us: seq<Update>)
    ensures |us| == |scored|
    ensures forall k :: 0 <= k < |us| ==> us[k].id == scored[k].0 && us[k].score == scored[k].1
  {
    seq(|scored|, k requires 0 <= k < |scored| =>
      Update(scored[k].0, scored[k].1, Name(Label(scored[k].1))))
  }

  /** Every update in the frame stores the label of its own score. */
  predicate WellLabelled(us: seq<Update>)
  {
    forall k :: 0 <= k < |us| ==> us[k].sentiment == Name(Label(us[k].score))
  }

  /** Every scored row of the table carries the label of its score. */
  ghost predicate LabelsAgree(t: Table)
  {
    forall id :: id in t.rows && t.rows[id].sentimentScore.Some? ==>
      t.rows[id].sentiment == Some(Name(Label(t.rows[id].sentimentScore.value)))
  }

  lemma LabelFrameWellLabelled(scored: seq<(nat, real)>)
    ensures WellLabelled(LabelFrame(scored))
  {
  }

  /** Storing well-labelled updates keeps every score and label of the table in agreement. */
  lemma {:induction false} UpdatesKeepLabelsAgree(t: Table, us: seq<Update>)
    requires LabelsAgree(t) && WellLabelled(us)
    ensures LabelsAgree(ApplyUpdates(t, us))
  {
    if us != [] {
      var n := |us| - 1;
      assert WellLabelled(us[..n]);
      UpdatesKeepLabelsAgree(t, us[..n]);
    }
  }

  /** The analysis pass as a whole: its frame, stored by the update loop, keeps scores and labels in agreement. */
  lemma AnalysisKeepsLabelsAgree(t: Table, scored: seq<(nat, real)>)
    requires LabelsAgree(t)
    ensures LabelsAgree(ApplyUpdates(t, LabelFrame(scored)))
  {
    LabelFrameWellLabelled(scored);
    UpdatesKeepLabelsAgree(t, LabelFrame(scored));
  }
}
