/** The safety-rating card: a score out of 100 classified into a label and a colour by fixed
    thresholds, a size class, and the defaults of its optional properties. */
module SafetyRating {
  import opened Wrappers

  function RatingColor(score: real): (color: string)
    ensures score >= 80.0 <==> color == "text-protect"
    ensures 60.0 <= score < 80.0 <==> color == "text-support"
    ensures score < 60.0 <==> color == "text-destructive"
  {
    if score >= 80.0 then "text-protect"
    else if score >= 60.0 then "text-support"
    else "text-destructive"
  }

  function RatingLabel(score: real): (text: string)
    ensures score >= 80.0 <==> text == "Excellent"
    ensures 60.0 <= score < 80.0 <==> text == "Good"
    ensures 40.0 <= score < 60.0 <==> text == "Fair"
    ensures score < 40.0 <==> text == "Needs Improvement"
  {
    if score >= 80.0 then "Excellent"
    else if score >= 60.0 then "Good"
    else if score >= 40.0 then "Fair"
    else "Needs Improvement"
  }

  /** The order of the labels, lowest tier first. */
  function LabelRank(text: string): nat {
    if text == "Excellent" then 3
    else if text == "Good" then 2
    else if text == "Fair" then 1
    else 0
  }

  /** The colour agrees with the label: the top tier is protect, the second support, and the two
      lower tiers destructive. */
  lemma ColorMatchesLabel(score: real)
    ensures RatingLabel(score) == "Excellent" <==> RatingColor(score) == "text-protect"
    ensures RatingLabel(score) == "Good" <==> RatingColor(score) == "text-support"
    ensures RatingLabel(score) == "Fair" || RatingLabel(score) == "Needs Improvement"
        <==> RatingColor(score) == "text-destructive"
  {
  }

  /** A higher score never gets a lower label. */
  lemma LabelMonotone(a: real, b: real)
    requires a <= b
    ensures LabelRank(RatingLabel(a)) <= LabelRank(RatingLabel(b))
  {
  }

  datatype Size = Sm | Md | Lg
  datatype Trend = Up | Down | Stable

  function SizeClass(size: Size): string {
    match size
    case Sm => "text-2xl"
    case Md => "text-4xl"
    case Lg => "text-6xl"
  }

  /** The component's properties (`caption` is the `label` property); the optional ones are None
      when not passed. */
  datatype Props = Props(score: real, trend: Option<Trend>, caption: Option<string>, size: Option<Size>)

  /** What the card shows: the score's colour class, the caption, the score's size class,
      whether the rising-trend icon is drawn, and the label under the bar. */
  datatype Card = Card(colorClass: string, caption: string, sizeClass: string,
                       trendIcon: bool, ratingLabel: string)

  const DefaultCaption: string := "Digital Safety Score"

  /** The component with its defaults: trend "stable", size "md", and the default caption when
      `label` is missing or empty (`label || …`). */
  function Render(p: Props): (c: Card)
    ensures c.colorClass == RatingColor(p.score) && c.ratingLabel == RatingLabel(p.score)
    ensures c.caption == (if p.caption.Some? && p.caption.value != "" then p.caption.value else DefaultCaption)
    ensures c.sizeClass == SizeClass(p.size.GetOr(Md))
    ensures c.trendIcon <==> p.trend == Some(Up)
  {
    var trend := p.trend.GetOr(Stable);
    var size := p.size.GetOr(Md);
    var caption := if p.caption.Some? && p.caption.value != "" then p.caption.value else DefaultCaption;
    Card(RatingColor(p.score), caption, SizeClass(size), trend == Up, RatingLabel(p.score))
  }

  /** Without the optional properties the card is medium, shows no trend icon and carries
      the default caption; the three sizes give three different classes. */
  lemma RenderDefaults(score: real)
    ensures Render(Props(score, None, None, None)).sizeClass == "text-4xl"
    ensures !Render(Props(score, None, None, None)).trendIcon
    ensures Render(Props(score, None, None, None)).caption == "Digital Safety Score"
    ensures Render(Props(score, None, Some(""), None)).caption == "Digital Safety Score"
    ensures SizeClass(Sm) != SizeClass(Md) && SizeClass(Md) != SizeClass(Lg) && SizeClass(Sm) != SizeClass(Lg)
  {
  }
}
