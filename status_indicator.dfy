/**
 * The metric status badge: a null guard, then a variant chosen by three
 * literal groups, a label looked up in a fixed table with the raw text as
 * fallback, and a colour class that depends on the variant alone.
 *
 * The badge works on the status as the runtime sees it, a string or null.
 * StatusValue is the typed view of that string (the ten literals of the three
 * status unions plus a raw fallback); Parse and Text convert between the two,
 * and Severity and DisplayName are the reference classification on the typed
 * view that the string-level code is proved to agree with.
 */
module StatusIndicator {
  import opened BomTypes

  /** The badge variants the indicator can choose. */
  datatype Variant = Default | Secondary | Destructive | Outline

  /** The `type` property of the indicator; the indicator never reads it. */
  datatype IndicatorType = CostType | WeightType | PerformanceType | DrawingType

  /** What the indicator renders: a variant, an optional class string and the text. */
  datatype Badge = Badge(variant: Variant, className: Option<string>, text: string)

  /** A status string read as one of the ten known literals, or anything else. */
  datatype StatusValue =
    | MetricValue(m: MetricStatus)
    | PerformanceValue(p: PerformanceStatus)
    | DrawingValue(d: DrawingStatus)
    | Unrecognized(raw: string)

  const KnownLiterals: set<string> :=
    {"on_target", "warning", "over_budget", "over_weight",
     "on_track", "at_risk", "failing",
     "complete", "in_progress", "not_started"}

  /** The string a typed status value stands for. */
  function Text(v: StatusValue): string
  {
    match v
    case MetricValue(m) => MetricStatusText(m)
    case PerformanceValue(p) => PerformanceStatusText(p)
    case DrawingValue(d) => DrawingStatusText(d)
    case Unrecognized(raw) => raw
  }

  /** A typed value is canonical when an unrecognized one does not spell a known literal. */
  predicate Canonical(v: StatusValue)
  {
    v.Unrecognized? ==> v.raw !in KnownLiterals
  }

  /** Reads a status string as a typed value. */
  function Parse(s: string): (v: StatusValue)
    ensures Canonical(v)
    ensures v.Unrecognized? <==> s !in KnownLiterals
  {
    match s
    case "on_target" => MetricValue(OnTarget)
    case "warning" => MetricValue(Warning)
    case "over_budget" => MetricValue(OverBudget)
    case "over_weight" => MetricValue(OverWeight)
    case "on_track" => PerformanceValue(OnTrack)
    case "at_risk" => PerformanceValue(AtRisk)
    case "failing" => PerformanceValue(Failing)
    case "complete" => DrawingValue(Complete)
    case "in_progress" => DrawingValue(InProgress)
    case "not_started" => DrawingValue(NotStarted)
    case _ => Unrecognized(s)
  }

  /** Every string survives the round trip through its typed view. */
  lemma TextParse(s: string)
    ensures Text(Parse(s)) == s
  {
  }

  /** Every canonical typed value survives the round trip through its string. */
  lemma ParseText(v: StatusValue)
    requires Canonical(v)
    ensures Parse(Text(v)) == v
  {
  }

  /** Reference classification: success, warning and error groups; everything else is outline. */
  function Severity(v: StatusValue): Variant
  {
    match v
    case MetricValue(OnTarget) => Default
    case PerformanceValue(OnTrack) => Default
    case DrawingValue(Complete) => Default
    case MetricValue(Warning) => Secondary
    case PerformanceValue(AtRisk) => Secondary
    case DrawingValue(InProgress) => Secondary
    case MetricValue(OverBudget) => Destructive
    case MetricValue(OverWeight) => Destructive
    case PerformanceValue(Failing) => Destructive
    case DrawingValue(NotStarted) => Destructive
    case Unrecognized(_) => Outline
  }

  /** Reference display names: a fixed name per known literal, the raw text otherwise. */
  function DisplayName(v: StatusValue): string
  {
    match v
    case MetricValue(OnTarget) => "On Target"
    case MetricValue(Warning) => "Warning"
    case MetricValue(OverBudget) => "Over Budget"
    case MetricValue(OverWeight) => "Over Weight"
    case PerformanceValue(OnTrack) => "On Track"
    case PerformanceValue(AtRisk) => "At Risk"
    case PerformanceValue(Failing) => "Failing"
    case DrawingValue(Complete) => "Complete"
    case DrawingValue(InProgress) => "In Progress"
    case DrawingValue(NotStarted) => "Not Started"
    case Unrecognized(raw) => raw
  }

  /** The variant chosen by the indicator's if-chain over the status string. */
  function GetVariant(status: string): (r: Variant)
    ensures r == Severity(Parse(status))
  {
    if status == "on_target" || status == "on_track" || status == "complete" then
      Default
    else if status == "warning" || status == "at_risk" || status == "in_progress" then
      Secondary
    else if status == "over_budget" || status == "over_weight" || status == "failing"
         || status == "not_started" then
      Destructive
    else
      Outline
  }

  /** The label table of the indicator. */
  const Labels: map<string, string> :=
    map["on_target" := "On Target",
        "warning" := "Warning",
        "over_budget" := "Over Budget",
        "over_weight" := "Over Weight",
        "on_track" := "On Track",
        "at_risk" := "At Risk",
        "failing" := "Failing",
        "complete" := "Complete",
        "in_progress" := "In Progress",
        "not_started" := "Not Started"]

  /** `labels[status] || status`: the table entry when it is present and non-empty, else the raw text. */
  function GetLabel(status: string): (r: string)
    ensures r == DisplayName(Parse(status))
  {
    if status in Labels && Labels[status] != "" then Labels[status] else status
  }
  /** The table has an entry for exactly the ten literals, and each entry is non-empty. */
  lemma LabelsTable()
    ensures Labels.Keys == KnownLiterals
    ensures forall k :: k in Labels ==> Labels[k] != ""
  {
  }

  /** Each table entry is its literal's display name, so the table agrees with the typed view. */
  lemma LabelsAreDisplayNames(k: string)
    requires k in Labels
    ensures Labels[k] == DisplayName(Parse(k))
  {
    LabelsTable();
    assert GetLabel(k) == Labels[k];
  }


  /** The colour class of a variant. */
  function GetClassName(v: Variant): (r: string)
    ensures r == "" <==> v == Outline
  {
    match v
    case Default => "bg-green-100 text-green-700 hover:bg-green-200"
    case Secondary => "bg-yellow-100 text-yellow-700 hover:bg-yellow-200"
    case Destructive => "bg-red-100 text-red-700 hover:bg-red-200"
    case Outline => ""
  }

  /** The whole indicator: null or empty status renders an outline "-" badge with no class. */
  function Indicator(status: Option<string>, kind: Option<IndicatorType>): (b: Badge)
    ensures !Truthy(status) ==> b == Badge(Outline, None, "-")
    ensures Truthy(status) ==>
      b == Badge(Severity(Parse(status.value)),
                 Some(GetClassName(Severity(Parse(status.value)))),
                 DisplayName(Parse(status.value)))
  {
    if !Truthy(status) then
      Badge(Outline, None, "-")
    else
      var s := status.value;
      Badge(GetVariant(s), Some(GetClassName(GetVariant(s))), GetLabel(s))
  }


  /** Each of the ten known literals gets a non-outline badge with its variant's class and its display name. */
  lemma KnownStatusBadge(v: StatusValue, kind: Option<IndicatorType>)
    requires !v.Unrecognized?
    ensures Indicator(Some(Text(v)), kind).variant != Outline
    ensures Indicator(Some(Text(v)), kind).className == Some(GetClassName(Severity(v)))
    ensures Indicator(Some(Text(v)), kind).text == DisplayName(v)
  {
    ParseText(v);
  }

  /** Any other non-empty string gets an outline badge, an empty class and its own text as label. */
  lemma UnknownStatusBadge(s: string, kind: Option<IndicatorType>)
    requires s != "" && s !in KnownLiterals
    ensures Indicator(Some(s), kind) == Badge(Outline, Some(""), s)
  {
  }

  /** The success, warning and error groups are disjoint and cover exactly the ten literals. */
  lemma GroupsPartitionLiterals(s: string)
    ensures GetVariant(s) == Default <==> s in {"on_target", "on_track", "complete"}
    ensures GetVariant(s) == Secondary <==> s in {"warning", "at_risk", "in_progress"}
    ensures GetVariant(s) == Destructive <==>
      s in {"over_budget", "over_weight", "failing", "not_started"}
    ensures GetVariant(s) != Outline <==> s in KnownLiterals
  {
  }

  /** Every literal of the three status unions is classified into one of the three groups. */
  lemma TypedStatusesClassified(m: MetricStatus, p: PerformanceStatus, d: DrawingStatus)
    ensures GetVariant(MetricStatusText(m)) != Outline
    ensures GetVariant(PerformanceStatusText(p)) != Outline
    ensures GetVariant(DrawingStatusText(d)) != Outline
  {
  }

  /** The class string depends on the variant alone. */
  lemma ClassNameByVariant(s: string, t: string)
    requires s != "" && t != "" && GetVariant(s) == GetVariant(t)
    ensures Indicator(Some(s), None).className == Indicator(Some(t), None).className
  {
  }

  /** The `type` property has no influence on what is rendered. */
  lemma TypeIgnored(status: Option<string>, k1: Option<IndicatorType>, k2: Option<IndicatorType>)
    ensures Indicator(status, k1) == Indicator(status, k2)
  {
  }
}
