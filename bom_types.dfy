/**
 * The record types of the bill of materials: a part record (BomItem), the
 * metrics joined to it (BomMetrics) and the closed status vocabularies.
 * Timestamps and identifiers are opaque strings; the floating-point cost and
 * weight figures are not part of this model.
 */
module BomTypes {

  datatype Option<+T> = None | Some(value: T)

  /** The lifecycle status of a part. */
  datatype PartStatus = InDevelopment | Released | Obsolete

  /** The status literals of cost and weight metrics. */
  datatype MetricStatus = OnTarget | Warning | OverBudget | OverWeight

  /** The status literals of the performance-test metric. */
  datatype PerformanceStatus = OnTrack | AtRisk | Failing

  /** The status literals of the drawing-release metric. */
  datatype DrawingStatus = Complete | InProgress | NotStarted

  /** The metrics record joined one-to-one to a part. */
  datatype BomMetrics = BomMetrics(
    id: string,
    bomItemId: string,
    costCurrency: string,
    costStatus: Option<MetricStatus>,
    weightUnit: string,
    weightStatus: Option<MetricStatus>,
    performanceTestsTotal: int,
    performanceTestsMet: int,
    performanceStatus: Option<PerformanceStatus>,
    drawingsRequired: int,
    drawingsReleased: int,
    drawingStatus: Option<DrawingStatus>,
    updatedAt: string,
    updatedBy: Option<string>
  )

  /** One flat part record as the persistence layer delivers it. */
  datatype BomItem = BomItem(
    id: string,
    parentId: Option<string>,
    partNumber: string,
    partName: string,
    description: Option<string>,
    revision: string,
    level: int,
    sortOrder: int,
    supplierName: Option<string>,
    supplierCode: Option<string>,
    status: PartStatus,
    createdAt: string,
    updatedAt: string,
    createdBy: Option<string>,
    metrics: Option<BomMetrics>
  )

  /** The wire literal of a part status. */
  function PartStatusText(s: PartStatus): (r: string)
    ensures r in {"in_development", "released", "obsolete"}
  {
    match s
    case InDevelopment => "in_development"
    case Released => "released"
    case Obsolete => "obsolete"
  }

  /** The wire literal of a cost or weight status. */
  function MetricStatusText(s: MetricStatus): string
  {
    match s
    case OnTarget => "on_target"
    case Warning => "warning"
    case OverBudget => "over_budget"
    case OverWeight => "over_weight"
  }

  /** The wire literal of a performance status. */
  function PerformanceStatusText(s: PerformanceStatus): string
  {
    match s
    case OnTrack => "on_track"
    case AtRisk => "at_risk"
    case Failing => "failing"
  }

  /** The wire literal of a drawing status. */
  function DrawingStatusText(s: DrawingStatus): string
  {
    match s
    case Complete => "complete"
    case InProgress => "in_progress"
    case NotStarted => "not_started"
  }

  /**
   * JavaScript truthiness of an optional string: null and the empty string
   * are falsy, every other string is truthy.
   */
  predicate Truthy(s: Option<string>)
  {
    s.Some? && s.value != ""
  }

  /** The text a template renders for an optional string: nothing for null. */
  function Rendered(s: Option<string>): string
  {
    if s.Some? then s.value else ""
  }
}
