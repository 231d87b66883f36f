/**
 * The styling helpers of the two components, with each style class replaced
 * by an enum tag: the status helpers sort a status code into one of four
 * ranges, the method helpers look a method name up in a five-entry table and
 * fall back to the GET entry.
 */
module Badges {

  // ---------------------------------------------------------------------------
  // Status codes

  /** The four ranges the status helpers tell apart. */
  datatype StatusRange = Success | ClientError | ServerError | Other

  /** Status code s lies in range r: [200,300), [400,500), [500,...) or everything else. */
  predicate InRange(s: int, r: StatusRange) {
    match r
    case Success => 200 <= s < 300
    case ClientError => 400 <= s < 500
    case ServerError => 500 <= s
    case Other => s < 200 || 300 <= s < 400
  }

  /** The ranges do not overlap, so a helper whose result lies in the right range is determined. */
  lemma RangesDisjoint(s: int, a: StatusRange, b: StatusRange)
    requires InRange(s, a) && InRange(s, b)
    ensures a == b
  {
  }

  /** Text colours of the list's status column: green, orange, red, muted. */
  datatype StatusTextColor = GreenText | OrangeText | RedText | MutedText

  function TextColorRange(c: StatusTextColor): StatusRange {
    match c
    case GreenText => Success
    case OrangeText => ClientError
    case RedText => ServerError
    case MutedText => Other
  }

  /** `getStatusColor` of the log list. */
  function StatusColor(status: int): (c: StatusTextColor)
    ensures InRange(status, TextColorRange(c))
  {
    if status >= 200 && status < 300 then GreenText
    else if status >= 400 && status < 500 then OrangeText
    else if status >= 500 then RedText
    else MutedText
  }

  /** Badge palettes of the list's status badge: green, orange, red, gray. */
  datatype StatusBadgeColor = GreenBadge | OrangeBadge | RedBadge | GrayBadge

  function BadgeColorRange(c: StatusBadgeColor): StatusRange {
    match c
    case GreenBadge => Success
    case OrangeBadge => ClientError
    case RedBadge => ServerError
    case GrayBadge => Other
  }

  /** `getStatusBadgeClass` of the log list. */
  function StatusBadgeColorOf(status: int): (c: StatusBadgeColor)
    ensures InRange(status, BadgeColorRange(c))
  {
    if status >= 200 && status < 300 then GreenBadge
    else if status >= 400 && status < 500 then OrangeBadge
    else if status >= 500 then RedBadge
    else GrayBadge
  }

  /** The detail view's status classes: log-status-success, -warning, -error, -info. */
  datatype StatusClass = StatusSuccess | StatusWarning | StatusError | StatusInfo

  function StatusClassRange(c: StatusClass): StatusRange {
    match c
    case StatusSuccess => Success
    case StatusWarning => ClientError
    case StatusError => ServerError
    case StatusInfo => Other
  }

  /**
   * `getStatusBadgeClass` of the detail view. The nested-item component and the
   * modal each carry a textually identical copy; this one function models both.
   */
  function StatusBadgeClass(status: int): (c: StatusClass)
    ensures InRange(status, StatusClassRange(c))
  {
    if status >= 200 && status < 300 then StatusSuccess
    else if status >= 400 && status < 500 then StatusWarning
    else if status >= 500 then StatusError
    else StatusInfo
  }

  /** The list's two status helpers and the detail view's agree on every status code. */
  lemma StatusHelpersAgree(status: int)
    ensures TextColorRange(StatusColor(status)) == StatusClassRange(StatusBadgeClass(status))
    ensures BadgeColorRange(StatusBadgeColorOf(status)) == StatusClassRange(StatusBadgeClass(status))
  {
  }

  // ---------------------------------------------------------------------------
  // Methods

  /** The method names both lookup tables hold. */
  const KnownMethods: set<string> := {"GET", "POST", "PUT", "DELETE", "PATCH"}

  /** The detail view's method classes: log-method-get, -post, -put, -delete, -patch. */
  datatype MethodClass = MethodGet | MethodPost | MethodPut | MethodDelete | MethodPatch

  /** The method each detail-view class is named after. */
  function MethodClassName(c: MethodClass): string {
    match c
    case MethodGet => "GET"
    case MethodPost => "POST"
    case MethodPut => "PUT"
    case MethodDelete => "DELETE"
    case MethodPatch => "PATCH"
  }

  const ModalMethodTable: map<string, MethodClass> :=
    map["GET" := MethodGet, "POST" := MethodPost, "PUT" := MethodPut,
        "DELETE" := MethodDelete, "PATCH" := MethodPatch]

  /**
   * `getMethodClass` of the detail view (both copies): the class named after a
   * known method, and the GET class for any other string. The lookup is case-sensitive.
   */
  function ModalMethodClass(name: string): (c: MethodClass)
    ensures name in KnownMethods ==> MethodClassName(c) == name
    ensures name !in KnownMethods ==> c == MethodGet
  {
    if name in ModalMethodTable then ModalMethodTable[name] else MethodGet
  }

  /** Badge palettes of the list's method badge. */
  datatype MethodColor = Blue | Green | Orange | Red | Purple

  /** The method each list palette is assigned to. */
  function MethodColorName(c: MethodColor): string {
    match c
    case Blue => "GET"
    case Green => "POST"
    case Orange => "PUT"
    case Red => "DELETE"
    case Purple => "PATCH"
  }

  const ViewerMethodTable: map<string, MethodColor> :=
    map["GET" := Blue, "POST" := Green, "PUT" := Orange, "DELETE" := Red, "PATCH" := Purple]

  /** `getMethodClass` of the log list: a missing entry falls back to the GET entry. */
  function ViewerMethodColor(name: string): (c: MethodColor)
    ensures name in KnownMethods ==> MethodColorName(c) == name
    ensures name !in KnownMethods ==> c == ViewerMethodTable["GET"]
  {
    if name in ViewerMethodTable then ViewerMethodTable[name] else ViewerMethodTable["GET"]
  }

  /** Both method helpers pick the entry of the same method, GET for unknown names. */
  lemma MethodHelpersAgree(name: string)
    ensures MethodColorName(ViewerMethodColor(name)) == MethodClassName(ModalMethodClass(name))
    ensures MethodClassName(ModalMethodClass(name)) in KnownMethods
  {
  }
}
