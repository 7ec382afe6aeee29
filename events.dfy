/**
 * The web UI's data: a log event as the backend sends it, the tree nodes the
 * UI builds from events, and the record of the selected placeholder.
 */
module Events {
  import opened Wrappers

  /** A JSON value, as an expression arrives in the browser. */
  datatype Json =
    | JNull
    | JBool(b: bool)
    | JNumber(n: int)
    | JString(s: string)
    | JArray(items: seq<Json>)
    | JObject(fields: map<string, Json>)

  /**
   * One log event. Times are milliseconds since the epoch; `requestUuid` is
   * `None` when the field is absent or null.
   */
  datatype LogEvent = LogEvent(
    eventId: string,
    requestUuid: Option<string>,
    time: int,
    source: string,
    message: string,
    formattedMessage: Option<string>,
    expressions: seq<Json>)

  /**
   * A node of the log tree: a leaf wraps one event; a group collects the
   * events of one request and has no event of its own.
   */
  datatype LogNode =
    | Leaf(key: string, startTime: int, event: LogEvent)
    | Group(key: string, startTime: int, children: seq<LogNode>)

  /** `selectedVar`: the placeholder last clicked; every field is null at first. */
  datatype VarSelection = VarSelection(
    nodeKey: Option<string>,
    varId: Option<string>,
    varName: Option<string>,
    expression: Json)

  const NoSelection: VarSelection := VarSelection(None, None, None, JNull)

  /** `!logEvent.request_uuid` is false: the event names a non-empty request id. */
  predicate HasRequest(e: LogEvent)
  {
    e.requestUuid.Some? && e.requestUuid.value != ""
  }

  /** The event belongs to request `u`. */
  predicate Carries(e: LogEvent, u: string)
  {
    u != "" && e.requestUuid == Some(u)
  }
}
