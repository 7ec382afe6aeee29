# Log correlation and message binding, in Dafny

A model of the core of a small log explorer. The backend cuts the
bracketed values (`{...}`, `[...]`, `(...)`) out of each raw log message,
leaves a `$#$` marker where each one was, and evaluates them as Python
literals; it can also pick a request id out of the values. The web UI
receives the events as a flat, ordered list. It groups the events of one
request under a group node, placed where the request id first appears;
events without a request id stay top-level leaves. For each node it
computes what the card shows:

- the service taken from the log stream name;
- the severity and body of a `level | severity | body` message;
- how long a request took;
- the message, with every `$#$` bound to a clickable tag for its value.

Clicking a tag makes it the selected one.

Modules, one per file:

- `Wrappers` (`wrappers.dfy`): `Option` and `Result`.
- `Text` (`text.dfy`): the string built-ins the code relies on.
  - JavaScript: `split` with a non-empty separator, `trim`, and `${n}` of a non-negative integer.
  - Python: `str.replace(c, "")` and `"".join`.
- `MessageScanner` (`scanner.dfy`): the bracket-matching loop of `parse_message`.
  - `Step` is one iteration and `Run` the loop over a prefix.
  - The lemmas say what a successful run computes and when it raises.
- `Actions` (`actions.dfy`): the backend functions.
  - `get_uuid_or_str`, the expression evaluation and `get_request_uuid`.
  - `parse_message` as a method with the source's two loops, proved to compute `Run`.
- `Events` (`events.dfy`): log events, JSON values, tree nodes and the selection record.
- `Correlator` (`correlator.dfy`): `groupEventsByRequestUuid` and `buildLogNodes` as methods with the source's loops.
  - `buildLogNodes` is proved to return the reference definition `Forest`.
  - `groupEventsByRequestUuid` is proved to return, for each known id (`RequestIds`), the group `RequestNode` built from that request's events (`EventsOf`).
  - The lemmas state what the forest contains and in what order.
- `Presenter` (`presenter.dfy`): the pure logic of `logNodeRender`.
  - Severity split, service label, elapsed time and placeholder binding.
  - The binding loop is a method proved to compute `MessageNodes`.
- `App` (`app.dfy`): a class holding the component's state slots (`logNodes`, `selectedVar`, `loadingLogs`) and the handlers that change them.

Conventions:

- Times are integer milliseconds since the epoch.
- `ast.literal_eval` and `uuid.UUID` are library calls. Their behaviour is passed in as function parameters:
  - `literalEval(text)` is the value, or `None` where the call raises;
  - `parseUuid(text)` is `str(uuid.UUID(text))`, or `None` where the constructor raises.

## Model

| member | source | states |
|---|---|---|
| Text.SplitJoin | webui/src/App.js:168 | Joining the pieces of `split(d)` back with `d` gives the original string. |
| Text.SplitCount | webui/src/App.js:151-152 | Splitting on one character gives one piece more than there are occurrences of it, so `parts.length >= 3` means at least two `\|`. |
| Text.SplitPartsFree | webui/src/App.js:150-151 | No piece of a split on a character contains that character. |
| Text.SplitPartsFreeOf | webui/src/App.js:168 | No piece of a split contains the separator, whatever its length: no piece of `split("$#$")` contains `$#$`. |
| Text.FirstPartIsPrefix | webui/src/App.js:150 | `split(d)[0]` is a prefix of the string. Either it is the whole string or `d` follows it, and `d` starts at no position inside it. So it runs up to the first `d`, or is the whole string when there is no `d`. |
| Text.LastPartIsSuffix | webui/src/App.js:150 | `split(c).at(-1)` is a suffix of the string that contains no `c`. When there is a `c`, a `c` comes right before it; otherwise it is the whole string. So it is the suffix after the last `c`. |
| Text.Trim | webui/src/App.js:151 | `trim()` returns the slice left once the leading and trailing white space is cut off; it neither starts nor ends with white space. |
| Text.NatToStringInjective | webui/src/App.js:41 | Different child counts render as different strings, so `${key}_${n}` keys differ. |
| Text.RemoveCharAppend | actions/__init__.py:26 | Removal works piece by piece: removing from `a + b` is removing from `a`, then from `b`, concatenated. So the kept characters stay in their order, and each is kept as often as it occurs. |
| Text.RemoveCharSingle | actions/__init__.py:26 | On a single character: `c` itself is removed, and any other character is kept. |
| Text.RemoveCharAbsent | actions/__init__.py:26 | Text without `c` is returned unchanged. |
| Text.RemoveChar | actions/__init__.py:26 | `replace(c, "")` leaves no `c`, and its length drops by the number of occurrences of `c`. The characters it keeps are those of the input other than `c`. |
| MessageScanner.CloserOf | actions/__init__.py:53-55 | `brace_matching` maps the matching closer of each opener back to that opener. |
| MessageScanner.RunConsistent | actions/__init__.py:57-73 | After any prefix that raised nothing, the loop state is consistent: (1) every raw expression is one whole top-level bracket group; (2) every formatted piece is a non-bracket character or a `$#$`; (3) there is one marker per expression; (4) putting the expressions back in place of the markers, followed by the group still open, gives back the prefix. |
| MessageScanner.ErrorPersists | actions/__init__.py:65-67 | Once the loop has raised, the characters after it do not change the outcome. |
| MessageScanner.CloserMismatchRaises | actions/__init__.py:65-67 | A closer raises `IndexError` on an empty stack. It raises `ValueError` naming the group read so far, closer included, when the top of the stack does not match. Either way the rest of the message does not matter. |
| MessageScanner.RoundTrip | actions/__init__.py:57-73 | When every bracket closes, putting the expressions back, in order, in place of the marker items of the loop's piece list rebuilds the message. |
| MessageScanner.NoBracketsUnchanged | actions/__init__.py:57-61 | A message without brackets is returned unchanged, with no expressions. |
| MessageScanner.FormattedHasNoBrackets | actions/__init__.py:58-61 | The formatted message of a successful scan contains no bracket. |
| MessageScanner.UnclosedGroupDropped | actions/__init__.py:57-73 | If a group is still open at the end, the result is that of the message cut just before the group's opening bracket: the unclosed text is dropped. |
| Actions.GetUuidOrStr | actions/__init__.py:24-29 | A UUID exactly when the text without dashes parses as one, otherwise the text itself. |
| Actions.Unparenthesised | actions/__init__.py:87 | Removing both kinds of parenthesis leaves none. Every other character is kept, and a parenthesised text loses at least its outer pair. |
| Actions.EvalExpression | actions/__init__.py:76-91 | The loop body for one expression: (1) a non-string literal is kept; (2) a string literal becomes a UUID exactly when it parses as one without its dashes, and is otherwise kept as it is. When evaluation raises: (3) text that is not parenthesised stays the raw text; (4) parenthesised text without a comma goes through the same UUID test, with its parentheses removed. If it is not a UUID it becomes that text without parentheses, at least two characters shorter. |
| Actions.FirstRequestField | actions/__init__.py:37-42 | `None` exactly when no value is a dict naming a request id. Otherwise the result is the id of the first such dict, `request_uuid` winning over `requestUuid`. |
| Actions.GetRequestUuid | actions/__init__.py:31-44 | `None` for an empty list. The string form of a leading UUID. Otherwise the request id of the first dict that names one, or `None` when no dict does. |
| Actions.ParseMessage | actions/__init__.py:47-92 | Raises exactly what the scan raises. On success it returns the pieces joined into the formatted message, and one evaluated value per raw expression, in order. |
| Correlator.GroupEventsByRequestUuid | webui/src/App.js:21-53 | There is one entry per request id named by some event. Each entry is that request's group: it starts at the request's first event, and its children are the request's events in input order, keyed `${id}_${k}`. |
| Correlator.BuildLogNodes | webui/src/App.js:56-76 | Returns exactly the reference forest `Forest(events)`. |
| Correlator.RequestIdsMembership | webui/src/App.js:21-67 | A request id is known exactly when some event carries it. |
| Correlator.EventsOfEmptyIff | webui/src/App.js:27-37 | A request has events exactly when its id is known. |
| Correlator.EventsOfMembership | webui/src/App.js:38-47 | A group's events are exactly the events that carry its id. |
| Correlator.EventsOfAppend | webui/src/App.js:22-48 | Selecting a request's events commutes with concatenation, so arrival order is kept. |
| Correlator.ForestCount | webui/src/App.js:61-71 | There are as many top-level nodes as events without a request id plus distinct request ids. |
| Correlator.TopLevelPrefix | webui/src/App.js:61-72 | Top-level nodes are only ever appended: those of a shorter prefix come first, unchanged. |
| Correlator.FirstEventOfRequest | webui/src/App.js:27-37 | The first event of a request heads that request's events. |
| Correlator.GroupPlacement | webui/src/App.js:64-69 | A request's group sits right after the nodes of the events before its first event, and starts at that event's time. |
| Correlator.ForestGroups | webui/src/App.js:27-69 | Every top-level group is the whole group of a known request and has at least one child. No request is placed twice. |
| Correlator.TopLevelKeysLocal | webui/src/App.js:59-72 | The top-level keys after `n` events depend only on those `n` events. |
| Correlator.TrailingEventKeepsOrder | webui/src/App.js:38-70 | A later event of a request already seen adds no top-level node and moves none. It becomes the last child of its group, keyed by its position. |
| Correlator.ChildKeysDistinct | webui/src/App.js:41 | Two children of one group never share a key. |
| Presenter.SplitSeverity | webui/src/App.js:151-155 | With fewer than two `\|` the whole message is shown at severity `INFO`. Otherwise severity and body contain no `\|`. |
| Presenter.SeverityFields | webui/src/App.js:151-155 | With two or more `\|`, severity and body are the trimmed second and third fields; whatever follows a third `\|` is dropped. |
| Presenter.SourceLabelShape | webui/src/App.js:150 | The service label contains no `/` and no `-`. It is the part of the source after the last `/`, up to the first `-` that follows. |
| Presenter.DiffSeconds | webui/src/App.js:161 | Whole seconds between two times, truncated toward zero. |
| Presenter.GroupElapsed | webui/src/App.js:160-162 | `<1` exactly when the first and last children are less than a second apart, in particular for one child. Otherwise it is the non-zero whole-second difference. |
| Presenter.BindPlaceholders | webui/src/App.js:167-183 | The placeholder loop computes `MessageNodes`: (1) when there are expressions, the `$#$`-pieces of the body, each followed by the tag of the expression with its index while there is one; (2) otherwise, the body alone. |
| Presenter.InterleaveLength | webui/src/App.js:170-178 | P pieces and E expressions give P + min(P, E) nodes. |
| Presenter.InterleaveLiteralAt | webui/src/App.js:170-171 | Piece `i` sits at position `i + min(i, E)`. |
| Presenter.InterleaveTagAt | webui/src/App.js:172-175 | Tag `i`, named `$var_i`, bound to expression `i` and keyed `${key}_$var_i`, sits right after piece `i`. |
| Presenter.InterleaveOnlyTags | webui/src/App.js:170-178 | Every tag sits at an odd position `p` and is the tag of expression `p / 2`; there are no others. |
| Presenter.SurplusPiecesAdjacent | webui/src/App.js:170-178 | With fewer expressions than pieces, the trailing pieces follow one another with nothing between them. |
| Presenter.TrailingTag | webui/src/App.js:170-178 | With at least as many expressions as pieces, the message ends with the last piece and its tag. |
| Presenter.InterleaveLiterals | webui/src/App.js:170-178 | The literal texts of the bound message are exactly the pieces, in order. |
| Presenter.MessageTextPreserved | webui/src/App.js:167-183 | No text is lost: the literal pieces joined with `$#$` give the body. Without expressions the body is shown whole. |
| Presenter.VarIdsDistinct | webui/src/App.js:173-174 | Within one node, tags of different expressions have different ids. |
| Presenter.HighlightFollowsSelection | webui/src/App.js:175 | A tag is highlighted exactly when the selection's `varId` is the tag's id. |
| Presenter.AtMostOneHighlighted | webui/src/App.js:175 | At most one tag of a message is highlighted. |
| Presenter.ClickSelection | webui/src/App.js:175 | Clicking a tag selects its id and its expression. |
| Presenter.ClickHighlightsClicked | webui/src/App.js:175 | After a click, the message shows the clicked tag highlighted and no other. |
| Presenter.RenderNode | webui/src/App.js:141-210 | A group card shows its key, start time and elapsed time, with no source or severity tag. A leaf card takes its text from `formatted_message ?? message` (`DisplayedMessage`) and shows: (1) the service label, if any; (2) the ERROR tag exactly for severity `ERROR`; (3) its start time; (4) the body of that text, bound to the expressions. |
| App.LogExplorer.constructor | webui/src/App.js:93-95 | Initially the tree is empty, nothing is selected and no spinner shows. |
| App.LogExplorer.SendRequest | webui/src/App.js:117-126 | Starting a query shows the spinner and changes nothing else. |
| App.LogExplorer.ReceiveLogs | webui/src/App.js:128-133 | The response replaces the tree with the forest of its events and hides the spinner. The selection is kept. Every group of the new tree has a child. |
| App.LogExplorer.SelectVar | webui/src/App.js:175 | A click replaces the whole selection record with the clicked tag's. |
| App.LogExplorer.RenderTopLevel | webui/src/App.js:141-210 | A top-level card is the `logNodeRender` card, rendered with the current `selectedVar`. A group card shows its key, start time and elapsed time. A leaf card takes its text from `formatted_message ?? message` and shows: (1) the service label; (2) the ERROR tag exactly for severity `ERROR`; (3) its start time; (4) the body bound with the current selection. A tag is highlighted exactly when `selectedVar` names its id. |

## Left out

- Network and browser I/O are not modelled: `fetch`, `useEffect`, `console.log`, `print`, the JSX layout, colours, `toUpperCase` and the JSON viewer.
- The failed-fetch path is not modelled. In the code the `catch` only logs, so the spinner stays on.
- dayjs parsing and formatting are not modelled: times arrive as integer milliseconds. A time dayjs cannot parse is not modelled.
- `ast.literal_eval` and `uuid.UUID` are parameters, not models of Python's parser and UUID type.
  - Python values are a datatype with string-keyed dicts; floats, bytes and sets are one opaque case.
- Request ids and object keys are strings. A falsy request id is `None` or `""`.
  - Non-string ids (numbers, booleans) are not modelled.
  - JavaScript object keys that collide with `Object.prototype` members (`"constructor"`, ...) are not modelled.
- Nodes are values, not shared objects.
  - The aliasing between the dictionary of groups and the node array is not modelled.
  - `logNodeRender` writes `timeTaken` back into the node. The model returns it in the `Display` record instead.
- Presenter.SplitSeverity: its contract does not fix which field is taken. Presenter.SeverityFields states that.
- The formatted message is a plain string, so it cannot tell a marker from literal text. A `$#$` already in the message, or a `$` or `$#` just before a group, reads like a marker. For example, `$#$(a)` and `(a)$#$` give the same formatted message `$#$$#$` and the same expression, and the UI's `split("$#$")` then places the tag in the wrong spot. The round trip holds only for the loop's list of pieces, where each marker is a separate item (`MessageScanner.RoundTrip`).
- JSON numbers in events are integers (`Json.JNumber`). The floats the backend can send as expression values are not modelled.
- Actions.GetRequestUuid: a dict whose request id is itself `None` gives `Some(PyNone)` in the model. Python returns `None` there too, so its result cannot tell that case apart from "no dict names an id".
- `main.py`, `CloudwatchLog`, `DockerLogIngester` and the other ingestion classes are not part of this model.

Behaviours of the code that the model keeps as they are:

- A group with a single child shows `<1` as its elapsed time.
- A new query result keeps the current selection.
- A late result from an earlier query is not dropped.
- With fewer expressions than `$#$` markers, the surplus markers disappear from the shown text, and the pieces around them are shown side by side.
