/**
 * The message-parsing half of the backend (`actions/__init__.py`): cutting
 * raw expressions out of a log message, turning each into a Python value,
 * and picking the request id out of the resulting list.
 *
 * `ast.literal_eval` and `uuid.UUID` are library calls whose behaviour is not
 * part of this model: they are parameters. `literalEval(text)` is the value
 * `ast.literal_eval(text)` returns, or `None` where it raises; `parseUuid(text)`
 * is `str(uuid.UUID(text))`, or `None` where the constructor raises.
 */
module Actions {
  import opened Wrappers
  import opened Text
  import opened MessageScanner

  /** The Python values an expression can evaluate to. */
  datatype PyValue =
    | PyNone
    | PyBool(b: bool)
    | PyInt(i: int)
    | PyStr(s: string)
    | PyUuid(canonical: string)            // a `uuid.UUID`, by its `str()` form
    | PyList(items: seq<PyValue>)
    | PyTuple(items: seq<PyValue>)
    | PyDict(entries: map<string, PyValue>) // the entries with string keys
    | PyOther(repr: string)                 // floats, bytes, sets and the rest

  /** `get_uuid_or_str`: a UUID if the text without dashes parses as one, else the text itself. */
  function GetUuidOrStr(data: string, parseUuid: string -> Option<string>): (v: PyValue)
    ensures v.PyUuid? <==> parseUuid(RemoveChar(data, '-')).Some?
    ensures v.PyUuid? ==> v.canonical == parseUuid(RemoveChar(data, '-')).value
    ensures !v.PyUuid? ==> v == PyStr(data)
  {
    match parseUuid(RemoveChar(data, '-'))
    case Some(canonical) => PyUuid(canonical)
    case None => PyStr(data)
  }

  /** Does `v` look like a request-id wrapper: `(` ... `)` with no comma? */
  predicate IsParenthesised(expr: string)
  {
    |expr| > 0 && expr[0] == '(' && expr[|expr| - 1] == ')' && ',' !in expr
  }

  /**
   * `expr.replace("(", "").replace(")", "")`: no parenthesis is left, every
   * other character is kept, and a parenthesised text loses at least its
   * outer pair.
   */
  function Unparenthesised(expr: string): (r: string)
    ensures '(' !in r && ')' !in r
    ensures forall ch :: ch in expr && ch != '(' && ch != ')' ==> ch in r
    ensures IsParenthesised(expr) ==> |r| <= |expr| - 2
  {
    var inner := RemoveChar(expr, '(');
    if IsParenthesised(expr) then
      CountCharPositive(expr, '(');
      assert expr[|expr| - 1] in expr;
      CountCharPositive(inner, ')');
      RemoveChar(inner, ')')
    else RemoveChar(inner, ')')
  }

  /**
   * The body of the loop over the raw expressions: the literal's value (a
   * string being tried as a UUID first); where `literal_eval` raises, the
   * parenthesised text with its parentheses removed tried as a UUID, or else
   * the raw text itself.
   */
  function EvalExpression(expr: string, literalEval: string -> Option<PyValue>,
                          parseUuid: string -> Option<string>): (v: PyValue)
    ensures literalEval(expr).None? && !IsParenthesised(expr) ==> v == PyStr(expr)
    ensures literalEval(expr).Some? && !literalEval(expr).value.PyStr? ==> v == literalEval(expr).value
    ensures literalEval(expr).Some? && literalEval(expr).value.PyStr? ==>
      var s := literalEval(expr).value.s;
      && (v.PyUuid? <==> parseUuid(RemoveChar(s, '-')).Some?)
      && (v.PyUuid? ==> v.canonical == parseUuid(RemoveChar(s, '-')).value)
      && (!v.PyUuid? ==> v == PyStr(s))
    ensures literalEval(expr).None? && IsParenthesised(expr) ==>
      var inner := Unparenthesised(expr);
      && (v.PyUuid? <==> parseUuid(RemoveChar(inner, '-')).Some?)
      && (v.PyUuid? ==> v.canonical == parseUuid(RemoveChar(inner, '-')).value)
      && (!v.PyUuid? ==> v == PyStr(inner) && |inner| <= |expr| - 2)
  {
    match literalEval(expr)
    case Some(PyStr(s)) => GetUuidOrStr(s, parseUuid)
    case Some(node) => node
    case None =>
      if IsParenthesised(expr) then GetUuidOrStr(Unparenthesised(expr), parseUuid)
      else PyStr(expr)
  }

  /** A dict that names a request id under either spelling. */
  predicate HasRequestKey(v: PyValue)
  {
    v.PyDict? && ("request_uuid" in v.entries || "requestUuid" in v.entries)
  }

  /** The request id of such a dict, `request_uuid` winning over `requestUuid`. */
  function RequestField(v: PyValue): PyValue
    requires HasRequestKey(v)
  {
    if "request_uuid" in v.entries then v.entries["request_uuid"] else v.entries["requestUuid"]
  }

  /**
   * The loop of `get_request_uuid`: the request id of the first dict that
   * names one, or nothing when none does.
   */
  function FirstRequestField(expressions: seq<PyValue>): (r: Option<PyValue>)
    ensures r.None? <==> forall i :: 0 <= i < |expressions| ==> !HasRequestKey(expressions[i])
    ensures r.Some? ==> exists i :: (
      && 0 <= i < |expressions| && HasRequestKey(expressions[i])
      && (forall j :: 0 <= j < i ==> !HasRequestKey(expressions[j]))
      && r.value == RequestField(expressions[i]))
    decreases |expressions|
  {
    if expressions == [] then None
    else if HasRequestKey(expressions[0]) then Some(RequestField(expressions[0]))
    else
      var r := FirstRequestField(expressions[1..]);
      assert forall i :: 1 <= i < |expressions| ==> expressions[i] == expressions[1..][i - 1];
      r
  }

  /**
   * `get_request_uuid`: nothing for an empty list; the string form of the
   * first expression when that is a UUID; otherwise the request id of the
   * first dict that names one.
   */
  function GetRequestUuid(expressions: seq<PyValue>): (r: Option<PyValue>)
    ensures expressions == [] ==> r == None
    ensures expressions != [] && expressions[0].PyUuid? ==> r == Some(PyStr(expressions[0].canonical))
    ensures expressions != [] && !expressions[0].PyUuid? ==>
      (r.None? <==> forall i :: 0 <= i < |expressions| ==> !HasRequestKey(expressions[i]))
    ensures expressions != [] && !expressions[0].PyUuid? && r.Some? ==> exists i :: (
      && 0 <= i < |expressions| && HasRequestKey(expressions[i])
      && (forall j :: 0 <= j < i ==> !HasRequestKey(expressions[j]))
      && r.value == RequestField(expressions[i]))
  {
    if expressions == [] then None
    else if expressions[0].PyUuid? then Some(PyStr(expressions[0].canonical))
    else FirstRequestField(expressions)
  }

  /**
   * `parse_message`: scans the message character by character, then turns
   * every raw expression into a value. Returns the formatted message and the
   * values, or the exception the scan raised.
   */
  method ParseMessage(message: string, literalEval: string -> Option<PyValue>,
                      parseUuid: string -> Option<string>)
    returns (r: Result<(string, seq<PyValue>), ScanError>)
    ensures Run(message).Err? ==> r == Err(Run(message).error)
    ensures Run(message).Ok? ==> r.Ok? && r.value.0 == Concat(Run(message).value.pieces)
    ensures Run(message).Ok? ==> |r.value.1| == |Run(message).value.expressions|
    ensures Run(message).Ok? ==> forall i :: 0 <= i < |r.value.1| ==>
      r.value.1[i] == EvalExpression(Run(message).value.expressions[i], literalEval, parseUuid)
  {
    var stack: seq<char> := [];
    var currentExprChars: string := [];
    var expressions: seq<string> := [];
    var formattedMessagePieces: seq<string> := [];

    var i := 0;
    while i < |message|
      invariant 0 <= i <= |message|
      invariant Run(message[..i]) == Ok(ScanState(stack, currentExprChars, expressions, formattedMessagePieces))
    {
      var ch := message[i];
      ghost var before := ScanState(stack, currentExprChars, expressions, formattedMessagePieces);
      RunExtend(message, i, before);
      StepCases(before, ch);
      if stack != [] || IsOpener(ch) {
        currentExprChars := currentExprChars + [ch];
      } else {
        formattedMessagePieces := formattedMessagePieces + [[ch]];
      }

      if IsOpener(ch) {
        stack := stack + [ch];
      } else if IsCloser(ch) {
        if stack == [] {
          r := Err(EmptyStackIndex);
          ErrorAt(message, i);
          return;
        }
        if stack[|stack| - 1] != OpenerOf(ch) {
          r := Err(InvalidExpression(currentExprChars));
          ErrorAt(message, i);
          return;
        }
        stack := stack[..|stack| - 1];
        if stack == [] {
          expressions := expressions + [currentExprChars];
          currentExprChars := [];
          formattedMessagePieces := formattedMessagePieces + [Marker];
        }
      }
      i := i + 1;
    }
    assert message[..i] == message;

    var res: seq<PyValue> := [];
    var j := 0;
    while j < |expressions|
      invariant 0 <= j <= |expressions|
      invariant |res| == j
      invariant forall k :: 0 <= k < j ==> res[k] == EvalExpression(expressions[k], literalEval, parseUuid)
    {
      res := res + [EvalExpression(expressions[j], literalEval, parseUuid)];
      j := j + 1;
    }
    r := Ok((Concat(formattedMessagePieces), res));
  }

  /** One more character of the message is one more `Step`. */
  lemma RunExtend(message: string, i: nat, st: ScanState)
    requires i < |message| && Run(message[..i]) == Ok(st)
    ensures Run(message[..i + 1]) == Step(st, message[i])
  {
    assert message[..i + 1][..i] == message[..i];
  }

  /** A step that raised decides the result of the whole message. */
  lemma ErrorAt(message: string, i: nat)
    requires i < |message| && Run(message[..i + 1]).Err?
    ensures Run(message) == Run(message[..i + 1])
  {
    ErrorPersists(message[..i + 1], message[i + 1..]);
    assert message[..i + 1] + message[i + 1..] == message;
  }
}
