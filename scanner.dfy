/**
 * The character loop of `parse_message`: a stack-based bracket matcher that
 * cuts every top-level `(`, `[` or `{` group out of a raw log message as a
 * raw expression and leaves a `$#$` marker in the formatted message instead.
 *
 * `Step` is one iteration of that loop and `Run` the loop over a whole
 * prefix; the method in module `Actions` is proved to compute `Run`, and the
 * lemmas here say what `Run` computes.
 */
module MessageScanner {
  import opened Wrappers
  import opened Text

  /** The marker left in the formatted message where a group was cut out. */
  const Marker: string := "$#$"

  predicate IsOpener(c: char) { c == '(' || c == '[' || c == '{' }

  predicate IsCloser(c: char) { c == ')' || c == ']' || c == '}' }

  predicate IsBracket(c: char) { IsOpener(c) || IsCloser(c) }

  /** `brace_matching`: the opener a closer must match. */
  function OpenerOf(c: char): (o: char)
    requires IsCloser(c)
    ensures IsOpener(o)
  {
    if c == ')' then '(' else if c == ']' then '[' else '{'
  }

  /** The closer that matches an opener. */
  function CloserOf(o: char): (c: char)
    requires IsOpener(o)
    ensures IsCloser(c) && OpenerOf(c) == o
  {
    if o == '(' then ')' else if o == '[' then ']' else '}'
  }

  /** The two exceptions the loop can raise. */
  datatype ScanError =
    | EmptyStackIndex                    // `stack[-1]` on an empty stack: IndexError
    | InvalidExpression(partial: string) // mismatched closer: ValueError with the text read so far

  /**
   * The loop's four lists: the open brackets, the characters of the group
   * being read, the raw expressions cut out so far, and the pieces of the
   * formatted message (one-character strings and markers).
   */
  datatype ScanState = ScanState(
    stack: seq<char>,
    current: string,
    expressions: seq<string>,
    pieces: seq<string>)

  const Start: ScanState := ScanState([], [], [], [])

  /** One iteration of the loop, reading character `c`. */
  function Step(st: ScanState, c: char): Result<ScanState, ScanError>
  {
    var inGroup := st.stack != [] || IsOpener(c);
    var current := if inGroup then st.current + [c] else st.current;
    var pieces := if inGroup then st.pieces else st.pieces + [[c]];
    if IsOpener(c) then
      Ok(ScanState(st.stack + [c], current, st.expressions, pieces))
    else if IsCloser(c) then
      if st.stack == [] then Err(EmptyStackIndex)
      else if st.stack[|st.stack| - 1] != OpenerOf(c) then Err(InvalidExpression(current))
      else
        var stack := st.stack[..|st.stack| - 1];
        if stack == [] then Ok(ScanState([], [], st.expressions + [current], pieces + [Marker]))
        else Ok(ScanState(stack, current, st.expressions, pieces))
    else
      Ok(ScanState(st.stack, current, st.expressions, pieces))
  }

  /** `Step`, case by case. */
  lemma StepCases(st: ScanState, c: char)
    ensures IsOpener(c) ==>
      Step(st, c) == Ok(ScanState(st.stack + [c], st.current + [c], st.expressions, st.pieces))
    ensures IsCloser(c) && st.stack == [] ==> Step(st, c) == Err(EmptyStackIndex)
    ensures IsCloser(c) && st.stack != [] && st.stack[|st.stack| - 1] != OpenerOf(c) ==>
      Step(st, c) == Err(InvalidExpression(st.current + [c]))
    ensures IsCloser(c) && |st.stack| == 1 && st.stack[0] == OpenerOf(c) ==>
      Step(st, c) == Ok(ScanState([], [], st.expressions + [st.current + [c]], st.pieces + [Marker]))
    ensures IsCloser(c) && |st.stack| > 1 && st.stack[|st.stack| - 1] == OpenerOf(c) ==>
      Step(st, c) == Ok(ScanState(st.stack[..|st.stack| - 1], st.current + [c], st.expressions, st.pieces))
    ensures !IsBracket(c) && st.stack == [] ==>
      Step(st, c) == Ok(ScanState(st.stack, st.current, st.expressions, st.pieces + [[c]]))
    ensures !IsBracket(c) && st.stack != [] ==>
      Step(st, c) == Ok(ScanState(st.stack, st.current + [c], st.expressions, st.pieces))
  {
  }

  /** The loop run over all of `s`; the first exception ends it. */
  function Run(s: string): Result<ScanState, ScanError>
    decreases |s|
  {
    if s == [] then Ok(Start)
    else
      match Run(s[..|s| - 1])
      case Err(e) => Err(e)
      case Ok(st) => Step(st, s[|s| - 1])
  }

  /** The formatted message and the raw expressions, or the exception raised. */
  function Scan(message: string): Result<(string, seq<string>), ScanError>
  {
    match Run(message)
    case Err(e) => Err(e)
    case Ok(st) => Ok((Concat(st.pieces), st.expressions))
  }

  /** Open minus close brackets in `s`. */
  function Depth(s: string): int
    decreases |s|
  {
    if s == [] then 0
    else
      var c := s[|s| - 1];
      Depth(s[..|s| - 1]) + (if IsOpener(c) then 1 else if IsCloser(c) then -1 else 0)
  }

  /**
   * `e` is one top-level bracket group: it opens with a bracket, closes with
   * the matching one, and its nesting depth stays positive in between, so
   * nested groups inside it are not separate groups.
   */
  ghost predicate IsGroup(e: string)
  {
    && |e| >= 2
    && IsOpener(e[0])
    && e[|e| - 1] == CloserOf(e[0])
    && Depth(e) == 0
    && (forall k :: 0 < k < |e| ==> Depth(e[..k]) > 0)
  }

  /** A piece copied from outside every group: one non-bracket character. */
  predicate IsLiteralPiece(p: string)
  {
    |p| == 1 && !IsBracket(p[0])
  }

  /** The number of markers among `pieces`. */
  function MarkerCount(pieces: seq<string>): nat
    decreases |pieces|
  {
    if pieces == [] then 0
    else MarkerCount(pieces[..|pieces| - 1]) + (if pieces[|pieces| - 1] == Marker then 1 else 0)
  }

  /**
   * The formatted pieces with the raw expressions put back, in order, in
   * place of the markers.
   */
  function Fill(pieces: seq<string>, expressions: seq<string>): string
    decreases |pieces|
  {
    if pieces == [] then []
    else
      var last := pieces[|pieces| - 1];
      if last == Marker && expressions != [] then
        Fill(pieces[..|pieces| - 1], expressions[..|expressions| - 1]) + expressions[|expressions| - 1]
      else
        Fill(pieces[..|pieces| - 1], expressions) + last
  }

  /**
   * The group being read: the stack holds openers only, the group starts
   * with the bottom one, its depth is the stack's height, and no proper
   * prefix of it closes it.
   */
  ghost predicate OpenGroup(stack: seq<char>, current: string)
  {
    && (stack == [] <==> current == [])
    && (forall i :: 0 <= i < |stack| ==> IsOpener(stack[i]))
    && (stack != [] ==> current[0] == stack[0])
    && |stack| == Depth(current)
    && (forall k :: 0 < k < |current| ==> Depth(current[..k]) > 0)
  }

  /**
   * What has been cut out: every expression is a whole group, every piece a
   * marker or a plain character, one marker per expression.
   */
  ghost predicate ClosedGroups(expressions: seq<string>, pieces: seq<string>)
  {
    && (forall i :: 0 <= i < |expressions| ==> IsGroup(expressions[i]))
    && (forall i :: 0 <= i < |pieces| ==> pieces[i] == Marker || IsLiteralPiece(pieces[i]))
    && MarkerCount(pieces) == |expressions|
  }

  /** What the loop keeps true of its lists after reading `consumed`. */
  ghost predicate Consistent(st: ScanState, consumed: string)
  {
    && OpenGroup(st.stack, st.current)
    && ClosedGroups(st.expressions, st.pieces)
    && Fill(st.pieces, st.expressions) + st.current == consumed
  }

  lemma DepthAppend(s: string, c: char)
    ensures Depth(s + [c]) == Depth(s) + (if IsOpener(c) then 1 else if IsCloser(c) then -1 else 0)
    ensures forall k :: 0 <= k <= |s| ==> (s + [c])[..k] == s[..k]
  {
    assert (s + [c])[..|s|] == s;
  }

  /** Appending `c` to a group that is still open keeps its prefixes positive. */
  lemma ExtendOpenGroup(cur: string, depth: nat, c: char)
    requires cur != [] ==> depth > 0
    requires |cur| > 0 ==> Depth(cur) == depth
    requires forall k :: 0 < k < |cur| ==> Depth(cur[..k]) > 0
    ensures forall k :: 0 < k < |cur + [c]| ==> Depth((cur + [c])[..k]) > 0
  {
    DepthAppend(cur, c);
    forall k | 0 < k < |cur + [c]| ensures Depth((cur + [c])[..k]) > 0 {
      if k == |cur| {
        assert cur[..k] == cur;
      }
    }
  }

  /** Reading one more character of the group keeps the text read so far. */
  lemma ReadIntoGroup(pieces: seq<string>, expressions: seq<string>, current: string, c: char, consumed: string)
    requires Fill(pieces, expressions) + current == consumed
    ensures Fill(pieces, expressions) + (current + [c]) == consumed + [c]
  {
    Regroup(Fill(pieces, expressions), current, [c]);
  }

  /** Reading a character outside every group. */
  lemma StepOutside(st: ScanState, c: char, consumed: string)
    requires Consistent(st, consumed)
    requires st.stack == [] && !IsBracket(c)
    ensures Step(st, c).Ok? && Consistent(Step(st, c).value, consumed + [c])
  {
    var next := Step(st, c).value;
    assert next.pieces == st.pieces + [[c]];
    assert next.pieces[..|st.pieces|] == st.pieces;
    assert MarkerCount(next.pieces) == MarkerCount(st.pieces);
    assert Fill(next.pieces, st.expressions) == Fill(st.pieces, st.expressions) + [c];
  }

  /** Reading an opener. */
  lemma StepOpen(st: ScanState, c: char, consumed: string)
    requires Consistent(st, consumed)
    requires IsOpener(c)
    ensures Step(st, c).Ok? && Consistent(Step(st, c).value, consumed + [c])
  {
    var next := ScanState(st.stack + [c], st.current + [c], st.expressions, st.pieces);
    assert Step(st, c) == Ok(next);
    OpenGroupPush(st.stack, st.current, c);
    ReadIntoGroup(st.pieces, st.expressions, st.current, c, consumed);
  }

  lemma OpenGroupPush(stack: seq<char>, current: string, c: char)
    requires OpenGroup(stack, current) && IsOpener(c)
    ensures OpenGroup(stack + [c], current + [c])
  {
    DepthAppend(current, c);
    ExtendOpenGroup(current, |stack|, c);
    assert forall i :: 0 <= i < |stack + [c]| ==> IsOpener((stack + [c])[i]);
    assert (current + [c])[0] == (stack + [c])[0];
  }

  /** Reading a non-closing character inside a group. */
  lemma StepInside(st: ScanState, c: char, consumed: string)
    requires Consistent(st, consumed)
    requires st.stack != [] && !IsBracket(c)
    ensures Step(st, c).Ok? && Consistent(Step(st, c).value, consumed + [c])
  {
    var next := ScanState(st.stack, st.current + [c], st.expressions, st.pieces);
    assert Step(st, c) == Ok(next);
    OpenGroupInside(st.stack, st.current, c);
    ReadIntoGroup(st.pieces, st.expressions, st.current, c, consumed);
  }

  lemma OpenGroupInside(stack: seq<char>, current: string, c: char)
    requires OpenGroup(stack, current) && stack != [] && !IsBracket(c)
    ensures OpenGroup(stack, current + [c])
  {
    DepthAppend(current, c);
    ExtendOpenGroup(current, |stack|, c);
  }

  /** Closing the last open bracket completes one top-level group. */
  lemma CloseCompletesGroup(stack: seq<char>, current: string, c: char)
    requires OpenGroup(stack, current)
    requires IsCloser(c) && |stack| == 1 && stack[0] == OpenerOf(c)
    ensures IsGroup(current + [c])
  {
    DepthAppend(current, c);
    ExtendOpenGroup(current, |stack|, c);
    var e := current + [c];
    assert e[0] == stack[0];
  }

  /** A marker and its expression, appended together, fill back to the expression. */
  lemma FillMarker(pieces: seq<string>, expressions: seq<string>, e: string)
    ensures MarkerCount(pieces + [Marker]) == MarkerCount(pieces) + 1
    ensures Fill(pieces + [Marker], expressions + [e]) == Fill(pieces, expressions) + e
  {
    assert (pieces + [Marker])[..|pieces|] == pieces;
    assert (expressions + [e])[..|expressions|] == expressions;
  }

  /** Cutting out a completed group keeps what was cut out well formed. */
  lemma ClosedGroupsAdd(expressions: seq<string>, pieces: seq<string>, e: string)
    requires ClosedGroups(expressions, pieces) && IsGroup(e)
    ensures ClosedGroups(expressions + [e], pieces + [Marker])
  {
    FillMarker(pieces, expressions, e);
    assert forall i :: 0 <= i < |expressions + [e]| ==>
      (expressions + [e])[i] == (if i < |expressions| then expressions[i] else e);
  }

  /** Reading the closer that ends a top-level group. */
  lemma StepCloseGroup(st: ScanState, c: char, consumed: string)
    requires Consistent(st, consumed)
    requires IsCloser(c) && |st.stack| == 1 && st.stack[0] == OpenerOf(c)
    ensures Step(st, c).Ok? && Consistent(Step(st, c).value, consumed + [c])
  {
    var e := st.current + [c];
    var next := ScanState([], [], st.expressions + [e], st.pieces + [Marker]);
    assert Step(st, c) == Ok(next);
    CloseCompletesGroup(st.stack, st.current, c);
    ClosedGroupsAdd(st.expressions, st.pieces, e);
    FillMarker(st.pieces, st.expressions, e);
    ReadIntoGroup(st.pieces, st.expressions, st.current, c, consumed);
  }

  /** Reading a closer that ends a nested group. */
  lemma StepCloseNested(st: ScanState, c: char, consumed: string)
    requires Consistent(st, consumed)
    requires IsCloser(c) && |st.stack| > 1 && st.stack[|st.stack| - 1] == OpenerOf(c)
    ensures Step(st, c).Ok? && Consistent(Step(st, c).value, consumed + [c])
  {
    var next := ScanState(st.stack[..|st.stack| - 1], st.current + [c], st.expressions, st.pieces);
    assert Step(st, c) == Ok(next);
    OpenGroupPop(st.stack, st.current, c);
    ReadIntoGroup(st.pieces, st.expressions, st.current, c, consumed);
  }

  lemma OpenGroupPop(stack: seq<char>, current: string, c: char)
    requires OpenGroup(stack, current) && IsCloser(c) && |stack| > 1
    ensures OpenGroup(stack[..|stack| - 1], current + [c])
  {
    DepthAppend(current, c);
    ExtendOpenGroup(current, |stack|, c);
    var rest := stack[..|stack| - 1];
    assert forall i :: 0 <= i < |rest| ==> IsOpener(rest[i]);
    assert (current + [c])[0] == rest[0];
  }

  /** Every successful iteration keeps the loop's lists consistent. */
  lemma StepConsistent(st: ScanState, c: char, consumed: string)
    requires Consistent(st, consumed)
    ensures Step(st, c).Ok? ==> Consistent(Step(st, c).value, consumed + [c])
  {
    if IsOpener(c) {
      StepOpen(st, c, consumed);
    } else if IsCloser(c) {
      if |st.stack| == 1 && st.stack[0] == OpenerOf(c) {
        StepCloseGroup(st, c, consumed);
      } else if |st.stack| > 1 && st.stack[|st.stack| - 1] == OpenerOf(c) {
        StepCloseNested(st, c, consumed);
      }
    } else if st.stack == [] {
      StepOutside(st, c, consumed);
    } else {
      StepInside(st, c, consumed);
    }
  }

  /**
   * After any prefix that raised nothing: every raw expression is one
   * top-level group, the formatted pieces are single non-bracket characters
   * and markers, there are as many markers as expressions, and putting the
   * expressions back in place of the markers, followed by the group still
   * open, gives back the prefix.
   */
  lemma {:induction false} RunConsistent(s: string)
    requires Run(s).Ok?
    ensures Consistent(Run(s).value, s)
    decreases |s|
  {
    if s != [] {
      var init := s[..|s| - 1];
      RunConsistent(init);
      StepConsistent(Run(init).value, s[|s| - 1], init);
      InitThenLast(s);
    }
  }

  lemma InitThenLast(s: string)
    requires s != []
    ensures s[..|s| - 1] + [s[|s| - 1]] == s
  {
  }

  /** Once the loop has raised, the characters after it do not matter. */
  lemma {:induction false} ErrorPersists(s: string, t: string)
    requires Run(s).Err?
    ensures Run(s + t) == Run(s)
    decreases |t|
  {
    if t != [] {
      var init := t[..|t| - 1];
      ErrorPersists(s, init);
      assert (s + t)[..|s + t| - 1] == s + init;
    } else {
      assert s + t == s;
    }
  }

  /**
   * A closer raises when the stack is empty (IndexError) or its top does not
   * match (ValueError naming the group read so far, closer included),
   * whatever follows it.
   */
  lemma CloserMismatchRaises(prefix: string, c: char, rest: string)
    requires Run(prefix).Ok? && IsCloser(c)
    requires var st := Run(prefix).value;
      st.stack == [] || st.stack[|st.stack| - 1] != OpenerOf(c)
    ensures var st := Run(prefix).value;
      Run(prefix + [c] + rest)
        == Err(if st.stack == [] then EmptyStackIndex else InvalidExpression(st.current + [c]))
  {
    assert (prefix + [c])[..|prefix|] == prefix;
    ErrorPersists(prefix + [c], rest);
  }

  /** When every bracket closes, the expressions put back in place of the markers rebuild the message. */
  lemma RoundTrip(message: string)
    requires Run(message).Ok? && Run(message).value.stack == []
    ensures Fill(Run(message).value.pieces, Run(message).value.expressions) == message
  {
    RunConsistent(message);
  }

  /** A message with no bracket at all scans to itself and no expressions. */
  lemma {:induction false} NoBracketsUnchanged(message: string)
    requires forall i :: 0 <= i < |message| ==> !IsBracket(message[i])
    ensures Scan(message) == Ok((message, []))
  {
    NoBracketsRun(message);
    RunConsistent(message);
    var st := Run(message).value;
    assert st.current == [];
    FillWithoutExpressions(st.pieces);
    assert Concat(st.pieces) == message;
  }

  lemma {:induction false} NoBracketsRun(s: string)
    requires forall i :: 0 <= i < |s| ==> !IsBracket(s[i])
    ensures Run(s).Ok? && Run(s).value.stack == [] && Run(s).value.expressions == []
    decreases |s|
  {
    if s != [] {
      NoBracketsRun(s[..|s| - 1]);
    }
  }

  /** With no expressions to put back, the markers stay and `Fill` is plain concatenation. */
  lemma {:induction false} FillWithoutExpressions(pieces: seq<string>)
    ensures Fill(pieces, []) == Concat(pieces)
    decreases |pieces|
  {
    if pieces != [] {
      FillWithoutExpressions(pieces[..|pieces| - 1]);
    }
  }

  /** The formatted message of a successful scan contains no bracket character. */
  lemma FormattedHasNoBrackets(message: string)
    requires Scan(message).Ok?
    ensures forall i :: 0 <= i < |Scan(message).value.0| ==> !IsBracket(Scan(message).value.0[i])
  {
    RunConsistent(message);
    ConcatNoBrackets(Run(message).value.pieces);
  }

  lemma {:induction false} ConcatNoBrackets(pieces: seq<string>)
    requires forall i :: 0 <= i < |pieces| ==> pieces[i] == Marker || IsLiteralPiece(pieces[i])
    ensures forall i :: 0 <= i < |Concat(pieces)| ==> !IsBracket(Concat(pieces)[i])
    decreases |pieces|
  {
    if pieces != [] {
      var init := pieces[..|pieces| - 1];
      ConcatNoBrackets(init);
      var last := pieces[|pieces| - 1];
      assert Concat(pieces) == Concat(init) + last;
      forall i | 0 <= i < |Concat(pieces)| ensures !IsBracket(Concat(pieces)[i]) {
        if i >= |Concat(init)| {
          assert Concat(pieces)[i] == last[i - |Concat(init)|];
        }
      }
    }
  }

  /**
   * A group still open at the end of the message is lost: the result is the
   * one for the message cut just before the group's opening bracket, which
   * leaves no group open.
   */
  lemma {:induction false} UnclosedGroupDropped(message: string)
    requires Run(message).Ok? && Run(message).value.stack != []
    ensures exists k :: (
      && 0 <= k < |message| && IsOpener(message[k])
      && Run(message[..k]) == Ok(ScanState([], [], Run(message).value.expressions, Run(message).value.pieces)))
    decreases |message|
  {
    var n := |message|;
    var init := message[..n - 1];
    var c := message[n - 1];
    var st := Run(init).value;
    var fin := Run(message).value;
    assert fin == Step(st, c).value;
    if st.stack == [] {
      assert IsOpener(c);
      RunConsistent(init);
      assert st.current == [];
      assert fin.expressions == st.expressions && fin.pieces == st.pieces;
      assert Run(message[..n - 1]) == Ok(ScanState([], [], fin.expressions, fin.pieces));
    } else {
      assert fin.expressions == st.expressions && fin.pieces == st.pieces;
      UnclosedGroupDropped(init);
      var k :| 0 <= k < |init| && IsOpener(init[k])
        && Run(init[..k]) == Ok(ScanState([], [], st.expressions, st.pieces));
      assert init[..k] == message[..k];
      assert message[k] == init[k];
    }
  }
}
