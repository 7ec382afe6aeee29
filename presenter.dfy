/**
 * The pure logic of `logNodeRender`: what a tree node shows. A group shows
 * its request id and how long the request took; a leaf shows the service it
 * came from, its severity and its message, with every `$#$` placeholder
 * bound to a clickable tag for the matching expression.
 *
 * Styling, colours, `toUpperCase` and date formatting are not modelled.
 */
module Presenter {
  import opened Wrappers
  import opened Text
  import opened Events

  /** The text the backend put where an expression stood. */
  const Placeholder: string := "$#$"

  // ---------------------------------------------------------------------
  // Severity
  // ---------------------------------------------------------------------

  /** The severity and the message body a leaf shows. */
  datatype Headline = Headline(severity: string, body: string)

  /**
   * A message of the form `level | severity | body | ...` shows its trimmed
   * second field as severity and its trimmed third field as body; any other
   * message is shown whole, at severity `INFO`.
   */
  function SplitSeverity(message: string): (h: Headline)
    ensures CountChar(message, '|') < 2 ==> h == Headline("INFO", message)
    ensures CountChar(message, '|') >= 2 ==> '|' !in h.severity && '|' !in h.body
  {
    var parts := Split(message, "|");
    SplitCount(message, '|');
    SplitPartsFree(message, '|');
    if |parts| >= 3 then
      assert parts[1] in parts && parts[2] in parts;
      var severity, body := Trim(parts[1]), Trim(parts[2]);
      TrimKeeps(parts[1], '|');
      TrimKeeps(parts[2], '|');
      Headline(severity, body)
    else Headline("INFO", message)
  }

  /** Trimming removes characters, never adds one. */
  lemma TrimKeeps(s: string, c: char)
    requires c !in s
    ensures c !in Trim(s)
  {
    var i := LeadingWhiteSpace(s);
    var r := Trim(s);
    assert forall k :: 0 <= k < |r| ==> r[k] == s[i + k];
  }

  /**
   * `message` is `first|second|third` followed by `dropped`, which is empty
   * or starts at a third `|`; no field holds a `|`.
   */
  predicate SeverityLayout(message: string, first: string, second: string, third: string, dropped: string)
  {
    && message == first + "|" + second + "|" + third + dropped
    && '|' !in first && '|' !in second && '|' !in third
    && (dropped == [] || dropped[0] == '|')
  }

  /**
   * With two or more `|`, the severity is the field between the first and
   * the second `|`, the body the field between the second and the third (or
   * the end), each trimmed; whatever follows the third `|` is not shown.
   */
  lemma SeverityFields(message: string)
    requires CountChar(message, '|') >= 2
    ensures exists first, second, third, dropped ::
      && SeverityLayout(message, first, second, third, dropped)
      && SplitSeverity(message) == Headline(Trim(second), Trim(third))
  {
    var parts := Split(message, "|");
    SplitCount(message, '|');
    SplitPartsFree(message, '|');
    assert parts[0] in parts && parts[1] in parts && parts[2] in parts;
    var rest := SecondSeparator(message, "|");
    var third, dropped := FirstField(rest, '|');
    assert Split(rest, "|")[0] == parts[2];
    Regroup(parts[0] + "|" + parts[1] + "|", third, dropped);
    assert SeverityLayout(message, parts[0], parts[1], third, dropped);
  }

  /** Past the second separator: what follows is split into the pieces from the third on. */
  lemma SecondSeparator(s: string, d: string) returns (rest: string)
    requires d != [] && |Split(s, d)| >= 3
    ensures var parts := Split(s, d);
      s == parts[0] + d + parts[1] + d + rest && Split(rest, d) == parts[2..]
  {
    var parts := Split(s, d);
    SplitTail(s, d);
    var s1 := s[|parts[0]| + |d|..];
    var parts1 := Split(s1, d);
    assert parts1 == parts[1..];
    assert s == parts[0] + d + s1;
    SplitTail(s1, d);
    rest := s1[|parts1[0]| + |d|..];
    assert s1 == parts[1] + d + rest;
    Regroup(parts[0] + d, parts[1] + d, rest);
    Regroup(parts[0] + d, parts[1], d);
    assert Split(rest, d) == parts1[1..];
    assert parts1[1..] == parts[2..];
  }

  /** The first `c`-field of `s` and what follows it, which is empty or starts at a `c`. */
  lemma FirstField(s: string, c: char) returns (field: string, after: string)
    ensures field == Split(s, [c])[0]
    ensures s == field + after && c !in field
    ensures after == [] || after[0] == c
  {
    field := Split(s, [c])[0];
    FirstPartIsPrefix(s, [c]);
    SplitPartsFree(s, c);
    assert field in Split(s, [c]);
    after := s[|field|..];
    if after != [] {
      assert after[0] == s[|field|..|field| + 1][0];
    }
  }

  /** A character in neither half is in neither part of a concatenation. */
  lemma CharsOfParts(a: string, b: string, ch: char)
    requires ch !in a + b
    ensures ch !in a && ch !in b
  {
    assert forall i :: 0 <= i < |a| ==> a[i] == (a + b)[i];
    assert forall i :: 0 <= i < |b| ==> b[i] == (a + b)[|a| + i];
  }

  // ---------------------------------------------------------------------
  // Source service
  // ---------------------------------------------------------------------

  /** The service a log stream belongs to: the last path segment, up to its first `-`. */
  function SourceLabel(source: string): string
  {
    var segments := Split(source, ['/']);
    Split(segments[|segments| - 1], ['-'])[0]
  }

  /**
   * `service` sits in `source` after its last `/` (or at its start), and
   * what follows it has no `/` and is empty or starts with `-`.
   */
  predicate ServiceWithin(source: string, pre: string, service: string, post: string)
  {
    && source == pre + service + post
    && (pre == [] || pre[|pre| - 1] == '/')
    && '/' !in post
    && (post == [] || post[0] == '-')
  }

  /**
   * The label is the piece of the source that follows the last `/` and ends
   * at the first `-` after that (or at the end).
   */
  lemma SourceLabelShape(source: string)
    ensures '/' !in SourceLabel(source) && '-' !in SourceLabel(source)
    ensures exists pre, post :: ServiceWithin(source, pre, SourceLabel(source), post)
  {
    var pre, last, post := LabelParts(source);
    LabelWithin(source, pre, last, SourceLabel(source), post);
  }

  /** The source cut around its label. */
  lemma LabelParts(source: string) returns (pre: string, last: string, post: string)
    ensures source == pre + last && '/' !in last && (pre == [] || pre[|pre| - 1] == '/')
    ensures last == SourceLabel(source) + post && (post == [] || post[0] == '-')
    ensures '-' !in SourceLabel(source)
  {
    pre, last := LastSegment(source);
    var service;
    service, post := FirstField(last, '-');
  }

  lemma LabelWithin(source: string, pre: string, last: string, service: string, post: string)
    requires source == pre + last && '/' !in last && (pre == [] || pre[|pre| - 1] == '/')
    requires last == service + post && (post == [] || post[0] == '-')
    ensures '/' !in service && ServiceWithin(source, pre, service, post)
  {
    CharsOfParts(service, post, '/');
    Regroup(pre, service, post);
  }

  /** The last `/`-segment of `source`, and what comes before it. */
  lemma LastSegment(source: string) returns (pre: string, last: string)
    ensures var segments := Split(source, ['/']); last == segments[|segments| - 1]
    ensures source == pre + last && '/' !in last
    ensures pre == [] || pre[|pre| - 1] == '/'
  {
    var segments := Split(source, ['/']);
    last := segments[|segments| - 1];
    LastPartIsSuffix(source, '/');
    SplitPartsFree(source, '/');
    assert last in segments;
    pre := source[..|source| - |last|];
    if pre != [] {
      assert |segments| > 1;
      assert pre[|pre| - 1] == source[|source| - |last| - 1];
    }
  }

  // ---------------------------------------------------------------------
  // Elapsed time of a request
  // ---------------------------------------------------------------------

  /** dayjs `diff(earlier, 'second')`: whole seconds, truncated toward zero. */
  function DiffSeconds(later: int, earlier: int): (s: int)
    ensures var ms := later - earlier;
      && (ms >= 0 ==> 0 <= s && s * 1000 <= ms < s * 1000 + 1000)
      && (ms < 0 ==> s <= 0 && s * 1000 - 1000 < ms <= s * 1000)
  {
    var ms := later - earlier;
    if ms >= 0 then ms / 1000 else -((-ms) / 1000)
  }

  /** `timeTaken` of a group: a whole number of seconds, or `<1` when that is 0. */
  datatype Elapsed = UnderOneSecond | Seconds(n: int)

  /**
   * The time from a group's first child to its last: `<1` exactly when they
   * are less than a second apart, in particular for a single child.
   */
  function GroupElapsed(children: seq<LogNode>): (t: Elapsed)
    requires children != []
    ensures var ms := children[|children| - 1].startTime - children[0].startTime;
      t == UnderOneSecond <==> -1000 < ms < 1000
    ensures t.Seconds? ==> (t.n != 0
      && t.n == DiffSeconds(children[|children| - 1].startTime, children[0].startTime))
    ensures |children| == 1 ==> t == UnderOneSecond
  {
    var s := DiffSeconds(children[|children| - 1].startTime, children[0].startTime);
    if s == 0 then UnderOneSecond else Seconds(s)
  }

  // ---------------------------------------------------------------------
  // Placeholders
  // ---------------------------------------------------------------------

  /** A piece of a rendered message: literal text, or the tag of one expression. */
  datatype MessageNode =
    | Literal(text: string)
    | VarTag(nodeKey: string, name: string, varId: string, expression: Json, highlighted: bool)

  /** `$var_${i}` */
  function VarName(i: nat): string
  {
    "$var_" + NatToString(i)
  }

  /** `${node.key}_${name}` */
  function VarId(nodeKey: string, i: nat): string
  {
    nodeKey + "_" + VarName(i)
  }

  /** The tag of expression `i`, blue when it is the selected one. */
  function Tag(nodeKey: string, i: nat, expression: Json, selected: VarSelection): MessageNode
  {
    VarTag(nodeKey, VarName(i), VarId(nodeKey, i), expression, selected.varId == Some(VarId(nodeKey, i)))
  }

  /**
   * The message pieces, each followed by the tag of the expression with the
   * same index while there is one.
   */
  function Interleave(nodeKey: string, parts: seq<string>, expressions: seq<Json>,
                      selected: VarSelection): seq<MessageNode>
    decreases |parts|
  {
    if parts == [] then []
    else
      var n := |parts| - 1;
      Interleave(nodeKey, parts[..n], expressions, selected) + [Literal(parts[n])]
        + (if n < |expressions| then [Tag(nodeKey, n, expressions[n], selected)] else [])
  }

  /** What the message of a leaf shows. */
  function MessageNodes(nodeKey: string, body: string, expressions: seq<Json>,
                        selected: VarSelection): seq<MessageNode>
  {
    if |expressions| > 0 then Interleave(nodeKey, Split(body, Placeholder), expressions, selected)
    else [Literal(body)]
  }

  /** The placeholder loop of `logNodeRender`. */
  method BindPlaceholders(nodeKey: string, message: string, expressions: seq<Json>,
                          selected: VarSelection) returns (messageNodes: seq<MessageNode>)
    ensures messageNodes == MessageNodes(nodeKey, message, expressions, selected)
  {
    if |expressions| > 0 {
      var messageParts := Split(message, Placeholder);
      messageNodes := [];
      for i := 0 to |messageParts|
        invariant messageNodes == Interleave(nodeKey, messageParts[..i], expressions, selected)
      {
        assert messageParts[..i + 1][..i] == messageParts[..i];
        messageNodes := messageNodes + [Literal(messageParts[i])];
        if i < |expressions| {
          var name := VarName(i);
          var varId := nodeKey + "_" + name;
          messageNodes := messageNodes + [VarTag(nodeKey, name, varId, expressions[i], selected.varId == Some(varId))];
        }
      }
      assert messageParts[..|messageParts|] == messageParts;
    } else {
      messageNodes := [Literal(message)];
    }
  }

  function Min(a: nat, b: nat): nat
  {
    if a <= b then a else b
  }

  /** One step of `Interleave`: the last piece, then its tag if it has one. */
  lemma InterleaveStep(nodeKey: string, parts: seq<string>, expressions: seq<Json>, selected: VarSelection)
    requires parts != []
    ensures var n := |parts| - 1;
      var prev := Interleave(nodeKey, parts[..n], expressions, selected);
      var r := Interleave(nodeKey, parts, expressions, selected);
      && r[..|prev|] == prev
      && |r| == |prev| + (if n < |expressions| then 2 else 1)
      && r[|prev|] == Literal(parts[n])
      && (n < |expressions| ==> r[|prev| + 1] == Tag(nodeKey, n, expressions[n], selected))
  {
  }

  /** A message of P pieces and E expressions has P + min(P, E) nodes. */
  lemma {:induction false} InterleaveLength(nodeKey: string, parts: seq<string>, expressions: seq<Json>,
                                            selected: VarSelection)
    ensures |Interleave(nodeKey, parts, expressions, selected)| == |parts| + Min(|parts|, |expressions|)
    decreases |parts|
  {
    if parts != [] {
      InterleaveLength(nodeKey, parts[..|parts| - 1], expressions, selected);
      InterleaveStep(nodeKey, parts, expressions, selected);
    }
  }

  /** Piece `i` sits at position `i + min(i, E)`: after the `i` pieces and their tags. */
  lemma {:induction false} InterleaveLiteralAt(nodeKey: string, parts: seq<string>, expressions: seq<Json>,
                                               selected: VarSelection)
    ensures var r := Interleave(nodeKey, parts, expressions, selected);
      forall i :: 0 <= i < |parts| ==>
        i + Min(i, |expressions|) < |r| && r[i + Min(i, |expressions|)] == Literal(parts[i])
    decreases |parts|
  {
    if parts != [] {
      var n := |parts| - 1;
      var init := parts[..n];
      InterleaveLiteralAt(nodeKey, init, expressions, selected);
      InterleaveLength(nodeKey, init, expressions, selected);
      InterleaveStep(nodeKey, parts, expressions, selected);
      var prev := Interleave(nodeKey, init, expressions, selected);
      var r := Interleave(nodeKey, parts, expressions, selected);
      forall i | 0 <= i < |parts|
        ensures i + Min(i, |expressions|) < |r| && r[i + Min(i, |expressions|)] == Literal(parts[i])
      {
        if i < n {
          assert init[i] == parts[i];
          assert r[i + Min(i, |expressions|)] == r[..|prev|][i + Min(i, |expressions|)];
        }
      }
    }
  }

  /** Tag `i` sits right after piece `i`, for every piece that has an expression. */
  lemma {:induction false} InterleaveTagAt(nodeKey: string, parts: seq<string>, expressions: seq<Json>,
                                           selected: VarSelection)
    ensures var r := Interleave(nodeKey, parts, expressions, selected);
      forall i :: 0 <= i < Min(|parts|, |expressions|) ==>
        2 * i + 1 < |r| && r[2 * i + 1] == Tag(nodeKey, i, expressions[i], selected)
    decreases |parts|
  {
    if parts != [] {
      var n := |parts| - 1;
      var init := parts[..n];
      InterleaveTagAt(nodeKey, init, expressions, selected);
      InterleaveLength(nodeKey, init, expressions, selected);
      InterleaveStep(nodeKey, parts, expressions, selected);
      var prev := Interleave(nodeKey, init, expressions, selected);
      var r := Interleave(nodeKey, parts, expressions, selected);
      forall i | 0 <= i < Min(|parts|, |expressions|)
        ensures 2 * i + 1 < |r| && r[2 * i + 1] == Tag(nodeKey, i, expressions[i], selected)
      {
        if i < n {
          assert r[2 * i + 1] == r[..|prev|][2 * i + 1];
        }
      }
    }
  }

  /** Every tag of a message is tag `p / 2` at an odd position `p`: there are no others. */
  lemma {:induction false} InterleaveOnlyTags(nodeKey: string, parts: seq<string>, expressions: seq<Json>,
                                              selected: VarSelection)
    ensures var r := Interleave(nodeKey, parts, expressions, selected);
      forall p :: 0 <= p < |r| && r[p].VarTag? ==>
        p % 2 == 1 && p / 2 < Min(|parts|, |expressions|)
        && r[p] == Tag(nodeKey, p / 2, expressions[p / 2], selected)
    decreases |parts|
  {
    if parts != [] {
      var n := |parts| - 1;
      var init := parts[..n];
      InterleaveOnlyTags(nodeKey, init, expressions, selected);
      InterleaveLength(nodeKey, init, expressions, selected);
      InterleaveStep(nodeKey, parts, expressions, selected);
      var prev := Interleave(nodeKey, init, expressions, selected);
      var r := Interleave(nodeKey, parts, expressions, selected);
      forall p | 0 <= p < |r| && r[p].VarTag?
        ensures p % 2 == 1 && p / 2 < Min(|parts|, |expressions|)
        ensures r[p] == Tag(nodeKey, p / 2, expressions[p / 2], selected)
      {
        if p < |prev| {
          assert r[p] == r[..|prev|][p];
        }
      }
    }
  }

  /**
   * With fewer expressions than pieces, the pieces past the last expression
   * follow one another with nothing between them: the `$#$` that separated
   * them is gone.
   */
  lemma SurplusPiecesAdjacent(nodeKey: string, parts: seq<string>, expressions: seq<Json>,
                              selected: VarSelection)
    requires |expressions| < |parts|
    ensures var r := Interleave(nodeKey, parts, expressions, selected); var e := |expressions|;
      && |r| == |parts| + e
      && forall j :: e <= j < |parts| ==> r[e + j] == Literal(parts[j])
  {
    InterleaveLength(nodeKey, parts, expressions, selected);
    InterleaveLiteralAt(nodeKey, parts, expressions, selected);
    var e := |expressions|;
    forall j | e <= j < |parts|
      ensures Interleave(nodeKey, parts, expressions, selected)[e + j] == Literal(parts[j])
    {
      assert Min(j, e) == e;
    }
  }

  /**
   * With at least as many expressions as pieces, the message ends with a
   * tag: the last piece is followed by the tag of its expression.
   */
  lemma TrailingTag(nodeKey: string, parts: seq<string>, expressions: seq<Json>, selected: VarSelection)
    requires parts != [] && |expressions| >= |parts|
    ensures var r := Interleave(nodeKey, parts, expressions, selected); var n := |parts| - 1;
      && |r| == 2 * |parts|
      && r[|r| - 2] == Literal(parts[n])
      && r[|r| - 1] == Tag(nodeKey, n, expressions[n], selected)
  {
    InterleaveLength(nodeKey, parts, expressions, selected);
    InterleaveLiteralAt(nodeKey, parts, expressions, selected);
    InterleaveTagAt(nodeKey, parts, expressions, selected);
    var n := |parts| - 1;
    assert Min(n, |expressions|) == n;
  }

  /** The literal texts of a rendered message, in order. */
  function LiteralTexts(nodes: seq<MessageNode>): seq<string>
    decreases |nodes|
  {
    if nodes == [] then []
    else LiteralTexts(nodes[..|nodes| - 1]) + (if nodes[|nodes| - 1].Literal? then [nodes[|nodes| - 1].text] else [])
  }

  lemma {:induction false} LiteralTextsAppend(a: seq<MessageNode>, b: seq<MessageNode>)
    ensures LiteralTexts(a + b) == LiteralTexts(a) + LiteralTexts(b)
    decreases |b|
  {
    if b == [] {
      assert a + b == a;
    } else {
      LiteralTextsAppend(a, b[..|b| - 1]);
      assert (a + b)[..|a + b| - 1] == a + b[..|b| - 1];
    }
  }

  lemma {:induction false} InterleaveLiterals(nodeKey: string, parts: seq<string>, expressions: seq<Json>,
                                              selected: VarSelection)
    ensures LiteralTexts(Interleave(nodeKey, parts, expressions, selected)) == parts
    decreases |parts|
  {
    if parts != [] {
      var n := |parts| - 1;
      InterleaveLiterals(nodeKey, parts[..n], expressions, selected);
      var tags := if n < |expressions| then [Tag(nodeKey, n, expressions[n], selected)] else [];
      var prev := Interleave(nodeKey, parts[..n], expressions, selected);
      assert Interleave(nodeKey, parts, expressions, selected) == prev + ([Literal(parts[n])] + tags);
      LiteralTextsAppend(prev, [Literal(parts[n])] + tags);
      LiteralTextsAppend([Literal(parts[n])], tags);
      assert [Literal(parts[n])][..0] == [];
      if tags != [] {
        assert tags[..0] == [];
      }
      assert parts == parts[..n] + [parts[n]];
    }
  }

  /**
   * Nothing of the message is lost: its literal pieces, joined back with the
   * placeholder, give the message.
   */
  lemma MessageTextPreserved(nodeKey: string, body: string, expressions: seq<Json>, selected: VarSelection)
    ensures |expressions| > 0 ==>
      Join(LiteralTexts(MessageNodes(nodeKey, body, expressions, selected)), Placeholder) == body
    ensures |expressions| == 0 ==> MessageNodes(nodeKey, body, expressions, selected) == [Literal(body)]
  {
    if |expressions| > 0 {
      InterleaveLiterals(nodeKey, Split(body, Placeholder), expressions, selected);
      SplitJoin(body, Placeholder);
    }
  }

  /** Within one node, tags of different expressions have different ids. */
  lemma VarIdsDistinct(nodeKey: string, i: nat, j: nat)
    requires i != j
    ensures VarId(nodeKey, i) != VarId(nodeKey, j)
  {
    if VarId(nodeKey, i) == VarId(nodeKey, j) {
      var k := |nodeKey| + 6;
      assert VarId(nodeKey, i)[k..] == NatToString(i);
      assert VarId(nodeKey, j)[k..] == NatToString(j);
      NatToStringInjective(i, j);
    }
  }

  /**
   * A tag is highlighted exactly when the selection names its id: the
   * `selectedVar.varId === varId` test of the placeholder loop.
   */
  lemma HighlightFollowsSelection(nodeKey: string, body: string, expressions: seq<Json>,
                                  selected: VarSelection)
    ensures var r := MessageNodes(nodeKey, body, expressions, selected);
      forall p :: 0 <= p < |r| && r[p].VarTag? ==>
        && r[p].nodeKey == nodeKey
        && (r[p].highlighted <==> selected.varId == Some(r[p].varId))
  {
    if |expressions| > 0 {
      var parts := Split(body, Placeholder);
      var r := MessageNodes(nodeKey, body, expressions, selected);
      assert r == Interleave(nodeKey, parts, expressions, selected);
      InterleaveOnlyTags(nodeKey, parts, expressions, selected);
      forall p | 0 <= p < |r| && r[p].VarTag?
        ensures r[p].nodeKey == nodeKey && (r[p].highlighted <==> selected.varId == Some(r[p].varId))
      {
        assert r[p] == Tag(nodeKey, p / 2, expressions[p / 2], selected);
      }
    }
  }

  /** At most one tag of a message is highlighted. */
  lemma AtMostOneHighlighted(nodeKey: string, body: string, expressions: seq<Json>, selected: VarSelection)
    ensures var r := MessageNodes(nodeKey, body, expressions, selected);
      forall p, q :: (0 <= p < |r| && 0 <= q < |r| && r[p].VarTag? && r[q].VarTag?
        && r[p].highlighted && r[q].highlighted) ==> p == q
  {
    if |expressions| > 0 {
      var parts := Split(body, Placeholder);
      var r := MessageNodes(nodeKey, body, expressions, selected);
      assert r == Interleave(nodeKey, parts, expressions, selected);
      InterleaveOnlyTags(nodeKey, parts, expressions, selected);
      forall p, q | 0 <= p < |r| && 0 <= q < |r| && r[p].VarTag? && r[q].VarTag?
        && r[p].highlighted && r[q].highlighted
        ensures p == q
      {
        assert r[p] == Tag(nodeKey, p / 2, expressions[p / 2], selected);
        assert r[q] == Tag(nodeKey, q / 2, expressions[q / 2], selected);
        if p / 2 != q / 2 {
          VarIdsDistinct(nodeKey, p / 2, q / 2);
        }
        assert p == 2 * (p / 2) + 1 && q == 2 * (q / 2) + 1;
      }
    }
  }

  /** Clicking a tag selects it: `selectVar({nodeKey, varName, varId, expression})`. */
  function ClickSelection(tag: MessageNode): (s: VarSelection)
    requires tag.VarTag?
    ensures s.varId == Some(tag.varId) && s.expression == tag.expression
  {
    VarSelection(Some(tag.nodeKey), Some(tag.varId), Some(tag.name), tag.expression)
  }

  /**
   * After a tag is clicked, the message it belongs to shows that tag, and no
   * other, highlighted.
   */
  lemma ClickHighlightsClicked(nodeKey: string, body: string, expressions: seq<Json>,
                               selected: VarSelection, q: nat)
    requires q < |MessageNodes(nodeKey, body, expressions, selected)|
    requires MessageNodes(nodeKey, body, expressions, selected)[q].VarTag?
    ensures var after := MessageNodes(nodeKey, body, expressions,
                                      ClickSelection(MessageNodes(nodeKey, body, expressions, selected)[q]));
      && |after| == |MessageNodes(nodeKey, body, expressions, selected)|
      && forall p :: 0 <= p < |after| && after[p].VarTag? ==> (after[p].highlighted <==> p == q)
  {
    var before := MessageNodes(nodeKey, body, expressions, selected);
    var sel := ClickSelection(before[q]);
    var after := MessageNodes(nodeKey, body, expressions, sel);
    var parts := Split(body, Placeholder);
    assert |expressions| > 0;
    InterleaveLength(nodeKey, parts, expressions, selected);
    InterleaveLength(nodeKey, parts, expressions, sel);
    InterleaveOnlyTags(nodeKey, parts, expressions, selected);
    InterleaveOnlyTags(nodeKey, parts, expressions, sel);
    forall p | 0 <= p < |after| && after[p].VarTag?
      ensures after[p].highlighted <==> p == q
    {
      if p / 2 != q / 2 {
        VarIdsDistinct(nodeKey, p / 2, q / 2);
      }
    }
  }

  // ---------------------------------------------------------------------
  // A whole node
  // ---------------------------------------------------------------------

  /** `formatted_message ?? message` */
  function DisplayedMessage(e: LogEvent): string
  {
    match e.formattedMessage
    case Some(m) => m
    case None => e.message
  }

  /**
   * What a node's card shows: the source tag (absent when the service is
   * empty), whether the red ERROR tag is there, the start time, the elapsed
   * time (groups only) and the message.
   */
  datatype Display = Display(
    sourceTag: Option<string>,
    errorTag: bool,
    startTime: int,
    elapsed: Option<Elapsed>,
    message: seq<MessageNode>)

  /**
   * `logNodeRender`. A group needs a child: the source reads the start time
   * of its first and last children.
   */
  method RenderNode(node: LogNode, selected: VarSelection) returns (d: Display)
    requires node.Group? ==> node.children != []
    ensures node.Group? ==>
      d == Display(None, false, node.startTime, Some(GroupElapsed(node.children)), [Literal(node.key)])
    ensures node.Leaf? ==> var h := SplitSeverity(DisplayedMessage(node.event));
      && d.sourceTag == (if SourceLabel(node.event.source) == [] then None else Some(SourceLabel(node.event.source)))
      && d.errorTag == (h.severity == "ERROR")
      && d.startTime == node.startTime
      && d.elapsed == None
      && d.message == MessageNodes(node.key, h.body, node.event.expressions, selected)
  {
    if node.Group? {
      d := Display(None, false, node.startTime, Some(GroupElapsed(node.children)), [Literal(node.key)]);
    } else {
      var source := SourceLabel(node.event.source);
      var h := SplitSeverity(DisplayedMessage(node.event));
      var messageNodes := BindPlaceholders(node.key, h.body, node.event.expressions, selected);
      d := Display(if source == [] then None else Some(source), h.severity == "ERROR",
                   node.startTime, None, messageNodes);
    }
  }
}
