/**
 * `groupEventsByRequestUuid` and `buildLogNodes`: turn the flat, ordered
 * list of events into the forest the log tree shows. An event without a
 * request id becomes a top-level leaf; the events of one request become the
 * children, in input order, of one group node, placed where its id first
 * appears.
 *
 * `Forest` is the reference definition the two methods are proved to
 * compute; the lemmas after them say what it is.
 */
module Correlator {
  import opened Wrappers
  import opened Text
  import opened Events

  /** The distinct request ids named by `events`. */
  function RequestIds(events: seq<LogEvent>): set<string>
    decreases |events|
  {
    if events == [] then {}
    else
      var e := events[|events| - 1];
      RequestIds(events[..|events| - 1]) + (if HasRequest(e) then {e.requestUuid.value} else {})
  }

  /** The events of request `u`, in input order. */
  function EventsOf(events: seq<LogEvent>, u: string): seq<LogEvent>
    decreases |events|
  {
    if events == [] then []
    else
      var e := events[|events| - 1];
      EventsOf(events[..|events| - 1], u) + (if Carries(e, u) then [e] else [])
  }

  /** The number of events that name no request. */
  function StandaloneCount(events: seq<LogEvent>): nat
    decreases |events|
  {
    if events == [] then 0
    else StandaloneCount(events[..|events| - 1]) + (if HasRequest(events[|events| - 1]) then 0 else 1)
  }

  /** The key of the `k`-th child of group `u`: `${u}_${k}`. */
  function ChildKey(u: string, k: nat): string
  {
    u + "_" + NatToString(k)
  }

  /** The leaves of group `u`: child `k` wraps the `k`-th event. */
  function Children(u: string, evs: seq<LogEvent>): seq<LogNode>
  {
    seq(|evs|, k requires 0 <= k < |evs| => Leaf(ChildKey(u, k), evs[k].time, evs[k]))
  }

  /** The group node of request `u`, started at its first event. */
  function RequestNode(u: string, evs: seq<LogEvent>): LogNode
    requires evs != []
  {
    Group(u, evs[0].time, Children(u, evs))
  }

  /** The top-level leaf of an event that names no request. */
  function StandaloneNode(e: LogEvent): LogNode
  {
    Leaf(e.eventId, e.time, e)
  }

  /**
   * The top-level nodes contributed by the first `n` events: a leaf for each
   * event without a request, the whole group of a request at its first event,
   * nothing for its later events.
   */
  function TopLevel(events: seq<LogEvent>, n: nat): seq<LogNode>
    requires n <= |events|
  {
    if n == 0 then []
    else
      var e := events[n - 1];
      TopLevel(events, n - 1) +
        if !HasRequest(e) then [StandaloneNode(e)]
        else if e.requestUuid.value in RequestIds(events[..n - 1]) then []
        else
          EventsOfNonEmpty(events, n - 1);
          [RequestNode(e.requestUuid.value, EventsOf(events, e.requestUuid.value))]
  }

  /** The forest of all the events. */
  function Forest(events: seq<LogEvent>): seq<LogNode>
  {
    TopLevel(events, |events|)
  }

  /** The keys of `nodes`, in order. */
  function Keys(nodes: seq<LogNode>): seq<string>
    decreases |nodes|
  {
    if nodes == [] then [] else Keys(nodes[..|nodes| - 1]) + [nodes[|nodes| - 1].key]
  }

  // ---------------------------------------------------------------------
  // Facts about the definitions that the methods need
  // ---------------------------------------------------------------------

  lemma PrefixStep<T>(s: seq<T>, i: nat)
    requires i < |s|
    ensures s[..i + 1][..i] == s[..i] && s[..i + 1] == s[..i] + [s[i]]
  {
  }

  /** A request id is known exactly when some event names it. */
  lemma {:induction false} RequestIdsMembership(events: seq<LogEvent>, u: string)
    ensures u in RequestIds(events) <==> exists i :: 0 <= i < |events| && Carries(events[i], u)
    decreases |events|
  {
    if events != [] {
      var init := events[..|events| - 1];
      RequestIdsMembership(init, u);
      if exists i :: 0 <= i < |init| && Carries(init[i], u) {
        var i :| 0 <= i < |init| && Carries(init[i], u);
        assert events[i] == init[i];
      }
      if exists i :: 0 <= i < |events| && Carries(events[i], u) {
        var i :| 0 <= i < |events| && Carries(events[i], u);
        if i < |init| {
          assert init[i] == events[i];
        }
      }
    }
  }

  /** A request has events exactly when its id is known. */
  lemma {:induction false} EventsOfEmptyIff(events: seq<LogEvent>, u: string)
    requires u != ""
    ensures EventsOf(events, u) == [] <==> u !in RequestIds(events)
    decreases |events|
  {
    if events != [] {
      EventsOfEmptyIff(events[..|events| - 1], u);
    }
  }

  /** The request of event `i` has at least that event. */
  lemma EventsOfNonEmpty(events: seq<LogEvent>, i: nat)
    requires i < |events| && HasRequest(events[i])
    ensures EventsOf(events, events[i].requestUuid.value) != []
  {
    var u := events[i].requestUuid.value;
    RequestIdsMembership(events, u);
    EventsOfEmptyIff(events, u);
  }

  /** Adding one event to a group adds one child, keyed by its position. */
  lemma ChildrenAppend(u: string, evs: seq<LogEvent>, e: LogEvent)
    ensures Children(u, evs + [e]) == Children(u, evs) + [Leaf(ChildKey(u, |evs|), e.time, e)]
  {
  }

  // ---------------------------------------------------------------------
  // The two methods of the source
  // ---------------------------------------------------------------------

  /**
   * `m` holds, for every request named by `prefix`, its group node built
   * from its events in `prefix`, and nothing else.
   */
  ghost predicate Grouped(m: map<string, LogNode>, prefix: seq<LogEvent>)
  {
    && m.Keys == RequestIds(prefix)
    && forall u :: u in m ==> EventsOf(prefix, u) != [] && m[u] == RequestNode(u, EventsOf(prefix, u))
  }

  /** What one more event adds to the known ids and to each request's events. */
  lemma AppendEvent(prefix: seq<LogEvent>, e: LogEvent)
    ensures RequestIds(prefix + [e]) == RequestIds(prefix) + (if HasRequest(e) then {e.requestUuid.value} else {})
    ensures forall v :: EventsOf(prefix + [e], v) == EventsOf(prefix, v) + (if Carries(e, v) then [e] else [])
  {
    assert (prefix + [e])[..|prefix|] == prefix;
  }

  /** An event without a request id leaves the groups as they are. */
  lemma GroupedSkip(m: map<string, LogNode>, prefix: seq<LogEvent>, e: LogEvent)
    requires Grouped(m, prefix) && !HasRequest(e)
    ensures Grouped(m, prefix + [e])
  {
    AppendEvent(prefix, e);
    assert RequestIds(prefix + [e]) == RequestIds(prefix);
    forall v | v in m
      ensures EventsOf(prefix + [e], v) == EventsOf(prefix, v)
    {
    }
  }

  /**
   * Appending a child to the group of `u` (a fresh, empty group when `u` has
   * no events yet) gives the group of `u`'s events followed by `e`.
   */
  lemma ExtendGroup(u: string, evs: seq<LogEvent>, e: LogEvent, main: LogNode)
    requires evs != [] ==> main == RequestNode(u, evs)
    requires evs == [] ==> main == Group(u, e.time, [])
    ensures main.(children := main.children + [Leaf(ChildKey(main.key, |main.children|), e.time, e)])
      == RequestNode(u, evs + [e])
  {
    ChildrenAppend(u, evs, e);
    if evs == [] {
      assert Children(u, []) == [];
      assert evs + [e] == [e];
    } else {
      assert (evs + [e])[0] == evs[0];
    }
  }

  /** Replacing the group of `u` by the one of the longer prefix. */
  lemma GroupedUpdate(m: map<string, LogNode>, prefix: seq<LogEvent>, e: LogEvent, node: LogNode)
    requires Grouped(m, prefix) && HasRequest(e)
    requires EventsOf(prefix + [e], e.requestUuid.value) != []
    requires node == RequestNode(e.requestUuid.value, EventsOf(prefix + [e], e.requestUuid.value))
    ensures Grouped(m[e.requestUuid.value := node], prefix + [e])
  {
    var u := e.requestUuid.value;
    var m2 := m[u := node];
    AppendEvent(prefix, e);
    forall v | v in m2
      ensures EventsOf(prefix + [e], v) != [] && m2[v] == RequestNode(v, EventsOf(prefix + [e], v))
    {
      if v != u {
        assert EventsOf(prefix + [e], v) == EventsOf(prefix, v);
      }
    }
  }

  /**
   * An event of request `u` becomes the next child of `u`'s group, the
   * group being created first if `u` is new.
   */
  lemma GroupedAdd(m: map<string, LogNode>, prefix: seq<LogEvent>, e: LogEvent,
                   m1: map<string, LogNode>, main: LogNode)
    requires Grouped(m, prefix) && HasRequest(e)
    requires var u := e.requestUuid.value;
      && m1 == (if u in m then m else m[u := Group(u, e.time, [])])
      && u in m1 && main == m1[u]
    ensures Grouped(m1[e.requestUuid.value := main.(children := main.children
      + [Leaf(ChildKey(main.key, |main.children|), e.time, e)])], prefix + [e])
  {
    var u := e.requestUuid.value;
    var evs := EventsOf(prefix, u);
    EventsOfEmptyIff(prefix, u);
    ExtendGroup(u, evs, e, main);
    AppendEvent(prefix, e);
    var node := RequestNode(u, evs + [e]);
    GroupedUpdate(m, prefix, e, node);
    if u !in m {
      Overwrite(m, u, Group(u, e.time, []), node);
    }
  }

  lemma Overwrite(m: map<string, LogNode>, u: string, first: LogNode, second: LogNode)
    ensures m[u := first][u := second] == m[u := second]
  {
  }

  /**
   * `groupEventsByRequestUuid`: one group node per request id, holding that
   * request's events in input order.
   */
  method GroupEventsByRequestUuid(events: seq<LogEvent>) returns (eventsForRequestId: map<string, LogNode>)
    ensures eventsForRequestId.Keys == RequestIds(events)
    ensures forall u :: u in eventsForRequestId ==>
      EventsOf(events, u) != [] && eventsForRequestId[u] == RequestNode(u, EventsOf(events, u))
  {
    eventsForRequestId := map[];
    for i := 0 to |events|
      invariant Grouped(eventsForRequestId, events[..i])
    {
      var logEvent := events[i];
      PrefixStep(events, i);
      if !HasRequest(logEvent) {
        GroupedSkip(eventsForRequestId, events[..i], logEvent);
        continue;
      }
      ghost var before := eventsForRequestId;
      var requestUuid := logEvent.requestUuid.value;
      if requestUuid !in eventsForRequestId {
        eventsForRequestId := eventsForRequestId[requestUuid := Group(requestUuid, logEvent.time, [])];
      }
      var mainNode := eventsForRequestId[requestUuid];
      GroupedAdd(before, events[..i], logEvent, eventsForRequestId, mainNode);
      var node := Leaf(ChildKey(mainNode.key, |mainNode.children|), logEvent.time, logEvent);
      eventsForRequestId := eventsForRequestId[requestUuid := mainNode.(children := mainNode.children + [node])];
    }
    assert events[..|events|] == events;
  }

  /** What reading event `i` adds to the top-level nodes and to the known ids. */
  lemma TopLevelStep(events: seq<LogEvent>, i: nat)
    requires i < |events|
    ensures var e := events[i];
      !HasRequest(e) ==>
        && TopLevel(events, i + 1) == TopLevel(events, i) + [StandaloneNode(e)]
        && RequestIds(events[..i + 1]) == RequestIds(events[..i])
    ensures var e := events[i];
      HasRequest(e) ==> e.requestUuid.value in RequestIds(events)
    ensures var e := events[i];
      HasRequest(e) && e.requestUuid.value in RequestIds(events[..i]) ==>
        && TopLevel(events, i + 1) == TopLevel(events, i)
        && RequestIds(events[..i + 1]) == RequestIds(events[..i])
    ensures var e := events[i];
      HasRequest(e) && e.requestUuid.value !in RequestIds(events[..i]) ==>
        && EventsOf(events, e.requestUuid.value) != []
        && TopLevel(events, i + 1)
           == TopLevel(events, i) + [RequestNode(e.requestUuid.value, EventsOf(events, e.requestUuid.value))]
        && RequestIds(events[..i + 1]) == RequestIds(events[..i]) + {e.requestUuid.value}
  {
    PrefixStep(events, i);
    var e := events[i];
    if HasRequest(e) {
      RequestIdsMembership(events, e.requestUuid.value);
      EventsOfNonEmpty(events, i);
    }
  }

  /**
   * `buildLogNodes`: the top-level nodes in input order, each request's
   * group placed once, where its id first appears.
   */
  method BuildLogNodes(logEvents: seq<LogEvent>) returns (nodes: seq<LogNode>)
    ensures nodes == Forest(logEvents)
  {
    var eventsForRequestId := GroupEventsByRequestUuid(logEvents);
    nodes := [];
    var alreadySeenRequestId: set<string> := {};
    for i := 0 to |logEvents|
      invariant nodes == TopLevel(logEvents, i)
      invariant alreadySeenRequestId == RequestIds(logEvents[..i])
    {
      var event := logEvents[i];
      TopLevelStep(logEvents, i);
      if !HasRequest(event) {
        nodes := nodes + [StandaloneNode(event)];
      } else {
        var mainNode := eventsForRequestId[event.requestUuid.value];
        if event.requestUuid.value !in alreadySeenRequestId {
          assert mainNode == RequestNode(event.requestUuid.value, EventsOf(logEvents, event.requestUuid.value));
          nodes := nodes + [mainNode];
          alreadySeenRequestId := alreadySeenRequestId + {event.requestUuid.value};
        }
      }
    }
  }

  // ---------------------------------------------------------------------
  // What the forest is
  // ---------------------------------------------------------------------

  /** A request's events are exactly the events that name it. */
  lemma {:induction false} EventsOfMembership(events: seq<LogEvent>, u: string, e: LogEvent)
    ensures e in EventsOf(events, u) <==> e in events && Carries(e, u)
    decreases |events|
  {
    if events != [] {
      var init := events[..|events| - 1];
      EventsOfMembership(init, u, e);
      assert events == init + [events[|events| - 1]];
    }
  }

  /** Selecting a request's events commutes with concatenation, so their order is kept. */
  lemma {:induction false} EventsOfAppend(a: seq<LogEvent>, b: seq<LogEvent>, u: string)
    ensures EventsOf(a + b, u) == EventsOf(a, u) + EventsOf(b, u)
    decreases |b|
  {
    if b == [] {
      assert a + b == a;
    } else {
      var init := b[..|b| - 1];
      EventsOfAppend(a, init, u);
      assert (a + b)[..|a + b| - 1] == a + init;
    }
  }

  lemma {:induction false} TopLevelCount(events: seq<LogEvent>, n: nat)
    requires n <= |events|
    ensures |TopLevel(events, n)| == StandaloneCount(events[..n]) + |RequestIds(events[..n])|
  {
    if n > 0 {
      TopLevelCount(events, n - 1);
      TopLevelStep(events, n - 1);
      PrefixStep(events, n - 1);
      var e := events[n - 1];
      if HasRequest(e) && e.requestUuid.value !in RequestIds(events[..n - 1]) {
        AddNewId(RequestIds(events[..n - 1]), e.requestUuid.value);
      }
    }
  }

  lemma AddNewId(ids: set<string>, u: string)
    requires u !in ids
    ensures |ids + {u}| == |ids| + 1
  {
  }

  /**
   * There is one top-level node per event without a request id and one per
   * distinct request id.
   */
  lemma ForestCount(events: seq<LogEvent>)
    ensures |Forest(events)| == StandaloneCount(events) + |RequestIds(events)|
  {
    TopLevelCount(events, |events|);
    assert events[..|events|] == events;
  }

  /** The nodes of a shorter prefix come first, unchanged. */
  lemma {:induction false} TopLevelPrefix(events: seq<LogEvent>, n: nat, m: nat)
    requires n <= m <= |events|
    ensures |TopLevel(events, n)| <= |TopLevel(events, m)|
    ensures TopLevel(events, m)[..|TopLevel(events, n)|] == TopLevel(events, n)
    decreases m
  {
    if n < m {
      TopLevelPrefix(events, n, m - 1);
    }
  }

  /** Selecting from an event followed by more events. */
  lemma EventsOfCons(e: LogEvent, rest: seq<LogEvent>, u: string)
    ensures EventsOf([e] + rest, u) == (if Carries(e, u) then [e] else []) + EventsOf(rest, u)
  {
    EventsOfAppend([e], rest, u);
    assert [e][..0] == [];
  }

  /** The first event of a request heads that request's events. */
  lemma FirstEventOfRequest(events: seq<LogEvent>, f: nat)
    requires f < |events| && HasRequest(events[f])
    requires forall j :: 0 <= j < f ==> !Carries(events[j], events[f].requestUuid.value)
    ensures var u := events[f].requestUuid.value;
      && u !in RequestIds(events[..f])
      && EventsOf(events, u) != [] && EventsOf(events, u)[0] == events[f]
  {
    var u := events[f].requestUuid.value;
    NoEarlierEvent(events, f, u);
    SplitAround(events, f);
    EventsOfAppend(events[..f], [events[f]] + events[f + 1..], u);
    EventsOfCons(events[f], events[f + 1..], u);
  }

  /** No event before the first one of `u` belongs to `u`. */
  lemma NoEarlierEvent(events: seq<LogEvent>, f: nat, u: string)
    requires f <= |events| && u != ""
    requires forall j :: 0 <= j < f ==> !Carries(events[j], u)
    ensures u !in RequestIds(events[..f]) && EventsOf(events[..f], u) == []
  {
    var before := events[..f];
    forall i | 0 <= i < |before|
      ensures !Carries(before[i], u)
    {
      assert before[i] == events[i];
    }
    RequestIdsMembership(before, u);
    EventsOfEmptyIff(before, u);
  }

  lemma SplitAround<T>(s: seq<T>, f: nat)
    requires f < |s|
    ensures s == s[..f] + ([s[f]] + s[f + 1..])
  {
  }

  /**
   * The group of a request sits where its id first appears, right after the
   * nodes of the events before it, and starts at the time of that event.
   */
  lemma GroupPlacement(events: seq<LogEvent>, f: nat)
    requires f < |events| && HasRequest(events[f])
    requires forall j :: 0 <= j < f ==> !Carries(events[j], events[f].requestUuid.value)
    ensures var u := events[f].requestUuid.value;
      && EventsOf(events, u) != []
      && |TopLevel(events, f)| < |Forest(events)|
      && Forest(events)[|TopLevel(events, f)|] == RequestNode(u, EventsOf(events, u))
      && RequestNode(u, EventsOf(events, u)).startTime == events[f].time
  {
    var u := events[f].requestUuid.value;
    FirstEventOfRequest(events, f);
    TopLevelStep(events, f);
    var g := RequestNode(u, EventsOf(events, u));
    assert TopLevel(events, f + 1) == TopLevel(events, f) + [g];
    TopLevelPrefix(events, f + 1, |events|);
    NodeAfterPrefix(Forest(events), TopLevel(events, f), g);
  }

  lemma NodeAfterPrefix(all: seq<LogNode>, before: seq<LogNode>, g: LogNode)
    requires |before| + 1 <= |all| && all[..|before| + 1] == before + [g]
    ensures |before| < |all| && all[|before|] == g
  {
    assert all[|before|] == all[..|before| + 1][|before|];
  }

  /**
   * Every group among `nodes` is the whole group of a request in `ids`, and
   * has at least one child.
   */
  ghost predicate GroupsWellFormed(nodes: seq<LogNode>, events: seq<LogEvent>, ids: set<string>)
  {
    forall i :: 0 <= i < |nodes| && nodes[i].Group? ==>
      && nodes[i].key in ids
      && EventsOf(events, nodes[i].key) != []
      && nodes[i] == RequestNode(nodes[i].key, EventsOf(events, nodes[i].key))
      && nodes[i].children != []
  }

  /** No two groups among `nodes` share a key. */
  ghost predicate GroupKeysDistinct(nodes: seq<LogNode>)
  {
    forall i, j :: (0 <= i < j < |nodes| && nodes[i].Group? && nodes[j].Group?) ==>
      nodes[i].key != nodes[j].key
  }

  /** Appending a leaf keeps the groups as they are. */
  lemma GroupsAfterLeaf(nodes: seq<LogNode>, leaf: LogNode, events: seq<LogEvent>, ids: set<string>)
    requires GroupsWellFormed(nodes, events, ids) && GroupKeysDistinct(nodes) && leaf.Leaf?
    ensures GroupsWellFormed(nodes + [leaf], events, ids) && GroupKeysDistinct(nodes + [leaf])
  {
    var all := nodes + [leaf];
    assert forall i :: 0 <= i < |nodes| ==> all[i] == nodes[i];
  }

  /** Appending the group of a request not seen before keeps the groups distinct. */
  lemma GroupsAfterNewGroup(nodes: seq<LogNode>, u: string, events: seq<LogEvent>, ids: set<string>)
    requires GroupsWellFormed(nodes, events, ids) && GroupKeysDistinct(nodes)
    requires u !in ids && EventsOf(events, u) != []
    ensures var all := nodes + [RequestNode(u, EventsOf(events, u))];
      GroupsWellFormed(all, events, ids + {u}) && GroupKeysDistinct(all)
  {
    var g := RequestNode(u, EventsOf(events, u));
    var all := nodes + [g];
    assert forall i :: 0 <= i < |nodes| ==> all[i] == nodes[i];
    assert all[|nodes|] == g;
    assert g.children != [] by {
      assert |g.children| == |EventsOf(events, u)|;
    }
  }

  lemma {:induction false} TopLevelGroups(events: seq<LogEvent>, n: nat)
    requires n <= |events|
    ensures GroupsWellFormed(TopLevel(events, n), events, RequestIds(events[..n]))
    ensures GroupKeysDistinct(TopLevel(events, n))
  {
    if n > 0 {
      TopLevelGroups(events, n - 1);
      TopLevelStep(events, n - 1);
      var prev := TopLevel(events, n - 1);
      var e := events[n - 1];
      if !HasRequest(e) {
        GroupsAfterLeaf(prev, StandaloneNode(e), events, RequestIds(events[..n - 1]));
      } else if e.requestUuid.value !in RequestIds(events[..n - 1]) {
        GroupsAfterNewGroup(prev, e.requestUuid.value, events, RequestIds(events[..n - 1]));
      }
    }
  }

  /** The forest's groups: well formed, and one per request at most. */
  lemma ForestGroups(events: seq<LogEvent>)
    ensures forall i :: 0 <= i < |Forest(events)| && Forest(events)[i].Group? ==>
      var g := Forest(events)[i];
      && g.key in RequestIds(events)
      && EventsOf(events, g.key) != []
      && g == RequestNode(g.key, EventsOf(events, g.key))
      && g.children != []
    ensures forall i, j :: (0 <= i < j < |Forest(events)|
      && Forest(events)[i].Group? && Forest(events)[j].Group?) ==>
      Forest(events)[i].key != Forest(events)[j].key
  {
    TopLevelGroups(events, |events|);
    assert events[..|events|] == events;
  }

  /** Top-level keys depend only on the events read so far. */
  lemma {:induction false} TopLevelKeysLocal(a: seq<LogEvent>, b: seq<LogEvent>, n: nat)
    requires n <= |a| && n <= |b| && a[..n] == b[..n]
    ensures Keys(TopLevel(a, n)) == Keys(TopLevel(b, n))
  {
    if n > 0 {
      PrefixesAgree(a, b, n);
      TopLevelKeysLocal(a, b, n - 1);
      TopLevelStep(a, n - 1);
      TopLevelStep(b, n - 1);
      var e := a[n - 1];
      if !HasRequest(e) {
        KeysSnoc(TopLevel(a, n - 1), StandaloneNode(e));
        KeysSnoc(TopLevel(b, n - 1), StandaloneNode(e));
      } else if e.requestUuid.value !in RequestIds(a[..n - 1]) {
        var u := e.requestUuid.value;
        KeysSnoc(TopLevel(a, n - 1), RequestNode(u, EventsOf(a, u)));
        KeysSnoc(TopLevel(b, n - 1), RequestNode(u, EventsOf(b, u)));
      }
    }
  }

  lemma PrefixesAgree(a: seq<LogEvent>, b: seq<LogEvent>, n: nat)
    requires 0 < n <= |a| && n <= |b| && a[..n] == b[..n]
    ensures a[..n - 1] == b[..n - 1] && a[n - 1] == b[n - 1]
  {
    assert a[..n - 1] == a[..n][..n - 1] && b[..n - 1] == b[..n][..n - 1];
    assert a[n - 1] == a[..n][n - 1] && b[n - 1] == b[..n][n - 1];
  }

  lemma KeysSnoc(nodes: seq<LogNode>, g: LogNode)
    ensures Keys(nodes + [g]) == Keys(nodes) + [g.key]
  {
    assert (nodes + [g])[..|nodes|] == nodes;
  }

  /**
   * A later event of a request already seen neither adds nor moves a
   * top-level node; it only becomes the last child of that request's group.
   */
  lemma TrailingEventKeepsOrder(events: seq<LogEvent>, e: LogEvent)
    requires HasRequest(e) && e.requestUuid.value in RequestIds(events)
    ensures Keys(Forest(events + [e])) == Keys(Forest(events))
    ensures var u := e.requestUuid.value;
      && EventsOf(events + [e], u) == EventsOf(events, u) + [e]
      && Children(u, EventsOf(events + [e], u))
         == Children(u, EventsOf(events, u)) + [Leaf(ChildKey(u, |EventsOf(events, u)|), e.time, e)]
  {
    var u := e.requestUuid.value;
    var all := events + [e];
    var n := |events|;
    assert all[..n] == events && all[n] == e && all[..n + 1] == all;
    assert u in RequestIds(all[..n]);
    assert TopLevel(all, n + 1) == TopLevel(all, n);
    TopLevelKeysLocal(all, events, n);
    ChildrenAppend(u, EventsOf(events, u), e);
  }

  /** Children of one group never share a key. */
  lemma ChildKeysDistinct(u: string, i: nat, j: nat)
    requires i != j
    ensures ChildKey(u, i) != ChildKey(u, j)
  {
    if ChildKey(u, i) == ChildKey(u, j) {
      assert ChildKey(u, i)[|u| + 1..] == NatToString(i);
      assert ChildKey(u, j)[|u| + 1..] == NatToString(j);
      NatToStringInjective(i, j);
    }
  }
}
