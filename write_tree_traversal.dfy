/** WriteTreeTraversal: the depth-first walk that drives a tree serializer.
    The serializer's callbacks are recorded as a sequence of events (the
    shape of the serializer mock); the text serializers replay them. The
    visited collection holds only repeatable nodes, so it is kept as the
    set of their object ids (see TraverseHelper.VisitedByIds). The walk sees
    the nodes through a TreeView.View. */
module WriteTreeTraversal {
  import opened Wrappers
  import opened Heap
  import opened NodeFactory
  import opened Nodes
  import opened TraverseHelper
  import opened TreeView

  /** One serializer callback with its arguments. */
  datatype Event =
    | BeginTraverse
    | BeforeTraversing(node: Node, depth: nat, hasBeenVisited: bool)
    | Traversing(node: Node, depth: nat, hasBeenVisited: bool)
    | AfterTraversing(node: Node, depth: nat, hasBeenVisited: bool)
    | EndTraverse

  predicate IsNodeEvent(e: Event)
  {
    e.BeforeTraversing? || e.Traversing? || e.AfterTraversing?
  }

  /** The events of traverse(node, depth) and the visited set afterwards. */
  function WalkNode(v: View, n: Node, depth: nat, visited: set<nat>): (r: (seq<Event>, set<nat>))
    requires Coherent(v)
    ensures visited <= r.1
    decreases Unvisited(v, visited), 1
  {
    var revisit := Revisit(v, n, visited);
    var marked := Mark(v, n, visited);
    var inner :=
      if !v.leaf(n) && !revisit then
        MarkShrinks(v, n, visited);
        WalkChildren(v, v.children(n), |v.children(n)|, depth + 1, marked, Unvisited(v, visited))
      else ([], marked);
    ([BeforeTraversing(n, depth, revisit), Traversing(n, depth, revisit)] + inner.0 +
     [AfterTraversing(n, depth, revisit)], inner.1)
  }

  /** The events of the first i iterations of the loop over the children
      and the visited set after them. `bound` is the parent's measure, above
      that of every visited set the loop sees. */
  function WalkChildren(v: View, cs: seq<Node>, i: nat, depth: nat, visited: set<nat>, bound: set<nat>)
    : (r: (seq<Event>, set<nat>))
    requires Coherent(v) && i <= |cs|
    requires 0 < |cs| ==> Unvisited(v, visited) < bound
    ensures visited <= r.1
    decreases bound, 0, i
  {
    if i == 0 then ([], visited)
    else
      var before := WalkChildren(v, cs, i - 1, depth, visited, bound);
      var last := WalkNode(v, cs[i - 1], depth, before.1);
      (before.0 + last.0, last.1)
  }

  /** The whole walk: begin, the root at depth 0 with nothing visited, end.
      The walk over the node model is TraverseEvents(ViewOf(u), root). */
  function TraverseEvents(v: View, root: Node): (events: seq<Event>)
    requires Coherent(v)
    ensures |events| >= 5 && events[0] == BeginTraverse && events[|events| - 1] == EndTraverse
  {
    [BeginTraverse] + WalkNode(v, root, 0, {}).0 + [EndTraverse]
  }

  /** The serializer the walk drives, reduced to the log of its callbacks. */
  class Recorder {
    var events: seq<Event>

    constructor ()
      ensures events == []
    {
      events := [];
    }
  }

  /** traverse(node, serializer, depth, alreadyTraversed): returns the
      visited set after the call, and appends the node's events. */
  method Traverse(v: View, n: Node, rec: Recorder, depth: nat, visited: set<nat>)
    returns (visitedAfter: set<nat>)
    requires Coherent(v)
    modifies rec
    ensures rec.events == old(rec.events) + WalkNode(v, n, depth, visited).0
    ensures visitedAfter == WalkNode(v, n, depth, visited).1
    decreases Unvisited(v, visited), 1
  {
    var revisit := Revisit(v, n, visited);
    var current := visited;
    if !revisit && Repeatable(v, n) {
      current := current + {n.ref.id};
    }
    rec.events := rec.events + [BeforeTraversing(n, depth, revisit), Traversing(n, depth, revisit)];
    if !v.leaf(n) && !revisit {
      MarkShrinks(v, n, visited);
      current := TraverseChildren(v, v.children(n), rec, depth + 1, current, Unvisited(v, visited));
    }
    rec.events := rec.events + [AfterTraversing(n, depth, revisit)];
    visitedAfter := current;
  }

  /** The for-loop of traverse over the children, in index order. */
  method TraverseChildren(v: View, cs: seq<Node>, rec: Recorder, depth: nat, visited: set<nat>, bound: set<nat>)
    returns (visitedAfter: set<nat>)
    requires Coherent(v)
    requires 0 < |cs| ==> Unvisited(v, visited) < bound
    modifies rec
    ensures rec.events == old(rec.events) + WalkChildren(v, cs, |cs|, depth, visited, bound).0
    ensures visitedAfter == WalkChildren(v, cs, |cs|, depth, visited, bound).1
    decreases bound, 0
  {
    visitedAfter := visited;
    var i := 0;
    while i < |cs|
      invariant 0 <= i <= |cs|
      invariant rec.events == old(rec.events) + WalkChildren(v, cs, i, depth, visited, bound).0
      invariant visitedAfter == WalkChildren(v, cs, i, depth, visited, bound).1
    {
      WalkChildrenStep(v, cs, i, depth, visited, bound);
      visitedAfter := Traverse(v, cs[i], rec, depth, visitedAfter);
      i := i + 1;
    }
  }

  /** One more iteration of the loop over the children walks the next child
      from the visited set the previous ones left. */
  lemma WalkChildrenStep(v: View, cs: seq<Node>, i: nat, depth: nat, visited: set<nat>, bound: set<nat>)
    requires Coherent(v) && i < |cs|
    requires Unvisited(v, visited) < bound
    ensures var done := WalkChildren(v, cs, i, depth, visited, bound);
      Unvisited(v, done.1) < bound &&
      WalkChildren(v, cs, i + 1, depth, visited, bound) ==
        (done.0 + WalkNode(v, cs[i], depth, done.1).0, WalkNode(v, cs[i], depth, done.1).1)
  {
    var done := WalkChildren(v, cs, i, depth, visited, bound);
  }

  /** traverse(node, serializer): begin, the walk from the root, end. */
  method TraverseTree(v: View, root: Node, rec: Recorder)
    requires Coherent(v)
    modifies rec
    ensures rec.events == old(rec.events) + TraverseEvents(v, root)
  {
    rec.events := rec.events + [BeginTraverse];
    var _ := Traverse(v, root, rec, 0, {});
    rec.events := rec.events + [EndTraverse];
  }

  /** The three node callbacks. */
  datatype Callback = OnBefore | OnTraversing | OnAfter

  /** The arguments a node callback receives. */
  datatype Visit = Visit(node: Node, depth: nat, hasBeenVisited: bool)

  predicate IsCall(e: Event, c: Callback)
  {
    match c
    case OnBefore => e.BeforeTraversing?
    case OnTraversing => e.Traversing?
    case OnAfter => e.AfterTraversing?
  }

  /** The arguments of every call of callback `c`, in order. */
  function Calls(es: seq<Event>, c: Callback): (r: seq<Visit>)
    ensures |r| <= |es|
  {
    if es == [] then []
    else
      var e := es[0];
      (if IsCall(e, c) then [Visit(e.node, e.depth, e.hasBeenVisited)] else []) + Calls(es[1..], c)
  }

  lemma {:induction false} CallsAppend(a: seq<Event>, b: seq<Event>, c: Callback)
    ensures Calls(a + b, c) == Calls(a, c) + Calls(b, c)
  {
    if a == [] {
      assert a + b == b;
    } else {
      assert (a + b)[0] == a[0];
      assert (a + b)[1..] == a[1..] + b;
      CallsAppend(a[1..], b, c);
    }
  }

  /** Objects recorded by a stretch of the walk: those of nodes traversed
      for the first time that can be visited twice, in order. */
  function Expanded(v: View, es: seq<Event>): seq<nat>
  {
    if es == [] then []
    else
      var e := es[0];
      (if e.Traversing? && !e.hasBeenVisited && Repeatable(v, e.node) then [e.node.ref.id] else []) +
      Expanded(v, es[1..])
  }

  lemma {:induction false} ExpandedAppend(v: View, a: seq<Event>, b: seq<Event>)
    ensures Expanded(v, a + b) == Expanded(v, a) + Expanded(v, b)
  {
    if a == [] {
      assert a + b == b;
    } else {
      assert (a + b)[0] == a[0];
      assert (a + b)[1..] == a[1..] + b;
      ExpandedAppend(v, a[1..], b);
    }
  }

  /** The walk of a node: its before and traversing callbacks, the walk of
      its children when it is expanded, its after callback. */
  lemma WalkNodeUnfold(v: View, n: Node, depth: nat, visited: set<nat>)
    returns (inner: (seq<Event>, set<nat>))
    requires Coherent(v)
    ensures var revisit := Revisit(v, n, visited);
      WalkNode(v, n, depth, visited) ==
        ([BeforeTraversing(n, depth, revisit), Traversing(n, depth, revisit)] + inner.0 +
         [AfterTraversing(n, depth, revisit)], inner.1)
    ensures !v.leaf(n) && !Revisit(v, n, visited) ==>
      Unvisited(v, Mark(v, n, visited)) <= Unvisited(v, visited) &&
      (0 < |v.children(n)| ==> Unvisited(v, Mark(v, n, visited)) < Unvisited(v, visited)) &&
      inner == WalkChildren(v, v.children(n), |v.children(n)|, depth + 1, Mark(v, n, visited), Unvisited(v, visited))
    ensures v.leaf(n) || Revisit(v, n, visited) ==> inner == ([], Mark(v, n, visited))
  {
    MarkShrinks(v, n, visited);
        if !v.leaf(n) && !Revisit(v, n, visited) {
      inner := WalkChildren(v, v.children(n), |v.children(n)|, depth + 1, Mark(v, n, visited), Unvisited(v, visited));
    } else {
      inner := ([], Mark(v, n, visited));
    }
  }

  lemma CallsOne(e: Event, c: Callback)
    ensures Calls([e], c) == (if IsCall(e, c) then [Visit(e.node, e.depth, e.hasBeenVisited)] else [])
  {
    assert [e][1..] == [];
  }

  /** Calls of the callbacks of one node, around the calls of its inner walk. */
  lemma NodeCalls(n: Node, depth: nat, revisit: bool, inner: seq<Event>, c: Callback)
    ensures var t := Visit(n, depth, revisit);
      Calls([BeforeTraversing(n, depth, revisit), Traversing(n, depth, revisit)] + inner +
            [AfterTraversing(n, depth, revisit)], c) ==
      (if c == OnAfter then Calls(inner, c) + [t] else [t] + Calls(inner, c))
  {
    var b, t, a := BeforeTraversing(n, depth, revisit), Traversing(n, depth, revisit), AfterTraversing(n, depth, revisit);
    assert [b, t] == [b] + [t];
    CallsAppend([b, t] + inner, [a], c);
    CallsAppend([b, t], inner, c);
    CallsAppend([b], [t], c);
    CallsOne(b, c);
    CallsOne(t, c);
    CallsOne(a, c);
  }

  /** Before and traversing see the same calls in the same order, and after
      sees the same calls in some order. */
  ghost predicate CallsMatch(es: seq<Event>)
  {
    Calls(es, OnBefore) == Calls(es, OnTraversing) &&
    multiset(Calls(es, OnAfter)) == multiset(Calls(es, OnTraversing))
  }

  lemma CallsMatchWrap(n: Node, depth: nat, revisit: bool, inner: seq<Event>)
    requires CallsMatch(inner)
    ensures CallsMatch([BeforeTraversing(n, depth, revisit), Traversing(n, depth, revisit)] + inner +
      [AfterTraversing(n, depth, revisit)])
  {
    NodeCalls(n, depth, revisit, inner, OnBefore);
    NodeCalls(n, depth, revisit, inner, OnTraversing);
    NodeCalls(n, depth, revisit, inner, OnAfter);
  }

  lemma CallsMatchAppend(a: seq<Event>, b: seq<Event>)
    requires CallsMatch(a) && CallsMatch(b)
    ensures CallsMatch(a + b)
  {
    CallsAppend(a, b, OnBefore);
    CallsAppend(a, b, OnTraversing);
    CallsAppend(a, b, OnAfter);
  }

  /** Before and traversing receive the same arguments in the same order
      (pre-order), and after receives the same ones, in post-order. */
  lemma {:induction false} WalkNodeCalls(v: View, n: Node, depth: nat, visited: set<nat>)
    requires Coherent(v)
    ensures CallsMatch(WalkNode(v, n, depth, visited).0)
    decreases Unvisited(v, visited), 1
  {
    var inner := WalkNodeUnfold(v, n, depth, visited);
    if !v.leaf(n) && !Revisit(v, n, visited) {
      WalkChildrenCalls(v, v.children(n), |v.children(n)|, depth + 1, Mark(v, n, visited), Unvisited(v, visited));
    } else {
      assert inner.0 == [];
    }
    CallsMatchWrap(n, depth, Revisit(v, n, visited), inner.0);
  }

  lemma {:induction false} WalkChildrenCalls(v: View, cs: seq<Node>, i: nat, depth: nat, visited: set<nat>, bound: set<nat>)
    requires Coherent(v) && i <= |cs|
    requires 0 < |cs| ==> Unvisited(v, visited) < bound
    ensures CallsMatch(WalkChildren(v, cs, i, depth, visited, bound).0)
    decreases bound, 0, i
  {
    if i > 0 {
      var before := WalkChildren(v, cs, i - 1, depth, visited, bound);
      WalkChildrenCalls(v, cs, i - 1, depth, visited, bound);
      WalkNodeCalls(v, cs[i - 1], depth, before.1);
      var last := WalkNode(v, cs[i - 1], depth, before.1);
      assert WalkChildren(v, cs, i, depth, visited, bound).0 == before.0 + last.0;
      CallsMatchAppend(before.0, last.0);
    }
  }

  /** Every event is a node event at `depth` or deeper. */
  predicate NodeEventsFrom(es: seq<Event>, depth: nat)
  {
    forall k :: 0 <= k < |es| ==> IsNodeEvent(es[k]) && es[k].depth >= depth
  }

  lemma NodeEventsAppend(a: seq<Event>, b: seq<Event>, depth: nat)
    requires NodeEventsFrom(a, depth) && NodeEventsFrom(b, depth)
    ensures NodeEventsFrom(a + b, depth)
  {
    forall k | 0 <= k < |a + b|
      ensures IsNodeEvent((a + b)[k]) && (a + b)[k].depth >= depth
    {
      if k >= |a| {
        assert (a + b)[k] == b[k - |a|];
      }
    }
  }

  /** Every event of the walk of a node is a node event at its depth or
      deeper, and the events between its own are its children's, deeper. */
  lemma {:induction false} WalkNodeDepths(v: View, n: Node, depth: nat, visited: set<nat>)
    requires Coherent(v)
    ensures var es := WalkNode(v, n, depth, visited).0;
      NodeEventsFrom(es, depth) && |es| >= 3 && NodeEventsFrom(es[2..|es| - 1], depth + 1)
    decreases Unvisited(v, visited), 1
  {
    var inner := WalkNodeUnfold(v, n, depth, visited);
    if !v.leaf(n) && !Revisit(v, n, visited) {
      WalkChildrenDepths(v, v.children(n), |v.children(n)|, depth + 1, Mark(v, n, visited), Unvisited(v, visited));
    }
    var es := WalkNode(v, n, depth, visited).0;
    var revisit := Revisit(v, n, visited);
    assert es[2..|es| - 1] == inner.0;
    var head := [BeforeTraversing(n, depth, revisit), Traversing(n, depth, revisit)];
    NodeEventsAppend(head, inner.0, depth);
    NodeEventsAppend(head + inner.0, [AfterTraversing(n, depth, revisit)], depth);
  }

  lemma {:induction false} WalkChildrenDepths(v: View, cs: seq<Node>, i: nat, depth: nat, visited: set<nat>, bound: set<nat>)
    requires Coherent(v) && i <= |cs|
    requires 0 < |cs| ==> Unvisited(v, visited) < bound
    ensures NodeEventsFrom(WalkChildren(v, cs, i, depth, visited, bound).0, depth)
    decreases bound, 0, i
  {
    if i > 0 {
      var before := WalkChildren(v, cs, i - 1, depth, visited, bound);
      WalkChildrenDepths(v, cs, i - 1, depth, visited, bound);
      WalkNodeDepths(v, cs[i - 1], depth, before.1);
      var last := WalkNode(v, cs[i - 1], depth, before.1).0;
      assert WalkChildren(v, cs, i, depth, visited, bound).0 == before.0 + last;
      NodeEventsAppend(before.0, last, depth);
    }
  }

  /** No id occurs twice. */
  ghost predicate Distinct(xs: seq<nat>)
  {
    xs == [] || (xs[0] !in xs[1..] && Distinct(xs[1..]))
  }

  /** The ids a sequence holds. */
  function Elements(xs: seq<nat>): (r: set<nat>)
    ensures forall x :: x in r <==> x in xs
  {
    if xs == [] then {} else {xs[0]} + Elements(xs[1..])
  }

  lemma {:induction false} DistinctAppend(a: seq<nat>, b: seq<nat>)
    requires Distinct(a) && Distinct(b) && Elements(a) !! Elements(b)
    ensures Distinct(a + b) && Elements(a + b) == Elements(a) + Elements(b)
  {
    if a == [] {
      assert a + b == b;
    } else {
      assert (a + b)[0] == a[0];
      assert (a + b)[1..] == a[1..] + b;
      DistinctAppend(a[1..], b);
      assert a[0] in Elements(a);
    }
  }

  /** A stretch of the walk records each object the visited set gains, and
      only those, once each. */
  ghost predicate RecordsOnce(v: View, es: seq<Event>, before: set<nat>, after: set<nat>)
  {
    Distinct(Expanded(v, es)) && Elements(Expanded(v, es)) == after - before
  }

  /** Each object is expanded at most once: the objects recorded during the
      walk of a node are exactly the ones the visited set gains, each
      recorded once. */
  lemma {:induction false} WalkNodeExpandsOnce(v: View, n: Node, depth: nat, visited: set<nat>)
    requires Coherent(v)
    ensures RecordsOnce(v, WalkNode(v, n, depth, visited).0, visited, WalkNode(v, n, depth, visited).1)
    decreases Unvisited(v, visited), 1
  {
    var revisit := Revisit(v, n, visited);
    var marked := Mark(v, n, visited);
    var inner := WalkNodeUnfold(v, n, depth, visited);
    if !v.leaf(n) && !revisit {
      WalkChildrenExpandsOnce(v, v.children(n), |v.children(n)|, depth + 1, marked, Unvisited(v, visited));
    } else {
      assert Expanded(v, inner.0) == [];
    }
    var head := [BeforeTraversing(n, depth, revisit), Traversing(n, depth, revisit)];
    var tail := [AfterTraversing(n, depth, revisit)];
    OwnRecords(v, n, depth, visited);
    AfterRecordsNothing(v, n, depth, revisit, inner.1);
    ExpansionConcat(v, head, inner.0, visited, marked, inner.1);
    ExpansionConcat(v, head + inner.0, tail, visited, inner.1, inner.1);
  }

  lemma {:induction false} WalkChildrenExpandsOnce(v: View, cs: seq<Node>, i: nat, depth: nat, visited: set<nat>, bound: set<nat>)
    requires Coherent(v) && i <= |cs|
    requires 0 < |cs| ==> Unvisited(v, visited) < bound
    ensures RecordsOnce(v, WalkChildren(v, cs, i, depth, visited, bound).0, visited,
      WalkChildren(v, cs, i, depth, visited, bound).1)
    decreases bound, 0, i
  {
    if i > 0 {
      var before := WalkChildren(v, cs, i - 1, depth, visited, bound);
      WalkChildrenExpandsOnce(v, cs, i - 1, depth, visited, bound);
      WalkNodeExpandsOnce(v, cs[i - 1], depth, before.1);
      var last := WalkNode(v, cs[i - 1], depth, before.1);
      assert WalkChildren(v, cs, i, depth, visited, bound) == (before.0 + last.0, last.1);
      ExpansionConcat(v, before.0, last.0, visited, before.1, last.1);
    }
  }

  lemma ExpandedOne(v: View, e: Event)
    ensures Expanded(v, [e]) ==
      (if e.Traversing? && !e.hasBeenVisited && Repeatable(v, e.node) then [e.node.ref.id] else [])
  {
    assert [e][1..] == [];
  }

  /** The before and traversing callbacks of a node record its object
      exactly when Mark adds it. */
  lemma OwnRecords(v: View, n: Node, depth: nat, visited: set<nat>)
    ensures var revisit := Revisit(v, n, visited);
      RecordsOnce(v, [BeforeTraversing(n, depth, revisit), Traversing(n, depth, revisit)], visited, Mark(v, n, visited))
  {
    var revisit := Revisit(v, n, visited);
    var b, t := BeforeTraversing(n, depth, revisit), Traversing(n, depth, revisit);
    assert [b, t] == [b] + [t];
    ExpandedAppend(v, [b], [t]);
    ExpandedOne(v, b);
    ExpandedOne(v, t);
  }

  lemma AfterRecordsNothing(v: View, n: Node, depth: nat, revisit: bool, s: set<nat>)
    ensures RecordsOnce(v, [AfterTraversing(n, depth, revisit)], s, s)
  {
    ExpandedOne(v, AfterTraversing(n, depth, revisit));
  }

  /** Consecutive stretches of the walk record the objects each gains. */
  lemma ExpansionConcat(v: View, a: seq<Event>, b: seq<Event>, s0: set<nat>, s1: set<nat>, s2: set<nat>)
    requires s0 <= s1 <= s2
    requires RecordsOnce(v, a, s0, s1) && RecordsOnce(v, b, s1, s2)
    ensures RecordsOnce(v, a + b, s0, s2)
  {
    ExpandedAppend(v, a, b);
    DistinctAppend(Expanded(v, a), Expanded(v, b));
  }

  /** A node whose object was already recorded gets its three callbacks
      with hasBeenVisited set, is not expanded, and records nothing. */
  lemma RevisitNotExpanded(v: View, n: Node, depth: nat, visited: set<nat>)
    requires Coherent(v) && Revisit(v, n, visited)
    ensures WalkNode(v, n, depth, visited) ==
      ([BeforeTraversing(n, depth, true), Traversing(n, depth, true), AfterTraversing(n, depth, true)], visited)
  {
    var inner := WalkNodeUnfold(v, n, depth, visited);
    assert inner == ([], visited);
    assert [BeforeTraversing(n, depth, true), Traversing(n, depth, true)] + inner.0 + [AfterTraversing(n, depth, true)]
      == [BeforeTraversing(n, depth, true), Traversing(n, depth, true), AfterTraversing(n, depth, true)];
  }

  /** The walk of a builtin value over the node model: begin, the three
      callbacks at depth 0 with hasBeenVisited unset, end. */
  lemma BuiltinRootEvents(u: Universe, root: Node)
    requires Valid(u) && IsBuiltinType(root.nodeType)
    ensures TraverseEvents(ViewOf(u), root) ==
      [BeginTraverse, BeforeTraversing(root, 0, false), Traversing(root, 0, false),
       AfterTraversing(root, 0, false), EndTraverse]
  {
    ViewAgrees(u, root);
  }

  /** beginTraverse is called once, first, and endTraverse once, last. */
  lemma BeginAndEndOnce(v: View, root: Node)
    requires Coherent(v)
    ensures var es := TraverseEvents(v, root);
      es[0] == BeginTraverse && es[|es| - 1] == EndTraverse &&
      NodeEventsFrom(es[1..|es| - 1], 0)
  {
    WalkNodeDepths(v, root, 0, {});
    var es := TraverseEvents(v, root);
    assert es[1..|es| - 1] == WalkNode(v, root, 0, {}).0;
  }
}
