/** HtmlTreeSerializer: writes a tree as an HTML page of nested lists. A
    leaf is one list item; any other node is an item holding a collapsible
    details element whose summary describes the node and whose list holds
    the children. The writer is the string `output`. */
module HtmlTreeSerializer {
  import opened Heap
  import opened NodeFactory
  import opened Nodes
  import opened Text
  import opened TreeView
  import opened WriteTreeTraversal
  import opened SerializedText

  /** The cyclic mark, with its angle brackets escaped for HTML. */
  const CyclicMark: string := " &lt;cyclic reference&gt;"

  /** What endTraverse writes: the list, the body and the page are closed. */
  const PageEnd: string := "</ul>\n</body>\n</html>\n"

  /** The indentation of a node: two spaces per level. */
  function Prefix(depth: nat): (p: string)
    ensures |p| == 2 * depth
  {
    Repeat("  ", depth)
  }

  /** The indentation is blank. */
  lemma {:induction false} PrefixBlank(depth: nat)
    ensures forall i :: 0 <= i < |Prefix(depth)| ==> Prefix(depth)[i] == ' '
  {
    if depth > 0 {
      PrefixBlank(depth - 1);
      assert Prefix(depth) == "  " + Prefix(depth - 1);
    }
  }

  /** " (Simple)": the simple name of the node's type. */
  function TypeText(u: Universe, n: Node): string
  {
    " (" + SimpleName(u, n.nodeType) + ")"
  }

  function CycleText(cycle: bool): string
  {
    if cycle then CyclicMark else ""
  }

  /** nodeDescription: in full information the name, the simple type name,
      the escaped cyclic mark on a revisit, and the value ("null" for none),
      with a period; otherwise toString() with a period. */
  function Description(u: Universe, allInfo: bool, n: Node, cycle: bool): (s: string)
  {
    if allInfo then n.name + TypeText(u, n) + CycleText(cycle) + ": " + NodeDescription(u, n) + "."
    else ToString(u, n) + "."
  }

  /** One line of the page at the given indentation. */
  function Line(p: string, body: string): (s: string)
    ensures |s| == |p| + |body| + 1 && s[|s| - 1] == '\n'
  {
    p + body + "\n"
  }

  /** What traversing writes: a leaf's item, or the opening of a non-leaf's
      item, details, summary and list. */
  function Opening(u: Universe, allInfo: bool, n: Node, depth: nat, cycle: bool): (s: string)
  {
    var p := Prefix(depth);
    var d := Description(u, allInfo, n, cycle);
    if IsLeaf(u, n) then Line(p, "<li>" + d + "</li>")
    else Line(p, "<li>") + Line(p, "<details>") + Line(p, "<summary>" + d + "</summary>") + Line(p, "<ul>")
  }

  /** What afterTraversing writes: nothing for a leaf, otherwise the closing
      of the list, details and item, at the node's indentation. */
  function Closing(u: Universe, n: Node, depth: nat): (s: string)
  {
    var p := Prefix(depth);
    if IsLeaf(u, n) then "" else Line(p, "</ul>") + Line(p, "</details>") + Line(p, "</li>")
  }

  /** The text each callback writes; `header` is what beginTraverse writes
      (the page head, with the style sheet and script read from resource
      files, and the opening of the body and of the tree list). */
  function EventText(u: Universe, allInfo: bool, header: string, e: Event): string
  {
    match e
    case BeginTraverse => header
    case BeforeTraversing(_, _, _) => ""
    case Traversing(n, depth, cycle) => Opening(u, allInfo, n, depth, cycle)
    case AfterTraversing(n, depth, _) => Closing(u, n, depth)
    case EndTraverse => PageEnd
  }

  function Written(u: Universe, allInfo: bool, header: string): Event -> string
  {
    e => EventText(u, allInfo, header, e)
  }

  /** A description begins with the node's name and ends with a period; in
      full information a revisit carries the escaped cyclic mark right
      after the simple type name. */
  lemma DescriptionShape(u: Universe, allInfo: bool, n: Node, cycle: bool)
    ensures var d := Description(u, allInfo, n, cycle);
      n.name <= d && |d| > 0 && d[|d| - 1] == '.'
    ensures allInfo && cycle ==> n.name + TypeText(u, n) + CyclicMark <= Description(u, allInfo, n, cycle)
  {
  }

  /** What traversing writes begins with the indentation and "<li>". */
  lemma OpeningShape(u: Universe, allInfo: bool, n: Node, depth: nat, cycle: bool)
    ensures var o, p := Opening(u, allInfo, n, depth, cycle), Prefix(depth);
      |o| >= |p| + 4 && o[..|p| + 4] == p + "<li>"
  {
    var p, d := Prefix(depth), Description(u, allInfo, n, cycle);
    var rest := if IsLeaf(u, n) then d + "</li>\n"
      else "\n" + Line(p, "<details>") + Line(p, "<summary>" + d + "</summary>") + Line(p, "<ul>");
    assert Opening(u, allInfo, n, depth, cycle) == (p + "<li>") + rest;
  }

  /** What afterTraversing writes is empty exactly for a leaf, and otherwise
      begins by closing the list and ends by closing the item, at the
      node's indentation. */
  lemma ClosingShape(u: Universe, n: Node, depth: nat)
    ensures Closing(u, n, depth) == "" <==> IsLeaf(u, n)
    ensures var c, p := Closing(u, n, depth), Prefix(depth);
      !IsLeaf(u, n) ==> p + "</ul>\n" <= c && |c| >= |p| + 6 && c[|c| - |p| - 6..] == p + "</li>\n"
  {
    if !IsLeaf(u, n) {
      var p := Prefix(depth);
      var front := (p + "</ul>\n") + Line(p, "</details>");
      assert Closing(u, n, depth) == front + (p + "</li>\n");
    }
  }

  /** The item of a non-leaf ends by opening its list, and its closing
      begins by closing that list at the same indentation; a leaf's item
      closes itself and afterTraversing adds nothing to it. */
  lemma ListDelimiters(u: Universe, allInfo: bool, n: Node, depth: nat, cycle: bool)
    ensures var o, c, p := Opening(u, allInfo, n, depth, cycle), Closing(u, n, depth), Prefix(depth);
      if IsLeaf(u, n) then
        c == "" && o == p + "<li>" + Description(u, allInfo, n, cycle) + "</li>\n"
      else
        |o| >= |p| + 5 && o[|o| - |p| - 5..] == p + "<ul>\n" &&
        |c| >= |p| + 6 && c[..|p| + 6] == p + "</ul>\n"
  {
    var o, c, p := Opening(u, allInfo, n, depth, cycle), Closing(u, n, depth), Prefix(depth);
    if !IsLeaf(u, n) {
      var d := Description(u, allInfo, n, cycle);
      var front := Line(p, "<li>") + Line(p, "<details>") + Line(p, "<summary>" + d + "</summary>");
      assert o == front + (p + "<ul>\n");
      assert c == (p + "</ul>\n") + (Line(p, "</details>") + Line(p, "</li>"));
    }
  }

  /** The text of a node's walk: its opening, the text of its children's
      walk (inside its list when it is not a leaf), its closing. */
  lemma NodeText(u: Universe, allInfo: bool, header: string, v: View, n: Node, depth: nat, visited: set<nat>)
    returns (inner: seq<Event>)
    requires Coherent(v)
    ensures Render(Written(u, allInfo, header), WalkNode(v, n, depth, visited).0) ==
      Opening(u, allInfo, n, depth, Revisit(v, n, visited)) + Render(Written(u, allInfo, header), inner) +
      Closing(u, n, depth)
    ensures Revisit(v, n, visited) || v.leaf(n) ==> inner == []
  {
    var w := WalkNodeUnfold(v, n, depth, visited);
    inner := w.0;
    var revisit := Revisit(v, n, visited);
    NodeEventsText(Written(u, allInfo, header), n, depth, revisit, inner);
    var o := Opening(u, allInfo, n, depth, revisit);
    assert Written(u, allInfo, header)(BeforeTraversing(n, depth, revisit)) == "";
    assert "" + o == o;
  }

  /** A node met again is written with the escaped cyclic mark and an empty
      list: its subtree is not written a second time. */
  lemma RevisitEmptyList(u: Universe, allInfo: bool, header: string, v: View, n: Node, depth: nat, visited: set<nat>)
    requires Coherent(v) && Revisit(v, n, visited)
    ensures Render(Written(u, allInfo, header), WalkNode(v, n, depth, visited).0) ==
      Opening(u, allInfo, n, depth, true) + Closing(u, n, depth)
  {
    var inner := NodeText(u, allInfo, header, v, n, depth, visited);
    var o := Opening(u, allInfo, n, depth, true);
    assert o + "" == o;
  }

  /** The page of a single builtin value: the header, its one item with no
      indentation, and the closing of the list, body and page. */
  lemma BuiltinPage(u: Universe, allInfo: bool, header: string, root: Node)
    requires Valid(u) && IsBuiltinType(root.nodeType)
    ensures Render(Written(u, allInfo, header), TraverseEvents(ViewOf(u), root)) ==
      header + ("<li>" + Description(u, allInfo, root, false) + "</li>\n") + PageEnd
  {
    ViewAgrees(u, root);
    var text := Written(u, allInfo, header);
    LeafWalkText(text, ViewOf(u), root);
    var item := "<li>" + Description(u, allInfo, root, false) + "</li>\n";
    assert Prefix(0) == "";
    assert text(BeginTraverse) == header && text(EndTraverse) == PageEnd;
    assert text(BeforeTraversing(root, 0, false)) == "" && text(AfterTraversing(root, 0, false)) == "";
    assert text(Traversing(root, 0, false)) == item;
    assert "" + item + "" == item;
  }

  /** Four writes in a row append what their concatenation appends. */
  lemma Append4(s: string, a: string, b: string, c: string, d: string)
    ensures s + a + b + c + d == s + (a + b + c + d)
  {
  }

  /** The node callbacks of a whole walk are those of the root's walk. */
  lemma FramedCalls(w: seq<Event>, c: Callback)
    requires c != OnBefore
    ensures Calls([BeginTraverse] + w + [EndTraverse], c) == Calls(w, c)
  {
    CallsAppend([BeginTraverse] + w, [EndTraverse], c);
    CallsAppend([BeginTraverse], w, c);
    CallsOne(BeginTraverse, c);
    CallsOne(EndTraverse, c);
  }

  /** How many of the visits are of non-leaves. */
  function NonLeaves(leaf: Node -> bool, vs: seq<Visit>): (k: nat)
    ensures k <= |vs|
  {
    if vs == [] then 0 else (if leaf(vs[0].node) then 0 else 1) + NonLeaves(leaf, vs[1..])
  }

  lemma {:induction false} NonLeavesAppend(leaf: Node -> bool, a: seq<Visit>, b: seq<Visit>)
    ensures NonLeaves(leaf, a + b) == NonLeaves(leaf, a) + NonLeaves(leaf, b)
  {
    if a == [] {
      assert a + b == b;
    } else {
      assert (a + b)[1..] == a[1..] + b;
      NonLeavesAppend(leaf, a[1..], b);
    }
  }

  /** Taking one visit out of a sequence. */
  lemma NonLeavesRemove(leaf: Node -> bool, b: seq<Visit>, j: nat)
    requires j < |b|
    ensures NonLeaves(leaf, b) == (if leaf(b[j].node) then 0 else 1) + NonLeaves(leaf, b[..j] + b[j + 1..])
  {
    var front, back := b[..j], b[j..];
    assert front + back == b;
    assert back[1..] == b[j + 1..];
    NonLeavesAppend(leaf, front, back);
    NonLeavesAppend(leaf, front, b[j + 1..]);
  }

  lemma MultisetRemove(b: seq<Visit>, j: nat)
    requires j < |b|
    ensures multiset(b[..j] + b[j + 1..]) == multiset(b) - multiset{b[j]}
  {
    assert b[..j] + b[j..] == b;
    assert b[j..] == [b[j]] + b[j + 1..];
  }

  /** Where a member of a sequence sits in it. */
  lemma Position(x: Visit, b: seq<Visit>) returns (j: nat)
    requires x in multiset(b)
    ensures j < |b| && b[j] == x
  {
    assert x in b;
    j :| 0 <= j < |b| && b[j] == x;
  }

  /** The count does not depend on the order of the visits. */
  lemma {:induction false} NonLeavesPermutation(leaf: Node -> bool, a: seq<Visit>, b: seq<Visit>)
    requires multiset(a) == multiset(b)
    ensures NonLeaves(leaf, a) == NonLeaves(leaf, b)
    decreases |a|
  {
    if a == [] {
      assert |multiset(b)| == 0;
    } else {
      var j := Position(a[0], b);
      var rest := b[..j] + b[j + 1..];
      NonLeavesRemove(leaf, b, j);
      MultisetRemove(b, j);
      assert multiset(a[1..]) == multiset(a) - multiset{a[0]} by {
        MultisetRemove(a, 0);
        assert a[..0] + a[1..] == a[1..];
      }
      NonLeavesPermutation(leaf, a[1..], rest);
    }
  }

  /** isLeaf of the node model, as a test on nodes. */
  function LeafTest(u: Universe): Node -> bool
  {
    n => IsLeaf(u, n)
  }

  /** Lists opened: traversing calls on non-leaves, each writing "<ul>". */
  function ListsOpened(u: Universe, es: seq<Event>): nat
  {
    NonLeaves(LeafTest(u), Calls(es, OnTraversing))
  }

  /** Lists closed: afterTraversing calls on non-leaves, each writing "</ul>". */
  function ListsClosed(u: Universe, es: seq<Event>): nat
  {
    NonLeaves(LeafTest(u), Calls(es, OnAfter))
  }

  /** Over a whole walk every list opened is closed: the open and close
      tags of the page balance. */
  lemma TagsBalance(u: Universe, v: View, root: Node)
    requires Coherent(v)
    ensures ListsOpened(u, TraverseEvents(v, root)) == ListsClosed(u, TraverseEvents(v, root))
  {
    var w := WalkNode(v, root, 0, {}).0;
    WalkNodeCalls(v, root, 0, {});
    FramedCalls(w, OnTraversing);
    FramedCalls(w, OnAfter);
    NonLeavesPermutation(LeafTest(u), Calls(w, OnAfter), Calls(w, OnTraversing));
  }

  /** The serializer, writing to `output`. The page head beginTraverse
      writes is given at construction. */
  class HtmlSerializer {
    var output: string
    const u: Universe
    const allInfo: bool
    const header: string

    constructor (u: Universe, allInfo: bool, header: string)
      ensures output == "" && this.u == u && this.allInfo == allInfo && this.header == header
    {
      output := "";
      this.u := u;
      this.allInfo := allInfo;
      this.header := header;
    }

    method Write(s: string)
      modifies this
      ensures output == old(output) + s
    {
      output := output + s;
    }

    method BeginTraverse()
      modifies this
      ensures output == old(output) + EventText(u, allInfo, header, Event.BeginTraverse)
    {
      Write(header);
    }

    method EndTraverse()
      modifies this
      ensures output == old(output) + EventText(u, allInfo, header, Event.EndTraverse)
    {
      Write(PageEnd);
    }

    method BeforeTraversing(n: Node, depth: nat, hasBeenVisited: bool)
      modifies this
      ensures output == old(output) + EventText(u, allInfo, header, Event.BeforeTraversing(n, depth, hasBeenVisited))
    {
    }

    method Traversing(n: Node, depth: nat, hasBeenVisited: bool)
      modifies this
      ensures output == old(output) + EventText(u, allInfo, header, Event.Traversing(n, depth, hasBeenVisited))
    {
      var p := Prefix(depth);
      var d := Description(u, allInfo, n, hasBeenVisited);
      if IsLeaf(u, n) {
        Write(Line(p, "<li>" + d + "</li>"));
      } else {
        ghost var start := output;
        var a, b, c, e := Line(p, "<li>"), Line(p, "<details>"), Line(p, "<summary>" + d + "</summary>"), Line(p, "<ul>");
        Write(a);
        Write(b);
        Write(c);
        Write(e);
        Append4(start, a, b, c, e);
      }
    }

    method AfterTraversing(n: Node, depth: nat, hasBeenVisited: bool)
      modifies this
      ensures output == old(output) + EventText(u, allInfo, header, Event.AfterTraversing(n, depth, hasBeenVisited))
    {
      if !IsLeaf(u, n) {
        var p := Prefix(depth);
        ghost var start := output;
        var a, b, c := Line(p, "</ul>"), Line(p, "</details>"), Line(p, "</li>");
        Write(a);
        Write(b);
        Write(c);
        Append4(start, a, b, c, "");
      }
    }

    /** Delivers one callback. */
    method Deliver(e: Event)
      modifies this
      ensures output == old(output) + EventText(u, allInfo, header, e)
    {
      match e {
        case BeginTraverse => BeginTraverse();
        case BeforeTraversing(n, depth, revisit) => BeforeTraversing(n, depth, revisit);
        case Traversing(n, depth, revisit) => Traversing(n, depth, revisit);
        case AfterTraversing(n, depth, revisit) => AfterTraversing(n, depth, revisit);
        case EndTraverse => EndTraverse();
      }
    }

    /** Delivers a sequence of callbacks, in order. */
    method Replay(es: seq<Event>)
      modifies this
      ensures output == old(output) + Render(Written(u, allInfo, header), es)
    {
      ghost var start := output;
      var i := 0;
      while i < |es|
        invariant 0 <= i <= |es|
        invariant output == start + Render(Written(u, allInfo, header), es[..i])
      {
        Deliver(es[i]);
        RenderStep(Written(u, allInfo, header), es, i, start);
        i := i + 1;
      }
      assert es[..i] == es;
    }

    /** WriteTreeTraversal.traverse with this serializer: the page of the
        whole walk from the root. */
    method WriteTree(v: View, root: Node)
      requires Coherent(v)
      modifies this
      ensures output == old(output) + Render(Written(u, allInfo, header), TraverseEvents(v, root))
    {
      var rec := new Recorder();
      TraverseTree(v, root, rec);
      assert rec.events == TraverseEvents(v, root);
      Replay(rec.events);
    }
  }
}
