/** TxtTreeSerializer: writes a tree as indented text, one line per node.
    The writer is the string `output`, which every write appends to; the
    text a callback writes is given by a function of the callback, and the
    text of a whole walk by SerializedText.Render over its events. */
module TxtTreeSerializer {
  import opened Heap
  import opened NodeFactory
  import opened Nodes
  import opened Text
  import opened TreeView
  import opened WriteTreeTraversal
  import opened SerializedText

  const CyclicMark: string := " <cyclic reference>"

  /** The indentation of a node: nothing at the root, otherwise one "|  "
      per ancestor below the root and then "|- ". */
  function Prefix(depth: nat): (p: string)
    ensures |p| == 3 * depth
    ensures depth > 0 ==> p[3 * depth - 3..] == "|- "
  {
    if depth == 0 then "" else Repeat("|  ", depth - 1) + "|- "
  }

  /** Every block of the indentation but the last is "|  ", and it holds
      no line break. */
  lemma {:induction false} PrefixBlocks(depth: nat)
    ensures forall k :: 0 <= k < depth - 1 ==> Prefix(depth)[3 * k..3 * k + 3] == "|  "
    ensures forall i :: 0 <= i < |Prefix(depth)| ==> Prefix(depth)[i] in {'|', ' ', '-'}
  {
    if depth > 1 {
      PrefixBlocks(depth - 1);
      var p, q := Prefix(depth), Prefix(depth - 1);
      assert p == "|  " + q;
      forall k | 0 <= k < depth - 1
        ensures p[3 * k..3 * k + 3] == "|  "
      {
        if k > 0 {
          assert p[3 * k..3 * k + 3] == q[3 * (k - 1)..3 * (k - 1) + 3];
        }
      }
      forall i | 0 <= i < |p|
        ensures p[i] in {'|', ' ', '-'}
      {
        if i >= 3 {
          assert p[i] == q[i - 3];
        }
      }
    }
  }

  /** The name, between ** when the node was modified. */
  function Starred(name: string, modified: bool): string
  {
    if modified then "**" + name + "**" else name
  }

  /** " (Simple)": the simple name of the node's type. */
  function TypeText(u: Universe, n: Node): string
  {
    " (" + SimpleName(u, n.nodeType) + ")"
  }

  function CycleText(revisit: bool): string
  {
    if revisit then CyclicMark else ""
  }

  /** ": value." with "null" for a null value. */
  function ValueText(u: Universe, n: Node): string
  {
    ": " + NodeDescription(u, n) + "."
  }

  /** The full-information line (without its line break): the name, between
      ** when the node was modified, the simple type name, the cyclic mark
      on a revisit, and the value. */
  function FullLine(u: Universe, n: Node, modified: bool, revisit: bool): (s: string)
    ensures modified ==> "**" + n.name + "**" + TypeText(u, n) <= s
    ensures !modified ==> n.name + TypeText(u, n) <= s
    ensures |s| > |NodeDescription(u, n)| && s[|s| - |NodeDescription(u, n)| - 1..] == NodeDescription(u, n) + "."
  {
    Starred(n.name, modified) + TypeText(u, n) + CycleText(revisit) + ValueText(u, n)
  }

  /** The short line: toString() with a period, or between "** " and " **"
      (and no period) when the node was modified. */
  function ShortLine(u: Universe, n: Node, modified: bool): (s: string)
    ensures modified ==> "** " + ToString(u, n) <= s && s[|s| - 3..] == " **"
    ensures !modified ==> ToString(u, n) <= s && s[|s| - 1] == '.'
  {
    if modified then "** " + ToString(u, n) + " **" else ToString(u, n) + "."
  }

  /** What traversing writes: the line of the node and a line break. */
  function NodeLine(u: Universe, allInfo: bool, modifiedNodes: set<Node>, n: Node, revisit: bool): (s: string)
    ensures |s| > 0 && s[|s| - 1] == '\n'
  {
    (if allInfo then FullLine(u, n, n in modifiedNodes, revisit)
     else ShortLine(u, n, n in modifiedNodes)) + "\n"
  }

  /** The text each callback writes. */
  function EventText(u: Universe, allInfo: bool, modifiedNodes: set<Node>, e: Event): string
  {
    match e
    case BeginTraverse => ""
    case BeforeTraversing(n, depth, _) => Prefix(depth)
    case Traversing(n, _, revisit) => NodeLine(u, allInfo, modifiedNodes, n, revisit)
    case AfterTraversing(_, _, _) => ""
    case EndTraverse => "\n"
  }

  /** The text each callback writes, as a function of the callback. */
  function Written(u: Universe, allInfo: bool, modifiedNodes: set<Node>): Event -> string
  {
    e => EventText(u, allInfo, modifiedNodes, e)
  }

  /** A node's line is marked with ** exactly when the node is among the
      modified ones (names never start with '*'). */
  lemma MarkedIffModified(u: Universe, allInfo: bool, modifiedNodes: set<Node>, n: Node, revisit: bool)
    requires |n.name| == 0 || n.name[0] != '*'
    ensures var s := NodeLine(u, allInfo, modifiedNodes, n, revisit);
      |s| >= 2 && (s[..2] == "**" <==> n in modifiedNodes)
  {
    var s := NodeLine(u, allInfo, modifiedNodes, n, revisit);
    if n !in modifiedNodes {
      if allInfo {
        if |n.name| == 0 {
          assert s[0] == ' ';
        } else {
          assert s[0] == n.name[0];
        }
      } else {
        var t := ToString(u, n);
        assert n.name <= t;
        if |n.name| == 0 {
          assert t[0] == ' ';
        } else {
          assert t[0] == n.name[0];
        }
        assert s[0] == t[0];
      }
    }
  }

  /** The line of a revisited node is the line of a first visit with the
      cyclic mark inserted after the type; the short line shows no mark. */
  lemma CyclicMarkInserted(u: Universe, allInfo: bool, modifiedNodes: set<Node>, n: Node)
    ensures var once := NodeLine(u, allInfo, modifiedNodes, n, false);
      var again := NodeLine(u, allInfo, modifiedNodes, n, true);
      if allInfo then
        exists i :: 0 <= i <= |once| && again == once[..i] + CyclicMark + once[i..]
      else again == once
  {
    if allInfo {
      var head := Starred(n.name, n in modifiedNodes) + TypeText(u, n);
      var tail := ValueText(u, n) + "\n";
      var once := NodeLine(u, allInfo, modifiedNodes, n, false);
      assert CycleText(false) == "";
      assert once == head + tail;
      assert NodeLine(u, allInfo, modifiedNodes, n, true) == head + CyclicMark + tail;
      assert once[..|head|] == head && once[|head|..] == tail;
    }
  }

  /** The text of a node's walk: its indentation and line, then the text of
      its children's walk; afterTraversing adds nothing. */
  lemma NodeText(u: Universe, allInfo: bool, m: set<Node>, v: View, n: Node, depth: nat, visited: set<nat>)
    returns (inner: seq<Event>)
    requires Coherent(v)
    ensures Render(Written(u, allInfo, m), WalkNode(v, n, depth, visited).0) ==
      Prefix(depth) + NodeLine(u, allInfo, m, n, Revisit(v, n, visited)) + Render(Written(u, allInfo, m), inner)
    ensures Revisit(v, n, visited) || v.leaf(n) ==> inner == []
  {
    var w := WalkNodeUnfold(v, n, depth, visited);
    inner := w.0;
    var revisit := Revisit(v, n, visited);
    NodeEventsText(Written(u, allInfo, m), n, depth, revisit, inner);
    var r := Render(Written(u, allInfo, m), inner);
    assert Written(u, allInfo, m)(AfterTraversing(n, depth, revisit)) == "";
    assert r + "" == r;
  }

  /** A revisited node takes exactly one line, marked cyclic in full
      information, and its subtree is not written again. */
  lemma RevisitOneLine(u: Universe, allInfo: bool, m: set<Node>, v: View, n: Node, depth: nat, visited: set<nat>)
    requires Coherent(v) && Revisit(v, n, visited)
    ensures Render(Written(u, allInfo, m), WalkNode(v, n, depth, visited).0) ==
      Prefix(depth) + NodeLine(u, allInfo, m, n, true)
  {
    var inner := NodeText(u, allInfo, m, v, n, depth, visited);
    var l := Prefix(depth) + NodeLine(u, allInfo, m, n, true);
    assert l + "" == l;
  }

  /** A tree that is a single leaf: its line, then the final line break. */
  lemma LeafTreeText(u: Universe, allInfo: bool, m: set<Node>, v: View, root: Node)
    requires Coherent(v) && v.leaf(root)
    ensures Render(Written(u, allInfo, m), TraverseEvents(v, root)) == NodeLine(u, allInfo, m, root, false) + "\n"
  {
    var text := Written(u, allInfo, m);
    LeafWalkText(text, v, root);
    var l := NodeLine(u, allInfo, m, root, false);
    assert text(BeforeTraversing(root, 0, false)) == "" && text(AfterTraversing(root, 0, false)) == "";
    assert "" + ("" + l + "") + "\n" == l + "\n";
  }

  /** A builtin value written on its own: its line, then the final line
      break ("integer (Integer): 33." and a blank line). */
  lemma BuiltinTreeText(u: Universe, allInfo: bool, m: set<Node>, root: Node)
    requires Valid(u) && IsBuiltinType(root.nodeType)
    ensures Render(Written(u, allInfo, m), TraverseEvents(ViewOf(u), root)) ==
      NodeLine(u, allInfo, m, root, false) + "\n"
  {
    ViewAgrees(u, root);
    LeafTreeText(u, allInfo, m, ViewOf(u), root);
  }

  /** The serializer, writing to `output`. The modified nodes are copied
      at construction and never change. */
  class TxtSerializer {
    var output: string
    const u: Universe
    const allInfo: bool
    const modifiedNodes: set<Node>

    constructor (u: Universe, allInfo: bool, modifiedNodes: set<Node>)
      ensures output == "" && this.u == u && this.allInfo == allInfo && this.modifiedNodes == modifiedNodes
    {
      output := "";
      this.u := u;
      this.allInfo := allInfo;
      this.modifiedNodes := modifiedNodes;
    }

    method Write(s: string)
      modifies this
      ensures output == old(output) + s
    {
      output := output + s;
    }

    method BeginTraverse()
      modifies this
      ensures output == old(output) + EventText(u, allInfo, modifiedNodes, Event.BeginTraverse)
    {
    }

    method EndTraverse()
      modifies this
      ensures output == old(output) + EventText(u, allInfo, modifiedNodes, Event.EndTraverse)
    {
      Write("\n");
    }

    method BeforeTraversing(n: Node, depth: nat, hasBeenVisited: bool)
      modifies this
      ensures output == old(output) + EventText(u, allInfo, modifiedNodes, Event.BeforeTraversing(n, depth, hasBeenVisited))
    {
      Write(Prefix(depth));
    }

    method Traversing(n: Node, depth: nat, hasBeenVisited: bool)
      modifies this
      ensures output == old(output) + EventText(u, allInfo, modifiedNodes, Event.Traversing(n, depth, hasBeenVisited))
    {
      if allInfo {
        WriteFullLine(n, hasBeenVisited);
      } else {
        WriteShortLine(n);
      }
      Write("\n");
    }

    /** The full-information branch of traversing, built in a string
        builder and written at once. */
    method WriteFullLine(n: Node, hasBeenVisited: bool)
      modifies this
      ensures output == old(output) + FullLine(u, n, n in modifiedNodes, hasBeenVisited)
    {
      var sb := "";
      if n in modifiedNodes {
        sb := sb + "**";
      }
      sb := sb + n.name;
      if n in modifiedNodes {
        sb := sb + "**";
      }
      assert sb == Starred(n.name, n in modifiedNodes);
      sb := sb + TypeText(u, n);
      if hasBeenVisited {
        sb := sb + CyclicMark;
      }
      assert sb == Starred(n.name, n in modifiedNodes) + TypeText(u, n) + CycleText(hasBeenVisited);
      sb := sb + ValueText(u, n);
      Write(sb);
    }

    /** The short branch of traversing, written piece by piece. */
    method WriteShortLine(n: Node)
      modifies this
      ensures output == old(output) + ShortLine(u, n, n in modifiedNodes)
    {
      if n in modifiedNodes {
        Write("** ");
      }
      Write(ToString(u, n));
      if n in modifiedNodes {
        Write(" **");
      } else {
        Write(".");
      }
    }

    method AfterTraversing(n: Node, depth: nat, hasBeenVisited: bool)
      modifies this
      ensures output == old(output) + EventText(u, allInfo, modifiedNodes, Event.AfterTraversing(n, depth, hasBeenVisited))
    {
    }

    /** Delivers one callback. */
    method Deliver(e: Event)
      modifies this
      ensures output == old(output) + EventText(u, allInfo, modifiedNodes, e)
    {
      match e {
        case BeginTraverse => BeginTraverse();
        case BeforeTraversing(n, depth, revisit) => BeforeTraversing(n, depth, revisit);
        case Traversing(n, depth, revisit) => Traversing(n, depth, revisit);
        case AfterTraversing(n, depth, revisit) => AfterTraversing(n, depth, revisit);
        case EndTraverse => EndTraverse();
      }
    }

    /** Delivers a sequence of callbacks, in order. */
    method Replay(es: seq<Event>)
      modifies this
      ensures output == old(output) + Render(Written(u, allInfo, modifiedNodes), es)
    {
      ghost var start := output;
      var i := 0;
      while i < |es|
        invariant 0 <= i <= |es|
        invariant output == start + Render(Written(u, allInfo, modifiedNodes), es[..i])
      {
        Deliver(es[i]);
        RenderStep(Written(u, allInfo, modifiedNodes), es, i, start);
        i := i + 1;
      }
      assert es[..i] == es;
    }

    /** WriteTreeTraversal.traverse with this serializer: the text of the
        whole walk from the root. */
    method WriteTree(v: View, root: Node)
      requires Coherent(v)
      modifies this
      ensures output == old(output) + Render(Written(u, allInfo, modifiedNodes), TraverseEvents(v, root))
    {
      var rec := new Recorder();
      TraverseTree(v, root, rec);
      assert rec.events == TraverseEvents(v, root);
      Replay(rec.events);
    }
  }
}
