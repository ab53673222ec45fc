/** ExpandTreeController: expanding a tree view (a JTree) from a node, from
    the selected nodes or from the roots of several views. The JTree is
    reduced to its root, its selection and the log of the paths it was asked
    to expand; the nodes are seen through a TreeView.View. The list of
    already visited nodes is a sequence threaded through the calls. */
module ExpandTreeController {
  import opened Wrappers
  import opened Heap
  import opened NodeFactory
  import opened TreeView

  /** A javax.swing.tree.TreePath: the components above the last one, and
      the last one. A path is never empty. */
  datatype TreePath = TreePath(parents: seq<Node>, last: Node)
  {
    function Components(): seq<Node>
    {
      parents + [last]
    }

    function ByAddingChild(child: Node): (p: TreePath)
      ensures p.last == child && Components() < p.Components()
    {
      TreePath(Components(), child)
    }
  }

  /** The path of a tree's root alone. */
  function RootPath(root: Node): TreePath
  {
    TreePath([], root)
  }

  /** The tree view being expanded: its model's root, its selection
      (None when nothing is selected) and the paths expanded so far. */
  class JTree {
    const view: View
    const root: Node
    const selectionPaths: Option<seq<TreePath>>
    var expanded: seq<TreePath>

    constructor (view: View, root: Node, selectionPaths: Option<seq<TreePath>>)
      ensures this.view == view && this.root == root && this.selectionPaths == selectionPaths
      ensures expanded == []
    {
      this.view := view;
      this.root := root;
      this.selectionPaths := selectionPaths;
      expanded := [];
    }

    /** expandPath: logged. */
    method ExpandPath(path: TreePath)
      modifies this
      ensures expanded == old(expanded) + [path]
    {
      expanded := expanded + [path];
    }
  }

  /** Node.equals compares the wrapped values by identity, so a list of
      nodes contains a node when it holds one with the same value. */
  function Values(rec: seq<Node>): set<Ref>
  {
    set n | n in rec :: n.ref
  }

  predicate Contains(rec: seq<Node>, n: Node)
  {
    exists k | 0 <= k < |rec| :: rec[k].ref == n.ref
  }

  lemma ContainsValue(rec: seq<Node>, n: Node)
    ensures Contains(rec, n) <==> n.ref in Values(rec)
  {
    if n.ref in Values(rec) {
      var m :| m in rec && m.ref == n.ref;
      var k :| 0 <= k < |rec| && rec[k] == m;
    }
  }

  /** Heap objects whose nodes are not yet recorded: the termination
      measure of the walk. */
  function Unseen(v: View, rec: seq<Node>): set<nat>
  {
    set id | id in v.objects && Addr(id) !in Values(rec)
  }

  lemma UnseenShrinks(v: View, rec: seq<Node>, more: seq<Node>)
    requires rec <= more
    ensures Unseen(v, more) <= Unseen(v, rec)
  {
    forall n | n in rec
      ensures n in more
    {
      var k :| 0 <= k < |rec| && rec[k] == n;
      assert more[k] == n;
    }
  }

  /** Recording a node with children uses up the heap object it wraps. */
  lemma RecordShrinks(v: View, n: Node, rec: seq<Node>)
    requires Coherent(v) && n.ref !in Values(rec)
    ensures |v.children(n)| > 0 ==> Unseen(v, rec + [n]) < Unseen(v, rec)
  {
    if |v.children(n)| > 0 {
      UnseenShrinks(v, rec, rec + [n]);
      assert n.ref in Values(rec + [n]);
      assert n.ref.id in Unseen(v, rec) - Unseen(v, rec + [n]);
    }
  }

  /** expandAllFromNode(tree, node, treePath, alreadyVisited): the list of
      visited nodes afterwards and the paths expanded, in order. */
  function ExpandNode(v: View, n: Node, path: TreePath, rec: seq<Node>): (r: (seq<Node>, seq<TreePath>))
    requires Coherent(v)
    ensures rec <= r.0
    decreases Unseen(v, rec), 1
  {
    if v.leaf(n) || n.ref in Values(rec) then (rec, [])
    else
      var cs := v.children(n);
      RecordShrinks(v, n, rec);
      var inner := ExpandChildren(v, cs, |cs|, path, rec + [n], Unseen(v, rec));
      (inner.0, [path] + inner.1)
  }

  /** The first i iterations of the loop over the children of the node at
      `path`; `bound` is the node's measure, above the measure of every list
      the loop sees. */
  function ExpandChildren(v: View, cs: seq<Node>, i: nat, path: TreePath, rec: seq<Node>, bound: set<nat>)
    : (r: (seq<Node>, seq<TreePath>))
    requires Coherent(v) && i <= |cs|
    requires 0 < |cs| ==> Unseen(v, rec) < bound
    ensures rec <= r.0
    decreases bound, 0, i
  {
    if i == 0 then (rec, [])
    else
      var before := ExpandChildren(v, cs, i - 1, path, rec, bound);
      UnseenShrinks(v, rec, before.0);
      var last := ExpandNode(v, cs[i - 1], path.ByAddingChild(cs[i - 1]), before.0);
      (last.0, before.1 + last.1)
  }

  /** One more iteration of the loop over the children. */
  lemma ExpandChildrenStep(v: View, cs: seq<Node>, i: nat, path: TreePath, rec: seq<Node>, bound: set<nat>)
    requires Coherent(v) && i < |cs|
    requires Unseen(v, rec) < bound
    ensures var done := ExpandChildren(v, cs, i, path, rec, bound);
      Unseen(v, done.0) < bound &&
      var last := ExpandNode(v, cs[i], path.ByAddingChild(cs[i]), done.0);
      ExpandChildren(v, cs, i + 1, path, rec, bound) == (last.0, done.1 + last.1)
  {
    var done := ExpandChildren(v, cs, i, path, rec, bound);
    UnseenShrinks(v, rec, done.0);
  }

  /** The walk from a node that is recorded: its path, then its children's
      walks from the list that records it. */
  lemma ExpandNodeUnfold(v: View, n: Node, path: TreePath, rec: seq<Node>)
    requires Coherent(v) && !v.leaf(n) && n.ref !in Values(rec)
    ensures 0 < |v.children(n)| ==> Unseen(v, rec + [n]) < Unseen(v, rec)
    ensures var inner := ExpandChildren(v, v.children(n), |v.children(n)|, path, rec + [n], Unseen(v, rec));
      ExpandNode(v, n, path, rec) == (inner.0, [path] + inner.1)
  {
    RecordShrinks(v, n, rec);
  }

  /** The walk from a recorded node with a single child is that child's
      walk, from the list that records the node. */
  lemma OnlyChild(v: View, n: Node, path: TreePath, rec: seq<Node>, child: Node)
    requires Coherent(v) && !v.leaf(n) && n.ref !in Values(rec) && v.children(n) == [child]
    ensures var w := ExpandNode(v, child, path.ByAddingChild(child), rec + [n]);
      ExpandNode(v, n, path, rec) == (w.0, [path] + w.1)
  {
    ExpandNodeUnfold(v, n, path, rec);
    var bound := Unseen(v, rec);
    ExpandChildrenStep(v, [child], 0, path, rec + [n], bound);
    var w := ExpandNode(v, child, path.ByAddingChild(child), rec + [n]);
    var empty: seq<TreePath> := [];
    assert ExpandChildren(v, [child], 0, path, rec + [n], bound) == (rec + [n], empty);
    assert empty + w.1 == w.1;
    assert ExpandChildren(v, [child], 1, path, rec + [n], bound) == (w.0, w.1);
  }

  /** The private expandAllFromNode: the node is skipped when it is a leaf
      or already visited; otherwise it is recorded, its path expanded and
      its children expanded in index order with their paths. */
  method ExpandAllFromNodeInto(tree: JTree, node: Node, treePath: TreePath, alreadyVisited: seq<Node>)
    returns (visited: seq<Node>)
    requires Coherent(tree.view)
    modifies tree
    ensures visited == ExpandNode(tree.view, node, treePath, alreadyVisited).0
    ensures tree.expanded == old(tree.expanded) + ExpandNode(tree.view, node, treePath, alreadyVisited).1
    decreases Unseen(tree.view, alreadyVisited)
  {
    if tree.view.leaf(node) {
      return alreadyVisited;
    }
    if Contains(alreadyVisited, node) {
      ContainsValue(alreadyVisited, node);
      return alreadyVisited;
    }
    ContainsValue(alreadyVisited, node);
    visited := alreadyVisited + [node];
    tree.ExpandPath(treePath);
    var cs := tree.view.children(node);
    ghost var v, marked := tree.view, visited;
    ghost var bound := Unseen(v, alreadyVisited);
    ghost var start := tree.expanded;
    ExpandNodeUnfold(v, node, treePath, alreadyVisited);
    var i := 0;
    while i < |cs|
      invariant 0 <= i <= |cs|
      invariant visited == ExpandChildren(v, cs, i, treePath, marked, bound).0
      invariant tree.expanded == start + ExpandChildren(v, cs, i, treePath, marked, bound).1
    {
      ExpandChildrenStep(v, cs, i, treePath, marked, bound);
      ghost var done := ExpandChildren(v, cs, i, treePath, marked, bound).1;
      ghost var last := ExpandNode(v, cs[i], treePath.ByAddingChild(cs[i]), visited).1;
      visited := ExpandAllFromNodeInto(tree, cs[i], treePath.ByAddingChild(cs[i]), visited);
      assert tree.expanded == start + done + last == start + (done + last);
      i := i + 1;
    }
  }

  /** The public expandAllFromNode: a fresh list of visited nodes. */
  method ExpandAllFromNode(tree: JTree, node: Node, treePath: TreePath) returns (visited: seq<Node>)
    requires Coherent(tree.view)
    modifies tree
    ensures visited == ExpandNode(tree.view, node, treePath, []).0
    ensures tree.expanded == old(tree.expanded) + ExpandNode(tree.view, node, treePath, []).1
  {
    visited := ExpandAllFromNodeInto(tree, node, treePath, []);
  }

  /** No two nodes of the list wrap the same value. */
  ghost predicate DistinctValues(rec: seq<Node>)
  {
    forall i, j | 0 <= i < j < |rec| :: rec[i].ref != rec[j].ref
  }

  /** What a call adds to the list: one expanded path per recorded node,
      ending at that node, and no leaf among them. */
  ghost predicate PathPerNode(v: View, rec: seq<Node>, r: (seq<Node>, seq<TreePath>))
  {
    |r.0| == |rec| + |r.1| &&
    forall k | 0 <= k < |r.1| :: r.1[k].last == r.0[|rec| + k] && !v.leaf(r.0[|rec| + k])
  }

  /** Every path in ps extends `path` by at least `more` components. */
  ghost predicate Below(path: TreePath, ps: seq<TreePath>, more: nat)
  {
    forall k | 0 <= k < |ps| ::
      |path.Components()| + more <= |ps[k].Components()| &&
      ps[k].Components()[..|path.Components()|] == path.Components()
  }

  lemma DistinctRecord(rec: seq<Node>, n: Node)
    requires DistinctValues(rec) && n.ref !in Values(rec)
    ensures DistinctValues(rec + [n])
  {
    forall i, j | 0 <= i < j < |rec + [n]|
      ensures (rec + [n])[i].ref != (rec + [n])[j].ref
    {
      if j == |rec| {
        assert rec[i] in rec;
      }
    }
  }

  /** The walk from a node whose path ends at it: the node is recorded and
      its path expanded exactly when it is not a leaf and no recorded node
      wraps its value, and then before anything else; every recorded node
      has its own path, which extends the node's path; values stay
      distinct. */
  lemma {:induction false} ExpandNodeRecords(v: View, n: Node, path: TreePath, rec: seq<Node>)
    requires Coherent(v) && path.last == n
    ensures var r := ExpandNode(v, n, path, rec);
      (r.1 == [] <==> v.leaf(n) || n.ref in Values(rec)) &&
      (r.1 != [] ==> r.1[0] == path) &&
      PathPerNode(v, rec, r) && (DistinctValues(rec) ==> DistinctValues(r.0))
    decreases Unseen(v, rec), 1
  {
    if !v.leaf(n) && n.ref !in Values(rec) {
      var cs := v.children(n);
      RecordShrinks(v, n, rec);
      ExpandChildrenRecords(v, cs, |cs|, path, rec + [n], Unseen(v, rec));
      if DistinctValues(rec) {
        DistinctRecord(rec, n);
      }
      var inner := ExpandChildren(v, cs, |cs|, path, rec + [n], Unseen(v, rec));
      var r := ExpandNode(v, n, path, rec);
      assert r == (inner.0, [path] + inner.1);
      assert (rec + [n]) <= inner.0;
      assert r.0[|rec|] == (rec + [n])[|rec|];
      forall k | 0 <= k < |r.1|
        ensures r.1[k].last == r.0[|rec| + k] && !v.leaf(r.0[|rec| + k])
      {
        if k > 0 {
          assert r.1[k] == inner.1[k - 1];
        }
      }
    }
  }

  lemma {:induction false} ExpandChildrenRecords(v: View, cs: seq<Node>, i: nat, path: TreePath, rec: seq<Node>,
      bound: set<nat>)
    requires Coherent(v) && i <= |cs|
    requires 0 < |cs| ==> Unseen(v, rec) < bound
    ensures var r := ExpandChildren(v, cs, i, path, rec, bound);
      PathPerNode(v, rec, r) && (DistinctValues(rec) ==> DistinctValues(r.0))
    decreases bound, 0, i
  {
    if i > 0 {
      var before := ExpandChildren(v, cs, i - 1, path, rec, bound);
      ExpandChildrenRecords(v, cs, i - 1, path, rec, bound);
      UnseenShrinks(v, rec, before.0);
      var p := path.ByAddingChild(cs[i - 1]);
      ExpandNodeRecords(v, cs[i - 1], p, before.0);
      var last := ExpandNode(v, cs[i - 1], p, before.0);
      var r := ExpandChildren(v, cs, i, path, rec, bound);
      assert r == (last.0, before.1 + last.1);
      forall k | 0 <= k < |r.1|
        ensures r.1[k].last == r.0[|rec| + k] && !v.leaf(r.0[|rec| + k])
      {
        if k < |before.1| {
          assert r.1[k] == before.1[k];
          assert before.0 <= last.0;
          assert r.0[|rec| + k] == before.0[|rec| + k];
        } else {
          assert r.1[k] == last.1[k - |before.1|];
        }
      }
    }
  }

  /** Every path the walk from a node expands extends the node's path,
      and those of its children's walks extend it by at least the child. */
  lemma {:induction false} ExpandNodeBelow(v: View, n: Node, path: TreePath, rec: seq<Node>)
    requires Coherent(v)
    ensures Below(path, ExpandNode(v, n, path, rec).1, 0)
    decreases Unseen(v, rec), 1
  {
    if !v.leaf(n) && n.ref !in Values(rec) {
      var cs := v.children(n);
      RecordShrinks(v, n, rec);
      ExpandChildrenBelow(v, cs, |cs|, path, rec + [n], Unseen(v, rec));
    }
  }

  lemma {:induction false} ExpandChildrenBelow(v: View, cs: seq<Node>, i: nat, path: TreePath, rec: seq<Node>,
      bound: set<nat>)
    requires Coherent(v) && i <= |cs|
    requires 0 < |cs| ==> Unseen(v, rec) < bound
    ensures Below(path, ExpandChildren(v, cs, i, path, rec, bound).1, 1)
    decreases bound, 0, i
  {
    if i > 0 {
      var before := ExpandChildren(v, cs, i - 1, path, rec, bound);
      ExpandChildrenBelow(v, cs, i - 1, path, rec, bound);
      UnseenShrinks(v, rec, before.0);
      var p := path.ByAddingChild(cs[i - 1]);
      ExpandNodeBelow(v, cs[i - 1], p, before.0);
      var last := ExpandNode(v, cs[i - 1], p, before.0);
      var ps := before.1 + last.1;
      assert ExpandChildren(v, cs, i, path, rec, bound).1 == ps;
      forall k | 0 <= k < |ps|
        ensures |path.Components()| + 1 <= |ps[k].Components()| &&
          ps[k].Components()[..|path.Components()|] == path.Components()
      {
        if k < |before.1| {
          assert ps[k] == before.1[k];
        } else {
          var q := last.1[k - |before.1|];
          assert ps[k] == q;
          assert q.Components()[..|p.Components()|] == p.Components();
          assert p.Components()[..|path.Components()|] == path.Components();
        }
      }
    }
  }

  /** Within one call of the public expandAllFromNode, no two recorded
      nodes wrap the same value, none is a leaf, and the paths expanded are
      exactly the recorded nodes' paths, in the same order. */
  lemma ExpandFromNodeDistinct(v: View, n: Node, path: TreePath)
    requires Coherent(v) && path.last == n
    ensures var r := ExpandNode(v, n, path, []);
      DistinctValues(r.0) && |r.0| == |r.1| &&
      forall k | 0 <= k < |r.0| :: !v.leaf(r.0[k]) && r.1[k].last == r.0[k]
  {
    var empty: seq<Node> := [];
    ExpandNodeRecords(v, n, path, empty);
    var r := ExpandNode(v, n, path, empty);
    assert PathPerNode(v, empty, r);
    forall k | 0 <= k < |r.0|
      ensures !v.leaf(r.0[k]) && r.1[k].last == r.0[k]
    {
      assert k < |r.1| && |empty| + k == k;
      assert r.1[k].last == r.0[|empty| + k] && !v.leaf(r.0[|empty| + k]);
    }
  }

  /** The selected paths expanded one after the other, each from a fresh
      list: the visited lists and the expanded paths, concatenated. */
  function ExpandEach(v: View, ps: seq<TreePath>): (r: (seq<Node>, seq<TreePath>))
    requires Coherent(v)
    ensures ps == [] ==> r == ([], [])
  {
    if ps == [] then ([], [])
    else
      var before := ExpandEach(v, ps[..|ps| - 1]);
      var p := ps[|ps| - 1];
      var e := ExpandNode(v, p.last, p, []);
      (before.0 + e.0, before.1 + e.1)
  }

  /** expandAllFromSelectedNode's result: the walk from the root when
      nothing is selected, otherwise the selected paths one by one. */
  function ExpandSelected(v: View, root: Node, selection: Option<seq<TreePath>>): (r: (seq<Node>, seq<TreePath>))
    requires Coherent(v)
  {
    match selection
    case None => ExpandNode(v, root, RootPath(root), [])
    case Some(ps) => ExpandEach(v, ps)
  }

  /** Every selected path gets a fresh list: selecting the same expandable
      node twice records it twice, unlike a single walk. */
  lemma SelectedTwiceRepeats(v: View, p: TreePath)
    requires Coherent(v) && !v.leaf(p.last)
    ensures var r := ExpandEach(v, [p, p]).0;
      !DistinctValues(r) && r == ExpandNode(v, p.last, p, []).0 + ExpandNode(v, p.last, p, []).0
  {
    ExpandNodeRecords(v, p.last, p, []);
    var e := ExpandNode(v, p.last, p, []);
    assert [p, p][..1] == [p];
    assert [p][..0] == [];
    assert ExpandEach(v, [p]).0 == [] + e.0 == e.0;
    var r := ExpandEach(v, [p, p]).0;
    assert r == e.0 + e.0;
    assert r[0] == p.last && r[|e.0|] == p.last;
  }

  method ExpandAllFromSelectedNode(tree: JTree) returns (visited: seq<Node>)
    requires Coherent(tree.view)
    modifies tree
    ensures var r := ExpandSelected(tree.view, tree.root, tree.selectionPaths);
      visited == r.0 && tree.expanded == old(tree.expanded) + r.1
  {
    match tree.selectionPaths {
      case None =>
        visited := ExpandAllFromNode(tree, tree.root, RootPath(tree.root));
      case Some(paths) =>
        visited := [];
        ghost var start := tree.expanded;
        for i := 0 to |paths|
          invariant visited == ExpandEach(tree.view, paths[..i]).0
          invariant tree.expanded == start + ExpandEach(tree.view, paths[..i]).1
        {
          var selectedNode := paths[i].last;
          var expandedNodes := ExpandAllFromNode(tree, selectedNode, paths[i]);
          assert paths[..i + 1][..i] == paths[..i];
          visited := visited + expandedNodes;
        }
        assert paths[..|paths|] == paths;
    }
  }

  /** The walk expandAllFromRootNode makes in one tree. */
  function RootExpansion(t: JTree): (r: (seq<Node>, seq<TreePath>))
    requires Coherent(t.view)
  {
    ExpandNode(t.view, t.root, RootPath(t.root), [])
  }

  /** The visited lists of the trees' root walks, concatenated in order. */
  function ExpandRoots(ts: seq<JTree>): (r: seq<Node>)
    requires forall t | t in ts :: Coherent(t.view)
  {
    if ts == [] then [] else ExpandRoots(ts[..|ts| - 1]) + RootExpansion(ts[|ts| - 1]).0
  }

  /** The paths tree t logs: its root walk, once per occurrence in ts. */
  function RootLog(ts: seq<JTree>, t: JTree): (log: seq<TreePath>)
    requires Coherent(t.view)
  {
    if ts == [] then []
    else RootLog(ts[..|ts| - 1], t) + (if ts[|ts| - 1] == t then RootExpansion(t).1 else [])
  }

  /** One more tree in the loop of expandAllFromRootNode. */
  lemma RootStep(ts: seq<JTree>, i: nat)
    requires i < |ts| && forall t | t in ts :: Coherent(t.view)
    ensures ExpandRoots(ts[..i + 1]) == ExpandRoots(ts[..i]) + RootExpansion(ts[i]).0
    ensures forall t | t in ts ::
      RootLog(ts[..i + 1], t) == RootLog(ts[..i], t) + (if ts[i] == t then RootExpansion(t).1 else [])
  {
    assert ts[..i + 1][..i] == ts[..i];
  }

  method ExpandAllFromRootNode(trees: seq<JTree>) returns (visited: seq<Node>)
    requires forall t | t in trees :: Coherent(t.view)
    modifies set t | t in trees
    ensures visited == ExpandRoots(trees)
    ensures forall t | t in trees :: t.expanded == old(t.expanded) + RootLog(trees, t)
  {
    visited := [];
    for i := 0 to |trees|
      invariant visited == ExpandRoots(trees[..i])
      invariant forall t | t in trees :: t.expanded == old(t.expanded) + RootLog(trees[..i], t)
    {
      var tree := trees[i];
      RootStep(trees, i);
      var expandedNodes := ExpandAllFromNode(tree, tree.root, RootPath(tree.root));
      visited := visited + expandedNodes;
    }
    assert trees[..|trees|] == trees;
  }
}

/** The graphs of the expansion tests, as views: an indirect cycle
    (Root holds a, a holds b, b holds c, c holds the same a) and the same
    shape built from distinct objects ending in a null field. */
module ExpandExamples {
  import opened Heap
  import opened NodeFactory
  import opened TreeView
  import opened ExpandTreeController

  const RootNode := Node("Root", "Root", Addr(0))
  const A1 := Node("a", "NodeA", Addr(1))
  const B1 := Node("b", "NodeB", Addr(2))
  const C1 := Node("c", "NodeC", Addr(3))

  function CycleChildren(n: Node): seq<Node>
  {
    match n.ref
    case Addr(0) => if n == RootNode then [A1] else []
    case Addr(1) => if n == A1 then [B1] else []
    case Addr(2) => if n == B1 then [C1] else []
    case Addr(3) => if n == C1 then [A1] else []
    case _ => []
  }

  function CycleView(): (v: View)
    ensures Coherent(v)
  {
    var v := View(n => false, CycleChildren, {0, 1, 2, 3});
    assert !IsBuiltinType("Root") && !IsBuiltinType("NodeA") && !IsBuiltinType("NodeB") && !IsBuiltinType("NodeC");
    v
  }

  /** c holds the a already recorded, so the walk stops there. */
  lemma CycleFromC(path: TreePath)
    ensures ExpandNode(CycleView(), C1, path, [RootNode, A1, B1]).0 == [RootNode, A1, B1, C1]
  {
    var rec, all := [RootNode, A1, B1], [RootNode, A1, B1, C1];
    assert rec + [C1] == all;
    assert A1 in all;
    assert ExpandNode(CycleView(), A1, path.ByAddingChild(A1), all).0 == all;
    assert forall n | n in rec :: n.ref != C1.ref;
    OnlyChild(CycleView(), C1, path, rec, A1);
  }

  lemma CycleFromB(path: TreePath)
    ensures ExpandNode(CycleView(), B1, path, [RootNode, A1]).0 == [RootNode, A1, B1, C1]
  {
    var rec := [RootNode, A1];
    CycleFromC(path.ByAddingChild(C1));
    assert rec + [B1] == [RootNode, A1, B1];
    assert forall n | n in rec :: n.ref != B1.ref;
    OnlyChild(CycleView(), B1, path, rec, C1);
  }

  lemma CycleFromA(path: TreePath)
    ensures ExpandNode(CycleView(), A1, path, [RootNode]).0 == [RootNode, A1, B1, C1]
  {
    CycleFromB(path.ByAddingChild(B1));
    assert [RootNode] + [A1] == [RootNode, A1];
    assert forall n | n in [RootNode] :: n.ref != A1.ref;
    OnlyChild(CycleView(), A1, path, [RootNode], B1);
  }

  /** The cycle is cut at the second a: Root, a, b and c are expanded. */
  lemma IndirectCycleExpandsFour()
    ensures ExpandNode(CycleView(), RootNode, RootPath(RootNode), []).0 == [RootNode, A1, B1, C1]
  {
    CycleFromA(RootPath(RootNode).ByAddingChild(A1));
    assert [] + [RootNode] == [RootNode];
    OnlyChild(CycleView(), RootNode, RootPath(RootNode), [], A1);
  }

  /** NoCycle: the same shape from new objects; the last c is null. */
  const A2 := Node("a", "NodeA", Addr(4))
  const B2 := Node("b", "NodeB", Addr(5))
  const C2 := Node("c", "NodeC", Null)

  function ChainChildren(n: Node): seq<Node>
  {
    match n.ref
    case Addr(0) => if n == RootNode then [A1] else []
    case Addr(1) => if n == A1 then [B1] else []
    case Addr(2) => if n == B1 then [C1] else []
    case Addr(3) => if n == C1 then [A2] else []
    case Addr(4) => if n == A2 then [B2] else []
    case Addr(5) => if n == B2 then [C2] else []
    case _ => []
  }

  function ChainView(): (v: View)
    ensures Coherent(v)
  {
    var v := View(n => false, ChainChildren, {0, 1, 2, 3, 4, 5});
    assert !IsBuiltinType("Root") && !IsBuiltinType("NodeA") && !IsBuiltinType("NodeB") && !IsBuiltinType("NodeC");
    v
  }

  /** The null c is not a leaf and has no children: recorded, not entered. */
  lemma ChainFromC2(path: TreePath)
    ensures ExpandNode(ChainView(), C2, path, [RootNode, A1, B1, C1, A2, B2]).0 ==
      [RootNode, A1, B1, C1, A2, B2, C2]
  {
    var rec := [RootNode, A1, B1, C1, A2, B2];
    assert rec + [C2] == [RootNode, A1, B1, C1, A2, B2, C2];
    assert forall n | n in rec :: n.ref.Addr?;
    ExpandNodeUnfold(ChainView(), C2, path, rec);
  }

  lemma ChainFromB2(path: TreePath)
    ensures ExpandNode(ChainView(), B2, path, [RootNode, A1, B1, C1, A2]).0 ==
      [RootNode, A1, B1, C1, A2, B2, C2]
  {
    var rec := [RootNode, A1, B1, C1, A2];
    ChainFromC2(path.ByAddingChild(C2));
    assert rec + [B2] == [RootNode, A1, B1, C1, A2, B2];
    assert forall n | n in rec :: n.ref != B2.ref;
    OnlyChild(ChainView(), B2, path, rec, C2);
  }

  lemma ChainFromA2(path: TreePath)
    ensures ExpandNode(ChainView(), A2, path, [RootNode, A1, B1, C1]).0 ==
      [RootNode, A1, B1, C1, A2, B2, C2]
  {
    var rec := [RootNode, A1, B1, C1];
    ChainFromB2(path.ByAddingChild(B2));
    assert rec + [A2] == [RootNode, A1, B1, C1, A2];
    assert forall n | n in rec :: n.ref != A2.ref;
    OnlyChild(ChainView(), A2, path, rec, B2);
  }

  lemma ChainFromC1(path: TreePath)
    ensures ExpandNode(ChainView(), C1, path, [RootNode, A1, B1]).0 ==
      [RootNode, A1, B1, C1, A2, B2, C2]
  {
    var rec := [RootNode, A1, B1];
    ChainFromA2(path.ByAddingChild(A2));
    assert rec + [C1] == [RootNode, A1, B1, C1];
    assert forall n | n in rec :: n.ref != C1.ref;
    OnlyChild(ChainView(), C1, path, rec, A2);
  }

  lemma ChainFromB1(path: TreePath)
    ensures ExpandNode(ChainView(), B1, path, [RootNode, A1]).0 ==
      [RootNode, A1, B1, C1, A2, B2, C2]
  {
    var rec := [RootNode, A1];
    ChainFromC1(path.ByAddingChild(C1));
    assert rec + [B1] == [RootNode, A1, B1];
    assert forall n | n in rec :: n.ref != B1.ref;
    OnlyChild(ChainView(), B1, path, rec, C1);
  }

  lemma ChainFromA1(path: TreePath)
    ensures ExpandNode(ChainView(), A1, path, [RootNode]).0 == [RootNode, A1, B1, C1, A2, B2, C2]
  {
    ChainFromB1(path.ByAddingChild(B1));
    assert [RootNode] + [A1] == [RootNode, A1];
    assert forall n | n in [RootNode] :: n.ref != A1.ref;
    OnlyChild(ChainView(), A1, path, [RootNode], B1);
  }

  /** Distinct objects of the same shape are all expanded: seven nodes. */
  lemma NoCycleExpandsSeven()
    ensures ExpandNode(ChainView(), RootNode, RootPath(RootNode), []).0 ==
      [RootNode, A1, B1, C1, A2, B2, C2]
  {
    ChainFromA1(RootPath(RootNode).ByAddingChild(A1));
    assert [] + [RootNode] == [RootNode];
    OnlyChild(ChainView(), RootNode, RootPath(RootNode), [], A1);
  }
}
