/** TreeComparator and the compareTrees of each node class: a paired walk
    of two object graphs that collects the nodes that differ. The nodes are
    seen through a Comparand: the walker's view, the node class of each
    node, and the `equals` of wrapped values. The visited collection holds
    the tokens the guards record: the unordered pair of object ids of two
    compared nodes (the SymmetricPair guard of the leaf, object, collection
    and map classes) and the object id of an array node (the one-node guard
    of ArrayNode). */
module TreeComparator {
  import opened Wrappers
  import opened Heap
  import opened NodeFactory
  import opened ObjectNodes
  import opened Nodes
  import opened SymmetricPairs
  import opened TraverseHelper
  import opened TreeView

  /** The nodes as the comparator sees them. */
  datatype Comparand = Comparand(view: View, kind: Node -> Kind, same: (Ref, Ref) -> bool)

  /** What a guard records: a canonical pair of object ids, or one id. */
  datatype Token = PairToken(pair: SymmetricPair<nat>) | NodeToken(id: nat)

  /** The two collections compareTrees threads through the walk. */
  datatype State = State(modified: set<Node>, seen: set<Token>)

  /** Every token the guards can record over the heap's objects. */
  function Tokens(objects: set<nat>): set<Token>
  {
    (set a, b | a in objects && b in objects :: PairToken(Normalize(SymmetricPair(a, b)))) +
    (set a | a in objects :: NodeToken(a))
  }

  /** Tokens not recorded yet: the comparator's termination measure. */
  function Unseen(c: Comparand, seen: set<Token>): set<Token>
  {
    Tokens(c.view.objects) - seen
  }

  /** The token of the pair guard for two repeatable nodes. */
  function PairKey(n1: Node, n2: Node): Token
    requires n1.ref.Addr? && n2.ref.Addr?
  {
    PairToken(Normalize(SymmetricPair(n1.ref.id, n2.ref.id)))
  }

  /** shouldBeTraversed(new SymmetricPair(this, node2), alreadyTraversed):
      the answer and the visited collection after it. */
  function PairGuard(v: View, n1: Node, n2: Node, seen: set<Token>): (bool, set<Token>)
  {
    if Repeatable(v, n1) && Repeatable(v, n2) then
      (PairKey(n1, n2) !in seen, seen + {PairKey(n1, n2)})
    else
      (true, seen)
  }

  /** shouldBeTraversed(this, alreadyTraversed) of ArrayNode. */
  function NodeGuard(v: View, n: Node, seen: set<Token>): (bool, set<Token>)
  {
    if Repeatable(v, n) then (NodeToken(n.ref.id) !in seen, seen + {NodeToken(n.ref.id)}) else (true, seen)
  }

  /** A guard that lets two nodes with children through records a token
      that was not recorded before. */
  lemma GuardsShrink(c: Comparand, n1: Node, n2: Node, seen: set<Token>)
    requires Coherent(c.view)
    ensures PairGuard(c.view, n1, n2, seen).0 && |c.view.children(n1)| > 0 && |c.view.children(n2)| > 0 ==>
      Unseen(c, PairGuard(c.view, n1, n2, seen).1) < Unseen(c, seen)
    ensures NodeGuard(c.view, n1, seen).0 && |c.view.children(n1)| > 0 ==>
      Unseen(c, NodeGuard(c.view, n1, seen).1) < Unseen(c, seen)
  {
    var objects := c.view.objects;
    if PairGuard(c.view, n1, n2, seen).0 && |c.view.children(n1)| > 0 && |c.view.children(n2)| > 0 {
      var a, b := n1.ref.id, n2.ref.id;
      assert PairKey(n1, n2) in Tokens(objects);
      assert PairKey(n1, n2) in Unseen(c, seen) - Unseen(c, PairGuard(c.view, n1, n2, seen).1);
    }
    if NodeGuard(c.view, n1, seen).0 && |c.view.children(n1)| > 0 {
      assert NodeToken(n1.ref.id) in Tokens(objects);
      assert NodeToken(n1.ref.id) in Unseen(c, seen) - Unseen(c, NodeGuard(c.view, n1, seen).1);
    }
  }

  /** Both compared nodes are marked modified. */
  function AddBoth(st: State, n1: Node, n2: Node): State
  {
    State(st.modified + {n1, n2}, st.seen)
  }

  /** Some node of `cs` has this name. */
  predicate NamedIn(name: string, cs: seq<Node>)
  {
    exists k :: 0 <= k < |cs| && cs[k].name == name
  }

  /** The children of one object whose name the other object lacks. */
  function Unmatched(cs: seq<Node>, others: seq<Node>): (r: set<Node>)
    ensures forall x :: x in r <==> x in cs && !NamedIn(x.name, others)
  {
    set x | x in cs && !NamedIn(x.name, others)
  }

  /** The children of both objects, paired by name, in the order of the
      first object's children. */
  function CommonPairs(cs1: seq<Node>, cs2: seq<Node>): (ps: seq<(Node, Node)>)
    ensures |ps| <= |cs1| && (|ps| > 0 ==> |cs2| > 0)
    ensures forall k :: 0 <= k < |ps| ==> ps[k].0 in cs1 && ps[k].1 in cs2 && ps[k].0.name == ps[k].1.name
  {
    if cs1 == [] then []
    else
      var k := FirstNamed(cs2, cs1[0].name, 0);
      (if k >= 0 then [(cs1[0], cs2[k])] else []) + CommonPairs(cs1[1..], cs2)
  }

  /** The children of two lists paired by position, up to the shorter. */
  function Zip(cs1: seq<Node>, cs2: seq<Node>): (ps: seq<(Node, Node)>)
    ensures |ps| == if |cs1| <= |cs2| then |cs1| else |cs2|
    ensures forall k :: 0 <= k < |ps| ==> ps[k] == (cs1[k], cs2[k])
  {
    if cs1 == [] || cs2 == [] then [] else [(cs1[0], cs2[0])] + Zip(cs1[1..], cs2[1..])
  }

  /** addNewChildren: the children past the shorter list's length. */
  function Surplus(cs1: seq<Node>, cs2: seq<Node>): (r: set<Node>)
    ensures forall x :: x in r <==> (exists k :: |cs2| <= k < |cs1| && cs1[k] == x) ||
                                    (exists k :: |cs1| <= k < |cs2| && cs2[k] == x)
  {
    (set k | |cs2| <= k < |cs1| :: cs1[k]) + (set k | |cs1| <= k < |cs2| :: cs2[k])
  }

  /** node1.compareTrees(node2, equalName, modifiedNodes, alreadyTraversed),
      dispatched on the node class of node1. */
  function CompareNode(c: Comparand, n1: Node, n2: Node, equalName: bool, st: State): (r: State)
    requires Coherent(c.view)
    ensures st.modified <= r.modified && st.seen <= r.seen
    decreases Unseen(c, st.seen), 2, 0
  {
    match c.kind(n1)
    case ObjectKind => CompareObjects(c, n1, n2, equalName, st)
    case CollectionKind => CompareContainers(c, n1, n2, equalName, st)
    case MapKind => CompareContainers(c, n1, n2, equalName, st)
    case ArrayKind => CompareArrays(c, n1, n2, equalName, st)
    case _ => CompareLeaves(c, n1, n2, equalName, st)
  }

  /** Whether the leaf rule marks the two nodes: one value is null and the
      other not, or the values are not equal, or the types differ, or the
      names differ when names matter. */
  predicate LeavesDiffer(c: Comparand, n1: Node, n2: Node, equalName: bool)
  {
    !(n1.ref.Null? && n2.ref.Null?) &&
    (n1.ref.Null? || n2.ref.Null? || !c.same(n1.ref, n2.ref) || n1.nodeType != n2.nodeType ||
     (equalName && n1.name != n2.name))
  }

  /** AbstractNode.compareTrees, the rule of builtin, enum and Optional nodes. */
  function CompareLeaves(c: Comparand, n1: Node, n2: Node, equalName: bool, st: State): (r: State)
  {
    var g := PairGuard(c.view, n1, n2, st.seen);
    var st1 := State(st.modified, g.1);
    if g.0 && LeavesDiffer(c, n1, n2, equalName) then AddBoth(st1, n1, n2) else st1
  }

  /** ObjectNode.compareTrees: children present on one side only are marked,
      children present on both are compared with names mattering. */
  function CompareObjects(c: Comparand, n1: Node, n2: Node, equalName: bool, st: State): (r: State)
    requires Coherent(c.view)
    ensures st.modified <= r.modified && st.seen <= r.seen
    decreases Unseen(c, st.seen), 1, 0
  {
    var g := PairGuard(c.view, n1, n2, st.seen);
    var st1 := State(st.modified, g.1);
    if !g.0 then st1
    else if c.kind(n2) != ObjectKind || n1.nodeType != n2.nodeType then AddBoth(st1, n1, n2)
    else if n1.ref.Null? && n2.ref.Null? then st1
    else if n1.ref.Null? || n2.ref.Null? then AddBoth(st1, n1, n2)
    else if equalName && n1.name != n2.name then AddBoth(st1, n1, n2)
    else
      var cs1, cs2 := c.view.children(n1), c.view.children(n2);
      var st2 := State(st1.modified + Unmatched(cs1, cs2) + Unmatched(cs2, cs1), st1.seen);
      var ps := CommonPairs(cs1, cs2);
      GuardsShrink(c, n1, n2, st.seen);
      ComparePairs(c, ps, |ps|, true, st2, Unseen(c, st.seen))
  }

  /** CollectionNode.compareTrees and MapNode.compareTrees: a size mismatch
      marks both nodes, the children are compared by position up to the
      shorter list, and the surplus children are marked. */
  function CompareContainers(c: Comparand, n1: Node, n2: Node, equalName: bool, st: State): (r: State)
    requires Coherent(c.view)
    ensures st.modified <= r.modified && st.seen <= r.seen
    decreases Unseen(c, st.seen), 1, 0
  {
    var g := PairGuard(c.view, n1, n2, st.seen);
    var st1 := State(st.modified, g.1);
    if !g.0 then st1
    else if c.kind(n2) != c.kind(n1) || n1.nodeType != n2.nodeType || (equalName && n1.name != n2.name) then
      AddBoth(st1, n1, n2)
    else
      var cs1, cs2 := c.view.children(n1), c.view.children(n2);
      var st2 := if |cs1| != |cs2| then AddBoth(st1, n1, n2) else st1;
      var ps := Zip(cs1, cs2);
      GuardsShrink(c, n1, n2, st.seen);
      var r := ComparePairs(c, ps, |ps|, equalName, st2, Unseen(c, st.seen));
      State(r.modified + Surplus(cs1, cs2), r.seen)
  }

  /** ArrayNode.compareTrees: guarded on the first array alone; a length
      mismatch marks both nodes and compares no element. */
  function CompareArrays(c: Comparand, n1: Node, n2: Node, equalName: bool, st: State): (r: State)
    requires Coherent(c.view)
    ensures st.modified <= r.modified && st.seen <= r.seen
    decreases Unseen(c, st.seen), 1, 0
  {
    var g := NodeGuard(c.view, n1, st.seen);
    var st1 := State(st.modified, g.1);
    if !g.0 then st1
    else if c.kind(n2) != ArrayKind || n1.nodeType != n2.nodeType || (equalName && n1.name != n2.name) then
      AddBoth(st1, n1, n2)
    else
      var cs1, cs2 := c.view.children(n1), c.view.children(n2);
      if |cs1| != |cs2| then AddBoth(st1, n1, n2)
      else
        var ps := Zip(cs1, cs2);
        GuardsShrink(c, n1, n2, st.seen);
        ComparePairs(c, ps, |ps|, equalName, st1, Unseen(c, st.seen))
  }

  /** The first i iterations of a loop comparing paired children. `bound`
      is the parent's measure, above that of every state the loop sees. */
  function ComparePairs(c: Comparand, ps: seq<(Node, Node)>, i: nat, equalName: bool, st: State, bound: set<Token>)
    : (r: State)
    requires Coherent(c.view) && i <= |ps|
    requires 0 < |ps| ==> Unseen(c, st.seen) < bound
    ensures st.modified <= r.modified && st.seen <= r.seen
    decreases bound, 0, i
  {
    if i == 0 then st
    else
      var before := ComparePairs(c, ps, i - 1, equalName, st, bound);
      CompareNode(c, ps[i - 1].0, ps[i - 1].1, equalName, before)
  }

  /** TreeComparator.compareNode at the root: names do not matter and both
      collections start empty; a null root against a node marks that node. */
  function CompareRoots(c: Comparand, root1: Option<Node>, root2: Option<Node>): (modified: set<Node>)
    requires Coherent(c.view)
    ensures root1.None? && root2.None? ==> modified == {}
    ensures root1.None? && root2.Some? ==> modified == {root2.value}
    ensures root1.Some? && root2.None? ==> modified == {root1.value}
  {
    match (root1, root2)
    case (None, None) => {}
    case (None, Some(n2)) => {n2}
    case (Some(n1), None) => {n1}
    case (Some(n1), Some(n2)) => CompareNode(c, n1, n2, false, State({}, {})).modified
  }

  /** One more iteration of a pair loop compares the next pair from the
      state the previous ones left. */
  lemma ComparePairsStep(c: Comparand, ps: seq<(Node, Node)>, i: nat, equalName: bool, st: State, bound: set<Token>)
    requires Coherent(c.view) && i < |ps|
    requires Unseen(c, st.seen) < bound
    ensures var done := ComparePairs(c, ps, i, equalName, st, bound);
      Unseen(c, done.seen) < bound &&
      ComparePairs(c, ps, i + 1, equalName, st, bound) == CompareNode(c, ps[i].0, ps[i].1, equalName, done)
  {
  }

  /** The two collections of one comparison; the methods add to them as
      compareTrees adds to modifiedNodes and alreadyTraversed. */
  class Comparison {
    var modified: set<Node>
    var seen: set<Token>

    constructor ()
      ensures modified == {} && seen == {}
    {
      modified := {};
      seen := {};
    }

    function Current(): State
      reads this
    {
      State(modified, seen)
    }

    /** node1.compareTrees(node2, ...), dispatched on node1's class. */
    method Compare(c: Comparand, n1: Node, n2: Node, equalName: bool)
      requires Coherent(c.view)
      modifies this
      ensures Current() == CompareNode(c, n1, n2, equalName, old(Current()))
      decreases Unseen(c, seen), 2, 0
    {
      match c.kind(n1)
      case ObjectKind => CompareObjectNodes(c, n1, n2, equalName);
      case CollectionKind => CompareContainerNodes(c, n1, n2, equalName);
      case MapKind => CompareContainerNodes(c, n1, n2, equalName);
      case ArrayKind => CompareArrayNodes(c, n1, n2, equalName);
      case _ => CompareLeafNodes(c, n1, n2, equalName);
    }

    method CompareLeafNodes(c: Comparand, n1: Node, n2: Node, equalName: bool)
      modifies this
      ensures Current() == CompareLeaves(c, n1, n2, equalName, old(Current()))
    {
      var g := PairGuard(c.view, n1, n2, seen);
      seen := g.1;
      if !g.0 {
        return;
      }
      if n1.ref.Null? && n2.ref.Null? {
        return;
      }
      if n1.ref.Null? || n2.ref.Null? {
        modified := modified + {n1, n2};
      } else if !c.same(n1.ref, n2.ref) {
        modified := modified + {n1, n2};
      } else if n1.nodeType != n2.nodeType {
        modified := modified + {n1, n2};
      } else if equalName && n1.name != n2.name {
        modified := modified + {n1, n2};
      }
    }

    method CompareObjectNodes(c: Comparand, n1: Node, n2: Node, equalName: bool)
      requires Coherent(c.view)
      modifies this
      ensures Current() == CompareObjects(c, n1, n2, equalName, old(Current()))
      decreases Unseen(c, seen), 1, 0
    {
      ghost var st := Current();
      var g := PairGuard(c.view, n1, n2, seen);
      seen := g.1;
      if !g.0 {
        return;
      }
      if c.kind(n2) != ObjectKind || n1.nodeType != n2.nodeType {
        modified := modified + {n1, n2};
        return;
      }
      if n1.ref.Null? && n2.ref.Null? {
        return;
      }
      if n1.ref.Null? || n2.ref.Null? {
        modified := modified + {n1, n2};
        return;
      }
      if equalName && n1.name != n2.name {
        modified := modified + {n1, n2};
        return;
      }
      var cs1, cs2 := c.view.children(n1), c.view.children(n2);
      AddUnmatched(cs1, cs2);
      AddUnmatched(cs2, cs1);
      GuardsShrink(c, n1, n2, st.seen);
      ComparePairsLoop(c, CommonPairs(cs1, cs2), true, Unseen(c, st.seen));
    }

    method CompareContainerNodes(c: Comparand, n1: Node, n2: Node, equalName: bool)
      requires Coherent(c.view)
      modifies this
      ensures Current() == CompareContainers(c, n1, n2, equalName, old(Current()))
      decreases Unseen(c, seen), 1, 0
    {
      ghost var st := Current();
      var g := PairGuard(c.view, n1, n2, seen);
      seen := g.1;
      if !g.0 {
        return;
      }
      if c.kind(n2) != c.kind(n1) || n1.nodeType != n2.nodeType || (equalName && n1.name != n2.name) {
        modified := modified + {n1, n2};
        return;
      }
      var cs1, cs2 := c.view.children(n1), c.view.children(n2);
      if |cs1| != |cs2| {
        modified := modified + {n1, n2};
      }
      GuardsShrink(c, n1, n2, st.seen);
      ComparePairsLoop(c, Zip(cs1, cs2), equalName, Unseen(c, st.seen));
      modified := modified + Surplus(cs1, cs2);
    }

    method CompareArrayNodes(c: Comparand, n1: Node, n2: Node, equalName: bool)
      requires Coherent(c.view)
      modifies this
      ensures Current() == CompareArrays(c, n1, n2, equalName, old(Current()))
      decreases Unseen(c, seen), 1, 0
    {
      ghost var st := Current();
      var g := NodeGuard(c.view, n1, seen);
      seen := g.1;
      if !g.0 {
        return;
      }
      if c.kind(n2) != ArrayKind || n1.nodeType != n2.nodeType || (equalName && n1.name != n2.name) {
        modified := modified + {n1, n2};
        return;
      }
      var cs1, cs2 := c.view.children(n1), c.view.children(n2);
      if |cs1| != |cs2| {
        modified := modified + {n1, n2};
        return;
      }
      GuardsShrink(c, n1, n2, st.seen);
      ComparePairsLoop(c, Zip(cs1, cs2), equalName, Unseen(c, st.seen));
    }

    /** The for-loop over paired children, in order. */
    method ComparePairsLoop(c: Comparand, ps: seq<(Node, Node)>, equalName: bool, ghost bound: set<Token>)
      requires Coherent(c.view)
      requires 0 < |ps| ==> Unseen(c, seen) < bound
      modifies this
      ensures Current() == ComparePairs(c, ps, |ps|, equalName, old(Current()), bound)
      decreases bound, 0, 0
    {
      ghost var st := Current();
      var i := 0;
      while i < |ps|
        invariant 0 <= i <= |ps|
        invariant Current() == ComparePairs(c, ps, i, equalName, st, bound)
      {
        ComparePairsStep(c, ps, i, equalName, st, bound);
        Compare(c, ps[i].0, ps[i].1, equalName);
        i := i + 1;
      }
    }

    /** Marks the children whose name the other object lacks. */
    method AddUnmatched(cs: seq<Node>, others: seq<Node>)
      modifies this
      ensures modified == old(modified) + Unmatched(cs, others) && seen == old(seen)
    {
      var i := 0;
      while i < |cs|
        invariant 0 <= i <= |cs| && seen == old(seen)
        invariant modified == old(modified) + Unmatched(cs[..i], others)
      {
        if FirstNamed(others, cs[i].name, 0) < 0 {
          modified := modified + {cs[i]};
        }
        assert cs[..i + 1] == cs[..i] + [cs[i]];
        i := i + 1;
      }
      assert cs[..|cs|] == cs;
    }
  }

  /** TreeComparator.compareTrees over the roots of two trees. */
  method CompareTrees(c: Comparand, root1: Option<Node>, root2: Option<Node>) returns (modified: set<Node>)
    requires Coherent(c.view)
    ensures modified == CompareRoots(c, root1, root2)
  {
    if root1.None? && root2.Some? {
      return {root2.value};
    }
    if root1.Some? && root2.None? {
      return {root1.value};
    }
    modified := {};
    if root1.Some? && root2.Some? {
      var cmp := new Comparison();
      cmp.Compare(c, root1.value, root2.value, false);
      modified := cmp.modified;
    }
  }

  /** `equals` of wrapped values is reflexive. */
  ghost predicate SameReflexive(c: Comparand)
  {
    forall r :: c.same(r, r)
  }

  /** The children of an object node have distinct names. */
  ghost predicate ObjectNamesDistinct(c: Comparand)
  {
    forall n :: c.kind(n) == ObjectKind ==> DistinctNodeNames(c.view.children(n))
  }

  /** Every pair compares a node with itself. */
  predicate Diagonal(ps: seq<(Node, Node)>)
  {
    forall k :: 0 <= k < |ps| ==> ps[k].0 == ps[k].1
  }

  /** Pairing an object's children with its own children by name pairs
      each child with itself. */
  lemma {:induction false} CommonPairsSelf(cs: seq<Node>, j: nat)
    requires DistinctNodeNames(cs) && j <= |cs|
    ensures Diagonal(CommonPairs(cs[j..], cs))
    decreases |cs| - j
  {
    if j < |cs| {
      var k := FirstNamed(cs, cs[j].name, 0);
      assert k == j;
      assert cs[j..][1..] == cs[j + 1..];
      CommonPairsSelf(cs, j + 1);
      var rest := CommonPairs(cs[j + 1..], cs);
      assert CommonPairs(cs[j..], cs) == [(cs[j], cs[j])] + rest;
    }
  }

  /** A node compared with itself is never marked, nor is anything below
      it, whatever was visited before: comparing a cyclic object with
      itself ends with no modification. */
  lemma {:induction false} CompareSelf(c: Comparand, n: Node, equalName: bool, st: State)
    requires Coherent(c.view) && SameReflexive(c) && ObjectNamesDistinct(c)
    ensures CompareNode(c, n, n, equalName, st).modified == st.modified
    decreases Unseen(c, st.seen), 2, 0
  {
    match c.kind(n)
    case ObjectKind => CompareObjectsSelf(c, n, equalName, st);
    case CollectionKind => CompareContainersSelf(c, n, equalName, st);
    case MapKind => CompareContainersSelf(c, n, equalName, st);
    case ArrayKind => CompareArraysSelf(c, n, equalName, st);
    case _ => assert c.same(n.ref, n.ref);
  }

  lemma {:induction false} CompareObjectsSelf(c: Comparand, n: Node, equalName: bool, st: State)
    requires Coherent(c.view) && SameReflexive(c) && ObjectNamesDistinct(c) && c.kind(n) == ObjectKind
    ensures CompareObjects(c, n, n, equalName, st).modified == st.modified
    decreases Unseen(c, st.seen), 1, 0
  {
    var g := PairGuard(c.view, n, n, st.seen);
    if g.0 && n.ref.Addr? {
      var cs := c.view.children(n);
      assert Unmatched(cs, cs) == {} by {
        forall x | x in cs
          ensures NamedIn(x.name, cs)
        {
          var k :| 0 <= k < |cs| && cs[k] == x;
        }
      }
      CommonPairsSelf(cs, 0);
      assert cs[0..] == cs;
      GuardsShrink(c, n, n, st.seen);
      var ps := CommonPairs(cs, cs);
      ComparePairsSelf(c, ps, |ps|, true, State(st.modified, g.1), Unseen(c, st.seen));
    }
  }

  lemma {:induction false} CompareContainersSelf(c: Comparand, n: Node, equalName: bool, st: State)
    requires Coherent(c.view) && SameReflexive(c) && ObjectNamesDistinct(c)
    ensures CompareContainers(c, n, n, equalName, st).modified == st.modified
    decreases Unseen(c, st.seen), 1, 0
  {
    var g := PairGuard(c.view, n, n, st.seen);
    if g.0 {
      var cs := c.view.children(n);
      GuardsShrink(c, n, n, st.seen);
      var ps := Zip(cs, cs);
      ComparePairsSelf(c, ps, |ps|, equalName, State(st.modified, g.1), Unseen(c, st.seen));
      assert Surplus(cs, cs) == {};
    }
  }

  lemma {:induction false} CompareArraysSelf(c: Comparand, n: Node, equalName: bool, st: State)
    requires Coherent(c.view) && SameReflexive(c) && ObjectNamesDistinct(c) && c.kind(n) == ArrayKind
    ensures CompareArrays(c, n, n, equalName, st).modified == st.modified
    decreases Unseen(c, st.seen), 1, 0
  {
    var g := NodeGuard(c.view, n, st.seen);
    if g.0 {
      var cs := c.view.children(n);
      GuardsShrink(c, n, n, st.seen);
      var ps := Zip(cs, cs);
      ComparePairsSelf(c, ps, |ps|, equalName, State(st.modified, g.1), Unseen(c, st.seen));
    }
  }

  lemma {:induction false} ComparePairsSelf(c: Comparand, ps: seq<(Node, Node)>, i: nat, equalName: bool, st: State, bound: set<Token>)
    requires Coherent(c.view) && SameReflexive(c) && ObjectNamesDistinct(c)
    requires i <= |ps| && Diagonal(ps)
    requires 0 < |ps| ==> Unseen(c, st.seen) < bound
    ensures ComparePairs(c, ps, i, equalName, st, bound).modified == st.modified
    decreases bound, 0, i
  {
    if i > 0 {
      ComparePairsSelf(c, ps, i - 1, equalName, st, bound);
      ComparePairsSelfStep(c, ps, i - 1, equalName, st, bound);
    }
  }

  /** One step of ComparePairsSelf: comparing the next diagonal pair adds
      nothing. */
  lemma {:induction false} ComparePairsSelfStep(c: Comparand, ps: seq<(Node, Node)>, i: nat, equalName: bool, st: State, bound: set<Token>)
    requires Coherent(c.view) && SameReflexive(c) && ObjectNamesDistinct(c)
    requires i < |ps| && Diagonal(ps) && Unseen(c, st.seen) < bound
    requires ComparePairs(c, ps, i, equalName, st, bound).modified == st.modified
    ensures ComparePairs(c, ps, i + 1, equalName, st, bound).modified == st.modified
    decreases bound, 0, i
  {
    var before := ComparePairs(c, ps, i, equalName, st, bound);
    ComparePairsStep(c, ps, i, equalName, st, bound);
    assert ps[i].0 == ps[i].1;
    CompareSelf(c, ps[i].0, equalName, before);
  }

  /** A tree compared with itself has no modified node. */
  lemma CompareRootsSelf(c: Comparand, n: Node)
    requires Coherent(c.view) && SameReflexive(c) && ObjectNamesDistinct(c)
    ensures CompareRoots(c, Some(n), Some(n)) == {}
  {
    CompareSelf(c, n, false, State({}, {}));
  }

  /** The leaf rule: a leaf is never refused by the pair guard, and the two
      nodes are both marked exactly when they differ; nothing else is. */
  lemma LeafRule(c: Comparand, n1: Node, n2: Node, equalName: bool, st: State)
    requires Coherent(c.view) && c.view.leaf(n1)
    requires c.kind(n1) !in {ObjectKind, CollectionKind, MapKind, ArrayKind}
    ensures CompareNode(c, n1, n2, equalName, st).modified ==
      st.modified + (if LeavesDiffer(c, n1, n2, equalName) then {n1, n2} else {})
  {
  }

  /** Arrays of different lengths: both array nodes are marked and no
      element is compared. */
  lemma ArrayLengthMismatch(c: Comparand, n1: Node, n2: Node, equalName: bool, st: State)
    requires Coherent(c.view) && c.kind(n1) == ArrayKind && c.kind(n2) == ArrayKind
    requires n1.nodeType == n2.nodeType && !(equalName && n1.name != n2.name)
    requires NodeGuard(c.view, n1, st.seen).0
    requires |c.view.children(n1)| != |c.view.children(n2)|
    ensures CompareNode(c, n1, n2, equalName, st) == State(st.modified + {n1, n2}, NodeGuard(c.view, n1, st.seen).1)
  {
  }

  /** Collections or maps of different sizes: both nodes and every surplus
      child of the longer one are marked, besides what the compared
      children add. */
  lemma ContainerSizeMismatch(c: Comparand, n1: Node, n2: Node, equalName: bool, st: State)
    requires Coherent(c.view) && c.kind(n1) in {CollectionKind, MapKind} && c.kind(n2) == c.kind(n1)
    requires n1.nodeType == n2.nodeType && !(equalName && n1.name != n2.name)
    requires PairGuard(c.view, n1, n2, st.seen).0
    requires |c.view.children(n1)| != |c.view.children(n2)|
    ensures var r := CompareNode(c, n1, n2, equalName, st);
      {n1, n2} <= r.modified &&
      forall k :: |c.view.children(n2)| <= k < |c.view.children(n1)| ==> c.view.children(n1)[k] in r.modified
    ensures var r := CompareNode(c, n1, n2, equalName, st);
      forall k :: |c.view.children(n1)| <= k < |c.view.children(n2)| ==> c.view.children(n2)[k] in r.modified
  {
  }

  /** The object rule once the pair guard lets the nodes through: a
      counterpart that is not an object or has another type marks exactly
      the two nodes and goes no further. */
  lemma ObjectTypeMismatch(c: Comparand, n1: Node, n2: Node, equalName: bool, st: State)
    requires Coherent(c.view) && c.kind(n1) == ObjectKind
    requires PairGuard(c.view, n1, n2, st.seen).0
    requires c.kind(n2) != ObjectKind || n1.nodeType != n2.nodeType
    ensures CompareNode(c, n1, n2, equalName, st) ==
      AddBoth(State(st.modified, PairGuard(c.view, n1, n2, st.seen).1), n1, n2)
  {
  }

  /** Two objects of one type: two null values add nothing, exactly one
      null value marks exactly the two nodes, and so do two non-null
      values whose names differ when names matter. */
  lemma ObjectNullRule(c: Comparand, n1: Node, n2: Node, equalName: bool, st: State)
    requires Coherent(c.view) && c.kind(n1) == ObjectKind && c.kind(n2) == ObjectKind
    requires n1.nodeType == n2.nodeType
    requires PairGuard(c.view, n1, n2, st.seen).0
    ensures var st1 := State(st.modified, PairGuard(c.view, n1, n2, st.seen).1);
      n1.ref.Null? && n2.ref.Null? ==> CompareNode(c, n1, n2, equalName, st) == st1
    ensures var st1 := State(st.modified, PairGuard(c.view, n1, n2, st.seen).1);
      n1.ref.Null? != n2.ref.Null? ==> CompareNode(c, n1, n2, equalName, st) == AddBoth(st1, n1, n2)
    ensures var st1 := State(st.modified, PairGuard(c.view, n1, n2, st.seen).1);
      n1.ref.Addr? && n2.ref.Addr? && equalName && n1.name != n2.name ==>
        CompareNode(c, n1, n2, equalName, st) == AddBoth(st1, n1, n2)
  {
  }

  /** Two non-null objects of one type (with the same name when names
      matter): every child named on one side only is marked, and the
      children named on both sides are then compared pair by pair, in the
      first object's order, with names mattering. */
  lemma ObjectChildrenRule(c: Comparand, n1: Node, n2: Node, equalName: bool, st: State)
    requires Coherent(c.view) && c.kind(n1) == ObjectKind && c.kind(n2) == ObjectKind
    requires n1.nodeType == n2.nodeType && n1.ref.Addr? && n2.ref.Addr?
    requires !(equalName && n1.name != n2.name)
    requires PairGuard(c.view, n1, n2, st.seen).0
    ensures var cs1, cs2 := c.view.children(n1), c.view.children(n2);
      Unmatched(cs1, cs2) + Unmatched(cs2, cs1) <= CompareNode(c, n1, n2, equalName, st).modified
    ensures var cs1, cs2 := c.view.children(n1), c.view.children(n2);
      0 < |CommonPairs(cs1, cs2)| ==> Unseen(c, PairGuard(c.view, n1, n2, st.seen).1) < Unseen(c, st.seen)
    ensures var cs1, cs2 := c.view.children(n1), c.view.children(n2);
      var ps := CommonPairs(cs1, cs2);
      CompareNode(c, n1, n2, equalName, st) ==
        ComparePairs(c, ps, |ps|, true,
          State(st.modified + Unmatched(cs1, cs2) + Unmatched(cs2, cs1), PairGuard(c.view, n1, n2, st.seen).1),
          Unseen(c, st.seen))
  {
    GuardsShrink(c, n1, n2, st.seen);
  }

  /** Collections or maps whose counterpart is of another node class or
      type, or has another name when names matter: exactly the two nodes
      are marked and no child is compared. */
  lemma ContainerTypeMismatch(c: Comparand, n1: Node, n2: Node, equalName: bool, st: State)
    requires Coherent(c.view) && c.kind(n1) in {CollectionKind, MapKind}
    requires PairGuard(c.view, n1, n2, st.seen).0
    requires c.kind(n2) != c.kind(n1) || n1.nodeType != n2.nodeType || (equalName && n1.name != n2.name)
    ensures CompareNode(c, n1, n2, equalName, st) ==
      AddBoth(State(st.modified, PairGuard(c.view, n1, n2, st.seen).1), n1, n2)
  {
  }

  /** Arrays whose counterpart is not an array or has another array type
      (a double[] against an int[]), or another name when names matter:
      exactly the two nodes are marked and no element is compared. */
  lemma ArrayTypeMismatch(c: Comparand, n1: Node, n2: Node, equalName: bool, st: State)
    requires Coherent(c.view) && c.kind(n1) == ArrayKind
    requires NodeGuard(c.view, n1, st.seen).0
    requires c.kind(n2) != ArrayKind || n1.nodeType != n2.nodeType || (equalName && n1.name != n2.name)
    ensures CompareNode(c, n1, n2, equalName, st) ==
      AddBoth(State(st.modified, NodeGuard(c.view, n1, st.seen).1), n1, n2)
  {
  }

  /** Every pair holds two nodes under the leaf rule that it does not mark:
      values equal by `equals`, of one type, named alike when names matter. */
  predicate EqualLeaves(c: Comparand, ps: seq<(Node, Node)>, equalName: bool)
  {
    forall k :: 0 <= k < |ps| ==>
      c.kind(ps[k].0) !in {ObjectKind, CollectionKind, MapKind, ArrayKind} &&
      !LeavesDiffer(c, ps[k].0, ps[k].1, equalName)
  }

  /** Comparing pairs of equal leaves marks nothing. */
  lemma {:induction false} ComparePairsEqualLeaves(c: Comparand, ps: seq<(Node, Node)>, i: nat, equalName: bool, st: State, bound: set<Token>)
    requires Coherent(c.view) && i <= |ps| && EqualLeaves(c, ps, equalName)
    requires 0 < |ps| ==> Unseen(c, st.seen) < bound
    ensures ComparePairs(c, ps, i, equalName, st, bound).modified == st.modified
    decreases i
  {
    if i > 0 {
      ComparePairsEqualLeaves(c, ps, i - 1, equalName, st, bound);
      assert !LeavesDiffer(c, ps[i - 1].0, ps[i - 1].1, equalName);
    }
  }

  /** Two distinct collections, or two maps, of one type and size whose
      elements are pairwise equal compare equal: nothing is marked. */
  lemma EqualContainersUnmarked(c: Comparand, n1: Node, n2: Node, equalName: bool, st: State)
    requires Coherent(c.view) && c.kind(n1) in {CollectionKind, MapKind} && c.kind(n2) == c.kind(n1)
    requires n1.nodeType == n2.nodeType && !(equalName && n1.name != n2.name)
    requires |c.view.children(n1)| == |c.view.children(n2)|
    requires EqualLeaves(c, Zip(c.view.children(n1), c.view.children(n2)), equalName)
    ensures CompareNode(c, n1, n2, equalName, st).modified == st.modified
  {
    var g := PairGuard(c.view, n1, n2, st.seen);
    if g.0 {
      var cs1, cs2 := c.view.children(n1), c.view.children(n2);
      GuardsShrink(c, n1, n2, st.seen);
      var ps := Zip(cs1, cs2);
      ComparePairsEqualLeaves(c, ps, |ps|, equalName, State(st.modified, g.1), Unseen(c, st.seen));
      assert Surplus(cs1, cs2) == {};
    }
  }

  /** Collections or maps of different sizes whose common prefix holds equal
      elements: exactly the two nodes and the surplus children of the
      longer one are marked ([1, 2] against [1, 2, 3] marks three nodes). */
  lemma ContainerSizeMismatchExact(c: Comparand, n1: Node, n2: Node, equalName: bool, st: State)
    requires Coherent(c.view) && c.kind(n1) in {CollectionKind, MapKind} && c.kind(n2) == c.kind(n1)
    requires n1.nodeType == n2.nodeType && !(equalName && n1.name != n2.name)
    requires PairGuard(c.view, n1, n2, st.seen).0
    requires |c.view.children(n1)| != |c.view.children(n2)|
    requires EqualLeaves(c, Zip(c.view.children(n1), c.view.children(n2)), equalName)
    ensures CompareNode(c, n1, n2, equalName, st).modified ==
      st.modified + {n1, n2} + Surplus(c.view.children(n1), c.view.children(n2))
  {
    var g := PairGuard(c.view, n1, n2, st.seen);
    var cs1, cs2 := c.view.children(n1), c.view.children(n2);
    GuardsShrink(c, n1, n2, st.seen);
    var ps := Zip(cs1, cs2);
    ComparePairsEqualLeaves(c, ps, |ps|, equalName, AddBoth(State(st.modified, g.1), n1, n2), Unseen(c, st.seen));
  }

  /** The pairs a token set records. */
  function PairsIn(seen: set<Token>): set<SymmetricPair<nat>>
  {
    set t | t in seen && t.PairToken? :: t.pair
  }

  /** Over the node model, the token guard answers as shouldBeTraversed
      over a Java set of SymmetricPairs would, and records the same pair. */
  lemma PairGuardAgrees(u: Universe, n1: Node, n2: Node, seen: set<Token>)
    requires Valid(u) && Canonical(PairsIn(seen))
    ensures PairGuard(ViewOf(u), n1, n2, seen).0 == ShouldPairBeTraversed(u, n1, n2, PairsIn(seen)).0
    ensures PairsIn(PairGuard(ViewOf(u), n1, n2, seen).1) == ShouldPairBeTraversed(u, n1, n2, PairsIn(seen)).1
  {
    var v := ViewOf(u);
    if Repeatable(v, n1) && Repeatable(v, n2) {
      var key := SymmetricPair(n1.ref.id, n2.ref.id);
      assert PairKey(n1, n2) in seen <==> Normalize(key) in PairsIn(seen);
      PairGuardByKey(PairsIn(seen), key);
      assert PairsIn(seen + {PairKey(n1, n2)}) == PairsIn(seen) + {Normalize(key)};
    }
  }

  /** `equals` of two wrapped values: the same object, or two builtin
      values (scalars) of the same class with the same text, so that an
      Integer 1 and a Double 1.0 differ. */
  predicate ValueEquals(u: Universe, r1: Ref, r2: Ref)
  {
    r1 == r2 ||
    (r1.Addr? && r2.Addr? && Deref(u, r1).shape.Scalar? && Deref(u, r2).shape.Scalar? &&
     Deref(u, r1).cls == Deref(u, r2).cls && Deref(u, r1).text == Deref(u, r2).text)
  }

  /** The comparand of the node model. */
  function ComparandOf(u: Universe): (c: Comparand)
    requires Valid(u)
    ensures c.view == ViewOf(u) && Coherent(c.view)
  {
    Comparand(ViewOf(u), n => NodeKind(u, n), (r1, r2) => ValueEquals(u, r1, r2))
  }

  /** The node model meets the self-comparison lemma's requirements when
      no class declares a field twice. */
  lemma ComparandOfSelfReady(u: Universe)
    requires Valid(u) && WellDeclared(u)
    ensures SameReflexive(ComparandOf(u)) && ObjectNamesDistinct(ComparandOf(u))
  {
    var c := ComparandOf(u);
    forall n | c.kind(n) == ObjectKind
      ensures DistinctNodeNames(c.view.children(n))
    {
      assert Wellformed(u, n);
      ViewAgrees(u, n);
      ObjectChildNamesDistinct(u, n);
    }
  }

  /** Comparing an object graph with itself, cyclic or not, reports nothing. */
  lemma CompareWithItself(u: Universe, n: Node)
    requires Valid(u) && WellDeclared(u)
    ensures CompareRoots(ComparandOf(u), Some(n), Some(n)) == {}
  {
    ComparandOfSelfReady(u);
    CompareRootsSelf(ComparandOf(u), n);
  }

  /** Two builtin roots: nothing is reported when they are equal values of
      the same type, and both roots otherwise. */
  lemma CompareBuiltinRoots(u: Universe, n1: Node, n2: Node)
    requires Valid(u) && IsBuiltinType(n1.nodeType)
    ensures CompareRoots(ComparandOf(u), Some(n1), Some(n2)) ==
      if LeavesDiffer(ComparandOf(u), n1, n2, false) then {n1, n2} else {}
  {
    var c := ComparandOf(u);
    assert c.kind(n1) == BuiltinKind;
    ViewAgrees(u, n1);
    LeafRule(c, n1, n2, false, State({}, {}));
  }

  /** The recursion of ObjectNode.compareTrees as written: every child of
      the first object, with the child of that name in the second, or None
      (passed on as null) where the second object has no such child. */
  function WrittenPairs(cs1: seq<Node>, cs2: seq<Node>): (ps: seq<(Node, Option<Node>)>)
    ensures |ps| == |cs1|
  {
    if cs1 == [] then []
    else
      var k := FirstNamed(cs2, cs1[0].name, 0);
      [(cs1[0], if k >= 0 then Some(cs2[k]) else None)] + WrittenPairs(cs1[1..], cs2)
  }

  /** As written, the child of the first object is compared with null
      exactly when the second object has no child of its name, which is
      the case of every child the method has just marked as unmatched. */
  lemma {:induction false} WrittenPairsPassNull(cs1: seq<Node>, cs2: seq<Node>)
    ensures forall k :: 0 <= k < |cs1| ==>
      WrittenPairs(cs1, cs2)[k].0 == cs1[k] &&
      (WrittenPairs(cs1, cs2)[k].1.None? <==> !NamedIn(cs1[k].name, cs2))
  {
    if cs1 != [] {
      WrittenPairsPassNull(cs1[1..], cs2);
      var ps := WrittenPairs(cs1, cs2);
      forall k | 0 <= k < |cs1|
        ensures ps[k].0 == cs1[k] && (ps[k].1.None? <==> !NamedIn(cs1[k].name, cs2))
      {
        if k == 0 {
          var j := FirstNamed(cs2, cs1[0].name, 0);
          if NamedIn(cs1[0].name, cs2) {
            var m :| 0 <= m < |cs2| && cs2[m].name == cs1[0].name;
          }
        } else {
          assert ps[k] == WrittenPairs(cs1[1..], cs2)[k - 1];
        }
      }
    }
  }

  /** A child named only in the first object reaches the recursive call
      with a null counterpart. */
  lemma UnmatchedChildComparedWithNull(x: Node)
    ensures WrittenPairs([x], []) == [(x, None)]
  {
    assert FirstNamed([], x.name, 0) == -1;
  }

  /** The pairs of the as-written recursion that have a counterpart. */
  function Matched(ps: seq<(Node, Option<Node>)>): seq<(Node, Node)>
  {
    if ps == [] then []
    else (if ps[0].1.Some? then [(ps[0].0, ps[0].1.value)] else []) + Matched(ps[1..])
  }

  /** The corrected recursion compares exactly the as-written pairs whose
      counterpart exists, so no child is compared with null. */
  lemma {:induction false} CommonPairsAreMatched(cs1: seq<Node>, cs2: seq<Node>)
    ensures CommonPairs(cs1, cs2) == Matched(WrittenPairs(cs1, cs2))
  {
    if cs1 != [] {
      CommonPairsAreMatched(cs1[1..], cs2);
      var ps := WrittenPairs(cs1, cs2);
      assert ps[1..] == WrittenPairs(cs1[1..], cs2);
    }
  }
}
