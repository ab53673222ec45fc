/** The nodes as the walkers see them: through the Node interface only
    (isLeaf, getChildrenCount and getChild), over a heap of finitely many
    objects. The walkers are proved for any view that is coherent, and the
    node model gives one. */
module TreeView {
  import opened Heap
  import opened NodeFactory
  import opened Nodes
  import opened TraverseHelper

  datatype View = View(leaf: Node -> bool, children: Node -> seq<Node>, objects: set<nat>)

  /** couldBeVisitedTwice, asked through the interface. */
  predicate Repeatable(v: View, n: Node)
  {
    n.ref.Addr? && !IsBuiltinType(n.nodeType) && !v.leaf(n)
  }

  /** A node with children wraps one of the heap's objects and can be
      visited twice: so expanding it uses up one object. */
  ghost predicate Coherent(v: View)
  {
    forall n :: |v.children(n)| > 0 ==> Repeatable(v, n) && n.ref.id in v.objects
  }

  /** The view of the node model. Children are asked only of well-formed
      nodes, which every node reached from a well-formed root is. */
  function ViewOf(u: Universe): (v: View)
    requires Valid(u)
    ensures Coherent(v)
    ensures forall n :: Repeatable(v, n) <==> CouldBeVisitedTwice(u, n)
  {
    var v := View(n => IsLeaf(u, n), n => if Wellformed(u, n) then Children(u, n) else [], u.heap.Keys);
    assert Coherent(v) by {
      forall n | |v.children(n)| > 0
        ensures Repeatable(v, n) && n.ref.id in v.objects
      {
        ChildrenExist(u, n);
      }
    }
    v
  }

  /** The view answers as the node model does on well-formed nodes, and
      the children it gives are well-formed again. */
  lemma ViewAgrees(u: Universe, n: Node)
    requires Valid(u) && Wellformed(u, n)
    ensures ViewOf(u).leaf(n) == IsLeaf(u, n)
    ensures ViewOf(u).children(n) == Children(u, n)
    ensures forall i :: 0 <= i < |ViewOf(u).children(n)| ==> Wellformed(u, ViewOf(u).children(n)[i])
  {
  }

  /** hasBeenVisited against the set of recorded object ids. */
  predicate Revisit(v: View, n: Node, visited: set<nat>)
  {
    Repeatable(v, n) && n.ref.id in visited
  }

  /** The visited set after the recording step of traverse. */
  function Mark(v: View, n: Node, visited: set<nat>): set<nat>
  {
    if !Revisit(v, n, visited) && Repeatable(v, n) then visited + {n.ref.id} else visited
  }

  /** Heap objects not yet recorded: the walk's termination measure, which
      shrinks (as a set) each time a node is expanded. */
  function Unvisited(v: View, visited: set<nat>): set<nat>
  {
    v.objects - visited
  }

  /** A node that is expanded and has children is a heap object that gets
      recorded now, so fewer objects remain unvisited. */
  lemma MarkShrinks(v: View, n: Node, visited: set<nat>)
    requires Coherent(v)
    ensures !Revisit(v, n, visited) && |v.children(n)| > 0 ==>
      Unvisited(v, Mark(v, n, visited)) < Unvisited(v, visited)
  {
    if !Revisit(v, n, visited) && |v.children(n)| > 0 {
      assert n.ref.id in Unvisited(v, visited) - Unvisited(v, Mark(v, n, visited));
    }
  }
}
