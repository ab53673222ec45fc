/** CollectionNode: a list, set, queue or deque, whose children are its
    elements in iteration order, named `name[i]`. */
module CollectionNodes {
  import opened Wrappers
  import opened Heap
  import opened NodeFactory
  import opened Text

  /** The name of child `i` of a node called `name`. */
  function ElementName(name: string, i: nat): string
  {
    name + "[" + NatToString(i) + "]"
  }

  /** The node for element `i` holding `r`: a null element becomes a node of
      the null type, any other one is typed by its class. */
  function ElementNode(u: Universe, name: string, i: nat, r: Ref): (n: Node)
    requires Valid(u)
    ensures n.name == ElementName(name, i) && NodeKind(u, n) != OptionalKind
    ensures r.Null? ==> n == Node(ElementName(name, i), NullTypeName, Null)
    ensures r.Addr? && KindOf(u, ClassOf(u, r)) != OptionalKind ==> n == Node(ElementName(name, i), ClassOf(u, r), r)
  {
    CreateNode(u, ElementName(name, i), r, RuntimeType(u, r))
  }

  function ElementNodes(u: Universe, name: string, elements: seq<Ref>): (r: seq<Node>)
    requires Valid(u)
    ensures |r| == |elements|
    ensures forall i :: 0 <= i < |r| ==> r[i] == ElementNode(u, name, i, elements[i])
  {
    seq(|elements|, i requires 0 <= i < |elements| && Valid(u) => ElementNode(u, name, i, elements[i]))
  }

  /** Child names of an indexed node differ from each other. */
  lemma ElementNamesDistinct(name: string, i: nat, j: nat)
    requires i != j
    ensures ElementName(name, i) != ElementName(name, j)
  {
    var p := name + "[";
    var a, b := NatToString(i), NatToString(j);
    if ElementName(name, i) == ElementName(name, j) {
      assert ElementName(name, i) == p + a + "]";
      assert ElementName(name, j) == p + b + "]";
      assert a == ElementName(name, i)[|p|..|p| + |a|];
      assert b == ElementName(name, j)[|p|..|p| + |b|];
      NatToStringInjective(i, j);
    }
  }

  /** The elements of a collection value; none for null. */
  function CollectionElements(u: Universe, r: Ref): seq<Ref>
  {
    if r.Addr? && Deref(u, r).shape.Elements? then Deref(u, r).shape.elements else []
  }

  /** A collection node has one child per element, in iteration order. */
  function CollectionChildren(u: Universe, n: Node): (r: seq<Node>)
    requires Valid(u)
    ensures n.ref.Null? ==> r == []
    ensures |r| == |CollectionElements(u, n.ref)|
  {
    ElementNodes(u, n.name, CollectionElements(u, n.ref))
  }

  /** The loop of CollectionNode.getChildren. */
  method GetCollectionChildren(u: Universe, n: Node) returns (nodes: seq<Node>)
    requires Valid(u)
    ensures nodes == CollectionChildren(u, n)
  {
    nodes := [];
    if n.ref.Null? {
      return;
    }
    var elements := CollectionElements(u, n.ref);
    var index := 0;
    while index < |elements|
      invariant 0 <= index <= |elements|
      invariant nodes == ElementNodes(u, n.name, elements[..index])
    {
      var element := elements[index];
      var child;
      if element.Null? {
        child := CreateNode(u, ElementName(n.name, index), Null, None);
      } else {
        child := CreateNode(u, ElementName(n.name, index), element, Some(ClassOf(u, element)));
      }
      nodes := nodes + [child];
      index := index + 1;
      assert elements[..index] == elements[..index - 1] + [element];
    }
    assert elements[..index] == elements;
  }
}
