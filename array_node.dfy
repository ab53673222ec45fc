/** ArrayNode: an array, whose children are its slots, named `name[i]`;
    each null slot is reported on the diagnostic stream. */
module ArrayNodes {
  import opened Wrappers
  import opened Heap
  import opened NodeFactory
  import opened CollectionNodes

  /** The exception Array.getLength throws for a null array. */
  datatype ReflectionError = NullPointerException

  /** The slots of an array value; none for null. */
  function ArrayElements(u: Universe, r: Ref): seq<Ref>
  {
    if r.Addr? && Deref(u, r).shape.ArraySlots? then Deref(u, r).shape.slots else []
  }

  /** ArrayNode.getChildren as written: it reads the length of the value
      without checking for null first. */
  function ArrayChildrenAsWritten(u: Universe, n: Node): (r: Result<seq<Node>, ReflectionError>)
    requires Valid(u)
    ensures r.Failure? <==> n.ref.Null?
    ensures r.Success? ==> r.value == ElementNodes(u, n.name, ArrayElements(u, n.ref))
  {
    if n.ref.Null? then Failure(NullPointerException)
    else Success(ElementNodes(u, n.name, ArrayElements(u, n.ref)))
  }

  /** ArrayNode.getChildren with the null check its sibling node classes
      make: a null array has no children. */
  function ArrayChildren(u: Universe, n: Node): (r: seq<Node>)
    requires Valid(u)
    ensures n.ref.Null? ==> r == []
    ensures |r| == |ArrayElements(u, n.ref)|
    ensures n.ref.Addr? ==> ArrayChildrenAsWritten(u, n) == Success(r)
  {
    ElementNodes(u, n.name, ArrayElements(u, n.ref))
  }

  /** The indices of the null slots among the first `i`, in order. */
  function NullSlots(slots: seq<Ref>, i: nat): seq<nat>
    requires i <= |slots|
  {
    if i == 0 then [] else NullSlots(slots, i - 1) + (if slots[i - 1].Null? then [i - 1] else [])
  }

  /** Every null slot is reported, once, and in increasing order. */
  lemma {:induction false} NullSlotsReported(slots: seq<Ref>, i: nat)
    requires i <= |slots|
    ensures forall k: nat :: k in NullSlots(slots, i) <==> k < i && slots[k].Null?
    ensures forall a, b :: 0 <= a < b < |NullSlots(slots, i)| ==> NullSlots(slots, i)[a] < NullSlots(slots, i)[b]
  {
    if i > 0 {
      NullSlotsReported(slots, i - 1);
      var prev := NullSlots(slots, i - 1);
      assert forall a :: 0 <= a < |prev| ==> prev[a] < i - 1 by {
        forall a | 0 <= a < |prev| ensures prev[a] < i - 1 {
          assert prev[a] in prev;
        }
      }
    }
  }

  /** The node the loop below builds for slot `i` is that slot's element node. */
  lemma SlotNode(u: Universe, name: string, i: nat, element: Ref)
    requires Valid(u)
    ensures element.Null? ==> CreateNode(u, ElementName(name, i), Null, None) == ElementNode(u, name, i, element)
    ensures element.Addr? ==> CreateNode(u, ElementName(name, i), element, Some(ClassOf(u, element))) == ElementNode(u, name, i, element)
  {
  }

  /** Extending a prefix of `s` by one element. */
  lemma PrefixGrows<T>(s: seq<T>, i: nat)
    requires i < |s|
    ensures s[..i + 1] == s[..i] + [s[i]]
  {
  }

  /** The loop of ArrayNode.getChildren, guarded against a null array; it
      returns the indices it reports alongside the children. */
  method GetArrayChildren(u: Universe, n: Node) returns (children: seq<Node>, reported: seq<nat>)
    requires Valid(u)
    ensures children == ArrayChildren(u, n)
    ensures reported == NullSlots(ArrayElements(u, n.ref), |ArrayElements(u, n.ref)|)
  {
    children := [];
    reported := [];
    var slots := ArrayElements(u, n.ref);
    var length := |slots|;
    ghost var nodes := ElementNodes(u, n.name, slots);
    var i := 0;
    while i < length
      invariant 0 <= i <= length
      invariant children == nodes[..i]
      invariant reported == NullSlots(slots, i)
    {
      var element := slots[i];
      var child;
      if element.Null? {
        reported := reported + [i];
        child := CreateNode(u, ElementName(n.name, i), Null, None);
      } else {
        child := CreateNode(u, ElementName(n.name, i), element, Some(ClassOf(u, element)));
      }
      SlotNode(u, n.name, i, element);
      PrefixGrows(nodes, i);
      children := children + [child];
      i := i + 1;
    }
    assert nodes[..i] == nodes;
  }

  /** The null array the unguarded code fails on is reachable: a field
      declared with an array type and holding null gives an array node for
      null, which is not a leaf, so the walkers ask for its children. */
  lemma NullArrayFieldReachesGetChildren(u: Universe, name: string, declared: ClassName)
    requires Valid(u)
    requires KindOf(u, declared) == ArrayKind
    ensures var n := CreateNode(u, name, Null, Some(declared));
      NodeKind(u, n) == ArrayKind && n.ref.Null? &&
      ArrayChildrenAsWritten(u, n).Failure? && ArrayChildren(u, n) == []
  {
  }
}
