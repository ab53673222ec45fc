/** OptionalNode: an Optional shown as a flag telling whether it holds a
    value, followed by the value when there is one. */
module OptionalNodes {
  import opened Wrappers
  import opened Heap
  import opened NodeFactory

  /** The value of an OptionalNode must be a non-null Optional: the source
      casts it and calls isPresent() on it. */
  predicate HoldsOptional(u: Universe, r: Ref)
  {
    r.Addr? && Deref(u, r).shape.OptionalOf?
  }

  /** `opt.isPresent()`, autoboxed to Boolean.TRUE or Boolean.FALSE. */
  function BoxedIsPresent(u: Universe, content: Ref): Ref
  {
    Addr(if content.Addr? then u.boxedTrue else u.boxedFalse)
  }

  function OptionalChildren(u: Universe, n: Node): (r: seq<Node>)
    requires Valid(u) && HoldsOptional(u, n.ref)
    ensures 1 <= |r| <= 2
    ensures r[0] == Node("IsPresent", BooleanTypeName, BoxedIsPresent(u, Deref(u, n.ref).shape.content))
    ensures |r| == 2 <==> Deref(u, n.ref).shape.content.Addr?
    ensures |r| == 2 ==> r[1] == CreateNodeOf(u, "Value", Deref(u, n.ref).shape.content)
    ensures |r| == 2 && KindOf(u, ClassOf(u, Deref(u, n.ref).shape.content)) != OptionalKind ==>
      r[1] == Node("Value", ClassOf(u, Deref(u, n.ref).shape.content), Deref(u, n.ref).shape.content)
    ensures forall i :: 0 <= i < |r| ==> NodeKind(u, r[i]) != OptionalKind
  {
    var content := Deref(u, n.ref).shape.content;
    var isPresent := CreateNodeOf(u, "IsPresent", BoxedIsPresent(u, content));
    [isPresent] + (if content.Addr? then [CreateNodeOf(u, "Value", content)] else [])
  }
}
