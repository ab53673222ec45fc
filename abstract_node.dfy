/** What every node offers (AbstractNode and the node classes' isLeaf and
    getChildren): leaf test, children, child access by index and by name,
    text, equality. */
module Nodes {
  import opened Wrappers
  import opened Heap
  import opened NodeFactory
  import opened ObjectNodes
  import opened CollectionNodes
  import opened ArrayNodes
  import opened MapNodes
  import opened OptionalNodes

  /** A node the model can ask for children: an OptionalNode wraps a
      non-null Optional (nodes from the factory are never OptionalNodes). */
  predicate Wellformed(u: Universe, n: Node)
  {
    NodeKind(u, n) == OptionalKind ==> HoldsOptional(u, n.ref)
  }

  /** Builtin and enum nodes are leaves, containers never are, and an object
      is a leaf when its type declares no field. */
  predicate IsLeaf(u: Universe, n: Node)
  {
    match NodeKind(u, n)
    case BuiltinKind => true
    case EnumKind => true
    case ObjectKind => IsObjectLeaf(u, n.nodeType)
    case _ => false
  }

  /** getChildren: none (null) for builtin and enum nodes, else the list
      the node class builds. */
  function GetChildren(u: Universe, n: Node): (r: Option<seq<Node>>)
    requires Valid(u) && Wellformed(u, n)
    ensures r.None? <==> NodeKind(u, n) in {BuiltinKind, EnumKind}
    ensures r.Some? ==> forall i :: 0 <= i < |r.value| ==> NodeKind(u, r.value[i]) != OptionalKind
    ensures NodeKind(u, n) == ObjectKind ==> r == Some(ObjectChildren(u, n))
    ensures NodeKind(u, n) == CollectionKind ==> r == Some(CollectionChildren(u, n))
    ensures NodeKind(u, n) == ArrayKind ==> r == Some(ArrayChildren(u, n))
    ensures NodeKind(u, n) == MapKind ==> r == Some(MapChildren(u, n))
    ensures NodeKind(u, n) == OptionalKind ==> r == Some(OptionalChildren(u, n))
  {
    match NodeKind(u, n)
    case BuiltinKind => None
    case EnumKind => None
    case ObjectKind => Some(ObjectChildren(u, n))
    case CollectionKind => Some(CollectionChildren(u, n))
    case ArrayKind => Some(ArrayChildren(u, n))
    case MapKind => Some(MapChildren(u, n))
    case OptionalKind => Some(OptionalChildren(u, n))
  }

  /** The children as a list, empty when getChildren gives null. */
  function Children(u: Universe, n: Node): (r: seq<Node>)
    requires Valid(u) && Wellformed(u, n)
    ensures forall i :: 0 <= i < |r| ==> Wellformed(u, r[i])
  {
    var c := GetChildren(u, n);
    if c.None? then [] else c.value
  }

  function ChildrenCount(u: Universe, n: Node): (count: nat)
    requires Valid(u) && Wellformed(u, n)
    ensures GetChildren(u, n).None? ==> count == 0
    ensures GetChildren(u, n).Some? ==> count == |GetChildren(u, n).value|
  {
    |Children(u, n)|
  }

  /** getChild: null past the last child. */
  function GetChild(u: Universe, n: Node, index: nat): (r: Option<Node>)
    requires Valid(u) && Wellformed(u, n)
    ensures r.Some? <==> index < ChildrenCount(u, n)
    ensures r.Some? ==> r.value == Children(u, n)[index]
  {
    if index >= ChildrenCount(u, n) then None else Some(Children(u, n)[index])
  }

  /** The position of the first child named like `child`, or -1 when there
      is none or the argument is not a node (None). */
  function IndexOfChild(u: Universe, n: Node, child: Option<Node>): (i: int)
    requires Valid(u) && Wellformed(u, n)
    ensures -1 <= i < ChildrenCount(u, n)
    ensures i >= 0 ==> (child.Some? && Children(u, n)[i].name == child.value.name &&
      forall k :: 0 <= k < i ==> Children(u, n)[k].name != child.value.name)
    ensures i == -1 ==> child.None? || forall k :: 0 <= k < ChildrenCount(u, n) ==> Children(u, n)[k].name != child.value.name
  {
    if child.None? then -1 else FirstNamed(Children(u, n), child.value.name, 0)
  }

  function FirstNamed(cs: seq<Node>, name: string, from: nat): (i: int)
    requires from <= |cs|
    ensures i == -1 || from <= i < |cs|
    ensures i >= 0 ==> cs[i].name == name && forall k :: from <= k < i ==> cs[k].name != name
    ensures i == -1 ==> forall k :: from <= k < |cs| ==> cs[k].name != name
    decreases |cs| - from
  {
    if from == |cs| then -1 else if cs[from].name == name then from else FirstNamed(cs, name, from + 1)
  }

  /** The loop of getIndexOfChild. */
  method GetIndexOfChild(u: Universe, n: Node, child: Option<Node>) returns (index: int)
    requires Valid(u) && Wellformed(u, n)
    ensures index == IndexOfChild(u, n, child)
  {
    if child.Some? {
      var i := 0;
      while i < ChildrenCount(u, n)
        invariant 0 <= i <= ChildrenCount(u, n)
        invariant FirstNamed(Children(u, n), child.value.name, i) == FirstNamed(Children(u, n), child.value.name, 0)
      {
        if Children(u, n)[i].name == child.value.name {
          return i;
        }
        i := i + 1;
      }
    }
    return -1;
  }

  /** getNodeDescription: "null", or the value's toString(). */
  function NodeDescription(u: Universe, n: Node): string
  {
    if n.ref.Null? then "null" else Deref(u, n.ref).text
  }

  function SimpleName(u: Universe, t: ClassName): string
  {
    Desc(u, t).simpleName
  }

  /** toString: "name (Simple)", followed by ": value" for builtin and enum types. */
  function ToString(u: Universe, n: Node): (s: string)
    ensures n.name <= s
  {
    n.name + " (" + SimpleName(u, n.nodeType) + ")" +
    (if IsBuiltinType(n.nodeType) || IsEnumType(u, n.nodeType) then ": " + NodeDescription(u, n) else "")
  }

  /** equals: two nodes are equal when they wrap the same object. */
  predicate NodeEquals(n: Node, other: Option<Node>)
  {
    other.Some? && n.ref == other.value.ref
  }

  /** A leaf has no children: builtin and enum nodes have none, and a leaf
      object type has no field to show. */
  lemma LeafHasNoChildren(u: Universe, n: Node)
    requires Valid(u) && Wellformed(u, n)
    ensures IsLeaf(u, n) ==> Children(u, n) == []
  {
    if NodeKind(u, n) == ObjectKind {
      ObjectLeafHasNoFields(u, n.nodeType);
    }
  }

  /** A node with children wraps a non-null heap value of a non-builtin
      type and is not a leaf. */
  lemma ChildrenExist(u: Universe, n: Node)
    requires Valid(u) && Wellformed(u, n)
    requires |Children(u, n)| > 0
    ensures n.ref.Addr? && n.ref.id in u.heap
    ensures !IsBuiltinType(n.nodeType) && !IsLeaf(u, n)
  {
    if NodeKind(u, n) == ObjectKind {
      ObjectChildrenExist(u, n);
    }
  }
}
