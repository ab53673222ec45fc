/** Classification of a runtime value into the kind of tree node that
    represents it, and the node values themselves. */
module NodeFactory {
  import opened Wrappers
  import opened Heap

  const NullTypeName: ClassName := "javax.lang.model.type.NullType"
  const OptionalTypeName: ClassName := "java.util.Optional"
  const EnumTypeName: ClassName := "java.lang.Enum"

  /** Primitive types, their wrappers, String and the null type. */
  const BuiltinTypeNames: set<ClassName> := {
    "null", "boolean", "byte", "short", "char", "int", "long", "float", "double",
    "java.lang.Boolean", "java.lang.Byte", "java.lang.Short", "java.lang.Character",
    "java.lang.Integer", "java.lang.Long", "java.lang.Float", "java.lang.Double", "java.lang.String",
    NullTypeName }

  predicate IsBuiltinType(t: ClassName)
  {
    t in BuiltinTypeNames
  }

  /** An enum type is one whose direct superclass is java.lang.Enum. */
  predicate IsEnumType(u: Universe, t: ClassName)
  {
    Desc(u, t).superclass == Some(EnumTypeName)
  }

  /** Array classes have binary names starting with '['. */
  predicate IsArrayTypeName(t: ClassName)
  {
    |t| > 0 && t[0] == '['
  }

  /** The node classes of the model package. */
  datatype Kind = BuiltinKind | EnumKind | CollectionKind | MapKind | ArrayKind | OptionalKind | ObjectKind

  /** The node class a type is represented by, tested in the factory's order. */
  function KindOf(u: Universe, t: ClassName): Kind
  {
    if IsBuiltinType(t) then BuiltinKind
    else if IsEnumType(u, t) then EnumKind
    else if Desc(u, t).isCollection then CollectionKind
    else if Desc(u, t).isMap then MapKind
    else if IsArrayTypeName(t) then ArrayKind
    else if t == OptionalTypeName then OptionalKind
    else ObjectKind
  }

  /** A tree node: its name, the type it was created with and the value it
      wraps. Its node class is `KindOf` its type. */
  datatype Node = Node(name: string, nodeType: ClassName, ref: Ref)

  function NodeKind(u: Universe, n: Node): Kind
  {
    KindOf(u, n.nodeType)
  }

  /** The content of an Optional, or null when it is empty. */
  function OptionalContent(u: Universe, r: Ref): (c: Ref)
    requires Valid(u)
    ensures c.Addr? ==> r.Addr? && c.id < r.id
  {
    if r.Addr? && r.id in u.heap && u.heap[r.id].shape.OptionalOf? then u.heap[r.id].shape.content else Null
  }

  /** The three-argument factory: a missing type stands for the null type,
      and an Optional is replaced by a node for its content under the same
      name (a node for null when it is null or empty). */
  function CreateNode(u: Universe, name: string, value: Ref, declared: Option<ClassName>): (n: Node)
    requires Valid(u)
    ensures n.name == name
    ensures NodeKind(u, n) != OptionalKind
    ensures declared.None? ==> n == Node(name, NullTypeName, value)
    ensures declared.Some? && KindOf(u, declared.value) != OptionalKind ==> n == Node(name, declared.value, value)
    ensures declared.Some? && KindOf(u, declared.value) == OptionalKind ==>
      (n.ref.Null? ==> n.nodeType == NullTypeName) &&
      (n.ref.Addr? ==> value.Addr? && n.ref.id < value.id)
    ensures declared.Some? && KindOf(u, declared.value) == OptionalKind ==>
      var c := OptionalContent(u, value);
      (c.Null? ==> n == Node(name, NullTypeName, Null)) &&
      (c.Addr? && KindOf(u, ClassOf(u, c)) != OptionalKind ==> n == Node(name, ClassOf(u, c), c))
    decreases if value.Addr? then value.id + 1 else 0, declared.Some?
  {
    var t := if declared.None? then NullTypeName else declared.value;
    if KindOf(u, t) != OptionalKind then
      Node(name, t, value)
    else if value.Null? then
      CreateNode(u, name, Null, None)
    else
      var content := OptionalContent(u, value);
      if content.Null? then CreateNode(u, name, Null, None)
      else CreateNode(u, name, content, Some(ClassOf(u, content)))
  }

  /** The two-argument factory: the value's runtime class is its type. */
  function CreateNodeOf(u: Universe, name: string, value: Ref): (n: Node)
    requires Valid(u)
    requires value.Addr?
    ensures n.name == name && NodeKind(u, n) != OptionalKind
    ensures KindOf(u, ClassOf(u, value)) != OptionalKind ==> n == Node(name, ClassOf(u, value), value)
  {
    CreateNode(u, name, value, Some(ClassOf(u, value)))
  }
}
