/** The part of the Java runtime the introspector inspects through
    reflection: a table of classes (name, simple name, superclass, whether it
    is a Collection or a Map, declared fields) and a heap of objects, each
    with its runtime class, its `toString()` text and the contents the node
    classes read (elements, entries, array slots, the content of an
    Optional, readable field values). */
module Heap {
  import opened Wrappers

  type ClassName = string

  /** A field as a class declares it: its name and its declared type. */
  datatype FieldDecl = FieldDecl(name: string, declaredType: ClassName)

  /** What reflection reports about one class. */
  datatype ClassDesc = ClassDesc(
    simpleName: string,
    superclass: Option<ClassName>,
    isCollection: bool,
    isMap: bool,
    declaredFields: seq<FieldDecl>)

  /** A Java reference: null or the address of a heap object. */
  datatype Ref = Null | Addr(id: nat)

  /** A field slot of an object, identified by declaring class and name. */
  datatype FieldKey = FieldKey(declaringClass: ClassName, name: string)

  /** A map key: null, or a key with its text and its place in the keys'
      natural ordering. */
  datatype MapKey = NullKey | Key(text: string, rank: int)

  datatype Entry = Entry(key: MapKey, value: Ref)

  /** The contents of an object, as far as the node classes look at them. */
  datatype Shape =
    | Scalar
    | EnumConstant
    | Elements(elements: seq<Ref>)
    | Entries(entries: seq<Entry>, comparableKeys: bool)
    | ArraySlots(slots: seq<Ref>)
    | OptionalOf(content: Ref)
    | Fields(readable: map<FieldKey, Ref>)

  datatype HeapObj = HeapObj(cls: ClassName, text: string, shape: Shape)

  datatype Universe = Universe(
    classes: map<ClassName, ClassDesc>,
    heap: map<nat, HeapObj>,
    boxedTrue: nat,
    boxedFalse: nat)

  const BooleanTypeName: ClassName := "java.lang.Boolean"

  /** An Optional is immutable, so its content existed before it did; and
      the two canonical Boolean objects are in the heap. */
  predicate Valid(u: Universe)
  {
    (forall id | id in u.heap && u.heap[id].shape.OptionalOf? && u.heap[id].shape.content.Addr? ::
      u.heap[id].shape.content.id < id) &&
    u.boxedTrue in u.heap && u.heap[u.boxedTrue] == HeapObj(BooleanTypeName, "true", Scalar) &&
    u.boxedFalse in u.heap && u.heap[u.boxedFalse] == HeapObj(BooleanTypeName, "false", Scalar)
  }

  /** A class the table does not describe has no superclass and no fields. */
  function Desc(u: Universe, c: ClassName): (d: ClassDesc)
    ensures c !in u.classes ==> d.superclass.None? && d.declaredFields == []
  {
    if c in u.classes then u.classes[c] else ClassDesc(c, None, false, false, [])
  }

  /** The object behind a reference; a reference that resolves to nothing
      reads as an object with no contents. */
  function Deref(u: Universe, r: Ref): (o: HeapObj)
    ensures !(r.Addr? && r.id in u.heap) ==> o.shape == Fields(map[])
  {
    if r.Addr? && r.id in u.heap then u.heap[r.id] else HeapObj("java.lang.Object", "", Fields(map[]))
  }

  /** `value.getClass()` of a non-null reference. */
  function ClassOf(u: Universe, r: Ref): ClassName
    requires r.Addr?
  {
    Deref(u, r).cls
  }

  /** The class of a value, or none for null. */
  function RuntimeType(u: Universe, r: Ref): (t: Option<ClassName>)
    ensures t.Some? <==> r.Addr?
  {
    if r.Null? then None else Some(ClassOf(u, r))
  }

  /** The superclass chain of `c`, `c` first, as the do/while loops of
      ObjectNode walk it; a class already on the chain ends it. */
  function ChainFrom(u: Universe, c: ClassName, seen: set<ClassName>): (chain: seq<ClassName>)
    requires c !in seen
    ensures |chain| > 0 && chain[0] == c
    ensures forall i :: 0 <= i < |chain| ==> chain[i] !in seen
    ensures forall i, j :: 0 <= i < j < |chain| ==> chain[i] != chain[j]
    decreases u.classes.Keys - seen
  {
    var d := Desc(u, c);
    if c in u.classes && d.superclass.Some? && d.superclass.value !in seen + {c} then
      [c] + ChainFrom(u, d.superclass.value, seen + {c})
    else
      [c]
  }

  function Chain(u: Universe, c: ClassName): (chain: seq<ClassName>)
    ensures |chain| > 0 && chain[0] == c
    ensures forall i, j :: 0 <= i < j < |chain| ==> chain[i] != chain[j]
  {
    ChainFrom(u, c, {})
  }

  /** The next class of the chain walk after `c`, if any. */
  function NextInChain(u: Universe, c: ClassName, seen: set<ClassName>): Option<ClassName>
  {
    var d := Desc(u, c);
    if c in u.classes && d.superclass.Some? && d.superclass.value !in seen + {c} then d.superclass else None
  }

  /** No class is its own ancestor: every superclass chain ends at a class
      without a superclass. */
  predicate AcyclicHierarchy(u: Universe)
  {
    forall c | c in u.classes :: var chain := Chain(u, c); Desc(u, chain[|chain| - 1]).superclass.None?
  }

  /** Along an acyclic hierarchy the chain follows `superclass` to its end. */
  lemma ChainStep(u: Universe, t: ClassName, k: nat, seen: set<ClassName>)
    requires AcyclicHierarchy(u)
    requires k < |Chain(u, t)| && Chain(u, t)[k] !in seen
    requires Chain(u, t)[k..] == ChainFrom(u, Chain(u, t)[k], seen)
    ensures Desc(u, Chain(u, t)[k]).superclass.None? <==> k == |Chain(u, t)| - 1
    ensures Desc(u, Chain(u, t)[k]).superclass.Some? ==>
      Chain(u, t)[k + 1] == Desc(u, Chain(u, t)[k]).superclass.value &&
      Chain(u, t)[k + 1] !in seen + {Chain(u, t)[k]} &&
      Chain(u, t)[k + 1..] == ChainFrom(u, Chain(u, t)[k + 1], seen + {Chain(u, t)[k]})
  {
    var chain := Chain(u, t);
    var c := chain[k];
    if t !in u.classes {
      assert chain == [t];
    }
    if c in u.classes && Desc(u, c).superclass.Some? && Desc(u, c).superclass.value !in seen + {c} {
      assert chain[k + 1..] == chain[k..][1..];
    } else {
      assert |chain[k..]| == 1;
    }
  }
}
