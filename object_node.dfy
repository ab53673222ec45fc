/** ObjectNode: an object whose children are its fields, gathered along the
    superclass chain, and whose leaf test and child list are computed once
    and cached. */
module ObjectNodes {
  import opened Wrappers
  import opened Heap
  import opened NodeFactory

  /** The synthetic field IntelliJ's coverage runner adds to classes. */
  const IntellijFieldName: string := "__$lineHits$__"

  /** A field found by reflection: the class declaring it and its declaration. */
  datatype Field = Field(declaringClass: ClassName, decl: FieldDecl)

  predicate HasIntellijField(fs: seq<FieldDecl>)
  {
    exists i :: 0 <= i < |fs| && fs[i].name == IntellijFieldName
  }

  /** A class gives the object children when it declares a field besides
      the IntelliJ one. */
  predicate DeclaresChildren(u: Universe, c: ClassName)
  {
    var fs := Desc(u, c).declaredFields;
    |fs| >= (if HasIntellijField(fs) then 2 else 1)
  }

  /** An object type is a leaf when no class of its chain declares children. */
  predicate IsObjectLeaf(u: Universe, t: ClassName)
  {
    var chain := Chain(u, t);
    forall i :: 0 <= i < |chain| ==> !DeclaresChildren(u, chain[i])
  }

  /** No two fields share both declaring class and name. */
  predicate DistinctFieldKeys(fs: seq<Field>)
  {
    forall i, j :: 0 <= i < j < |fs| ==>
      fs[i].declaringClass != fs[j].declaringClass || fs[i].decl.name != fs[j].decl.name
  }

  /** Java class files never declare two fields with the same name, and
      Java identifiers contain no ':'. */
  predicate WellDeclared(u: Universe)
  {
    forall c | c in u.classes ::
      var fs := u.classes[c].declaredFields;
      (forall i, j :: 0 <= i < j < |fs| ==> fs[i].name != fs[j].name) &&
      (forall i :: 0 <= i < |fs| ==> ':' !in fs[i].name)
  }

  /** Appends the declared fields `fs` of class `c` to `acc`, skipping the
      IntelliJ field and fields already present. */
  function AddDeclaredFields(c: ClassName, fs: seq<FieldDecl>, acc: seq<Field>): (r: seq<Field>)
    ensures |acc| <= |r| && r[..|acc|] == acc
    ensures forall f :: f in r ==> f in acc || (f.declaringClass == c && f.decl in fs && f.decl.name != IntellijFieldName)
    ensures forall d :: d in fs && d.name != IntellijFieldName ==> Field(c, d) in r
    decreases |fs|
  {
    if fs == [] then acc
    else
      var f := Field(c, fs[0]);
      var acc' := if fs[0].name == IntellijFieldName || f in acc then acc else acc + [f];
      var r := AddDeclaredFields(c, fs[1..], acc');
      assert f in acc' ==> f in r by {
        if f in acc' {
          var k :| 0 <= k < |acc'| && acc'[k] == f;
          assert r[k] == f;
        }
      }
      r
  }

  /** Gathers the fields of every class of `chain`, in order. */
  function CollectFields(u: Universe, chain: seq<ClassName>, acc: seq<Field>): (r: seq<Field>)
    ensures |acc| <= |r| && r[..|acc|] == acc
    ensures forall f :: f in r ==> (f in acc ||
      (f.declaringClass in chain && f.decl in Desc(u, f.declaringClass).declaredFields && f.decl.name != IntellijFieldName))
    decreases |chain|
  {
    if chain == [] then acc
    else CollectFields(u, chain[1..], AddDeclaredFields(chain[0], Desc(u, chain[0]).declaredFields, acc))
  }

  /** The fields an object of type `t` shows as children, in reflection order. */
  function ObjectFields(u: Universe, t: ClassName): seq<Field>
  {
    CollectFields(u, Chain(u, t), [])
  }

  /** The readable field values of the object behind `r`. */
  function Readable(u: Universe, r: Ref): map<FieldKey, Ref>
  {
    var o := Deref(u, r);
    if o.shape.Fields? then o.shape.readable else map[]
  }

  function KeyOf(f: Field): FieldKey
  {
    FieldKey(f.declaringClass, f.decl.name)
  }

  /** A field name qualified by its declaring class. */
  function Qualified(f: Field): string
  {
    f.decl.name + ":" + f.declaringClass
  }

  predicate NameTaken(nodes: seq<Node>, name: string)
  {
    exists i :: 0 <= i < |nodes| && nodes[i].name == name
  }

  /** A field's node name: its own name, qualified when a node of that name
      already exists (a field hidden by a subclass field). */
  function ChildName(f: Field, nodes: seq<Node>): (name: string)
    ensures !NameTaken(nodes, f.decl.name) ==> name == f.decl.name
    ensures NameTaken(nodes, f.decl.name) ==> name == Qualified(f)
  {
    if NameTaken(nodes, f.decl.name) then Qualified(f) else f.decl.name
  }

  /** The node for a field holding `v`: typed by the value's class, or by the
      declared type when the value is null. */
  function FieldNode(u: Universe, name: string, f: Field, v: Ref): (n: Node)
    requires Valid(u)
    ensures n.name == name && NodeKind(u, n) != OptionalKind
    ensures var t := if v.Null? then f.decl.declaredType else ClassOf(u, v);
      KindOf(u, t) != OptionalKind ==> n == Node(name, t, v)
    ensures v.Null? && KindOf(u, f.decl.declaredType) == OptionalKind ==> n == Node(name, NullTypeName, Null)
  {
    CreateNode(u, name, v, Some(if v.Null? then f.decl.declaredType else ClassOf(u, v)))
  }

  /** The fields of `fields` whose value can be read, in order. */
  function ReadableFields(readable: map<FieldKey, Ref>, fields: seq<Field>): (r: seq<Field>)
    ensures |r| <= |fields|
    ensures forall i :: 0 <= i < |r| ==> KeyOf(r[i]) in readable
  {
    if fields == [] then []
    else (if KeyOf(fields[0]) in readable then [fields[0]] else []) + ReadableFields(readable, fields[1..])
  }

  /** Appends a node for every readable field of `fields` to `nodes`; a field
      that cannot be read is left out. */
  function FieldNodes(u: Universe, readable: map<FieldKey, Ref>, fields: seq<Field>, nodes: seq<Node>): (r: seq<Node>)
    requires Valid(u)
    ensures |nodes| <= |r| <= |nodes| + |fields| && r[..|nodes|] == nodes
    ensures forall i :: |nodes| <= i < |r| ==> NodeKind(u, r[i]) != OptionalKind
    decreases |fields|
  {
    if fields == [] then nodes
    else
      var f := fields[0];
      var nodes' :=
        if KeyOf(f) in readable then nodes + [FieldNode(u, ChildName(f, nodes), f, readable[KeyOf(f)])]
        else nodes;
      var r := FieldNodes(u, readable, fields[1..], nodes');
      assert r[..|nodes|] == r[..|nodes'|][..|nodes|];
      assert forall i :: |nodes| <= i < |nodes'| ==> r[i] == nodes'[i];
      r
  }

  /** From position `base` on, `r` holds the field nodes of `shown` in order,
      each named against the nodes before it, and nothing else. */
  predicate ShownFrom(u: Universe, readable: map<FieldKey, Ref>, shown: seq<Field>, r: seq<Node>, base: nat)
    requires Valid(u)
    requires forall i :: 0 <= i < |shown| ==> KeyOf(shown[i]) in readable
    decreases |shown|
  {
    if shown == [] then |r| == base
    else
      base < |r| &&
      r[base] == FieldNode(u, ChildName(shown[0], r[..base]), shown[0], readable[KeyOf(shown[0])]) &&
      ShownFrom(u, readable, shown[1..], r, base + 1)
  }

  /** The nodes added are, in order, the field nodes of the readable fields,
      each named against the nodes made before it. */
  lemma {:induction false} FieldNodesShown(u: Universe, readable: map<FieldKey, Ref>, fields: seq<Field>, nodes: seq<Node>)
    requires Valid(u)
    ensures ShownFrom(u, readable, ReadableFields(readable, fields), FieldNodes(u, readable, fields, nodes), |nodes|)
    decreases |fields|
  {
    if fields != [] {
      var f := fields[0];
      var rest := ReadableFields(readable, fields[1..]);
      if KeyOf(f) in readable {
        var nodes' := nodes + [FieldNode(u, ChildName(f, nodes), f, readable[KeyOf(f)])];
        var r := FieldNodes(u, readable, fields[1..], nodes');
        FieldNodesShown(u, readable, fields[1..], nodes');
        assert r[..|nodes|] == r[..|nodes'|][..|nodes|] == nodes;
        assert r[|nodes|] == r[..|nodes'|][|nodes|] == nodes'[|nodes|];
        assert ReadableFields(readable, fields) == [f] + rest;
        assert ([f] + rest)[1..] == rest;
      } else {
        FieldNodesShown(u, readable, fields[1..], nodes);
        assert ReadableFields(readable, fields) == rest;
      }
    }
  }

  /** The children of an object node: none for null, else one per readable field. */
  function ObjectChildren(u: Universe, n: Node): (r: seq<Node>)
    requires Valid(u)
    ensures n.ref.Null? ==> r == []
    ensures |r| <= |ObjectFields(u, n.nodeType)|
    ensures forall i :: 0 <= i < |r| ==> NodeKind(u, r[i]) != OptionalKind
    ensures n.ref.Addr? ==>
      ShownFrom(u, Readable(u, n.ref), ReadableFields(Readable(u, n.ref), ObjectFields(u, n.nodeType)), r, 0)
  {
    if n.ref.Null? then []
    else
      FieldNodesShown(u, Readable(u, n.ref), ObjectFields(u, n.nodeType), []);
      FieldNodes(u, Readable(u, n.ref), ObjectFields(u, n.nodeType), [])
  }

  /** The fields whose value could not be read (reported, and left out). */
  function UnreadableFields(u: Universe, n: Node): seq<Field>
  {
    if n.ref.Null? then [] else Unreadable(Readable(u, n.ref), ObjectFields(u, n.nodeType))
  }

  function Unreadable(readable: map<FieldKey, Ref>, fields: seq<Field>): seq<Field>
  {
    if fields == [] then []
    else (if KeyOf(fields[0]) in readable then [] else [fields[0]]) + Unreadable(readable, fields[1..])
  }

  predicate DistinctNodeNames(nodes: seq<Node>)
  {
    forall i, j :: 0 <= i < j < |nodes| ==> nodes[i].name != nodes[j].name
  }

  lemma DeclaredFieldsWellFormed(u: Universe, c: ClassName)
    requires WellDeclared(u)
    ensures var fs := Desc(u, c).declaredFields;
      (forall i, j :: 0 <= i < j < |fs| ==> fs[i].name != fs[j].name) &&
      (forall i :: 0 <= i < |fs| ==> ':' !in fs[i].name)
  {
  }

  lemma {:induction false} AddDeclaredFieldsDistinct(c: ClassName, fs: seq<FieldDecl>, acc: seq<Field>)
    requires DistinctFieldKeys(acc)
    requires forall i, j :: 0 <= i < j < |fs| ==> fs[i].name != fs[j].name
    requires forall f, k :: f in acc && f.declaringClass == c && 0 <= k < |fs| ==> f.decl.name != fs[k].name
    ensures DistinctFieldKeys(AddDeclaredFields(c, fs, acc))
    decreases |fs|
  {
    if fs != [] {
      var f := Field(c, fs[0]);
      var acc' := if fs[0].name == IntellijFieldName || f in acc then acc else acc + [f];
      forall g, k | g in acc' && g.declaringClass == c && 0 <= k < |fs[1..]|
        ensures g.decl.name != fs[1..][k].name
      {
        assert fs[1..][k] == fs[k + 1];
      }
      AddDeclaredFieldsDistinct(c, fs[1..], acc');
    }
  }

  lemma {:induction false} CollectFieldsDistinct(u: Universe, chain: seq<ClassName>, acc: seq<Field>)
    requires WellDeclared(u)
    requires DistinctFieldKeys(acc)
    requires forall i, j :: 0 <= i < j < |chain| ==> chain[i] != chain[j]
    requires forall f :: f in acc ==> f.declaringClass !in chain
    ensures DistinctFieldKeys(CollectFields(u, chain, acc))
    decreases |chain|
  {
    if chain != [] {
      var c := chain[0];
      var fs := Desc(u, c).declaredFields;
      DeclaredFieldsWellFormed(u, c);
      AddDeclaredFieldsDistinct(c, fs, acc);
      var acc' := AddDeclaredFields(c, fs, acc);
      forall f | f in acc' ensures f.declaringClass !in chain[1..] {
        if f !in acc {
          assert f.declaringClass == chain[0];
        }
      }
      CollectFieldsDistinct(u, chain[1..], acc');
    }
  }

  /** Each field appears once: no two share declaring class and name. */
  lemma ObjectFieldsDistinct(u: Universe, t: ClassName)
    requires WellDeclared(u)
    ensures DistinctFieldKeys(ObjectFields(u, t))
  {
    CollectFieldsDistinct(u, Chain(u, t), []);
  }

  /** Every declared field of every class of the chain, except the IntelliJ
      one, is among the collected fields. */
  lemma {:induction false} CollectFieldsComplete(u: Universe, chain: seq<ClassName>, acc: seq<Field>)
    ensures forall i, d :: 0 <= i < |chain| && d in Desc(u, chain[i]).declaredFields && d.name != IntellijFieldName ==>
      Field(chain[i], d) in CollectFields(u, chain, acc)
    decreases |chain|
  {
    if chain != [] {
      var acc' := AddDeclaredFields(chain[0], Desc(u, chain[0]).declaredFields, acc);
      var r := CollectFields(u, chain, acc);
      CollectFieldsComplete(u, chain[1..], acc');
      forall i, d | 0 <= i < |chain| && d in Desc(u, chain[i]).declaredFields && d.name != IntellijFieldName
        ensures Field(chain[i], d) in r
      {
        if i == 0 {
          var k :| 0 <= k < |acc'| && acc'[k] == Field(chain[0], d);
          assert r[k] == Field(chain[0], d);
        } else {
          assert chain[1..][i - 1] == chain[i];
        }
      }
    }
  }

  /** A leaf object type has no field to show. */
  lemma ObjectLeafHasNoFields(u: Universe, t: ClassName)
    ensures IsObjectLeaf(u, t) ==> ObjectFields(u, t) == []
  {
    var chain := Chain(u, t);
    var fields := ObjectFields(u, t);
    if fields != [] {
      var f := fields[0];
      assert f in fields;
      var i :| 0 <= i < |chain| && chain[i] == f.declaringClass;
      var fs := Desc(u, chain[i]).declaredFields;
      var k :| 0 <= k < |fs| && fs[k] == f.decl;
      if HasIntellijField(fs) {
        var m :| 0 <= m < |fs| && fs[m].name == IntellijFieldName;
        assert k != m;
      }
      assert DeclaresChildren(u, chain[i]);
    }
  }

  /** An object type is a leaf exactly when it has no field to show. */
  lemma ObjectLeafIffNoFields(u: Universe, t: ClassName)
    requires WellDeclared(u)
    ensures IsObjectLeaf(u, t) <==> ObjectFields(u, t) == []
  {
    var chain := Chain(u, t);
    var fields := ObjectFields(u, t);
    ObjectLeafHasNoFields(u, t);
    if !IsObjectLeaf(u, t) {
      var i :| 0 <= i < |chain| && DeclaresChildren(u, chain[i]);
      var fs := Desc(u, chain[i]).declaredFields;
      DeclaredFieldsWellFormed(u, chain[i]);
      var d: FieldDecl;
      if HasIntellijField(fs) {
        var m :| 0 <= m < |fs| && fs[m].name == IntellijFieldName;
        d := if m == 0 then fs[1] else fs[0];
        assert d.name != IntellijFieldName;
      } else {
        d := fs[0];
      }
      CollectFieldsComplete(u, chain, []);
      assert Field(chain[i], d) in fields;
    }
  }

  /** The position of the first ':' in `s` (its length when there is none). */
  function FirstColon(s: string): (k: nat)
    ensures k <= |s|
  {
    if s == [] || s[0] == ':' then 0 else 1 + FirstColon(s[1..])
  }

  lemma {:induction false} FirstColonAfter(a: string, rest: string)
    requires ':' !in a
    ensures FirstColon(a + ":" + rest) == |a|
  {
    if a != [] {
      assert (a + ":" + rest)[1..] == a[1..] + ":" + rest;
      FirstColonAfter(a[1..], rest);
    }
  }

  /** A qualified name determines the field it was made from. */
  lemma QualifiedInjective(f: Field, g: Field)
    requires ':' !in f.decl.name && ':' !in g.decl.name
    requires Qualified(f) == Qualified(g)
    ensures KeyOf(f) == KeyOf(g)
  {
    var a, b := f.decl.name, g.decl.name;
    FirstColonAfter(a, f.declaringClass);
    FirstColonAfter(b, g.declaringClass);
    assert a == Qualified(f)[..|a|];
    assert b == Qualified(g)[..|b|];
    assert f.declaringClass == Qualified(f)[|a| + 1..];
    assert g.declaringClass == Qualified(g)[|b| + 1..];
  }

  lemma {:induction false} FieldNodesDistinct(u: Universe, readable: map<FieldKey, Ref>, done: seq<Field>, rest: seq<Field>, nodes: seq<Node>)
    requires Valid(u)
    requires DistinctFieldKeys(done + rest)
    requires forall f :: f in done + rest ==> ':' !in f.decl.name
    requires DistinctNodeNames(nodes)
    requires forall i :: 0 <= i < |nodes| ==>
      exists g :: g in done && (nodes[i].name == g.decl.name || nodes[i].name == Qualified(g))
    ensures DistinctNodeNames(FieldNodes(u, readable, rest, nodes))
    decreases |rest|
  {
    if rest != [] {
      var f := rest[0];
      assert f in done + rest;
      var nodes' := nodes;
      if KeyOf(f) in readable {
        var name := ChildName(f, nodes);
        forall i | 0 <= i < |nodes| ensures nodes[i].name != name {
          var g :| g in done && (nodes[i].name == g.decl.name || nodes[i].name == Qualified(g));
          assert g in done + rest;
          if name == Qualified(f) {
            assert name[|f.decl.name|] == ':';
            assert KeyOf(g) != KeyOf(f) by {
              var j :| 0 <= j < |done| && done[j] == g;
              assert (done + rest)[j] == g && (done + rest)[|done|] == f;
            }
            if nodes[i].name == g.decl.name {
              assert ':' in name;
            } else if nodes[i].name == name {
              QualifiedInjective(f, g);
            }
          }
        }
        nodes' := nodes + [FieldNode(u, name, f, readable[KeyOf(f)])];
      }
      assert (done + [f]) + rest[1..] == done + rest;
      forall i | 0 <= i < |nodes'|
        ensures exists g :: g in done + [f] && (nodes'[i].name == g.decl.name || nodes'[i].name == Qualified(g))
      {
        if i < |nodes| {
          var g :| g in done && (nodes[i].name == g.decl.name || nodes[i].name == Qualified(g));
          assert g in done + [f];
        } else {
          assert f in done + [f];
        }
      }
      FieldNodesDistinct(u, readable, done + [f], rest[1..], nodes');
    }
  }

  /** Child names are unique: a hidden superclass field is qualified with
      its declaring class. */
  lemma ObjectChildNamesDistinct(u: Universe, n: Node)
    requires Valid(u) && WellDeclared(u)
    ensures DistinctNodeNames(ObjectChildren(u, n))
  {
    if n.ref.Addr? {
      var fields := ObjectFields(u, n.nodeType);
      ObjectFieldsDistinct(u, n.nodeType);
      forall f | f in fields ensures ':' !in f.decl.name {
        var fs := Desc(u, f.declaringClass).declaredFields;
        DeclaredFieldsWellFormed(u, f.declaringClass);
        var k :| 0 <= k < |fs| && fs[k] == f.decl;
      }
      assert [] + fields == fields;
      FieldNodesDistinct(u, Readable(u, n.ref), [], fields, []);
    }
  }

  lemma {:induction false} FieldNodesCount(u: Universe, readable: map<FieldKey, Ref>, fields: seq<Field>, nodes: seq<Node>)
    requires Valid(u)
    ensures |FieldNodes(u, readable, fields, nodes)| + |Unreadable(readable, fields)| == |nodes| + |fields|
    decreases |fields|
  {
    if fields != [] {
      var f := fields[0];
      var nodes' :=
        if KeyOf(f) in readable then nodes + [FieldNode(u, ChildName(f, nodes), f, readable[KeyOf(f)])]
        else nodes;
      FieldNodesCount(u, readable, fields[1..], nodes');
    }
  }

  /** Every field of a non-null object is either shown as a child or
      reported as unreadable. */
  lemma ObjectFieldsAccounted(u: Universe, n: Node)
    requires Valid(u)
    requires n.ref.Addr?
    ensures |ObjectChildren(u, n)| + |UnreadableFields(u, n)| == |ObjectFields(u, n.nodeType)|
  {
    FieldNodesCount(u, Readable(u, n.ref), ObjectFields(u, n.nodeType), []);
  }

  lemma {:induction false} NothingReadable(u: Universe, fields: seq<Field>, nodes: seq<Node>)
    requires Valid(u)
    ensures FieldNodes(u, map[], fields, nodes) == nodes
    decreases |fields|
  {
    if fields != [] {
      NothingReadable(u, fields[1..], nodes);
    }
  }

  /** An object with children is a non-null value in the heap whose type is
      not a leaf. */
  lemma ObjectChildrenExist(u: Universe, n: Node)
    requires Valid(u)
    requires |ObjectChildren(u, n)| > 0
    ensures n.ref.Addr? && n.ref.id in u.heap && !IsObjectLeaf(u, n.nodeType)
  {
    ObjectLeafHasNoFields(u, n.nodeType);
    if !(n.ref.Addr? && n.ref.id in u.heap) {
      NothingReadable(u, ObjectFields(u, n.nodeType), []);
    }
  }

  /** An object node with its cached leaf test and child list. */
  class ObjectNode {
    const u: Universe
    const name: string
    const nodeType: ClassName
    const value: Ref
    var hasBeenIsLeafCached: bool
    var isLeafCache: bool
    var hasBeenGetChildrenCached: bool
    var getChildrenCache: seq<Node>

    function AsNode(): Node
    {
      Node(name, nodeType, value)
    }

    /** A cache, once filled, holds what the computation would give. */
    ghost predicate CacheValid()
      reads this
    {
      Valid(u) && AcyclicHierarchy(u) &&
      (hasBeenIsLeafCached ==> isLeafCache == IsObjectLeaf(u, nodeType)) &&
      (hasBeenGetChildrenCached ==> getChildrenCache == ObjectChildren(u, AsNode()))
    }

    constructor(u: Universe, name: string, nodeType: ClassName, value: Ref)
      requires Valid(u) && AcyclicHierarchy(u)
      ensures this.u == u && this.name == name && this.nodeType == nodeType && this.value == value
      ensures !hasBeenIsLeafCached && !hasBeenGetChildrenCached
      ensures CacheValid()
    {
      this.u := u;
      this.name := name;
      this.nodeType := nodeType;
      this.value := value;
      hasBeenIsLeafCached := false;
      isLeafCache := false;
      hasBeenGetChildrenCached := false;
      getChildrenCache := [];
    }

    /** Walks the superclass chain until a class declares a field besides
        the IntelliJ one; caches the answer. */
    method IsLeaf() returns (leaf: bool)
      requires CacheValid()
      modifies this
      ensures CacheValid()
      ensures leaf == IsObjectLeaf(u, nodeType)
      ensures hasBeenIsLeafCached && isLeafCache == leaf
      ensures hasBeenGetChildrenCached == old(hasBeenGetChildrenCached) && getChildrenCache == old(getChildrenCache)
    {
      if hasBeenIsLeafCached {
        return isLeafCache;
      }
      hasBeenIsLeafCached := true;
      leaf := ChainIsLeaf(u, nodeType);
      isLeafCache := leaf;
    }

    /** Collects the fields of the chain, then makes a node for each field
        that can be read; caches the list. */
    method GetChildren() returns (children: seq<Node>)
      requires CacheValid()
      modifies this
      ensures CacheValid()
      ensures children == ObjectChildren(u, AsNode())
      ensures hasBeenGetChildrenCached && getChildrenCache == children
      ensures hasBeenIsLeafCached == old(hasBeenIsLeafCached) && isLeafCache == old(isLeafCache)
    {
      if hasBeenGetChildrenCached {
        return getChildrenCache;
      }
      hasBeenGetChildrenCached := true;
      var nodes: seq<Node> := [];
      if value.Null? {
        getChildrenCache := nodes;
        return nodes;
      }
      var fields := CollectChainFields(u, nodeType);
      nodes := MakeFieldNodes(u, Readable(u, value), fields);
      getChildrenCache := nodes;
      return nodes;
    }
  }

  /** The do/while loop of ObjectNode.isLeaf over the superclass chain. */
  method ChainIsLeaf(u: Universe, t: ClassName) returns (leaf: bool)
    requires AcyclicHierarchy(u)
    ensures leaf == IsObjectLeaf(u, t)
  {
    var klass := t;
    ghost var chain := Chain(u, t);
    ghost var seen: set<ClassName> := {};
    ghost var k := 0;
    while true
      invariant 0 <= k < |chain| && klass == chain[k] && klass !in seen
      invariant chain[k..] == ChainFrom(u, klass, seen)
      invariant forall i :: 0 <= i < k ==> !DeclaresChildren(u, chain[i])
      decreases |chain| - k
    {
      var declared := Desc(u, klass).declaredFields;
      var minNumberOfFields := if HasIntellijField(declared) then 2 else 1;
      if |declared| >= minNumberOfFields {
        assert DeclaresChildren(u, chain[k]);
        return false;
      }
      assert !DeclaresChildren(u, chain[k]);
      ChainStep(u, t, k, seen);
      if Desc(u, klass).superclass.None? {
        assert k == |chain| - 1;
        return true;
      }
      seen := seen + {klass};
      klass := Desc(u, klass).superclass.value;
      k := k + 1;
    }
  }

  /** The inner loop of the field collection: one class's declared fields. */
  method AppendDeclaredFields(klass: ClassName, declared: seq<FieldDecl>, fields: seq<Field>) returns (r: seq<Field>)
    ensures r == AddDeclaredFields(klass, declared, fields)
  {
    r := fields;
    var j := 0;
    while j < |declared|
      invariant 0 <= j <= |declared|
      invariant AddDeclaredFields(klass, declared[j..], r) == AddDeclaredFields(klass, declared, fields)
    {
      var field := Field(klass, declared[j]);
      if declared[j].name != IntellijFieldName && field !in r {
        r := r + [field];
      }
      j := j + 1;
    }
  }

  /** The do/while loop over the superclass chain collecting fields. */
  method CollectChainFields(u: Universe, t: ClassName) returns (fields: seq<Field>)
    requires AcyclicHierarchy(u)
    ensures fields == ObjectFields(u, t)
  {
    fields := [];
    var klass := t;
    ghost var chain := Chain(u, t);
    ghost var seen: set<ClassName> := {};
    ghost var k := 0;
    while true
      invariant 0 <= k < |chain| && klass == chain[k] && klass !in seen
      invariant chain[k..] == ChainFrom(u, klass, seen)
      invariant CollectFields(u, chain[k..], fields) == ObjectFields(u, t)
      decreases |chain| - k
    {
      fields := AppendDeclaredFields(klass, Desc(u, klass).declaredFields, fields);
      ChainStep(u, t, k, seen);
      if Desc(u, klass).superclass.None? {
        break;
      }
      seen := seen + {klass};
      klass := Desc(u, klass).superclass.value;
      k := k + 1;
    }
  }

  /** The loop making one node per readable field. */
  method MakeFieldNodes(u: Universe, readable: map<FieldKey, Ref>, fields: seq<Field>) returns (nodes: seq<Node>)
    requires Valid(u)
    ensures nodes == FieldNodes(u, readable, fields, [])
  {
    nodes := [];
    var i := 0;
    while i < |fields|
      invariant 0 <= i <= |fields|
      invariant FieldNodes(u, readable, fields[i..], nodes) == FieldNodes(u, readable, fields, [])
    {
      var field := fields[i];
      var childName := field.decl.name;
      if NameTaken(nodes, childName) {
        childName := childName + ":" + field.declaringClass;
      }
      assert childName == ChildName(field, nodes);
      assert fields[i..][1..] == fields[i + 1..];
      if KeyOf(field) in readable {
        var fieldValue := readable[KeyOf(field)];
        var childType := if fieldValue.Null? then field.decl.declaredType else ClassOf(u, fieldValue);
        nodes := nodes + [CreateNode(u, childName, fieldValue, Some(childType))];
      }
      i := i + 1;
    }
  }
}
