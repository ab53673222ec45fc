# Introspector, modelled in Dafny

Introspector shows a Java object graph as a tree. Every value becomes a node
(builtin, enum, collection, map, array or object; an Optional is unwrapped).
Three routines walk that tree:

- a depth-first walk drives a serializer that writes the tree as indented
  text or as an HTML page;
- a paired walk of two trees collects the nodes that differ;
- a walk expands a Swing tree view from a node, from the selected nodes or
  from the roots.

All three are safe on cyclic graphs. The same repository ships a Kotlin
example: a precedence-climbing parser of arithmetic expressions.

This project models those parts and proves properties of them.

- **The runtime as a parameter.** The Java runtime the introspector reads
  through reflection is a `Heap.Universe`, passed as a parameter to every
  operation. It holds a class table (simple name, superclass, whether the
  class is a Collection or a Map, declared fields) and a heap of objects
  (runtime class, `toString()` text, contents).
- **Nodes.** A node is the value `NodeFactory.Node(name, type, ref)`. Its node
  class is a function of its type (`NodeFactory.KindOf`, which tests builtin,
  enum, Collection, Map, array, Optional and object in the factory's order).
  `IsBuiltinType`, `IsEnumType`, `KindOf`, `Nodes.NodeEquals` and
  `Nodes.NodeDescription` are definitions that the contracts below use.
- **Definitions stated by other members.** Some predicates and functions
  carry no contract of their own; the rows named here state what they mean:
  - `Nodes.IsLeaf`: `Nodes.LeafHasNoChildren` and
    `ObjectNodes.ObjectNode.IsLeaf`;
  - `MapNodes.ContainsNullKey`: `MapNodes.FindNullKey` and
    `MapNodes.NoNullKeyMeansNonNull`;
  - `MapNodes.KeysComparable`: `MapNodes.OrderedEntries`;
  - `TraverseHelper.CouldBeVisitedTwice` and `TraverseHelper.HasBeenVisited`:
    `TraverseHelper.ShouldBeTraversed` and `TraverseHelper.SecondVisitRefused`;
  - `TxtTreeSerializer.Starred`: `TxtTreeSerializer.FullLine` and
    `TxtTreeSerializer.MarkedIffModified`;
  - `HtmlTreeSerializer.Description`, `Opening` and `Closing`:
    `HtmlTreeSerializer.DescriptionShape`, `OpeningShape`, `ClosingShape`
    and `ListDelimiters`;
  - `ExpressionParser.Parsed`: `ExpressionParser.Parser.Parse`,
    `ExpressionProperties.ParseShow`, `ExpressionForms.ParsedWellFormed`
    and the error-position laws;
  - `ExpressionParser.IsWhitespace`: `ExpressionParser.SkipWsSkips` and the
    `Char.isWhitespace` line under "## Left out";
  - `ExpressionParser.ToDoubleAccepts` and `ExpressionParser.NumberFrom`:
    `ExpressionParser.Parser.ParseNumber`, `ExpressionForms.ParsedWellFormed`
    and the number line under "## Left out";
  - `ExpressionParser.RightPrecedence`:
    `ExpressionParser.Parser.ParseRightOperand`,
    `ExpressionLaws.Grouping` and `ExpressionLaws.Associativity`.
- **Walkers.** The walkers see the nodes through a `TreeView.View`: the leaf
  test, the children and the heap's objects. `TreeView.ViewOf(u)` is the view
  of the node model.
- **Spec functions and methods.** Each walker has two parts:
  - a specification function that gives its result, such as
    `WriteTreeTraversal.WalkNode`, `TreeComparator.CompareNode` or
    `ExpandTreeController.ExpandNode`;
  - an imperative method proved to compute it. The method mutates a
    recorder, a comparison state or a tree log, as the Java code mutates its
    lists and sets.
- **Serializers.** Each serializer is a class whose `output` string is its
  writer. Each callback is proved to append the text of a function of its
  arguments, and the text of a whole walk is `SerializedText.Render` of the
  walk's events.
- **The expression parser.** `ExpressionParser.Parser` is the cursor-based
  Kotlin code. Each of its methods is proved against a function (`Primary`,
  `Unary`, `Binary`, `Climb`, `Parsed`) that gives the routine's outcome from
  a position. Laws about those functions then cover:
  - the round trip with a printer;
  - precedence and associativity;
  - the error positions.

Files:

| file | module |
|---|---|
| `wrappers.dfy` | Option and Result |
| `heap.dfy` | the runtime: classes, objects, superclass chains |
| `node_factory.dfy`, `text.dfy` | node values and `createNode`; decimal index text and `repeat` |
| `object_node.dfy`, `collection_node.dfy`, `array_node.dfy`, `map_node.dfy`, `optional_node.dfy`, `abstract_node.dfy` | the node classes |
| `symmetric_pair.dfy`, `traverse_helper.dfy`, `tree_view.dfy` | the visit guards and the walkers' view of nodes |
| `write_tree_traversal.dfy`, `serialized_text.dfy`, `txt_tree_serializer.dfy`, `html_tree_serializer.dfy` | the serializing walk and the two serializers |
| `tree_comparator.dfy` | `TreeComparator` and every `compareTrees` |
| `expand_tree_controller.dfy` | `ExpandTreeController` and the two graphs of its tests |
| `expression_parser.dfy`, `expression_forms.dfy`, `expression_properties.dfy`, `expression_laws.dfy` | the Kotlin parser, a printer, and the laws |

Where the Java sources do not fit together, the model makes these choices:

- `TraverseHelper.java` has no pair overload of `shouldBeTraversed`. The
  comparator's guard therefore records the unordered pair of the two wrapped
  objects' identities. It does so only when both nodes can be visited twice,
  as the one-node guard does. This lets a cyclic object compared with itself
  terminate (TreeComparatorTest.java:195-199).
- `TraverseHelper.java` also has no `addNewChildren`. It is modelled as
  marking the surplus children of the longer list (`TreeComparator.Surplus`).
- `ArrayNode.compareTrees` keeps its own one-node guard, as written.
- The visited collections are sets or lists in different files. Since
  `hasBeenVisited` compares wrapped objects, each walker keeps the set of
  recorded object ids. `TraverseHelper.VisitedByIds` shows this is the same
  test as the list's.
- The text serializer writes " <cyclic reference>" for a revisited node,
  where `TxtSerializerTest` expects "<revisited node>". The code is modelled.

## Model

| member | source | states |
|---|---|---|
| Heap.ChainFrom | src/main/java/introspector/model/ObjectNode.java:101-112 | the classes the do/while loop visits from `c` begin with `c`, never repeat a class and avoid every class already visited |
| Heap.Chain | src/main/java/introspector/model/ObjectNode.java:61-68 | the superclass chain of a type begins with the type and lists every class once |
| Heap.ChainStep | src/main/java/introspector/model/ObjectNode.java:61-68 | on an acyclic hierarchy, each class of the chain is followed by its superclass, and the chain ends exactly at the class with no superclass (`klass != null`) |
| NodeFactory.OptionalContent | src/main/java/introspector/model/NodeFactory.java:80-87 | an Optional's content (null when empty) is an object allocated before the Optional, so unwrapping Optionals ends |
| NodeFactory.CreateNode | src/main/java/introspector/model/NodeFactory.java:64-89 | the node keeps the given name and is never an OptionalNode; a missing type becomes the null type; any other non-Optional type is kept together with the value; for an Optional type the node is the null-typed node when the Optional is null or empty, and otherwise wraps the content typed by its runtime class |
| NodeFactory.CreateNodeOf | src/main/java/introspector/model/NodeFactory.java:53-55 | the two-argument factory, for a non-null value, types the node by the value's runtime class |
| Text.NatToString | src/main/java/introspector/model/CollectionNode.java:62 | the decimal text of an index is non-empty and made of digits |
| Text.DecimalRoundTrip | src/main/java/introspector/model/CollectionNode.java:62 | reading the decimal text of an index back gives the index |
| Text.NatToStringInjective | src/main/java/introspector/model/CollectionNode.java:62 | different indices have different texts |
| Text.Repeat | src/main/java/introspector/model/traverse/TxtTreeSerializer.java:96 | `s.repeat(k)` has k times the length of `s` |
| Text.RepeatAppend | src/main/java/introspector/model/traverse/TxtTreeSerializer.java:96 | one more repetition appends one more copy of `s` |
| ObjectNodes.AddDeclaredFields | src/main/java/introspector/model/ObjectNode.java:103-110 | the fields collected so far stay as a prefix; every declared field of the class except the IntelliJ one is added, and nothing else |
| ObjectNodes.CollectFields | src/main/java/introspector/model/ObjectNode.java:100-112 | the fields collected so far stay as a prefix; each new field is declared by a class of the chain and is not the IntelliJ field |
| ObjectNodes.AddDeclaredFieldsDistinct | src/main/java/introspector/model/ObjectNode.java:108-109 | thanks to the `contains` test, one class's fields are never added twice |
| ObjectNodes.CollectFieldsDistinct | src/main/java/introspector/model/ObjectNode.java:100-112 | along a chain without repeated classes, no field is collected twice |
| ObjectNodes.ObjectFieldsDistinct | src/main/java/introspector/model/ObjectNode.java:100-112 | the fields of a type are distinct by declaring class and name |
| ObjectNodes.CollectFieldsComplete | src/main/java/introspector/model/ObjectNode.java:100-112 | every declared field of every class of the chain, except the IntelliJ field, is collected |
| ObjectNodes.ObjectLeafHasNoFields | src/main/java/introspector/model/ObjectNode.java:54-70 | a leaf object type has no field to show |
| ObjectNodes.ObjectLeafIffNoFields | src/main/java/introspector/model/ObjectNode.java:54-70 | an object type is a leaf exactly when getChildren would collect no field |
| ObjectNodes.ChildName | src/main/java/introspector/model/ObjectNode.java:116-119 | a field keeps its own name unless a node already has it; then it is named "name:DeclaringClass" |
| ObjectNodes.QualifiedInjective | src/main/java/introspector/model/ObjectNode.java:119 | a qualified name determines the field's declaring class and name |
| ObjectNodes.FieldNode | src/main/java/introspector/model/ObjectNode.java:120-125 | the node of a field carries the chosen name and wraps the field's value, typed by its runtime class or, for null, by the declared type; a null value of a declared Optional type gives the null-typed node; it is never an OptionalNode |
| ObjectNodes.FieldNodes | src/main/java/introspector/model/ObjectNode.java:114-129 | the nodes made so far stay as a prefix, and at most one node is added per field; FieldNodesShown gives the nodes themselves |
| ObjectNodes.ReadableFields | src/main/java/introspector/model/ObjectNode.java:114-129 | the fields that get a node are, in order, those whose value could be read, never more than the collected fields |
| ObjectNodes.FieldNodesShown | src/main/java/introspector/model/ObjectNode.java:114-129 | after the nodes made so far, there is exactly one node per readable field, in field order, named by ChildName over the nodes before it and wrapping the field's value |
| ObjectNodes.FieldNodesDistinct | src/main/java/introspector/model/ObjectNode.java:114-129 | with distinct fields, the renaming keeps every child name distinct |
| ObjectNodes.ObjectChildNamesDistinct | src/main/java/introspector/model/ObjectNode.java:114-129 | the children of an object node have distinct names |
| ObjectNodes.FieldNodesCount | src/main/java/introspector/model/ObjectNode.java:114-129 | nodes made plus fields reported as unreadable equal the fields |
| ObjectNodes.ObjectFieldsAccounted | src/main/java/introspector/model/ObjectNode.java:114-129 | every field of a non-null object is either a child or reported as unreadable |
| ObjectNodes.NothingReadable | src/main/java/introspector/model/ObjectNode.java:126-128 | when no field can be read, no node is added |
| ObjectNodes.ObjectChildren | src/main/java/introspector/model/ObjectNode.java:97-130 | a null object has no children; otherwise the children are, in field order, one FieldNode per readable field, named by ChildName and wrapping that field's value; none is an OptionalNode |
| ObjectNodes.ObjectChildrenExist | src/main/java/introspector/model/ObjectNode.java:97-99 | an object node with children wraps a non-null heap object whose type is not a leaf |
| ObjectNodes.ObjectNode.constructor | src/main/java/introspector/model/ObjectNode.java:33-35 | a new node keeps name, type and value and has both caches empty |
| ObjectNodes.ObjectNode.IsLeaf | src/main/java/introspector/model/ObjectNode.java:54-70 | the answer is the leaf test of the type; it is cached, and the children cache is unchanged |
| ObjectNodes.ObjectNode.GetChildren | src/main/java/introspector/model/ObjectNode.java:91-131 | the answer is the object's children; it is cached, and the leaf cache is unchanged |
| ObjectNodes.ChainIsLeaf | src/main/java/introspector/model/ObjectNode.java:61-69 | the do/while loop over the superclass chain answers the leaf test of the type |
| ObjectNodes.AppendDeclaredFields | src/main/java/introspector/model/ObjectNode.java:103-110 | the inner loop appends one class's fields as AddDeclaredFields says |
| ObjectNodes.CollectChainFields | src/main/java/introspector/model/ObjectNode.java:100-112 | the do/while loop collects the fields of the type |
| ObjectNodes.MakeFieldNodes | src/main/java/introspector/model/ObjectNode.java:114-129 | the loop makes the field nodes as FieldNodes says |
| CollectionNodes.ElementNode | src/main/java/introspector/model/CollectionNode.java:60-64 | element i is named `name[i]` and is never an OptionalNode; a null element gives a node of the null type, and any other non-Optional element a node wrapping it, typed by its runtime class |
| CollectionNodes.ElementNodes | src/main/java/introspector/model/CollectionNode.java:59-65 | there is one node per element, the i-th for the i-th element |
| CollectionNodes.ElementNamesDistinct | src/main/java/introspector/model/CollectionNode.java:62-64 | children at different indices have different names |
| CollectionNodes.CollectionChildren | src/main/java/introspector/model/CollectionNode.java:53-67 | a null collection has no children; otherwise there is one child per element |
| CollectionNodes.GetCollectionChildren | src/main/java/introspector/model/CollectionNode.java:53-67 | the loop computes the collection's children |
| ArrayNodes.ArrayChildrenAsWritten | src/main/java/introspector/model/ArrayNode.java:51-63 | as written, getChildren fails exactly on a null array; otherwise there is one node per slot |
| ArrayNodes.ArrayChildren | src/main/java/introspector/model/ArrayNode.java:51-63 | corrected: a null array has no children; otherwise there is one node per slot, agreeing with the code as written |
| ArrayNodes.NullSlotsReported | src/main/java/introspector/model/ArrayNode.java:56-58 | every null slot is reported once, in increasing order, and nothing else is |
| ArrayNodes.GetArrayChildren | src/main/java/introspector/model/ArrayNode.java:51-63 | the loop computes the array's children and reports exactly its null slots |
| ArrayNodes.NullArrayFieldReachesGetChildren | src/main/java/introspector/model/ArrayNode.java:53 | an array-typed field holding null gives an array node for null, on which the code as written fails |
| MapNodes.FindNullKey | src/main/java/introspector/model/traverse/TraverseHelper.java:24-31 | the loop answers whether some key is null |
| MapNodes.InsertByKey | src/main/java/introspector/model/MapNode.java:64 | inserting keeps every entry and adds the new one |
| MapNodes.SortByKey | src/main/java/introspector/model/MapNode.java:64 | sorting a map without null keys keeps exactly its entries |
| MapNodes.InsertSorted | src/main/java/introspector/model/MapNode.java:64 | inserting into a key-ordered list keeps it ordered |
| MapNodes.SortSorted | src/main/java/introspector/model/MapNode.java:64 | the sorted entries are in key order and a permutation of the map's entries |
| MapNodes.NoNullKeyMeansNonNull | src/main/java/introspector/model/MapNode.java:61-64 | containsNullKey is false exactly when every key is non-null, the condition OrderedEntries needs to sort |
| MapNodes.OrderedEntries | src/main/java/introspector/model/MapNode.java:61-67 | the shown entries are a permutation of the map's entries, as many as the map has; with a null key or keys that are not Comparable they keep the map's own order, otherwise every key is non-null and they are sorted by key |
| MapNodes.SortStrict | src/main/java/introspector/model/MapNode.java:64 | keys in distinct places of the natural order are sorted strictly |
| MapNodes.InsertStrict | src/main/java/introspector/model/MapNode.java:64 | inserting a key of a new rank keeps the order strict |
| MapNodes.StrictlySortedUnique | src/main/java/introspector/model/MapNode.java:64 | two strictly key-ordered lists with the same entries are equal |
| MapNodes.MapOrderIndependent | src/main/java/introspector/model/MapNode.java:61-67 | two sortable maps with the same entries, in any insertion order, show them in the same order |
| MapNodes.EntryNode | src/main/java/introspector/model/MapNode.java:69-84 | an entry's node is named `name[key]` (`name[null]` for the null key) and is never an OptionalNode; a null value gives a node of the null type, and any other non-Optional value a node wrapping it, typed by its runtime class |
| MapNodes.EntryNodes | src/main/java/introspector/model/MapNode.java:68-84 | there is one node per entry, in the shown order |
| MapNodes.MapChildren | src/main/java/introspector/model/MapNode.java:53-86 | a null map has no children; otherwise there is one child per entry |
| MapNodes.GetMapChildren | src/main/java/introspector/model/MapNode.java:53-86 | the loop computes the map's children |
| OptionalNodes.OptionalChildren | src/main/java/introspector/model/OptionalNode.java:14-21 | "IsPresent" (the boxed flag) comes first; a "Value" child follows exactly when the Optional holds a value, so there are 1 or 2 children; the "Value" child is the factory's node for the content, which for a non-Optional content wraps it typed by its runtime class |
| Nodes.GetChildren | src/main/java/introspector/model/AbstractNode.java:89 | null exactly for builtin and enum nodes; otherwise the list of the node's class (ObjectChildren, CollectionChildren, ArrayChildren, MapChildren or OptionalChildren), which holds no OptionalNode |
| Nodes.LeafHasNoChildren | src/main/java/introspector/model/AbstractNode.java:89 | a leaf (builtin, enum, or an object whose type has no field to show) has no children |
| Nodes.Children | src/main/java/introspector/model/AbstractNode.java:106-110 | the children of a well-formed node are well-formed |
| Nodes.ChildrenCount | src/main/java/introspector/model/AbstractNode.java:106-110 | 0 when getChildren is null, otherwise the list's size |
| Nodes.GetChild | src/main/java/introspector/model/AbstractNode.java:96-100 | null exactly past the last child, otherwise the child at that index |
| Nodes.IndexOfChild | src/main/java/introspector/model/AbstractNode.java:116-123 | the first index whose child has the argument's name; -1 when the argument is not a node or no name matches |
| Nodes.FirstNamed | src/main/java/introspector/model/AbstractNode.java:118-120 | the first position at or after `from` with the name, or -1 when there is none |
| Nodes.GetIndexOfChild | src/main/java/introspector/model/AbstractNode.java:116-123 | the search loop answers IndexOfChild |
| Nodes.ToString | src/main/java/introspector/model/AbstractNode.java:130-138 | the text begins with the node's name |
| Nodes.ChildrenExist | src/main/java/introspector/model/traverse/TraverseHelper.java:39-43 | a node with children wraps a non-null heap object of a non-builtin, non-leaf type |
| SymmetricPairs.Swapped | src/main/java/introspector/model/traverse/SymmetricPair.java:15-21 | swapping exchanges getFirst and getSecond |
| SymmetricPairs.EqualsIffSameComponents | src/main/java/introspector/model/traverse/SymmetricPair.java:28-31 | two pairs are equal exactly when they hold the same two components, counted with multiplicity |
| SymmetricPairs.PairEqualsIsEquivalence | src/main/java/introspector/model/traverse/SymmetricPair.java:24-35 | equals is reflexive, symmetric and transitive, and a pair equals its swap |
| SymmetricPairs.EqualPairsHashAlike | src/main/java/introspector/model/traverse/SymmetricPair.java:10 | the inherited hash (exclusive or of the components' hashes) agrees with the symmetric equals |
| SymmetricPairs.Normalize | src/main/java/introspector/model/traverse/SymmetricPair.java:28-31 | the canonical pair is ordered and equal to the original |
| SymmetricPairs.NormalizeIffEquals | src/main/java/introspector/model/traverse/SymmetricPair.java:28-31 | two pairs are equal exactly when their canonical pairs are identical |
| TraverseHelper.ShouldBeTraversed | src/main/java/introspector/model/traverse/TraverseHelper.java:64-74 | the answer is true exactly when the node was not visited before; a node that cannot be visited twice always gets true; the node is appended exactly when it is repeatable and not yet recorded |
| TraverseHelper.SecondVisitRefused | src/main/java/introspector/model/traverse/TraverseHelper.java:64-74 | two calls on nodes wrapping the same repeatable object answer true, then false |
| TraverseHelper.RecordedIds | src/main/java/introspector/model/traverse/TraverseHelper.java:52-55 | an object id is in the set exactly when a recorded node wraps that object |
| TraverseHelper.VisitedByIds | src/main/java/introspector/model/traverse/TraverseHelper.java:52-55 | hasBeenVisited is the same test against the set of recorded ids |
| TraverseHelper.ShouldPairBeTraversed | src/main/java/introspector/model/ObjectNode.java:139-140 | two nodes that are not both repeatable are always compared; otherwise the answer is whether no recorded pair equals theirs, and their pair is recorded |
| TraverseHelper.PairGuardByKey | src/main/java/introspector/model/traverse/SymmetricPair.java:24-35 | over canonical pairs, membership of the key's canonical pair is `contains` under the symmetric equals |
| TraverseHelper.PairGuardSymmetric | src/main/java/introspector/model/traverse/SymmetricPair.java:30-31 | guarding (n1, n2) and (n2, n1) gives the same answer and records the same pair |
| TreeView.ViewOf | src/main/java/introspector/model/traverse/TraverseHelper.java:39-43 | the view of the node model is coherent, and its repeatable nodes are exactly those that couldBeVisitedTwice |
| TreeView.ViewAgrees | src/main/java/introspector/model/AbstractNode.java:96-110 | through the view, isLeaf and the children are those of the node model, and the children are well-formed again |
| TreeView.MarkShrinks | src/main/java/introspector/model/traverse/WriteTreeTraversal.java:34-41 | expanding a node with children records an object not recorded before, so the walk ends |
| WriteTreeTraversal.WalkNode | src/main/java/introspector/model/traverse/WriteTreeTraversal.java:33-44 | the events of traverse(node, depth) and the visited set after it, which only grows |
| WriteTreeTraversal.WalkChildren | src/main/java/introspector/model/traverse/WriteTreeTraversal.java:40-41 | the events of the first i children's walks, each from the visited set the previous ones left |
| WriteTreeTraversal.TraverseEvents | src/main/java/introspector/model/traverse/WriteTreeTraversal.java:52-56 | the whole walk begins with beginTraverse and ends with endTraverse |
| WriteTreeTraversal.Traverse | src/main/java/introspector/model/traverse/WriteTreeTraversal.java:33-44 | the recursive method appends exactly the node's walk and returns the visited set after it |
| WriteTreeTraversal.TraverseChildren | src/main/java/introspector/model/traverse/WriteTreeTraversal.java:40-41 | the for-loop appends the children's walks in index order |
| WriteTreeTraversal.TraverseTree | src/main/java/introspector/model/traverse/WriteTreeTraversal.java:52-56 | the public traverse appends the whole walk from the root with nothing visited |
| WriteTreeTraversal.WalkNodeCalls | src/main/java/introspector/model/traverse/WriteTreeTraversal.java:37-43 | before and traversing receive the same (node, depth, flag) arguments in the same pre-order, and after receives the same arguments, as a multiset |
| WriteTreeTraversal.WalkChildrenCalls | src/main/java/introspector/model/traverse/WriteTreeTraversal.java:40-41 | the same holds for the walks of a node's children |
| WriteTreeTraversal.WalkNodeDepths | src/main/java/introspector/model/traverse/WriteTreeTraversal.java:37-43 | a node's walk has only node events at its depth or deeper, and the events between its own are at least one level deeper |
| WriteTreeTraversal.WalkChildrenDepths | src/main/java/introspector/model/traverse/WriteTreeTraversal.java:40-41 | the children's walks are at the children's depth or deeper |
| WriteTreeTraversal.WalkNodeExpandsOnce | src/main/java/introspector/model/traverse/WriteTreeTraversal.java:34-36 | a walk records exactly the objects the visited set gains, each once: no object is expanded twice |
| WriteTreeTraversal.WalkChildrenExpandsOnce | src/main/java/introspector/model/traverse/WriteTreeTraversal.java:40-41 | the same holds for the walks of a node's children |
| WriteTreeTraversal.RevisitNotExpanded | src/main/java/introspector/model/traverse/WriteTreeTraversal.java:34-43 | a node whose object was recorded gets its three callbacks with hasBeenVisited set, is not expanded and records nothing |
| WriteTreeTraversal.BuiltinRootEvents | src/main/java/introspector/model/traverse/WriteTreeTraversal.java:52-56 | a builtin root gives begin, its three callbacks at depth 0 with hasBeenVisited unset, and end |
| WriteTreeTraversal.BeginAndEndOnce | src/main/java/introspector/model/traverse/WriteTreeTraversal.java:52-56 | beginTraverse comes first and endTraverse last, and all events between are node events at depth 0 or deeper |
| TreeComparator.GuardsShrink | src/main/java/introspector/model/ObjectNode.java:139-140 | a guard that lets two nodes with children through records a new token, so the comparison ends |
| TreeComparator.Unmatched | src/main/java/introspector/model/ObjectNode.java:165-173 | exactly the children whose name the other object lacks |
| TreeComparator.CommonPairs | src/main/java/introspector/model/ObjectNode.java:174-176 | corrected recursion: pairs of children with the same name, one from each object |
| TreeComparator.Zip | src/main/java/introspector/model/CollectionNode.java:96-98 | children paired by position up to the shorter length |
| TreeComparator.Surplus | src/main/java/introspector/model/CollectionNode.java:99 | exactly the children past the shorter list's length, on either side |
| TreeComparator.CompareNode | src/main/java/introspector/model/traverse/TreeComparator.java:55-57 | node1.compareTrees(node2) dispatched on node1's class; the modified and visited collections only grow |
| TreeComparator.CompareObjects | src/main/java/introspector/model/ObjectNode.java:138-183 | the object rule (stated by ObjectTypeMismatch, ObjectNullRule and ObjectChildrenRule); both collections only grow |
| TreeComparator.CompareContainers | src/main/java/introspector/model/CollectionNode.java:73-106 | the collection and map rule (stated by ContainerTypeMismatch, ContainerSizeMismatch, ContainerSizeMismatchExact and EqualContainersUnmarked); both collections only grow |
| TreeComparator.CompareArrays | src/main/java/introspector/model/ArrayNode.java:69-102 | the array rule (stated by ArrayTypeMismatch and ArrayLengthMismatch); both collections only grow |
| TreeComparator.ComparePairs | src/main/java/introspector/model/CollectionNode.java:96-98 | the first i paired comparisons, each from the state the previous ones left |
| TreeComparator.CompareRoots | src/main/java/introspector/model/traverse/TreeComparator.java:33-59 | two null roots give nothing, and one null root gives only the other node |
| TreeComparator.Comparison.constructor | src/main/java/introspector/model/traverse/TreeComparator.java:34 | both collections start empty |
| TreeComparator.Comparison.Compare | src/main/java/introspector/model/traverse/TreeComparator.java:56 | the state after the call is CompareNode of the state before |
| TreeComparator.Comparison.CompareLeafNodes | src/main/java/introspector/model/AbstractNode.java:183-203 | the state after the call is the leaf rule applied to the state before |
| TreeComparator.Comparison.CompareObjectNodes | src/main/java/introspector/model/ObjectNode.java:138-183 | the state after the call is CompareObjects of the state before |
| TreeComparator.Comparison.CompareContainerNodes | src/main/java/introspector/model/CollectionNode.java:73-106 | the state after the call is CompareContainers of the state before (MapNode.java:92-125 is the same code) |
| TreeComparator.Comparison.CompareArrayNodes | src/main/java/introspector/model/ArrayNode.java:69-102 | the state after the call is CompareArrays of the state before |
| TreeComparator.Comparison.ComparePairsLoop | src/main/java/introspector/model/CollectionNode.java:96-98 | the for-loop over paired children gives ComparePairs |
| TreeComparator.Comparison.AddUnmatched | src/main/java/introspector/model/ObjectNode.java:165-173 | adds exactly the unmatched children and leaves the visited collection alone |
| TreeComparator.CompareTrees | src/main/java/introspector/model/traverse/TreeComparator.java:33-59 | the method returns CompareRoots |
| TreeComparator.CommonPairsSelf | src/main/java/introspector/model/ObjectNode.java:174-176 | pairing an object's children with its own by name pairs each child with itself |
| TreeComparator.CompareSelf | src/test/java/introspector/model/traverse/TreeComparatorTest.java:195-199 | a node compared with itself marks nothing, whatever was visited before |
| TreeComparator.CompareObjectsSelf | src/test/java/introspector/model/traverse/TreeComparatorTest.java:195-199 | an object compared with itself marks nothing |
| TreeComparator.CompareContainersSelf | src/test/java/introspector/model/traverse/TreeComparatorTest.java:97-117 | a collection or map compared with itself marks nothing |
| TreeComparator.CompareArraysSelf | src/test/java/introspector/model/traverse/TreeComparatorTest.java:57-59 | an array compared with itself marks nothing |
| TreeComparator.ComparePairsSelf | src/main/java/introspector/model/CollectionNode.java:96-98 | pairs of a node with itself mark nothing |
| TreeComparator.CompareRootsSelf | src/test/java/introspector/model/traverse/TreeComparatorTest.java:195-199 | a tree compared with itself has no modified node |
| TreeComparator.LeafRule | src/main/java/introspector/model/AbstractNode.java:183-203 | a leaf comparison adds both nodes exactly when one value is null and the other not, the values differ, the types differ, or the names differ when names matter; it adds nothing else |
| TreeComparator.ArrayLengthMismatch | src/main/java/introspector/model/ArrayNode.java:88-92 | arrays of different lengths mark exactly the two array nodes and compare no element |
| TreeComparator.ContainerSizeMismatch | src/main/java/introspector/model/CollectionNode.java:92-99 | collections or maps of different sizes mark both nodes and every surplus child of the longer one, whatever the paired children add |
| TreeComparator.ContainerSizeMismatchExact | src/test/java/introspector/model/traverse/TreeComparatorTest.java:124-125 | collections or maps of different sizes whose common prefix holds equal elements mark exactly the two nodes and the surplus children ([1, 2, 3] against [1, 2]: three nodes; also lines 151-152) |
| TreeComparator.EqualContainersUnmarked | src/test/java/introspector/model/traverse/TreeComparatorTest.java:98-117 | two distinct collections, or maps, of one type and size whose elements are pairwise equal mark nothing |
| TreeComparator.ComparePairsEqualLeaves | src/main/java/introspector/model/CollectionNode.java:97-98 | comparing pairs of equal leaves marks nothing |
| TreeComparator.ContainerTypeMismatch | src/main/java/introspector/model/CollectionNode.java:76-88 | a collection or map against a node of another class or type, or another name when names matter, marks exactly the two nodes and compares no child |
| TreeComparator.ArrayTypeMismatch | src/main/java/introspector/model/ArrayNode.java:72-84 | an array against a non-array or an array of another type (double[] against int[]), or another name when names matter, marks exactly the two nodes and compares no element |
| TreeComparator.ObjectTypeMismatch | src/main/java/introspector/model/ObjectNode.java:141-147 | an object against a non-object or an object of another type marks exactly the two nodes and goes no further |
| TreeComparator.ObjectNullRule | src/main/java/introspector/model/ObjectNode.java:148-161 | two null objects add nothing; exactly one null marks exactly the two nodes; so do two non-null objects whose names differ when names matter |
| TreeComparator.ObjectChildrenRule | src/main/java/introspector/model/ObjectNode.java:162-177 | the children named on one side only are all marked, and the children named on both sides are compared pairwise, in the first object's order, with names mattering |
| TreeComparator.PairGuardAgrees | src/main/java/introspector/model/ObjectNode.java:139-140 | over the node model, the token guard answers and records as shouldBeTraversed over a set of symmetric pairs |
| TreeComparator.CompareWithItself | src/test/java/introspector/model/traverse/TreeComparatorTest.java:195-199 | comparing any object graph with itself, cyclic or not, reports nothing |
| TreeComparator.CompareBuiltinRoots | src/test/java/introspector/model/traverse/TreeComparatorTest.java:27-53 | two builtin roots report nothing when they are equal values of one type, and both roots otherwise |
| TreeComparator.WrittenPairs | src/main/java/introspector/model/ObjectNode.java:174-176 | as written, the recursion pairs every child of the first object with the child of that name in the second, or with null |
| TreeComparator.WrittenPairsPassNull | src/main/java/introspector/model/ObjectNode.java:174-176 | as written, a child is compared with null exactly when the second object has no child of its name |
| TreeComparator.UnmatchedChildComparedWithNull | src/main/java/introspector/model/ObjectNode.java:174-176 | a child named only in the first object reaches compareTrees with a null counterpart |
| TreeComparator.CommonPairsAreMatched | src/main/java/introspector/model/ObjectNode.java:174-176 | the corrected recursion compares exactly the as-written pairs that have a counterpart |
| TxtTreeSerializer.Prefix | src/main/java/introspector/model/traverse/TxtTreeSerializer.java:93-97 | the indentation has three characters per level and, below the root, ends with "\|- " |
| TxtTreeSerializer.PrefixBlocks | src/main/java/introspector/model/traverse/TxtTreeSerializer.java:93-97 | every block but the last is "\|  ", and the indentation holds no line break |
| TxtTreeSerializer.NodeLine | src/main/java/introspector/model/traverse/TxtTreeSerializer.java:144-174 | what traversing writes is one line ending with a line break |
| TxtTreeSerializer.FullLine | src/main/java/introspector/model/traverse/TxtTreeSerializer.java:145-161 | the full-information line begins with the name, between "**" when the node was modified, and the simple type name, and ends with the value text ("null" for none) and a period |
| TxtTreeSerializer.ShortLine | src/main/java/introspector/model/traverse/TxtTreeSerializer.java:164-171 | the short line begins with "** " and toString() and ends with " **" when the node was modified; otherwise it is toString() followed by a period |
| TxtTreeSerializer.MarkedIffModified | src/main/java/introspector/model/traverse/TxtTreeSerializer.java:145-172 | a line starts with "**" exactly when its node is among the modified nodes |
| TxtTreeSerializer.CyclicMarkInserted | src/main/java/introspector/model/traverse/TxtTreeSerializer.java:152-161 | with full information, a revisit's line is the first visit's line with " <cyclic reference>" inserted; the short line is unchanged |
| TxtTreeSerializer.NodeText | src/main/java/introspector/model/traverse/TxtTreeSerializer.java:128-174 | a node's walk writes its indentation and line, then its children's text; afterTraversing adds nothing |
| TxtTreeSerializer.RevisitOneLine | src/main/java/introspector/model/traverse/TxtTreeSerializer.java:154-155 | a revisited node takes exactly one line, and its subtree is not written again |
| TxtTreeSerializer.LeafTreeText | src/main/java/introspector/model/traverse/TxtTreeSerializer.java:113-174 | a tree that is a single leaf is its line followed by the final line break |
| TxtTreeSerializer.BuiltinTreeText | src/main/java/introspector/model/traverse/TxtTreeSerializer.java:113-174 | a builtin value written alone is its line followed by the final line break |
| TxtTreeSerializer.TxtSerializer.constructor | src/main/java/introspector/model/traverse/TxtTreeSerializer.java:56-60 | output starts empty, and the modified nodes are fixed at construction |
| TxtTreeSerializer.TxtSerializer.Write | src/main/java/introspector/model/traverse/TxtTreeSerializer.java:104-107 | write appends its argument |
| TxtTreeSerializer.TxtSerializer.BeginTraverse | src/main/java/introspector/model/traverse/TxtTreeSerializer.java:113-114 | appends the text of beginTraverse, which is empty |
| TxtTreeSerializer.TxtSerializer.EndTraverse | src/main/java/introspector/model/traverse/TxtTreeSerializer.java:120-123 | appends the text of endTraverse, a line break |
| TxtTreeSerializer.TxtSerializer.BeforeTraversing | src/main/java/introspector/model/traverse/TxtTreeSerializer.java:136-138 | appends the node's indentation |
| TxtTreeSerializer.TxtSerializer.Traversing | src/main/java/introspector/model/traverse/TxtTreeSerializer.java:144-174 | appends the node's line |
| TxtTreeSerializer.TxtSerializer.WriteFullLine | src/main/java/introspector/model/traverse/TxtTreeSerializer.java:145-163 | the string builder's text is the full-information line |
| TxtTreeSerializer.TxtSerializer.WriteShortLine | src/main/java/introspector/model/traverse/TxtTreeSerializer.java:164-172 | the piecewise writes give the short line |
| TxtTreeSerializer.TxtSerializer.AfterTraversing | src/main/java/introspector/model/traverse/TxtTreeSerializer.java:129-130 | appends the text of afterTraversing, which is empty |
| TxtTreeSerializer.TxtSerializer.Replay | src/main/java/introspector/model/traverse/WriteTreeTraversal.java:37-43 | delivering callbacks in order appends their texts in order |
| TxtTreeSerializer.TxtSerializer.WriteTree | src/main/java/introspector/model/traverse/WriteTreeTraversal.java:52-56 | traverse with this serializer appends the text of the whole walk |
| HtmlTreeSerializer.Prefix | src/main/java/introspector/model/traverse/HtmlTreeSerializer.java:75-77 | the indentation has two characters per level |
| HtmlTreeSerializer.PrefixBlank | src/main/java/introspector/model/traverse/HtmlTreeSerializer.java:75-77 | the indentation is all spaces |
| HtmlTreeSerializer.DescriptionShape | src/main/java/introspector/model/traverse/HtmlTreeSerializer.java:195-213 | a description begins with the node's name and ends with a period; in full information a revisit carries the escaped cyclic mark right after the simple type name |
| HtmlTreeSerializer.OpeningShape | src/main/java/introspector/model/traverse/HtmlTreeSerializer.java:165-175 | what traversing writes begins with the indentation and "<li>" |
| HtmlTreeSerializer.ClosingShape | src/main/java/introspector/model/traverse/HtmlTreeSerializer.java:181-187 | afterTraversing writes nothing exactly for a leaf; otherwise it begins by closing the list and ends by closing the item, at the node's indentation |
| HtmlTreeSerializer.ListDelimiters | src/main/java/introspector/model/traverse/HtmlTreeSerializer.java:165-187 | a leaf is one self-closed item and after adds nothing; a non-leaf's item ends by opening its list, and its closing begins by closing that list, at the same indentation |
| HtmlTreeSerializer.NodeText | src/main/java/introspector/model/traverse/HtmlTreeSerializer.java:165-187 | a node's walk writes its opening, its children's text, then its closing |
| HtmlTreeSerializer.RevisitEmptyList | src/main/java/introspector/model/traverse/HtmlTreeSerializer.java:195-203 | a revisited node is written with the escaped cyclic mark and an empty list |
| HtmlTreeSerializer.BuiltinPage | src/main/java/introspector/model/traverse/HtmlTreeSerializer.java:144-167 | a builtin value's page is the header, one unindented item, and the closing of list, body and page |
| HtmlTreeSerializer.TagsBalance | src/main/java/introspector/model/traverse/HtmlTreeSerializer.java:165-187 | over a whole walk, every list opened is closed |
| HtmlTreeSerializer.HtmlSerializer.constructor | src/main/java/introspector/model/traverse/HtmlTreeSerializer.java:57-60 | output starts empty |
| HtmlTreeSerializer.HtmlSerializer.Write | src/main/java/introspector/model/traverse/HtmlTreeSerializer.java:84-87 | write appends its argument |
| HtmlTreeSerializer.HtmlSerializer.BeginTraverse | src/main/java/introspector/model/traverse/HtmlTreeSerializer.java:114-137 | appends the page header |
| HtmlTreeSerializer.HtmlSerializer.EndTraverse | src/main/java/introspector/model/traverse/HtmlTreeSerializer.java:144-151 | appends the closing of list, body and page |
| HtmlTreeSerializer.HtmlSerializer.BeforeTraversing | src/main/java/introspector/model/traverse/HtmlTreeSerializer.java:158-159 | appends nothing |
| HtmlTreeSerializer.HtmlSerializer.Traversing | src/main/java/introspector/model/traverse/HtmlTreeSerializer.java:165-175 | appends the node's opening: one item for a leaf, four lines for a non-leaf |
| HtmlTreeSerializer.HtmlSerializer.AfterTraversing | src/main/java/introspector/model/traverse/HtmlTreeSerializer.java:181-187 | appends the node's closing |
| HtmlTreeSerializer.HtmlSerializer.Replay | src/main/java/introspector/model/traverse/WriteTreeTraversal.java:37-43 | delivering callbacks in order appends their texts in order |
| HtmlTreeSerializer.HtmlSerializer.WriteTree | src/main/java/introspector/model/traverse/WriteTreeTraversal.java:52-56 | traverse with this serializer appends the page of the whole walk |
| ExpandTreeController.TreePath.ByAddingChild | src/main/java/introspector/controller/ExpandTreeController.java:39 | the extended path ends at the child and strictly extends the path |
| ExpandTreeController.JTree.ExpandPath | src/main/java/introspector/controller/ExpandTreeController.java:36 | the path is appended to the tree's log of expanded paths |
| ExpandTreeController.ContainsValue | src/main/java/introspector/controller/ExpandTreeController.java:33-34 | the list contains a node exactly when it holds one wrapping the same value |
| ExpandTreeController.ExpandNode | src/main/java/introspector/controller/ExpandTreeController.java:30-42 | the visited list after the walk from a node (extending the one before) and the paths expanded |
| ExpandTreeController.ExpandChildren | src/main/java/introspector/controller/ExpandTreeController.java:37-40 | the first i children's walks, each with its own path, from the list the previous ones left |
| ExpandTreeController.ExpandAllFromNodeInto | src/main/java/introspector/controller/ExpandTreeController.java:30-42 | the recursive method returns the list after the walk and appends the walk's paths to the tree's log |
| ExpandTreeController.ExpandAllFromNode | src/main/java/introspector/controller/ExpandTreeController.java:51-55 | the public method walks from a fresh list |
| ExpandTreeController.ExpandNodeRecords | src/main/java/introspector/controller/ExpandTreeController.java:30-42 | a node is recorded and its path expanded exactly when it is not a leaf and no recorded node wraps its value; every recorded node has its own path; values stay distinct |
| ExpandTreeController.ExpandChildrenRecords | src/main/java/introspector/controller/ExpandTreeController.java:37-40 | the same holds for the children's walks |
| ExpandTreeController.ExpandNodeBelow | src/main/java/introspector/controller/ExpandTreeController.java:37-40 | every path expanded from a node extends the node's path |
| ExpandTreeController.ExpandChildrenBelow | src/main/java/introspector/controller/ExpandTreeController.java:37-40 | paths of the children's walks extend the node's path by at least the child |
| ExpandTreeController.ExpandFromNodeDistinct | src/main/java/introspector/controller/ExpandTreeController.java:51-55 | within one call, no two recorded nodes wrap the same value, none is a leaf, and the i-th expanded path ends at the i-th recorded node |
| ExpandTreeController.ExpandEach | src/main/java/introspector/controller/ExpandTreeController.java:71-76 | the selected paths' walks, each from a fresh list, concatenated |
| ExpandTreeController.SelectedTwiceRepeats | src/main/java/introspector/controller/ExpandTreeController.java:71-76 | selecting the same expandable node twice records its walk twice |
| ExpandTreeController.ExpandAllFromSelectedNode | src/main/java/introspector/controller/ExpandTreeController.java:63-77 | the walk from the root when nothing is selected, otherwise each selected path's walk in turn |
| ExpandTreeController.RootStep | src/main/java/introspector/controller/ExpandTreeController.java:86-91 | one more tree appends its root walk to the result and to that tree's log |
| ExpandTreeController.ExpandAllFromRootNode | src/main/java/introspector/controller/ExpandTreeController.java:84-93 | the trees' root walks concatenated in order; each tree logs its own root walk |
| ExpandExamples.IndirectCycleExpandsFour | src/test/java/introspector/controller/ExpandTreeControllerTest.java:91-103 | Root, a, b, c where c holds the first a: four nodes are expanded |
| ExpandExamples.NoCycleExpandsSeven | src/test/java/introspector/controller/ExpandTreeControllerTest.java:105-118 | the same shape built from distinct objects: seven nodes are expanded |
| ExpressionParser.Operator.Symbol | src/main/java/examples/kotlin/ExpressionParser.kt:21-27 | every operator symbol is one character |
| ExpressionParser.FindSymbol | src/main/java/examples/kotlin/ExpressionParser.kt:30 | the first operator in declaration order with the symbol, or none when no operator has it |
| ExpressionParser.FromSymbol | src/main/java/examples/kotlin/ExpressionParser.kt:30 | a found operator has the given symbol, and none is found exactly when no operator has it |
| ExpressionParser.FromSymbolOfSymbol | src/main/java/examples/kotlin/ExpressionParser.kt:30 | fromSymbol inverts symbol, except that "-" always gives MINUS |
| ExpressionParser.PeekAt | src/main/java/examples/kotlin/ExpressionParser.kt:128 | only a position inside the input gives a character other than NUL |
| ExpressionParser.SkipWs | src/main/java/examples/kotlin/ExpressionParser.kt:130-134 | the position moves forward and stays within the input |
| ExpressionParser.SkipWsSkips | src/main/java/examples/kotlin/ExpressionParser.kt:130-134 | what is skipped is whitespace, and the stop is the end or a character that is not whitespace |
| ExpressionParser.FindOp | src/main/java/examples/kotlin/ExpressionParser.kt:120-125 | the first operator in declaration order whose symbol starts at p, or none when no symbol does |
| ExpressionParser.FindOpAt | src/main/java/examples/kotlin/ExpressionParser.kt:118-126 | the operator found is that of the character there, and UNARY_MINUS is never found |
| ExpressionParser.PeekOp | src/main/java/examples/kotlin/ExpressionParser.kt:118-126 | peekOperator leaves the cursor after the whitespace, and a found symbol lies inside the input |
| ExpressionParser.NumberEnd | src/main/java/examples/kotlin/ExpressionParser.kt:111-113 | the number's end is at or after its start, within the input |
| ExpressionParser.NumberEndStops | src/main/java/examples/kotlin/ExpressionParser.kt:111-113 | the run holds only digits and dots and stops at the end or at another character |
| ExpressionParser.CloseParen | src/main/java/examples/kotlin/ExpressionParser.kt:93-98 | success needs the inner expression, and consumes the ')' after it |
| ExpressionParser.Primary | src/main/java/examples/kotlin/ExpressionParser.kt:86-107 | a success consumes at least one character and stays within the input |
| ExpressionParser.Unary | src/main/java/examples/kotlin/ExpressionParser.kt:72-84 | a success consumes at least one character and stays within the input |
| ExpressionParser.Binary | src/main/java/examples/kotlin/ExpressionParser.kt:48-70 | a success consumes at least one character and stays within the input |
| ExpressionParser.Climb | src/main/java/examples/kotlin/ExpressionParser.kt:51-67 | the loop never moves the cursor back and stays within the input |
| ExpressionParser.Parser.constructor | src/main/java/examples/kotlin/ExpressionParser.kt:35-36 | the cursor starts at 0 |
| ExpressionParser.Parser.SkipWhitespace | src/main/java/examples/kotlin/ExpressionParser.kt:130-134 | the loop moves the cursor to SkipWs |
| ExpressionParser.Parser.PeekOperator | src/main/java/examples/kotlin/ExpressionParser.kt:118-126 | the answer and the new cursor are PeekOp |
| ExpressionParser.Parser.ParseNumber | src/main/java/examples/kotlin/ExpressionParser.kt:109-116 | the cursor moves to the end of the run, and the result is the number or its conversion error |
| ExpressionParser.Parser.ParsePrimary | src/main/java/examples/kotlin/ExpressionParser.kt:86-107 | the result is Primary's, and a success leaves the cursor where Primary says |
| ExpressionParser.Parser.ParseUnaryOp | src/main/java/examples/kotlin/ExpressionParser.kt:72-84 | the result is Unary's, and a success leaves the cursor where Unary says |
| ExpressionParser.Parser.ParseRightOperand | src/main/java/examples/kotlin/ExpressionParser.kt:56-64 | the operator and the whitespace after it are consumed, and the right operand is parsed at precedence + 1, or at the same precedence for ^ |
| ExpressionParser.Parser.ParseOperator | src/main/java/examples/kotlin/ExpressionParser.kt:52-66 | one loop iteration either ends the loop with Climb's result or consumes an operation, leaving Climb's result unchanged |
| ExpressionParser.Parser.ParseBinaryOp | src/main/java/examples/kotlin/ExpressionParser.kt:48-70 | the result is Binary's, and a success leaves the cursor where Binary says |
| ExpressionParser.Parser.ParseExpression | src/main/java/examples/kotlin/ExpressionParser.kt:46 | parseBinaryOp(0) |
| ExpressionParser.Parser.Parse | src/main/java/examples/kotlin/ExpressionParser.kt:38-44 | the result is Parsed: the expression when the whole input is consumed, otherwise the first error or the unexpected character where parsing stopped |
| ExpressionParser.ParseArithmeticExpression | src/main/java/examples/kotlin/ExpressionParser.kt:12-14 | the result is Parsed of the input |
| ExpressionProperties.PeekAtSymbol | src/main/java/examples/kotlin/ExpressionParser.kt:118-126 | a binary operator written at m is the one peekOperator finds there |
| ExpressionProperties.ClimbAtClose | src/main/java/examples/kotlin/ExpressionParser.kt:51-53 | the loop stops at a ')' or at the end of the input |
| ExpressionProperties.ClimbAtSymbol | src/main/java/examples/kotlin/ExpressionParser.kt:52-66 | the loop consumes a binary operator written at m together with its right operand |
| ExpressionProperties.ClimbPair | src/main/java/examples/kotlin/ExpressionParser.kt:51-67 | an operand, a binary operator and a right operand that runs to a ')' or the end combine into one operation, read up to that point |
| ExpressionProperties.ParensPair | src/main/java/examples/kotlin/ExpressionParser.kt:90-98 | a parenthesised operation is read as that operation, and the ')' is consumed |
| ExpressionProperties.BinaryAtClose | src/main/java/examples/kotlin/ExpressionParser.kt:48-70 | an operand followed by ')' or the end is all that parseBinaryOp reads |
| ExpressionProperties.NumberEndRun | src/main/java/examples/kotlin/ExpressionParser.kt:111-113 | parseNumber's run ends at the first character that is neither digit nor dot |
| ExpressionProperties.LexemeRun | src/main/java/examples/kotlin/ExpressionParser.kt:109-116 | the run is exactly a number written there |
| ExpressionProperties.UnaryOfNumber | src/main/java/examples/kotlin/ExpressionParser.kt:100-102 | a number in operand position is read as that number |
| ExpressionProperties.UnaryOfMinus | src/main/java/examples/kotlin/ExpressionParser.kt:76-81 | a '-' in operand position, directly followed by its operand, gives UnaryMinus(UNARY_MINUS, operand), nesting for repeated minus signs |
| ExpressionProperties.PrimaryOfParens | src/main/java/examples/kotlin/ExpressionParser.kt:90-98 | "(" expression ")" reads as the inner expression |
| ExpressionProperties.UnaryShow | src/main/java/examples/kotlin/ExpressionParser.kt:72-107 | parseUnaryOp reads exactly the written form of a well-formed expression |
| ExpressionProperties.ParseShow | src/main/java/examples/kotlin/ExpressionParser.kt:38-44 | parse returns every well-formed expression from its fully parenthesised text |
| ExpressionForms.ParsedWellFormed | src/main/java/examples/kotlin/ExpressionParser.kt:38-116 | conversely, every expression parse returns is well-formed: accepted number lexemes, binary operators that are never UNARY_MINUS, negations tagged UNARY_MINUS |
| ExpressionLaws.ClimbAtWeaker | src/main/java/examples/kotlin/ExpressionParser.kt:52-53 | the loop stops before an operator weaker than its minimum precedence |
| ExpressionLaws.RightGrouped | src/main/java/examples/kotlin/ExpressionParser.kt:60-66 | a second operator at or above the first's right precedence is taken into the right operand |
| ExpressionLaws.LeftGrouped | src/main/java/examples/kotlin/ExpressionParser.kt:51-67 | otherwise the first operation is complete and becomes the left operand |
| ExpressionLaws.Grouping | src/main/java/examples/kotlin/ExpressionParser.kt:51-66 | x op1 y op2 z groups to the right exactly when op2 reaches the minimum precedence of op1's right operand |
| ExpressionLaws.HigherPrecedenceFirst | src/main/java/examples/kotlin/ExpressionParser.kt:21-27 | the operator of higher precedence takes its operands first, on either side |
| ExpressionLaws.Associativity | src/main/java/examples/kotlin/ExpressionParser.kt:60-64 | + - * / group to the left, and ^ groups to the right |
| ExpressionLaws.UnclosedAt | src/main/java/examples/kotlin/ExpressionParser.kt:94-96 | an opening parenthesis whose expression runs to the end fails with ExpectedClosingParenthesis at the end |
| ExpressionLaws.UnclosedParenthesis | src/main/java/examples/kotlin/ExpressionParser.kt:94-96 | "(" followed by a well-formed expression reports the missing ')' at the end |
| ExpressionLaws.TrailingInput | src/main/java/examples/kotlin/ExpressionParser.kt:40-42 | a ')' after a whole expression is reported as unexpected at its position, whatever follows |
| ExpressionLaws.BlankInput | src/main/java/examples/kotlin/ExpressionParser.kt:103-105 | input of whitespace only, the empty input included, fails on the NUL peek returns past the end |

## Left out

- Reflection, class loading and the objects' own `toString`, `equals` and `compareTo` are outside the model. They are data in `Heap.Universe`: class descriptors, object texts, and a rank standing for the natural order of map keys.
- Which fields can be read (`Field.get`) is a per-object map of readable values. An unreadable field is left out of the children, and the stderr line is not modelled. ObjectNode.getChildren calls `setAccessible(true)` (ObjectNode.java:107) outside the try that catches read failures; on Java 16 and later a private field of a JDK class (inside a `BigDecimal` or `LocalDate` value, say) makes it throw InaccessibleObjectException, which aborts getChildren instead of dropping the field. The per-object map cannot express that abort, so the model always drops the field.
- The order of `getDeclaredFields` is taken as the order in the class descriptor.
- Output streams (`FileWriter`, flush, close, `System.err`) are not modelled. Each writer is a string that `write` appends to. The null-slot diagnostics of ArrayNode are returned as the list of indices reported.
- HtmlTreeSerializer.beginTraverse reads a style sheet and a script from resource files (`readResourceFile`). Its text is the `header` given to the serializer at construction.
- The Swing `JTree` is reduced to its root, its selection and a log of the paths `expandPath` received. Rendering is not modelled.
- The Java caches and shared lists are modelled as values: the walkers thread their visited sets and lists through the calls. ObjectNode's two caches are fields of the `ObjectNodes.ObjectNode` class.
- TraverseHelper.ShouldBeTraversed returns the list after the call instead of appending to the caller's list. The walkers themselves keep sets of object ids (see TraverseHelper.VisitedByIds).
- Nodes.ToString: its contract states only that the text begins with the node's name. The exact layout ("name (Simple)", then ": value" for builtin and enum types) is its definition.
- Node identity: Java's `hashCode` (by name) and `equals` (by value) are not modelled. The modified collection is a set of node values, that is, name, type and reference.
- Numbers keep their lexeme. `String.toDouble` is reduced to accepting a run of digits and dots with at most one dot. Floating-point values are not modelled.
- `Char.isDigit` is taken to accept only '0' to '9', not other Unicode digits. `Char.isWhitespace` covers the ASCII and Unicode separator characters listed in `ExpressionParser.IsWhitespace`.
- The loop body of parseBinaryOp is split into two methods, ParseOperator and ParseRightOperand, so that each step is proved on its own.
- ExpressionForms.Show and ExpressionForms.WellFormed are not part of the Kotlin code. They are a printer and a well-formedness test used to state the round trip and, with ParsedWellFormed, that the parser builds only well-formed expressions.
- WalkNodeCalls: states that afterTraversing receives the same arguments as beforeTraversing as a multiset, not that it receives them in post-order. The post-order itself is the shape of `WriteTreeTraversal.WalkNode`, where a node's after callback follows its children's walks.
- OrderedEntries: MapNode copies a sortable map into a `TreeMap`, which keeps one entry for keys whose `compareTo` is 0 (the BigDecimal keys 1.0 and 1.00). `SortByKey` keeps both entries, so the model shows one child more for such maps.
- CompareObjects: ObjectNode iterates the children by a `HashMap` key set, in hash order. The model compares the common children in the first object's child order. When objects are shared or cyclic, the order decides which pairs the pair guard refuses, so the set of marked nodes may differ from the Java one on such graphs.
- GetChild: the index is a `nat`, so the exception Java's `List.get` throws for a negative index is not modelled; an index past the last child gives None as in Java.
- BuiltinTypeNode, EnumNode, Node.java and TreeSerializer.java are not part of this model beyond what their callers need: builtin and enum nodes are leaves without children.

## Findings

| source | as written | input that shows it | evidently intended | confidence | as-written member | corrected member |
|---|---|---|---|---|---|---|
| src/main/java/introspector/model/ObjectNode.java:174-176 | the recursion runs over every child name of the first object and passes `children2.get(name)`, which is null for a name the second object lacks | two nodes of one type T built by hand with the public constructor `ObjectNode(name, value, type)` (ObjectNode.java:33), where only the first value is an instance of T: for the second, `field.get` throws IllegalArgumentException at :123, caught at :126, so its children lack T's field names; both pass the type test at :143, and :176 compares the first node's children with null | compare only the children present in both objects, as the comment says; the unmatched ones are already marked | not executed; low, since nodes made by NodeFactory never show it | TreeComparator.WrittenPairsPassNull | TreeComparator.CommonPairsAreMatched |
| src/main/java/introspector/model/ArrayNode.java:53 | `Array.getLength(getValue())` runs without a null check | a field declared with an array type that holds null: the factory makes an ArrayNode for null, which is not a leaf, so the walkers ask for its children and the call throws | no children for a null array, as CollectionNode and MapNode do | not executed; high | ArrayNodes.NullArrayFieldReachesGetChildren | ArrayNodes.ArrayChildren |
