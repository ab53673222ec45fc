/** TraverseHelper: the predicates the walkers use to detect nodes that
    were already visited (cycles and shared objects). */
module TraverseHelper {
  import opened Wrappers
  import opened Heap
  import opened NodeFactory
  import opened Nodes
  import opened SymmetricPairs

  /** A node can be reached twice when it wraps a non-null object of a
      non-builtin type that has children to expand. */
  predicate CouldBeVisitedTwice(u: Universe, n: Node)
  {
    n.ref.Addr? && !IsBuiltinType(n.nodeType) && !IsLeaf(u, n)
  }

  /** Some recorded node wraps the very same object as `n`. */
  predicate Recorded(n: Node, traversed: seq<Node>)
  {
    exists i :: 0 <= i < |traversed| && traversed[i].ref == n.ref
  }

  /** hasBeenVisited: `n` is repeatable and its object was recorded before. */
  predicate HasBeenVisited(u: Universe, n: Node, traversed: seq<Node>)
  {
    CouldBeVisitedTwice(u, n) && Recorded(n, traversed)
  }

  /** shouldBeTraversed: the answer and the list after the call. The node is
      appended exactly when it is repeatable and not yet recorded. */
  function ShouldBeTraversed(u: Universe, n: Node, traversed: seq<Node>): (r: (bool, seq<Node>))
    ensures r.0 <==> !HasBeenVisited(u, n, traversed)
    ensures !CouldBeVisitedTwice(u, n) ==> r.0
    ensures r.1 == (if CouldBeVisitedTwice(u, n) && !Recorded(n, traversed) then traversed + [n] else traversed)
    ensures |traversed| <= |r.1| <= |traversed| + 1
  {
    var visited := HasBeenVisited(u, n, traversed);
    var after := if !visited && CouldBeVisitedTwice(u, n) then traversed + [n] else traversed;
    if CouldBeVisitedTwice(u, n) then (!visited, after) else (true, after)
  }

  /** Two calls on nodes wrapping the same repeatable object: the first
      says traverse, the second does not. */
  lemma SecondVisitRefused(u: Universe, n: Node, m: Node, traversed: seq<Node>)
    requires CouldBeVisitedTwice(u, n) && CouldBeVisitedTwice(u, m)
    requires n.ref == m.ref && !Recorded(n, traversed)
    ensures ShouldBeTraversed(u, n, traversed).0
    ensures !ShouldBeTraversed(u, m, ShouldBeTraversed(u, n, traversed).1).0
  {
    var after := ShouldBeTraversed(u, n, traversed).1;
    assert after[|traversed|] == n;
    assert Recorded(m, after);
  }

  /** The ids of the objects a list of repeatable nodes records. */
  function RecordedIds(traversed: seq<Node>): (ids: set<nat>)
    ensures forall n: Node :: n.ref.Addr? ==> (n.ref.id in ids <==> Recorded(n, traversed))
  {
    set i | 0 <= i < |traversed| && traversed[i].ref.Addr? :: traversed[i].ref.id
  }

  /** The walkers keep only these ids: for a repeatable node, being in the
      list and having its id in the id set are the same. */
  lemma VisitedByIds(u: Universe, n: Node, traversed: seq<Node>)
    ensures HasBeenVisited(u, n, traversed) <==> CouldBeVisitedTwice(u, n) && n.ref.id in RecordedIds(traversed)
  {
  }

  /** A set of canonical pairs: the symmetric equals reduces to membership. */
  predicate Canonical(seen: set<SymmetricPair<nat>>)
  {
    forall q :: q in seen ==> q == Normalize(q)
  }

  /** The pair guard of the comparator, keyed on the identities of the two
      wrapped objects. Pairs where a side cannot be visited twice are
      always compared; otherwise the unordered pair of object ids is
      recorded the first time and refused afterwards. `seen` holds
      canonical pairs (see Normalize). */
  function ShouldPairBeTraversed(u: Universe, n1: Node, n2: Node, seen: set<SymmetricPair<nat>>)
    : (r: (bool, set<SymmetricPair<nat>>))
    requires Canonical(seen)
    ensures Canonical(r.1)
    ensures !(CouldBeVisitedTwice(u, n1) && CouldBeVisitedTwice(u, n2)) ==> r == (true, seen)
    ensures CouldBeVisitedTwice(u, n1) && CouldBeVisitedTwice(u, n2) ==>
      var key := SymmetricPair(n1.ref.id, n2.ref.id);
      (r.0 <==> forall q :: q in seen ==> !PairEquals(q, Some(key))) &&
      r.1 == seen + {Normalize(key)}
  {
    if CouldBeVisitedTwice(u, n1) && CouldBeVisitedTwice(u, n2) then
      var key := Normalize(SymmetricPair(n1.ref.id, n2.ref.id));
      PairGuardByKey(seen, SymmetricPair(n1.ref.id, n2.ref.id));
      (key !in seen, seen + {key})
    else
      (true, seen)
  }

  /** Over canonical pairs, membership of the key's canonical pair is the
      Java set's contains under the symmetric equals. */
  lemma PairGuardByKey(seen: set<SymmetricPair<nat>>, key: SymmetricPair<nat>)
    requires Canonical(seen)
    ensures Normalize(key) in seen <==> exists q :: q in seen && PairEquals(q, Some(key))
  {
    if Normalize(key) in seen {
      PairEqualsIsEquivalence(key, Normalize(key), key);
      assert PairEquals(Normalize(key), Some(key));
    }
    forall q | q in seen && PairEquals(q, Some(key))
      ensures Normalize(key) in seen
    {
      NormalizeIffEquals(q, key);
    }
  }

  /** The pair guard is symmetric: comparing (n1, n2) or (n2, n1) gives the
      same answer and records the same key. */
  lemma PairGuardSymmetric(u: Universe, n1: Node, n2: Node, seen: set<SymmetricPair<nat>>)
    requires Canonical(seen)
    ensures ShouldPairBeTraversed(u, n1, n2, seen) == ShouldPairBeTraversed(u, n2, n1, seen)
  {
    if CouldBeVisitedTwice(u, n1) && CouldBeVisitedTwice(u, n2) {
      NormalizeIffEquals(SymmetricPair(n1.ref.id, n2.ref.id), SymmetricPair(n2.ref.id, n1.ref.id));
    }
  }
}
