/** SymmetricPair: a pair whose equality ignores the order of its two
    components. It is the key of the comparator's visited set. */
module SymmetricPairs {
  import opened Wrappers

  /** The pair; `first` and `second` are getFirst and getSecond. */
  datatype SymmetricPair<T> = SymmetricPair(first: T, second: T)

  /** equals(obj). `obj` is None for null and for an object that is not a
      SymmetricPair; both are never equal. Components are compared by
      identity, which is Dafny equality on the component type. */
  predicate PairEquals<T(==)>(p: SymmetricPair<T>, obj: Option<SymmetricPair<T>>)
  {
    match obj
    case None => false
    case Some(q) =>
      (p.first == q.first && p.second == q.second) ||
      (p.first == q.second && p.second == q.first)
  }

  function Swapped<T>(p: SymmetricPair<T>): (q: SymmetricPair<T>)
    ensures q.first == p.second && q.second == p.first
  {
    SymmetricPair(p.second, p.first)
  }

  /** Two pairs are equal exactly when they hold the same two components,
      counted with multiplicity. */
  lemma EqualsIffSameComponents<T>(p: SymmetricPair<T>, q: SymmetricPair<T>)
    ensures PairEquals(p, Some(q)) <==> multiset{p.first, p.second} == multiset{q.first, q.second}
  {
    var mp := multiset{p.first, p.second};
    var mq := multiset{q.first, q.second};
    if mp == mq {
      assert p.first in mq;
      if p.first == q.first {
        assert mp - multiset{p.first} == multiset{p.second};
        assert mq - multiset{q.first} == multiset{q.second};
      } else {
        assert p.first == q.second;
        assert mp - multiset{p.first} == multiset{p.second};
        assert mq - multiset{q.second} == multiset{q.first};
      }
    }
  }

  /** equals is an equivalence relation that ignores the order of the
      components, so it is a sound key for a set. */
  lemma PairEqualsIsEquivalence<T>(p: SymmetricPair<T>, q: SymmetricPair<T>, r: SymmetricPair<T>)
    ensures PairEquals(p, Some(p))
    ensures PairEquals(p, Some(Swapped(p)))
    ensures PairEquals(p, Some(q)) ==> PairEquals(q, Some(p))
    ensures PairEquals(p, Some(q)) && PairEquals(q, Some(r)) ==> PairEquals(p, Some(r))
  {
    EqualsIffSameComponents(p, q);
    EqualsIffSameComponents(q, r);
    EqualsIffSameComponents(p, r);
  }

  /** The hash inherited from AbstractMap.SimpleEntry: the exclusive or of
      the components' hashes. */
  function PairHash<T>(hash: T -> bv32, p: SymmetricPair<T>): bv32
  {
    hash(p.first) ^ hash(p.second)
  }

  /** The inherited hash agrees with the symmetric equals. */
  lemma EqualPairsHashAlike<T>(hash: T -> bv32, p: SymmetricPair<T>, q: SymmetricPair<T>)
    requires PairEquals(p, Some(q))
    ensures PairHash(hash, p) == PairHash(hash, q)
  {
    if p.first != q.first || p.second != q.second {
      assert hash(p.first) ^ hash(p.second) == hash(p.second) ^ hash(p.first);
    }
  }

  /** The canonical member of a pair of object ids' equality class. */
  function Normalize(p: SymmetricPair<nat>): (q: SymmetricPair<nat>)
    ensures q.first <= q.second
    ensures PairEquals(p, Some(q))
  {
    if p.first <= p.second then p else Swapped(p)
  }

  /** Equal pairs have the same canonical member and conversely, so a set of
      canonical pairs stands for a Java set of symmetric pairs. */
  lemma NormalizeIffEquals(p: SymmetricPair<nat>, q: SymmetricPair<nat>)
    ensures PairEquals(p, Some(q)) <==> Normalize(p) == Normalize(q)
  {
  }
}
