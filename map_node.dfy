/** MapNode: a map, whose children are its values, named `name[key]` and
    shown in the natural order of the keys when they can be sorted. */
module MapNodes {
  import opened Wrappers
  import opened Heap
  import opened NodeFactory

  /** The entries of a map value in its own iteration order; none for null. */
  function MapEntries(u: Universe, r: Ref): seq<Entry>
  {
    if r.Addr? && Deref(u, r).shape.Entries? then Deref(u, r).shape.entries else []
  }

  /** Whether the keys of a map value are mutually comparable. */
  predicate KeysComparable(u: Universe, r: Ref)
  {
    r.Addr? && Deref(u, r).shape.Entries? && Deref(u, r).shape.comparableKeys
  }

  /** TraverseHelper.containsNullKey. */
  predicate ContainsNullKey(entries: seq<Entry>)
  {
    exists i :: 0 <= i < |entries| && entries[i].key.NullKey?
  }

  /** The loop of TraverseHelper.containsNullKey, returning at the first null key. */
  method FindNullKey(entries: seq<Entry>) returns (found: bool)
    ensures found == ContainsNullKey(entries)
  {
    var i := 0;
    while i < |entries|
      invariant 0 <= i <= |entries|
      invariant forall k :: 0 <= k < i ==> entries[k].key.Key?
    {
      if entries[i].key.NullKey? {
        return true;
      }
      i := i + 1;
    }
    return false;
  }

  predicate NonNullKeys(es: seq<Entry>)
  {
    forall i :: 0 <= i < |es| ==> es[i].key.Key?
  }

  predicate SortedByKey(es: seq<Entry>)
    requires NonNullKeys(es)
  {
    forall i, j :: 0 <= i < j < |es| ==> es[i].key.rank <= es[j].key.rank
  }

  /** Inserts an entry before the first entry with a greater or equal key. */
  function InsertByKey(e: Entry, es: seq<Entry>): (r: seq<Entry>)
    requires e.key.Key? && NonNullKeys(es)
    ensures multiset(r) == multiset(es) + multiset{e}
    ensures NonNullKeys(r)
  {
    if es == [] then [e]
    else if e.key.rank <= es[0].key.rank then [e] + es
    else
      assert es == [es[0]] + es[1..];
      [es[0]] + InsertByKey(e, es[1..])
  }

  /** The entries in the natural order of their keys: `new TreeMap<>(map)`. */
  function SortByKey(es: seq<Entry>): (r: seq<Entry>)
    requires NonNullKeys(es)
    ensures multiset(r) == multiset(es)
    ensures NonNullKeys(r)
  {
    if es == [] then []
    else
      assert es == [es[0]] + es[1..];
      InsertByKey(es[0], SortByKey(es[1..]))
  }

  lemma {:induction false} InsertSorted(e: Entry, es: seq<Entry>)
    requires e.key.Key? && NonNullKeys(es) && SortedByKey(es)
    ensures SortedByKey(InsertByKey(e, es))
  {
    if es != [] && e.key.rank > es[0].key.rank {
      InsertSorted(e, es[1..]);
      var rest := InsertByKey(e, es[1..]);
      forall x | x in rest ensures es[0].key.rank <= x.key.rank {
        assert x in multiset(rest);
        if x != e {
          var k :| 0 <= k < |es[1..]| && es[1..][k] == x;
          assert es[k + 1] == x;
        }
      }
    }
  }

  /** Sorting puts the entries in key order and keeps every entry. */
  lemma {:induction false} SortSorted(es: seq<Entry>)
    requires NonNullKeys(es)
    ensures SortedByKey(SortByKey(es)) && multiset(SortByKey(es)) == multiset(es)
  {
    if es != [] {
      SortSorted(es[1..]);
      InsertSorted(es[0], SortByKey(es[1..]));
    }
  }

  lemma NoNullKeyMeansNonNull(es: seq<Entry>)
    ensures !ContainsNullKey(es) <==> NonNullKeys(es)
  {
  }

  /** The order MapNode shows the entries in: the map's own order when a
      key is null or the keys cannot be compared, else sorted by key. */
  function OrderedEntries(u: Universe, r: Ref): (es: seq<Entry>)
    ensures multiset(es) == multiset(MapEntries(u, r))
    ensures |es| == |MapEntries(u, r)|
    ensures ContainsNullKey(MapEntries(u, r)) || !KeysComparable(u, r) ==> es == MapEntries(u, r)
    ensures !ContainsNullKey(MapEntries(u, r)) && KeysComparable(u, r) ==> NonNullKeys(es) && SortedByKey(es)
  {
    var entries := MapEntries(u, r);
    NoNullKeyMeansNonNull(entries);
    if ContainsNullKey(entries) || !KeysComparable(u, r) then entries
    else
      SortSorted(entries);
      var sorted := SortByKey(entries);
      assert |sorted| == |multiset(sorted)| == |multiset(entries)| == |entries|;
      sorted
  }

  /** The text shown between brackets: "null" or the key's toString(). */
  function KeyText(k: MapKey): string
  {
    if k.NullKey? then "null" else k.text
  }

  function EntryName(name: string, k: MapKey): string
  {
    name + "[" + KeyText(k) + "]"
  }

  /** The node for one entry: its value, typed by its class (a node of the
      null type for a null value). */
  function EntryNode(u: Universe, name: string, e: Entry): (n: Node)
    requires Valid(u)
    ensures n.name == EntryName(name, e.key) && NodeKind(u, n) != OptionalKind
    ensures e.value.Null? ==> n == Node(EntryName(name, e.key), NullTypeName, Null)
    ensures e.value.Addr? && KindOf(u, ClassOf(u, e.value)) != OptionalKind ==>
      n == Node(EntryName(name, e.key), ClassOf(u, e.value), e.value)
  {
    CreateNode(u, EntryName(name, e.key), e.value, RuntimeType(u, e.value))
  }

  function EntryNodes(u: Universe, name: string, es: seq<Entry>): (r: seq<Node>)
    requires Valid(u)
    ensures |r| == |es|
    ensures forall i :: 0 <= i < |r| ==> r[i] == EntryNode(u, name, es[i])
  {
    seq(|es|, i requires 0 <= i < |es| && Valid(u) => EntryNode(u, name, es[i]))
  }

  /** A map node has one child per entry. */
  function MapChildren(u: Universe, n: Node): (r: seq<Node>)
    requires Valid(u)
    ensures n.ref.Null? ==> r == []
    ensures |r| == |MapEntries(u, n.ref)|
  {
    EntryNodes(u, n.name, OrderedEntries(u, n.ref))
  }

  /** The loop of MapNode.getChildren over the chosen order. */
  method GetMapChildren(u: Universe, n: Node) returns (nodes: seq<Node>)
    requires Valid(u)
    ensures nodes == MapChildren(u, n)
  {
    nodes := [];
    if n.ref.Null? {
      return;
    }
    var entries := MapEntries(u, n.ref);
    var sortedMap;
    var hasNullKey := FindNullKey(entries);
    if hasNullKey {
      sortedMap := entries;
    } else if KeysComparable(u, n.ref) {
      NoNullKeyMeansNonNull(entries);
      sortedMap := SortByKey(entries);
    } else {
      sortedMap := entries;
    }
    var i := 0;
    while i < |sortedMap|
      invariant 0 <= i <= |sortedMap|
      invariant nodes == EntryNodes(u, n.name, sortedMap[..i])
    {
      var entry := sortedMap[i];
      var child;
      if entry.key.NullKey? {
        if entry.value.Addr? {
          child := CreateNode(u, n.name + "[" + "null" + "]", entry.value, Some(ClassOf(u, entry.value)));
        } else {
          child := CreateNode(u, n.name + "[" + "null" + "]", Null, None);
        }
      } else if entry.value.Null? {
        child := CreateNode(u, n.name + "[" + entry.key.text + "]", Null, None);
      } else {
        child := CreateNode(u, n.name + "[" + entry.key.text + "]", entry.value, Some(ClassOf(u, entry.value)));
      }
      nodes := nodes + [child];
      i := i + 1;
      assert sortedMap[..i] == sortedMap[..i - 1] + [entry];
    }
    assert sortedMap[..i] == sortedMap;
  }

  predicate StrictlySortedByKey(es: seq<Entry>)
    requires NonNullKeys(es)
  {
    forall i, j :: 0 <= i < j < |es| ==> es[i].key.rank < es[j].key.rank
  }

  /** No two keys share a place in the natural order (keys of a map are
      distinct, and their ordering is consistent with equals). */
  predicate DistinctRanks(es: seq<Entry>)
    requires NonNullKeys(es)
  {
    forall i, j :: 0 <= i < j < |es| ==> es[i].key.rank != es[j].key.rank
  }

  lemma {:induction false} SortStrict(es: seq<Entry>)
    requires NonNullKeys(es) && DistinctRanks(es)
    ensures StrictlySortedByKey(SortByKey(es))
  {
    if es != [] {
      var tail := es[1..];
      assert NonNullKeys(tail) by {
        forall k | 0 <= k < |tail| ensures tail[k].key.Key? {
          assert tail[k] == es[k + 1];
        }
      }
      SortStrict(tail);
      var s := SortByKey(tail);
      var r := SortByKey(es);
      assert r == InsertByKey(es[0], s);
      forall x | x in s ensures x.key.rank != es[0].key.rank {
        assert x in multiset(tail);
        var k :| 0 <= k < |tail| && tail[k] == x;
        assert es[k + 1] == x;
      }
      InsertStrict(es[0], s);
    }
  }

  /** A key placed before a strictly sorted sequence of greater keys keeps
      it strictly sorted. */
  lemma ConsStrict(h: Entry, rest: seq<Entry>)
    requires h.key.Key? && NonNullKeys(rest) && StrictlySortedByKey(rest)
    requires forall x :: x in rest ==> h.key.rank < x.key.rank
    ensures NonNullKeys([h] + rest) && StrictlySortedByKey([h] + rest)
  {
    var r := [h] + rest;
    forall i, j | 0 <= i < j < |r| ensures r[i].key.rank < r[j].key.rank {
      assert r[j] == rest[j - 1];
      if i == 0 {
        assert rest[j - 1] in rest;
      } else {
        assert r[i] == rest[i - 1];
      }
    }
  }

  lemma {:induction false} InsertStrict(e: Entry, s: seq<Entry>)
    requires e.key.Key? && NonNullKeys(s) && StrictlySortedByKey(s)
    requires forall x :: x in s ==> x.key.rank != e.key.rank
    ensures StrictlySortedByKey(InsertByKey(e, s))
  {
    if s == [] {
    } else if e.key.rank <= s[0].key.rank {
      forall x | x in s ensures e.key.rank < x.key.rank {
        var k :| 0 <= k < |s| && s[k] == x;
        assert s[0].key.rank <= x.key.rank;
      }
      ConsStrict(e, s);
    } else {
      var tail := s[1..];
      assert NonNullKeys(tail) by {
        forall k | 0 <= k < |tail| ensures tail[k].key.Key? {
          assert tail[k] == s[k + 1];
        }
      }
      InsertStrict(e, tail);
      var rest := InsertByKey(e, tail);
      forall x | x in rest ensures s[0].key.rank < x.key.rank {
        assert x in multiset(rest);
        if x != e {
          var k :| 0 <= k < |tail| && tail[k] == x;
          assert s[k + 1] == x;
        }
      }
      ConsStrict(s[0], rest);
    }
  }

  lemma TailMultiset(x: seq<Entry>, y: seq<Entry>)
    requires x != [] && y != [] && x[0] == y[0]
    requires multiset(x) == multiset(y)
    ensures multiset(x[1..]) == multiset(y[1..])
  {
    assert x == [x[0]] + x[1..];
    assert y == [y[0]] + y[1..];
    forall z ensures multiset(x[1..])[z] == multiset(y[1..])[z] {
      assert multiset(x)[z] == multiset([x[0]])[z] + multiset(x[1..])[z];
      assert multiset(y)[z] == multiset([y[0]])[z] + multiset(y[1..])[z];
    }
  }

  lemma HeadsEqual(x: seq<Entry>, y: seq<Entry>)
    requires x != [] && NonNullKeys(x) && NonNullKeys(y)
    requires StrictlySortedByKey(x) && StrictlySortedByKey(y)
    requires multiset(x) == multiset(y)
    ensures y != [] && x[0] == y[0]
  {
    assert x[0] in multiset(y);
    assert y[0] in multiset(x);
    var i :| 0 <= i < |x| && x[i] == y[0];
    var j :| 0 <= j < |y| && y[j] == x[0];
    assert x[0].key.rank <= x[i].key.rank;
    assert y[0].key.rank <= y[j].key.rank;
  }

  /** Two key-ordered sequences holding the same entries are equal. */
  lemma {:induction false} StrictlySortedUnique(x: seq<Entry>, y: seq<Entry>)
    requires NonNullKeys(x) && NonNullKeys(y)
    requires StrictlySortedByKey(x) && StrictlySortedByKey(y)
    requires multiset(x) == multiset(y)
    ensures x == y
  {
    if x != [] {
      HeadsEqual(x, y);
      TailMultiset(x, y);
      StrictlySortedUnique(x[1..], y[1..]);
      assert x == [x[0]] + x[1..] && y == [y[0]] + y[1..];
    } else {
      assert |multiset(y)| == 0;
    }
  }

  /** The shown order of a sortable map does not depend on its insertion
      order: two maps with the same entries show them identically. */
  lemma MapOrderIndependent(u: Universe, r1: Ref, r2: Ref)
    requires multiset(MapEntries(u, r1)) == multiset(MapEntries(u, r2))
    requires KeysComparable(u, r1) && KeysComparable(u, r2)
    requires !ContainsNullKey(MapEntries(u, r1)) && !ContainsNullKey(MapEntries(u, r2))
    requires DistinctRanks(MapEntries(u, r1)) && DistinctRanks(MapEntries(u, r2))
    ensures OrderedEntries(u, r1) == OrderedEntries(u, r2)
  {
    NoNullKeyMeansNonNull(MapEntries(u, r1));
    NoNullKeyMeansNonNull(MapEntries(u, r2));
    SortStrict(MapEntries(u, r1));
    SortStrict(MapEntries(u, r2));
    StrictlySortedUnique(OrderedEntries(u, r1), OrderedEntries(u, r2));
  }
}
