/** Small value-level helpers shared by the models: optional values, duplicate-free
    sequences, and insertion-ordered dictionaries written as association lists. */
module Collections {

  datatype Option<T> = None | Some(value: T)

  /** No element occurs twice. */
  predicate Distinct<T(==)>(s: seq<T>) {
    forall i, j | 0 <= i < j < |s| :: s[i] != s[j]
  }

  /** The set of elements of a sequence (Python's `set(list)`). */
  function Elems<T(==)>(s: seq<T>): set<T> {
    set x | x in s
  }

  /** Python's slice `s[:n]` for a non-negative `n`. */
  function Take<T>(s: seq<T>, n: nat): (r: seq<T>)
    ensures |r| == if n < |s| then n else |s|
    ensures forall i | 0 <= i < |r| :: r[i] == s[i]
  {
    if n < |s| then s[..n] else s
  }

  /** Number of occurrences of `x` in `s` (Python's `list.count`). */
  function Count<T(==)>(s: seq<T>, x: T): nat {
    if s == [] then 0 else Count(s[..|s| - 1], x) + (if s[|s| - 1] == x then 1 else 0)
  }

  lemma {:induction false} CountIsMultiplicity<T>(s: seq<T>, x: T)
    ensures Count(s, x) == multiset(s)[x]
  {
    if s != [] {
      CountIsMultiplicity(s[..|s| - 1], x);
      assert s == s[..|s| - 1] + [s[|s| - 1]];
    }
  }

  /** A duplicate-free sequence has exactly as many distinct elements as entries. */
  lemma {:induction false} DistinctCard<T>(s: seq<T>)
    requires Distinct(s)
    ensures |Elems(s)| == |s|
  {
    if s != [] {
      var t := s[..|s| - 1];
      DistinctCard(t);
      assert Elems(s) == Elems(t) + {s[|s| - 1]};
      assert s[|s| - 1] !in Elems(t);
    }
  }

  /** In a duplicate-free sequence every value occurs at most once. */
  lemma {:induction false} DistinctMultiplicity<T>(s: seq<T>, x: T)
    requires Distinct(s)
    ensures multiset(s)[x] <= 1
  {
    if s != [] {
      var t := s[..|s| - 1];
      DistinctMultiplicity(t, x);
      assert s == t + [s[|s| - 1]];
      if s[|s| - 1] == x {
        assert x !in t;
        assert multiset(t)[x] == 0;
      }
    }
  }

  /** Reordering a duplicate-free sequence gives a duplicate-free sequence. */
  lemma PermutationDistinct<T>(s: seq<T>, t: seq<T>)
    requires multiset(s) == multiset(t)
    requires Distinct(t)
    ensures Distinct(s)
  {
    forall i, j | 0 <= i < j < |s|
      ensures s[i] != s[j]
    {
      if s[i] == s[j] {
        var x := s[i];
        assert s == s[..i] + [x] + s[i + 1..j] + [x] + s[j + 1..];
        assert multiset(s)[x] >= 2;
        DistinctMultiplicity(t, x);
        assert false;
      }
    }
  }

  /** A subset is no larger than its superset. */
  lemma SubsetCard<T>(a: set<T>, b: set<T>)
    requires a <= b
    ensures |a| <= |b|
  {
    assert b == a + (b - a);
    assert a * (b - a) == {};
  }

  /** A subset as large as its (finite) superset is the superset. */
  lemma SubsetCardEqual<T>(a: set<T>, b: set<T>)
    requires a <= b
    requires |a| == |b|
    ensures a == b
  {
    if x :| x in b && x !in a {
      SubsetCard(a, b - {x});
      assert false;
    }
  }

  // ---------------------------------------------------------------------
  // Insertion-ordered dictionaries (Python `dict`) as association lists.

  datatype Entry<K, V> = Entry(key: K, value: V)

  function Keys<K, V>(d: seq<Entry<K, V>>): (ks: seq<K>)
    ensures |ks| == |d|
    ensures forall i | 0 <= i < |d| :: ks[i] == d[i].key
  {
    if d == [] then [] else Keys(d[..|d| - 1]) + [d[|d| - 1].key]
  }

  function Values<K, V>(d: seq<Entry<K, V>>): (vs: seq<V>)
    ensures |vs| == |d|
    ensures forall i | 0 <= i < |d| :: vs[i] == d[i].value
  {
    if d == [] then [] else Values(d[..|d| - 1]) + [d[|d| - 1].value]
  }

  /** The invariant of a Python dict: every key occurs once. */
  predicate IsDict<K(==), V>(d: seq<Entry<K, V>>) {
    Distinct(Keys(d))
  }

  /** `d[k]` for a key that is present. */
  function Lookup<K(==), V>(d: seq<Entry<K, V>>, k: K): V
    requires k in Keys(d)
  {
    if d[|d| - 1].key == k then d[|d| - 1].value else Lookup(d[..|d| - 1], k)
  }

  /** `d[k] = v`: a present key keeps its position and takes the new value;
      a new key is appended at the end. */
  function Put<K(==), V>(d: seq<Entry<K, V>>, k: K, v: V): (r: seq<Entry<K, V>>)
    ensures k in Keys(d) ==> Keys(r) == Keys(d)
    ensures k !in Keys(d) ==> Keys(r) == Keys(d) + [k]
  {
    if k in Keys(d) then seq(|d|, i requires 0 <= i < |d| => if d[i].key == k then Entry(k, v) else d[i])
    else d + [Entry(k, v)]
  }

  /** Assigning a key that is not yet present appends one entry. */
  lemma PutNewKey<K, V>(d: seq<Entry<K, V>>, k: K, v: V)
    requires k !in Keys(d)
    ensures Put(d, k, v) == d + [Entry(k, v)]
  {
  }

  /** Two dictionaries holding the same entries position by position have the same keys. */
  lemma SameKeys<K, V, W>(d: seq<Entry<K, V>>, e: seq<Entry<K, W>>)
    requires |d| == |e| && forall i | 0 <= i < |d| :: d[i].key == e[i].key
    ensures Keys(d) == Keys(e)
  {
  }

  /** Assigning a key present at position j replaces that entry and nothing else. */
  lemma PutExistingKey<K, V>(d: seq<Entry<K, V>>, j: int, v: V)
    requires IsDict(d) && 0 <= j < |d|
    ensures Put(d, d[j].key, v) == d[j := Entry(d[j].key, v)]
  {
    var k := d[j].key;
    assert k == Keys(d)[j];
    forall i | 0 <= i < |d| && i != j ensures d[i].key != k {
      assert Keys(d)[i] != Keys(d)[j];
    }
  }

  /** Every entry after `d[k] = v` is the new entry or the old entry at that position. */
  lemma PutPointwise<K, V>(d: seq<Entry<K, V>>, k: K, v: V)
    ensures var r := Put(d, k, v);
            |d| <= |r| && forall i | 0 <= i < |r| :: r[i] == Entry(k, v) || (i < |d| && r[i] == d[i])
  {
  }

  /** The keys of a prefix are the prefix of the keys. */
  lemma KeysPrefix<K, V>(d: seq<Entry<K, V>>, n: nat)
    requires n <= |d|
    ensures Keys(d[..n]) == Keys(d)[..n]
  {
  }
}
