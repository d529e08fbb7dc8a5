/**
 * `sorted(..., key=sort_key)`: ordering prefixes by their sort keys. The keys
 * are tuples compared lexicographically (Network.KeyLe).
 */
module Sorting {
  import opened Network

  /** A prefix string paired with the key `sort_key` computed for it. */
  datatype Entry = Entry(text: string, key: SortKey)

  /** Keys never decrease along the sequence. */
  predicate Sorted(s: seq<Entry>) {
    forall i, j :: 0 <= i < j < |s| ==> KeyLe(s[i].key, s[j].key)
  }

  /** No value occurs twice. */
  predicate Distinct<T(==)>(s: seq<T>) {
    forall i, j :: 0 <= i < j < |s| ==> s[i] != s[j]
  }

  /** The keys of a sequence of entries, in order. */
  function Keys(s: seq<Entry>): (r: seq<SortKey>)
    ensures |r| == |s|
    ensures forall i :: 0 <= i < |s| ==> r[i] == s[i].key
  {
    seq(|s|, i requires 0 <= i < |s| => s[i].key)
  }

  /** Prepending an entry whose key bounds every key of a sorted sequence keeps it sorted. */
  lemma ConsSorted(h: Entry, rest: seq<Entry>)
    requires Sorted(rest)
    requires forall x :: x in rest ==> KeyLe(h.key, x.key)
    ensures Sorted([h] + rest)
  {
    forall i, j | 0 <= i < j < |[h] + rest|
      ensures KeyLe(([h] + rest)[i].key, ([h] + rest)[j].key)
    {
      if i == 0 {
        assert rest[j - 1] in rest;
      }
    }
  }

  /** Prepending a value absent from a duplicate-free sequence keeps it duplicate-free. */
  lemma ConsDistinct<T>(h: T, rest: seq<T>)
    ensures Distinct(rest) && h !in rest ==> Distinct([h] + rest)
  {
    if Distinct(rest) && h !in rest {
      forall i, j | 0 <= i < j < |[h] + rest|
        ensures ([h] + rest)[i] != ([h] + rest)[j]
      {
        if i == 0 {
          assert rest[j - 1] in rest;
        }
      }
    }
  }

  /** The first key of a sorted sequence bounds all the others. */
  lemma HeadBoundsTail(s: seq<Entry>)
    requires Sorted(s) && |s| > 0
    ensures forall x :: x in s[1..] ==> KeyLe(s[0].key, x.key)
  {
    forall x | x in s[1..]
      ensures KeyLe(s[0].key, x.key)
    {
      var m :| 0 <= m < |s| - 1 && s[1..][m] == x;
      assert s[m + 1] == x;
    }
  }

  /** A key no larger than the first key of a sorted sequence bounds every key in it. */
  lemma BelowHead(k: SortKey, s: seq<Entry>)
    requires Sorted(s) && |s| > 0 && KeyLe(k, s[0].key)
    ensures forall x :: x in s ==> KeyLe(k, x.key)
  {
    HeadBoundsTail(s);
    forall x | x in s
      ensures KeyLe(k, x.key)
    {
      if x != s[0] {
        assert x in s[1..] by {
          assert s == [s[0]] + s[1..];
        }
        KeyLeTotalOrder(k, s[0].key, x.key);
      }
    }
  }

  /** Inserts `e` into the sorted `s` after every entry whose key is strictly smaller. */
  function Insert(e: Entry, s: seq<Entry>): (r: seq<Entry>)
    requires Sorted(s)
    ensures Sorted(r)
    ensures |r| == |s| + 1
    ensures multiset(r) == multiset(s) + multiset{e}
    ensures forall x :: x in r <==> x == e || x in s
    ensures Distinct(s) && e !in s ==> Distinct(r)
  {
    if |s| == 0 then [e]
    else if KeyLe(e.key, s[0].key) then
      BelowHead(e.key, s);
      ConsSorted(e, s);
      ConsDistinct(e, s);
      [e] + s
    else
      var rest := Insert(e, s[1..]);
      InsertBehindHead(e, s, rest);
      [s[0]] + rest
  }

  /**
   * The step of Insert that keeps the head: when `e` goes behind the first
   * entry of `s`, putting that entry back in front of the insertion into the
   * tail gives a sorted sequence with `e` added.
   */
  lemma InsertBehindHead(e: Entry, s: seq<Entry>, rest: seq<Entry>)
    requires Sorted(s) && |s| > 0 && !KeyLe(e.key, s[0].key)
    requires Sorted(rest)
    requires multiset(rest) == multiset(s[1..]) + multiset{e}
    requires forall x :: x in rest <==> x == e || x in s[1..]
    requires Distinct(s[1..]) && e !in s[1..] ==> Distinct(rest)
    ensures Sorted([s[0]] + rest)
    ensures multiset([s[0]] + rest) == multiset(s) + multiset{e}
    ensures forall x :: x in [s[0]] + rest <==> x == e || x in s
    ensures Distinct(s) && e !in s ==> Distinct([s[0]] + rest)
  {
    assert s == [s[0]] + s[1..];
    KeyLeTotalOrder(e.key, s[0].key, s[0].key);
    HeadBoundsTail(s);
    ConsSorted(s[0], rest);
    if Distinct(s) && e !in s {
      assert Distinct(s[1..]) by {
        forall i, j | 0 <= i < j < |s[1..]|
          ensures s[1..][i] != s[1..][j]
        {
          assert s[1..][i] == s[i + 1] && s[1..][j] == s[j + 1];
        }
      }
      assert s[0] !in rest;
      ConsDistinct(s[0], rest);
    }
  }

  /** Insertion sort by key. */
  function SortEntries(s: seq<Entry>): (r: seq<Entry>)
    ensures Sorted(r)
    ensures |r| == |s|
    ensures multiset(r) == multiset(s)
    ensures forall x :: x in r <==> x in s
    ensures Distinct(s) ==> Distinct(r)
  {
    if |s| == 0 then []
    else
      assert s == [s[0]] + s[1..];
      Insert(s[0], SortEntries(s[1..]))
  }

  /** Removing the element at `j` removes one occurrence from the multiset. */
  lemma RemoveAt<T>(s: seq<T>, j: nat)
    requires j < |s|
    ensures multiset(s[..j] + s[j + 1..]) == multiset(s) - multiset{s[j]}
  {
    assert s == s[..j] + [s[j]] + s[j + 1..];
  }

  /** Removing the entry at `j` removes its key at `j` from the key sequence. */
  lemma KeysRemoveAt(b: seq<Entry>, j: nat)
    requires j < |b|
    ensures multiset(Keys(b)) == multiset(Keys(b[..j] + b[j + 1..])) + multiset{b[j].key}
  {
    var b' := b[..j] + b[j + 1..];
    assert Keys(b') == Keys(b)[..j] + Keys(b)[j + 1..];
    RemoveAt(Keys(b), j);
  }

  /** A non-empty sequence is its head followed by its tail, as a multiset. */
  lemma ConsMultiset<T>(a: seq<T>)
    requires |a| > 0
    ensures multiset(a) == multiset{a[0]} + multiset(a[1..])
  {
    assert a == [a[0]] + a[1..];
  }

  /** The keys of a non-empty sequence are the head's key and the tail's keys. */
  lemma KeysCons(a: seq<Entry>)
    requires |a| > 0
    ensures multiset(Keys(a)) == multiset{a[0].key} + multiset(Keys(a[1..]))
  {
    assert Keys(a) == [a[0].key] + Keys(a[1..]);
  }

  /** Equal multisets of entries have equal multisets of keys. */
  lemma {:induction false} KeysOfPermutation(a: seq<Entry>, b: seq<Entry>)
    requires multiset(a) == multiset(b)
    ensures multiset(Keys(a)) == multiset(Keys(b))
    decreases |a|
  {
    if |a| == 0 {
      assert |b| == |multiset(b)| == 0;
    } else {
      assert a[0] in multiset(b);
      var j :| 0 <= j < |b| && b[j] == a[0];
      var b' := b[..j] + b[j + 1..];
      RemoveAt(b, j);
      ConsMultiset(a);
      KeysOfPermutation(a[1..], b');
      KeysRemoveAt(b, j);
      KeysCons(a);
    }
  }

  /** Keys never decrease along the key sequence. */
  predicate SortedKeys(k: seq<SortKey>) {
    forall i, j :: 0 <= i < j < |k| ==> KeyLe(k[i], k[j])
  }

  /** Two sorted key sequences holding the same keys are the same sequence. */
  lemma {:induction false} SortedKeysUnique(x: seq<SortKey>, y: seq<SortKey>)
    requires SortedKeys(x) && SortedKeys(y)
    requires multiset(x) == multiset(y)
    ensures x == y
    decreases |x|
  {
    if |x| == 0 {
      assert |y| == |multiset(y)| == 0;
    } else {
      assert |y| == |multiset(y)| == |x|;
      assert x[0] in multiset(y);
      assert y[0] in multiset(x);
      var i :| 0 <= i < |x| && x[i] == y[0];
      var j :| 0 <= j < |y| && y[j] == x[0];
      KeyLeTotalOrder(x[0], y[0], y[0]);
      KeyLeTotalOrder(x[0], x[0], x[0]);
      assert KeyLe(x[0], x[i]);
      assert KeyLe(y[0], y[j]);
      assert x[0] == y[0];
      assert x == [x[0]] + x[1..];
      assert y == [y[0]] + y[1..];
      ConsMultiset(x);
      ConsMultiset(y);
      assert multiset(x[1..]) == multiset(x) - multiset{x[0]};
      SortedKeysUnique(x[1..], y[1..]);
    }
  }

  /**
   * Sorting is insensitive to the order the entries arrive in, up to entries of
   * equal key: any two sorted arrangements of the same entries have the same
   * key sequence.
   */
  lemma SortedPermutationsHaveSameKeys(a: seq<Entry>, b: seq<Entry>)
    requires Sorted(a) && Sorted(b)
    requires multiset(a) == multiset(b)
    ensures Keys(a) == Keys(b)
  {
    KeysOfPermutation(a, b);
    SortedKeysUnique(Keys(a), Keys(b));
  }

  /** The key sequence `SortEntries` produces does not depend on the order of its input. */
  lemma SortIgnoresInputOrder(a: seq<Entry>, b: seq<Entry>)
    requires multiset(a) == multiset(b)
    ensures Keys(SortEntries(a)) == Keys(SortEntries(b))
  {
    SortedPermutationsHaveSameKeys(SortEntries(a), SortEntries(b));
  }

  /** In a duplicate-free sequence every value occurs at most once. */
  lemma {:induction false} DistinctCount<T>(a: seq<T>, x: T)
    requires Distinct(a)
    ensures multiset(a)[x] == if x in a then 1 else 0
    decreases |a|
  {
    if |a| > 0 {
      assert a == [a[0]] + a[1..];
      assert Distinct(a[1..]) by {
        forall i, j | 0 <= i < j < |a[1..]|
          ensures a[1..][i] != a[1..][j]
        {
          assert a[1..][i] == a[i + 1] && a[1..][j] == a[j + 1];
        }
      }
      DistinctCount(a[1..], x);
      forall k | 0 <= k < |a[1..]|
        ensures a[1..][k] != a[0]
      {
        assert a[1..][k] == a[k + 1];
      }
    }
  }

  /** Two duplicate-free sequences with the same members are permutations of each other. */
  lemma DistinctSameMembers<T>(a: seq<T>, b: seq<T>)
    requires Distinct(a) && Distinct(b)
    requires forall x :: x in a <==> x in b
    ensures multiset(a) == multiset(b)
  {
    forall x
      ensures multiset(a)[x] == multiset(b)[x]
    {
      DistinctCount(a, x);
      DistinctCount(b, x);
    }
  }
}
