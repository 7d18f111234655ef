/** The Python built-ins that the stores rely on: iterating over a dictionary
    or a cursor, whose order the code does not control, and `sorted` with a
    `key=` function. */
module Collections {

  /** No two elements of `s` have the same key. */
  ghost predicate DistinctKeys<T>(s: seq<T>, key: T -> nat) {
    forall i, j :: 0 <= i < j < |s| ==> key(s[i]) != key(s[j])
  }

  /** The keys of `s` never decrease. */
  ghost predicate SortedBy<T>(s: seq<T>, key: T -> nat) {
    forall i, j :: 0 <= i < j < |s| ==> key(s[i]) <= key(s[j])
  }

  /** The keys of `s` strictly increase. */
  ghost predicate StrictlySortedBy<T>(s: seq<T>, key: T -> nat) {
    forall i, j :: 0 <= i < j < |s| ==> key(s[i]) < key(s[j])
  }

  /** Every key of `m`, each exactly once, in an order the model leaves open:
      the order in which a dictionary view or a database cursor yields them. */
  method ScanKeys<K, V>(m: map<K, V>) returns (ks: seq<K>)
    ensures |ks| == |m|
    ensures forall k :: k in ks <==> k in m
    ensures forall i, j :: 0 <= i < j < |ks| ==> ks[i] != ks[j]
  {
    var rest := m.Keys;
    ks := [];
    while rest != {}
      invariant rest <= m.Keys
      invariant |ks| + |rest| == |m|
      invariant forall k :: k in ks <==> k in m && k !in rest
      invariant forall i, j :: 0 <= i < j < |ks| ==> ks[i] != ks[j]
      decreases |rest|
    {
      var k :| k in rest;
      ks := ks + [k];
      rest := rest - {k};
    }
  }

  /** `x` placed into sorted `s` before the first element whose key is at least
      `x`'s, so `x` goes ahead of equal keys. */
  function InsertByKey<T>(x: T, s: seq<T>, key: T -> nat): (r: seq<T>)
    requires SortedBy(s, key)
    ensures SortedBy(r, key)
    ensures multiset(r) == multiset(s) + multiset{x}
    ensures forall y :: y in r ==> y == x || y in s
  {
    if s == [] then [x]
    else if key(x) <= key(s[0]) then [x] + s
    else
      var tail := InsertByKey(x, s[1..], key);
      assert s == [s[0]] + s[1..];
      SortedHeadIsLeast(s, key);
      HeadBelowTail(s[0], tail, key);
      [s[0]] + tail
  }

  /** The head of a sorted sequence has a key no larger than any later one. */
  lemma SortedHeadIsLeast<T>(s: seq<T>, key: T -> nat)
    requires SortedBy(s, key) && s != []
    ensures forall y :: y in s[1..] ==> key(s[0]) <= key(y)
  {
    forall y | y in s[1..] ensures key(s[0]) <= key(y) {
      var j :| 0 <= j < |s[1..]| && s[1..][j] == y;
      assert s[j + 1] == y;
    }
  }

  /** Putting an element in front of a sorted sequence whose keys are all at
      least the element's own keeps it sorted. */
  lemma HeadBelowTail<T>(h: T, t: seq<T>, key: T -> nat)
    requires SortedBy(t, key)
    requires forall y :: y in t ==> key(h) <= key(y)
    ensures SortedBy([h] + t, key)
  {
  }

  /** Python's `sorted(s, key=key)`: the elements of `s` ordered by key.  A
      sort by insertion stands in for the library's algorithm; both are
      stable, and with distinct keys the result is the same. */
  function SortByKey<T>(s: seq<T>, key: T -> nat): (r: seq<T>)
    ensures SortedBy(r, key)
    ensures multiset(r) == multiset(s)
    ensures |r| == |s|
  {
    if s == [] then []
    else
      assert s == [s[0]] + s[1..];
      InsertByKey(s[0], SortByKey(s[1..], key), key)
  }

  /** Inserting an element whose key is new keeps a strictly sorted sequence
      strictly sorted. */
  lemma {:induction false} InsertKeepsStrict<T>(x: T, s: seq<T>, key: T -> nat)
    requires StrictlySortedBy(s, key)
    requires forall y :: y in s ==> key(y) != key(x)
    ensures StrictlySortedBy(InsertByKey(x, s, key), key)
  {
    if s != [] && key(x) > key(s[0]) {
      assert s == [s[0]] + s[1..];
      InsertKeepsStrict(x, s[1..], key);
      var tail := InsertByKey(x, s[1..], key);
      forall y | y in s[1..] ensures key(s[0]) < key(y) {
        var j :| 0 <= j < |s[1..]| && s[1..][j] == y;
        assert s[j + 1] == y;
      }
      StrictHeadBelowTail(s[0], tail, key);
    }
  }

  /** Putting an element in front of a strictly sorted sequence whose keys
      all exceed the element's own keeps it strictly sorted. */
  lemma StrictHeadBelowTail<T>(h: T, t: seq<T>, key: T -> nat)
    requires StrictlySortedBy(t, key)
    requires forall y :: y in t ==> key(h) < key(y)
    ensures StrictlySortedBy([h] + t, key)
  {
    var r := [h] + t;
    forall i, j | 0 <= i < j < |r| ensures key(r[i]) < key(r[j]) {
      assert r[j] == t[j - 1];
      if i > 0 { assert r[i] == t[i - 1]; }
    }
  }

  /** Ids are unique, so sorting by id orders the records strictly. */
  lemma {:induction false} SortDistinctIsStrict<T>(s: seq<T>, key: T -> nat)
    requires DistinctKeys(s, key)
    ensures StrictlySortedBy(SortByKey(s, key), key)
  {
    if s != [] {
      var rest := SortByKey(s[1..], key);
      SortDistinctIsStrict(s[1..], key);
      forall y | y in rest ensures key(y) != key(s[0]) {
        assert y in multiset(rest);
        var j :| 0 <= j < |s[1..]| && s[1..][j] == y;
        assert s[j + 1] == y;
      }
      InsertKeepsStrict(s[0], rest, key);
    }
  }

  /** In a sorted sequence the last element carries the largest key. */
  lemma LastIsLargest<T>(s: seq<T>, key: T -> nat, y: T)
    requires SortedBy(s, key)
    requires y in s
    ensures key(y) <= key(s[|s| - 1])
  {
  }

  /** The first element of a strictly sorted sequence has the least key, and
      it is the only element with that key. */
  lemma FirstIsLeast<T>(s: seq<T>, key: T -> nat, x: T)
    requires StrictlySortedBy(s, key)
    requires x in s
    ensures key(s[0]) <= key(x)
    ensures key(x) == key(s[0]) ==> x == s[0]
  {
  }

  /** The first element of a strictly sorted sequence does not occur again. */
  lemma HeadNotInTail<T>(s: seq<T>, key: T -> nat)
    requires StrictlySortedBy(s, key) && s != []
    ensures s[0] !in s[1..]
  {
    forall x | x in s[1..] ensures key(s[0]) < key(x) {
      var j :| 0 <= j < |s[1..]| && s[1..][j] == x;
      assert s[j + 1] == x;
    }
  }

  lemma ElementsOfCons<T>(h: T, t: seq<T>)
    ensures (set x | x in [h] + t) == {h} + (set x | x in t)
  {
  }

  /** A strictly sorted sequence holds no element twice, so it has as many
      distinct elements as positions. */
  lemma {:induction false} StrictlySortedCount<T>(s: seq<T>, key: T -> nat)
    requires StrictlySortedBy(s, key)
    ensures |set x | x in s| == |s|
  {
    if s != [] {
      StrictlySortedCount(s[1..], key);
      HeadNotInTail(s, key);
      ElementsOfCons(s[0], s[1..]);
      assert s == [s[0]] + s[1..];
    }
  }

  /** Strictly sorted sequences with the same elements have the same length. */
  lemma SameElementsSameLength<T>(a: seq<T>, b: seq<T>, key: T -> nat)
    requires StrictlySortedBy(a, key) && StrictlySortedBy(b, key)
    requires forall x :: x in a <==> x in b
    ensures |a| == |b|
  {
    StrictlySortedCount(a, key);
    StrictlySortedCount(b, key);
    assert (set x | x in a) == (set x | x in b);
  }

  /** Two strictly sorted sequences with the same elements are equal, so a
      sorted listing does not depend on the order the records were scanned in. */
  lemma {:induction false} StrictlySortedUnique<T>(a: seq<T>, b: seq<T>, key: T -> nat)
    requires StrictlySortedBy(a, key) && StrictlySortedBy(b, key)
    requires forall x :: x in a <==> x in b
    ensures a == b
  {
    SameElementsSameLength(a, b, key);
    if a != [] {
      FirstIsLeast(a, key, b[0]);
      FirstIsLeast(b, key, a[0]);
      assert a == [a[0]] + a[1..] && b == [b[0]] + b[1..];
      forall x ensures x in a[1..] <==> x in b[1..] {
        if x in a[1..] {
          FirstIsLeast(b, key, x);
        }
        if x in b[1..] {
          FirstIsLeast(a, key, x);
        }
      }
      StrictlySortedUnique(a[1..], b[1..], key);
    }
  }
}
