/** The store's collections are sequences in insertion order. This module
    gives the lookups, removals, filters and the newest-first ordering that
    the controllers obtain from their queries. */
module Collections {
  import opened Common

  /** No two elements share a key. */
  predicate UniqueKeys<T, K(==)>(s: seq<T>, key: T -> K) {
    forall i, j :: 0 <= i < j < |s| ==> key(s[i]) != key(s[j])
  }

  /** The position of the first element whose key is `k`, if any. */
  function IndexOf<T, K(==)>(s: seq<T>, key: T -> K, k: K): (r: Option<nat>)
    ensures r.Some? ==> r.value < |s| && key(s[r.value]) == k
    ensures r.Some? ==> forall j :: 0 <= j < r.value ==> key(s[j]) != k
    ensures r.None? <==> forall j :: 0 <= j < |s| ==> key(s[j]) != k
  {
    if |s| == 0 then None
    else if key(s[0]) == k then Some(0)
    else match IndexOf(s[1..], key, k)
      case None => None
      case Some(i) => Some(i + 1)
  }

  /** With unique keys, the element found is the one element with that key. */
  lemma IndexOfUnique<T, K>(s: seq<T>, key: T -> K, i: nat)
    requires UniqueKeys(s, key) && i < |s|
    ensures IndexOf(s, key, key(s[i])) == Some(i)
  {
  }

  /** `s` without its element at position `i`. */
  function RemoveAt<T>(s: seq<T>, i: nat): (r: seq<T>)
    requires i < |s|
    ensures |r| == |s| - 1
    ensures forall j :: 0 <= j < i ==> r[j] == s[j]
    ensures forall j :: i <= j < |r| ==> r[j] == s[j + 1]
    ensures multiset(r) + multiset{s[i]} == multiset(s)
  {
    assert s == s[..i] + [s[i]] + s[i + 1..];
    s[..i] + s[i + 1..]
  }

  /** Removing the only element with key `key(s[i])` leaves no element with
      that key, and keeps every other key unique. */
  lemma {:induction false} RemoveAtDropsKey<T, K>(s: seq<T>, key: T -> K, i: nat)
    requires UniqueKeys(s, key) && i < |s|
    ensures IndexOf(RemoveAt(s, i), key, key(s[i])).None?
    ensures UniqueKeys(RemoveAt(s, i), key)
  {
    var r := RemoveAt(s, i);
    forall j | 0 <= j < |r| ensures key(r[j]) != key(s[i]) {
      if j < i { assert r[j] == s[j]; } else { assert r[j] == s[j + 1]; }
    }
    forall a, b | 0 <= a < b < |r| ensures key(r[a]) != key(r[b]) {
      var a' := if a < i then a else a + 1;
      var b' := if b < i then b else b + 1;
      assert r[a] == s[a'] && r[b] == s[b'] && a' < b';
    }
  }

  /** The elements of `s` that `keep` selects. */
  function Filter<T(!new)>(s: seq<T>, keep: T -> bool): (r: seq<T>)
    ensures |r| <= |s|
    ensures forall x :: x in r <==> x in s && keep(x)
    ensures multiset(r) <= multiset(s)
    ensures (forall x :: x in s ==> keep(x)) ==> r == s
  {
    if |s| == 0 then []
    else
      var rest := Filter(s[1..], keep);
      assert s == [s[0]] + s[1..];
      if keep(s[0]) then [s[0]] + rest else rest
  }

  /** Newest first: creation times never increase along the sequence. */
  predicate NewestFirstOrder<T>(s: seq<T>, createdAt: T -> int) {
    forall i, j :: 0 <= i < j < |s| ==> createdAt(s[i]) >= createdAt(s[j])
  }

  /** Inserts `x` into a newest-first sequence at its place. */
  function InsertNewestFirst<T>(x: T, s: seq<T>, createdAt: T -> int): (r: seq<T>)
    requires NewestFirstOrder(s, createdAt)
    ensures NewestFirstOrder(r, createdAt)
    ensures multiset(r) == multiset(s) + multiset{x}
    ensures |r| == |s| + 1
    ensures r[0] == x || (|s| > 0 && r[0] == s[0])
  {
    if |s| == 0 || createdAt(x) >= createdAt(s[0]) then
      [x] + s
    else
      var rest := InsertNewestFirst(x, s[1..], createdAt);
      assert s == [s[0]] + s[1..];
      var r := [s[0]] + rest;
      assert forall j :: 0 < j < |r| ==> r[j] == rest[j - 1];
      assert forall j :: 0 <= j < |rest| ==> createdAt(s[0]) >= createdAt(rest[j]) by {
        forall j | 0 <= j < |rest| ensures createdAt(s[0]) >= createdAt(rest[j]) {
          if j > 0 {
            assert createdAt(rest[0]) >= createdAt(rest[j]);
          }
        }
      }
      r
  }

  /** The listing order of the controllers (`sort({ createdAt: -1 })`): the
      same elements, newest first. */
  function NewestFirst<T>(s: seq<T>, createdAt: T -> int): (r: seq<T>)
    ensures NewestFirstOrder(r, createdAt)
    ensures multiset(r) == multiset(s)
    ensures |r| == |s|
  {
    if |s| == 0 then []
    else
      assert s == [s[0]] + s[1..];
      InsertNewestFirst(s[0], NewestFirst(s[1..], createdAt), createdAt)
  }
}
