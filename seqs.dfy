/** Generic sequence queries. The back end's table queries (`.filter(...).first()`,
    `.filter(...).all()`, `.order_by(...desc())`, `.offset(...).limit(...)`) and the
    front end's array methods (`find`, `some`) are all instances of these. */
module Seqs {

  datatype Option<+T> = None | Some(value: T)

  /** Index of the first element satisfying `p`, if any. */
  function FindIndex<T>(s: seq<T>, p: T -> bool): (r: Option<nat>)
    ensures r.Some? ==> r.value < |s| && p(s[r.value])
    ensures r.Some? ==> forall j :: 0 <= j < r.value ==> !p(s[j])
    ensures r.None? ==> forall j :: 0 <= j < |s| ==> !p(s[j])
  {
    if |s| == 0 then None
    else if p(s[0]) then Some(0)
    else match FindIndex(s[1..], p)
      case None => None
      case Some(k) => Some(k + 1)
  }

  /** The first element satisfying `p`: SQL `.first()` on rows in storage order, JS `Array.find`. */
  function Find<T>(s: seq<T>, p: T -> bool): (r: Option<T>)
    ensures r.None? <==> forall i :: 0 <= i < |s| ==> !p(s[i])
    ensures r.Some? ==> r.value in s && p(r.value)
    ensures r.Some? ==> exists i :: 0 <= i < |s| && s[i] == r.value && forall j :: 0 <= j < i ==> !p(s[j])
  {
    match FindIndex(s, p)
    case None => None
    case Some(i) => Some(s[i])
  }

  /** JS `Array.some`. */
  function Any<T>(s: seq<T>, p: T -> bool): (b: bool)
    ensures b <==> exists i :: 0 <= i < |s| && p(s[i])
  {
    if |s| == 0 then false
    else p(s[0]) || Any(s[1..], p)
  }

  /** The elements satisfying `p`, in their original order: SQL `.filter(...).all()`. */
  function Filter<T>(s: seq<T>, p: T -> bool): (r: seq<T>)
    ensures |r| <= |s|
    ensures forall i :: 0 <= i < |r| ==> r[i] in s && p(r[i])
    ensures forall i :: 0 <= i < |s| && p(s[i]) ==> s[i] in r
    ensures multiset(r) <= multiset(s)
    ensures (forall i :: 0 <= i < |s| ==> p(s[i])) ==> r == s
  {
    if |s| == 0 then []
    else
      assert s == [s[0]] + s[1..];
      if p(s[0]) then [s[0]] + Filter(s[1..], p) else Filter(s[1..], p)
  }

  /** Where an OFFSET clause starts in SQLite: a negative offset counts as zero. */
  function Offset(skip: int, n: nat): (k: nat)
    ensures k <= n
  {
    if skip <= 0 then 0 else if skip > n then n else skip
  }

  /** SQL `OFFSET skip LIMIT limit` with SQLite's reading of negative values:
      a negative offset counts as zero and a negative limit means "no limit". */
  function Page<T>(s: seq<T>, skip: int, limit: int): (r: seq<T>)
    ensures Offset(skip, |s|) + |r| <= |s|
    ensures limit >= 0 ==> |r| <= limit
    ensures forall i :: 0 <= i < |r| ==> r[i] == s[Offset(skip, |s|) + i]
    ensures 0 <= skip && 0 <= limit ==> |r| == (if |s| <= skip then 0 else if |s| - skip < limit then |s| - skip else limit)
    ensures limit < 0 ==> |r| == |s| - Offset(skip, |s|)
  {
    var lo := Offset(skip, |s|);
    var hi := if limit < 0 || |s| - lo <= limit then |s| else lo + limit;
    s[lo..hi]
  }

  ghost predicate SortedDesc<T>(s: seq<T>, key: T -> int) {
    forall i, j :: 0 <= i < j < |s| ==> key(s[i]) >= key(s[j])
  }

  /** Inserts `x` in front of every element whose key is not larger, so that
      equal keys keep their relative order. */
  function InsertDesc<T>(x: T, s: seq<T>, key: T -> int): (r: seq<T>)
    requires SortedDesc(s, key)
    ensures SortedDesc(r, key)
    ensures multiset(r) == multiset(s) + multiset{x}
    ensures |r| == |s| + 1
    ensures r[0] == x || (|s| > 0 && r[0] == s[0])
  {
    if |s| == 0 then [x]
    else if key(x) >= key(s[0]) then
      ConsSorted(x, s, key);
      [x] + s
    else
      var rest := InsertDesc(x, s[1..], key);
      assert s == [s[0]] + s[1..];
      ConsSorted(s[0], rest, key);
      [s[0]] + rest
  }

  /** An element no smaller than the head of a sorted sequence can be put in front. */
  lemma ConsSorted<T>(h: T, s: seq<T>, key: T -> int)
    requires SortedDesc(s, key)
    requires |s| > 0 ==> key(h) >= key(s[0])
    ensures SortedDesc([h] + s, key)
  {
    var r := [h] + s;
    forall i, j | 0 <= i < j < |r| ensures key(r[i]) >= key(r[j]) {
      if i == 0 {
        assert r[j] == s[j - 1];
      } else {
        assert r[i] == s[i - 1] && r[j] == s[j - 1];
      }
    }
  }

  /** SQL `ORDER BY key DESC`, stable on ties. */
  function SortDesc<T>(s: seq<T>, key: T -> int): (r: seq<T>)
    ensures SortedDesc(r, key)
    ensures multiset(r) == multiset(s)
    ensures |r| == |s|
  {
    if |s| == 0 then []
    else
      assert s == [s[0]] + s[1..];
      InsertDesc(s[0], SortDesc(s[1..], key), key)
  }

  lemma PageOfSorted<T>(s: seq<T>, key: T -> int, skip: int, limit: int)
    requires SortedDesc(s, key)
    ensures SortedDesc(Page(s, skip, limit), key)
  {
    var r := Page(s, skip, limit);
    var lo := Offset(skip, |s|);
    forall i, j | 0 <= i < j < |r| ensures key(r[i]) >= key(r[j]) {
      assert r[i] == s[lo + i] && r[j] == s[lo + j];
    }
  }

  /** The set of keys the elements carry. */
  ghost function Keys<T>(s: seq<T>, key: T -> int): set<int> {
    set i | 0 <= i < |s| :: key(s[i])
  }

  ghost predicate DistinctKeys<T>(s: seq<T>, key: T -> int) {
    forall i, j :: 0 <= i < j < |s| ==> key(s[i]) != key(s[j])
  }

  lemma {:induction false} KeysOfCons<T>(s: seq<T>, key: T -> int)
    requires |s| > 0
    ensures Keys(s, key) == {key(s[0])} + Keys(s[1..], key)
  {
    var rest := s[1..];
    forall k | k in Keys(s, key) ensures k in {key(s[0])} + Keys(rest, key) {
      var i :| 0 <= i < |s| && key(s[i]) == k;
      if i > 0 { assert rest[i - 1] == s[i]; }
    }
    forall k | k in Keys(rest, key) ensures k in Keys(s, key) {
      var i :| 0 <= i < |rest| && key(rest[i]) == k;
      assert s[i + 1] == rest[i];
    }
  }

  /** No more keys than elements. */
  lemma {:induction false} KeysBound<T>(s: seq<T>, key: T -> int)
    ensures |Keys(s, key)| <= |s|
    decreases |s|
  {
    if |s| > 0 {
      KeysOfCons(s, key);
      KeysBound(s[1..], key);
    } else {
      assert Keys(s, key) == {};
    }
  }

  /** Pairwise distinct keys: exactly as many keys as elements. */
  lemma {:induction false} DistinctKeysCount<T>(s: seq<T>, key: T -> int)
    requires DistinctKeys(s, key)
    ensures |Keys(s, key)| == |s|
    decreases |s|
  {
    if |s| > 0 {
      KeysOfCons(s, key);
      assert DistinctKeys(s[1..], key) by {
        forall i, j | 0 <= i < j < |s[1..]| ensures key(s[1..][i]) != key(s[1..][j]) {
          assert s[1..][i] == s[i + 1] && s[1..][j] == s[j + 1];
        }
      }
      DistinctKeysCount(s[1..], key);
      assert key(s[0]) !in Keys(s[1..], key);
    } else {
      assert Keys(s, key) == {};
    }
  }

  /** Keys are pairwise distinct among the elements satisfying `p`. */
  ghost predicate DistinctKeysWhere<T>(s: seq<T>, p: T -> bool, key: T -> int) {
    forall i, j :: 0 <= i < j < |s| && p(s[i]) && p(s[j]) ==> key(s[i]) != key(s[j])
  }

  lemma DistinctKeysWhereTail<T>(s: seq<T>, p: T -> bool, key: T -> int)
    requires |s| > 0 && DistinctKeysWhere(s, p, key)
    ensures DistinctKeysWhere(s[1..], p, key)
  {
    var rest := s[1..];
    forall i, j | 0 <= i < j < |rest| && p(rest[i]) && p(rest[j]) ensures key(rest[i]) != key(rest[j]) {
      assert rest[i] == s[i + 1] && rest[j] == s[j + 1];
    }
  }

  /** Filtering keeps elements in their order, so keys distinct among the kept elements
      of `s` stay distinct in the result. */
  lemma {:induction false} FilterKeepsDistinctKeys<T>(s: seq<T>, p: T -> bool, key: T -> int)
    ensures DistinctKeysWhere(s, p, key) ==> DistinctKeys(Filter(s, p), key)
    decreases |s|
  {
    if |s| > 0 && DistinctKeysWhere(s, p, key) {
      var rest := s[1..];
      DistinctKeysWhereTail(s, p, key);
      FilterKeepsDistinctKeys(rest, p, key);
      var tail := Filter(rest, p);
      if p(s[0]) {
        assert Filter(s, p) == [s[0]] + tail;
        forall j | 0 <= j < |tail| ensures key(s[0]) != key(tail[j]) {
          var k :| 0 <= k < |rest| && rest[k] == tail[j];
          assert s[k + 1] == rest[k];
        }
      } else {
        assert Filter(s, p) == tail;
      }
    }
  }
}
