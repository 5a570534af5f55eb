/** The `ORDER BY a DESC, b DESC` of the ledger's queries: a stable
    insertion sort on a two-part key, with the proof that its result is
    ordered and is a permutation of its input. */
module Sorting {

  /** A sort key compared lexicographically: `major` first, then `minor`. */
  datatype Key = Key(major: int, minor: int)

  predicate KeyGe(a: Key, b: Key) {
    a.major > b.major || (a.major == b.major && a.minor >= b.minor)
  }

  predicate SortedDesc<T>(s: seq<T>, key: T -> Key) {
    forall i, j :: 0 <= i < j < |s| ==> KeyGe(key(s[i]), key(s[j]))
  }

  /** Puts `x` in front of the first element it is not below. */
  function Insert<T(==)>(x: T, s: seq<T>, key: T -> Key): (r: seq<T>)
    ensures |r| == |s| + 1
    ensures multiset(r) == multiset(s) + multiset{x}
  {
    if s == [] || KeyGe(key(x), key(s[0])) then [x] + s
    else
      var rest := Insert(x, s[1..], key);
      assert s == [s[0]] + s[1..];
      [s[0]] + rest
  }

  function SortDesc<T(==)>(s: seq<T>, key: T -> Key): (r: seq<T>)
    ensures |r| == |s|
    ensures multiset(r) == multiset(s)
  {
    if s == [] then []
    else
      assert s == [s[0]] + s[1..];
      Insert(s[0], SortDesc(s[1..], key), key)
  }

  lemma {:induction false} InsertSorted<T>(x: T, s: seq<T>, key: T -> Key)
    requires SortedDesc(s, key)
    ensures SortedDesc(Insert(x, s, key), key)
  {
    if s == [] || KeyGe(key(x), key(s[0])) {
      var r := [x] + s;
      forall i, j | 0 <= i < j < |r| ensures KeyGe(key(r[i]), key(r[j])) {
        if i == 0 && j > 1 {
          assert r[j] == s[j - 1];
          assert KeyGe(key(s[0]), key(s[j - 1]));
        }
      }
    } else {
      var rest := Insert(x, s[1..], key);
      InsertSorted(x, s[1..], key);
      var r := [s[0]] + rest;
      forall i, j | 0 <= i < j < |r| ensures KeyGe(key(r[i]), key(r[j])) {
        if i == 0 {
          var e := r[j];
          assert e == rest[j - 1];
          assert e in multiset(rest);
          if e == x {
          } else {
            assert e in multiset(s[1..]);
            var k :| 0 <= k < |s[1..]| && s[1..][k] == e;
            assert KeyGe(key(s[0]), key(s[k + 1]));
          }
        }
      }
    }
  }

  /** The result of `SortDesc` is ordered by its key, largest first. */
  lemma {:induction false} SortDescSorted<T>(s: seq<T>, key: T -> Key)
    ensures SortedDesc(SortDesc(s, key), key)
  {
    if s != [] {
      SortDescSorted(s[1..], key);
      InsertSorted(s[0], SortDesc(s[1..], key), key);
    }
  }

  /** `LIMIT n`. */
  function Limit<T>(rows: seq<T>, n: nat): seq<T> {
    if |rows| <= n then rows else rows[..n]
  }

  /** The first `n` of a sorted permutation of `q`: sorted, drawn from `q`,
      and at least as high as everything left out. */
  lemma TakeOfSorted<T>(sorted: seq<T>, q: seq<T>, n: nat, key: T -> Key)
    requires n > 0
    requires SortedDesc(sorted, key) && multiset(sorted) == multiset(q)
    ensures var top := Limit(sorted, n);
      && SortedDesc(top, key)
      && multiset(top) <= multiset(q)
      && (forall r :: r in multiset(q) - multiset(top) ==> KeyGe(key(top[|top| - 1]), key(r)))
  {
    if |sorted| > n {
      var top := sorted[..n];
      var rest := sorted[n..];
      assert Limit(sorted, n) == top;
      assert sorted == top + rest;
      assert multiset(q) - multiset(top) == multiset(rest);
      assert |top| == n;
      forall r | r in multiset(q) - multiset(top) ensures KeyGe(key(top[|top| - 1]), key(r)) {
        var j :| 0 <= j < |rest| && rest[j] == r;
        assert sorted[n - 1] == top[n - 1] && sorted[n + j] == r;
      }
    } else {
      assert Limit(sorted, n) == sorted;
      assert multiset(q) - multiset(sorted) == multiset{};
    }
  }
}
