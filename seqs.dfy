/**
 * Generic operations on sequences that stand for database tables: selecting
 * the rows that satisfy a condition, finding a row, and distinctness of a
 * column over all rows.
 */
module Seqs {
  import opened Wrappers

  /** The elements of `s` that satisfy `keep`, in their order in `s` (a `WHERE` clause). */
  function Filter<T(!new)>(s: seq<T>, keep: T -> bool): (r: seq<T>)
    ensures |r| <= |s|
    ensures forall x :: x in r <==> x in s && keep(x)
    ensures (forall x :: x in s ==> !keep(x)) ==> r == []
  {
    if s == [] then []
    else
      assert s == [s[0]] + s[1..];
      (if keep(s[0]) then [s[0]] else []) + Filter(s[1..], keep)
  }

  /** Selecting rows that all satisfy the condition keeps the whole table. */
  lemma {:induction false} FilterKeepsAll<T(!new)>(s: seq<T>, keep: T -> bool)
    ensures (forall x :: x in s ==> keep(x)) ==> Filter(s, keep) == s
  {
    if s != [] {
      assert s == [s[0]] + s[1..];
      FilterKeepsAll(s[1..], keep);
    }
  }

  /** Selecting from two tables appended is appending the selections. */
  lemma {:induction false} FilterAppend<T(!new)>(a: seq<T>, b: seq<T>, keep: T -> bool)
    ensures Filter(a + b, keep) == Filter(a, keep) + Filter(b, keep)
  {
    if a == [] {
      assert a + b == b;
    } else {
      assert (a + b)[0] == a[0] && (a + b)[1..] == a[1..] + b;
      FilterAppend(a[1..], b, keep);
    }
  }

  /** Some element of `s` satisfying `p`, or None when there is none. */
  function FindFirst<T(!new)>(s: seq<T>, p: T -> bool): (r: Option<T>)
    ensures r.Some? ==> r.value in s && p(r.value)
    ensures r.None? <==> forall x :: x in s ==> !p(x)
  {
    if s == [] then None
    else if p(s[0]) then Some(s[0])
    else
      assert s == [s[0]] + s[1..];
      FindFirst(s[1..], p)
  }

  /** No two positions of `s` hold elements with the same `key`: a unique column. */
  ghost predicate KeysDistinct<T, K>(s: seq<T>, key: T -> K) {
    forall i, j :: 0 <= i < j < |s| ==> key(s[i]) != key(s[j])
  }

  /** With a unique column, an element is determined by its key. */
  lemma KeysDistinctSame<T, K>(s: seq<T>, key: T -> K, a: T, b: T)
    requires KeysDistinct(s, key)
    requires a in s && b in s && key(a) == key(b)
    ensures a == b
  {
  }

  /** Appending an element whose key is new keeps the column unique. */
  lemma KeysDistinctAppend<T, K>(s: seq<T>, key: T -> K, x: T)
    requires KeysDistinct(s, key)
    requires forall y :: y in s ==> key(y) != key(x)
    ensures KeysDistinct(s + [x], key)
  {
  }

  /** Prepending an element whose key is new keeps the column unique. */
  lemma KeysDistinctPrepend<T, K>(x: T, s: seq<T>, key: T -> K)
    requires KeysDistinct(s, key)
    requires forall y :: y in s ==> key(y) != key(x)
    ensures KeysDistinct([x] + s, key)
  {
  }

  /** Deleting rows keeps a unique column unique. */
  lemma {:induction false} KeysDistinctFilter<T(!new), K>(s: seq<T>, keep: T -> bool, key: T -> K)
    requires KeysDistinct(s, key)
    ensures KeysDistinct(Filter(s, keep), key)
  {
    if s != [] {
      var rest := s[1..];
      assert KeysDistinct(rest, key) by {
        forall i, j | 0 <= i < j < |rest| ensures key(rest[i]) != key(rest[j]) {
          assert rest[i] == s[i + 1] && rest[j] == s[j + 1];
        }
      }
      KeysDistinctFilter(rest, keep, key);
      if keep(s[0]) {
        forall y | y in Filter(rest, keep) ensures key(y) != key(s[0]) {
          var j :| 0 <= j < |rest| && rest[j] == y;
          assert s[j + 1] == y;
        }
        KeysDistinctPrepend(s[0], Filter(rest, keep), key);
      } else {
        assert Filter(s, keep) == Filter(rest, keep);
      }
    }
  }

  /** `KeysDistinctFilter` in a form that can be used where `s` may have duplicate keys. */
  lemma KeysDistinctFilterWhenDistinct<T(!new), K>(s: seq<T>, keep: T -> bool, key: T -> K)
    ensures KeysDistinct(s, key) ==> KeysDistinct(Filter(s, keep), key)
  {
    if KeysDistinct(s, key) {
      KeysDistinctFilter(s, keep, key);
    }
  }

  /** The condition "the key is not `k`", named so that every deletion by key selects with the same function. */
  function KeyIsNot<T, K(==)>(key: T -> K, k: K): T -> bool {
    x => key(x) != k
  }

  /**
   * The rows of `s` whose `key` is not `k`: what deleting the rows with key
   * `k` leaves of the table, in their order.
   */
  function WithoutKey<T(!new), K(==)>(s: seq<T>, key: T -> K, k: K): (r: seq<T>)
    ensures forall x :: x in r <==> x in s && key(x) != k
    ensures (forall x :: x in s ==> key(x) != k) ==> r == s
  {
    FilterKeepsAll(s, KeyIsNot(key, k));
    Filter(s, KeyIsNot(key, k))
  }

  /** Deleting the rows with one key keeps every unique column unique. */
  lemma WithoutKeyDistinct<T(!new), K, L>(s: seq<T>, key: T -> K, k: K, other: T -> L)
    ensures KeysDistinct(s, other) ==> KeysDistinct(WithoutKey(s, key, k), other)
  {
    KeysDistinctFilterWhenDistinct(s, KeyIsNot(key, k), other);
  }
}
