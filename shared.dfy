/** Values shared by every part of the model: an optional value, the outcome
    of an HTTP view handler, and the filter/count queries that the object
    mapper runs over a table. */
module Shared {

  datatype Option<+T> = None | Some(value: T)

  /** What a view handler answers. `Redirect` carries the name of the route it
      redirects to; `Rendered` is a page rendered again with its form;
      `ServerError` is an exception that escapes the handler. */
  datatype Response =
    | BadRequest(reason: string)
    | Forbidden(reason: string)
    | NotFound
    | ServerError
    | Redirect(target: string)
    | Rendered

  /** The rows of a table that satisfy `p`, in table order
      (`Model.objects.filter(...)`). */
  function Filter<T(==,!new)>(s: seq<T>, p: T -> bool): (r: seq<T>)
    ensures |r| <= |s|
    ensures forall x :: x in r <==> x in s && p(x)
  {
    if s == [] then []
    else (if p(s[0]) then [s[0]] else []) + Filter(s[1..], p)
  }

  /** A filter keeps every copy of a matching row and no copy of any other
      row: it fixes how many times each row appears, not only which rows. */
  lemma {:induction false} FilterMultiset<T(!new)>(s: seq<T>, p: T -> bool)
    ensures forall x :: multiset(Filter(s, p))[x] == if p(x) then multiset(s)[x] else 0
  {
    if s != [] {
      assert s == [s[0]] + s[1..];
      FilterMultiset(s[1..], p);
    }
  }

  /** The number of rows of a table that satisfy `p`, as a separate query
      (`Model.objects.filter(...).count()`). */
  function Count<T>(s: seq<T>, p: T -> bool): nat
  {
    if s == [] then 0
    else (if p(s[0]) then 1 else 0) + Count(s[1..], p)
  }

  /** A count query agrees with the length of the list the matching filter
      query returns. */
  lemma {:induction false} CountIsFilterLength<T(!new)>(s: seq<T>, p: T -> bool)
    ensures Count(s, p) == |Filter(s, p)|
  {
    if s != [] {
      CountIsFilterLength(s[1..], p);
    }
  }

  /** When every row satisfies exactly one of `p` and `q`, the two counts add
      up to the size of the table. */
  lemma {:induction false} CountPartition<T>(s: seq<T>, p: T -> bool, q: T -> bool)
    requires forall i :: 0 <= i < |s| ==> p(s[i]) != q(s[i])
    ensures Count(s, p) + Count(s, q) == |s|
  {
    if s != [] {
      CountPartition(s[1..], p, q);
    }
  }

  /** No two rows of a table share a key (a primary-key column). */
  predicate UniqueKeys<T>(s: seq<T>, key: T -> nat) {
    forall i, j :: 0 <= i < j < |s| ==> key(s[i]) != key(s[j])
  }

  /** Deleting rows cannot make two remaining rows share a key. */
  lemma {:induction false} FilterKeepsUniqueKeys<T(!new)>(s: seq<T>, p: T -> bool, key: T -> nat)
    requires UniqueKeys(s, key)
    ensures UniqueKeys(Filter(s, p), key)
  {
    if s != [] {
      var tail := Filter(s[1..], p);
      FilterKeepsUniqueKeys(s[1..], p, key);
      if p(s[0]) {
        var r := [s[0]] + tail;
        forall i, j | 0 <= i < j < |r| ensures key(r[i]) != key(r[j]) {
          if i == 0 {
            assert r[j] in s[1..];
            var k :| 0 <= k < |s[1..]| && s[1..][k] == r[j];
            assert s[k + 1] == r[j];
          } else {
            assert r[i] == tail[i - 1] && r[j] == tail[j - 1];
          }
        }
      }
    }
  }
}
