/**
 * Ordering used by the queries of the model: an insertion sort over any
 * total preorder (the database's ORDER BY), and the lexicographic order
 * on strings used to order auctions by make.
 */
module Sorting {

  /** `le` is total and transitive: a valid sort key comparison. */
  ghost predicate IsTotalPreorder<T(!new)>(le: (T, T) -> bool) {
    && (forall x, y :: le(x, y) || le(y, x))
    && (forall x, y, z :: le(x, y) && le(y, z) ==> le(x, z))
  }

  /** Every element is `le` every later element. */
  predicate SortedBy<T>(s: seq<T>, le: (T, T) -> bool) {
    forall i, j :: 0 <= i < j < |s| ==> le(s[i], s[j])
  }

  /** Inserts `x` into the sorted sequence `s`, before the first element it is `le`. */
  function Insert<T(!new)>(x: T, s: seq<T>, le: (T, T) -> bool): (r: seq<T>)
    requires IsTotalPreorder(le)
    requires SortedBy(s, le)
    ensures multiset(r) == multiset(s) + multiset{x}
    ensures SortedBy(r, le)
  {
    if s == [] || le(x, s[0]) then
      [x] + s
    else
      var rest := Insert(x, s[1..], le);
      assert s == [s[0]] + s[1..];
      BelowAllKept(s[0], x, s[1..], rest, le);
      assert multiset([s[0]] + rest) == multiset([s[0]]) + multiset(rest);
      [s[0]] + rest
  }

  /** An element `le` all of `s` and `le` x can head any sorted rearrangement of s with x added. */
  lemma BelowAllKept<T>(y: T, x: T, s: seq<T>, r: seq<T>, le: (T, T) -> bool)
    requires forall j :: 0 <= j < |s| ==> le(y, s[j])
    requires le(y, x) && multiset(r) == multiset(s) + multiset{x}
    requires SortedBy(r, le)
    ensures SortedBy([y] + r, le)
  {
    forall k | 0 <= k < |r| ensures le(y, r[k]) {
      assert r[k] in multiset(r);
      if r[k] != x {
        assert r[k] in multiset(s);
        var j :| 0 <= j < |s| && s[j] == r[k];
      }
    }
    var t := [y] + r;
    forall i, j | 0 <= i < j < |t| ensures le(t[i], t[j]) {
      assert t[j] == r[j - 1];
      if i > 0 { assert t[i] == r[i - 1]; }
    }
  }

  /** Sorts `s` by `le`: the result is ordered and a permutation of `s`. */
  function SortBy<T(!new)>(s: seq<T>, le: (T, T) -> bool): (r: seq<T>)
    requires IsTotalPreorder(le)
    ensures multiset(r) == multiset(s)
    ensures SortedBy(r, le)
  {
    if s == [] then []
    else
      assert s == [s[0]] + s[1..];
      Insert(s[0], SortBy(s[1..], le), le)
  }

  /** Lexicographic order on strings by character code (ordinal comparison). */
  predicate LexLessEq(a: string, b: string) {
    if a == [] then true
    else if b == [] then false
    else if a[0] != b[0] then a[0] < b[0]
    else LexLessEq(a[1..], b[1..])
  }

  lemma {:induction false} LexTotal(a: string, b: string)
    ensures LexLessEq(a, b) || LexLessEq(b, a)
  {
    if a != [] && b != [] && a[0] == b[0] {
      LexTotal(a[1..], b[1..]);
    }
  }

  lemma {:induction false} LexTransitive(a: string, b: string, c: string)
    requires LexLessEq(a, b) && LexLessEq(b, c)
    ensures LexLessEq(a, c)
  {
    if a != [] && b != [] && c != [] && a[0] == b[0] == c[0] {
      LexTransitive(a[1..], b[1..], c[1..]);
    }
  }

  /** The lexicographic order is a valid key comparison for SortBy. */
  lemma LexIsTotalPreorder()
    ensures IsTotalPreorder(LexLessEq)
  {
    forall x, y ensures LexLessEq(x, y) || LexLessEq(y, x) {
      LexTotal(x, y);
    }
    forall x, y, z | LexLessEq(x, y) && LexLessEq(y, z) ensures LexLessEq(x, z) {
      LexTransitive(x, y, z);
    }
  }
}
