/**
 * Sequence helpers for querysets: filtering that keeps order, and the
 * default orderings of the models' `Meta.ordering` as a stable insertion
 * sort under a total preorder (recipes newest `pub_date` first, users by
 * username).
 */
module Sequences {

  /** `le` is total and transitive on every pair of values. */
  ghost predicate TotalPreorder<T(!new)>(le: (T, T) -> bool) {
    && (forall a, b :: le(a, b) || le(b, a))
    && (forall a, b, c :: le(a, b) && le(b, c) ==> le(a, c))
  }

  predicate SortedBy<T>(s: seq<T>, le: (T, T) -> bool) {
    forall i, j :: 0 <= i < j < |s| ==> le(s[i], s[j])
  }

  function Insert<T(!new)>(x: T, s: seq<T>, le: (T, T) -> bool): (r: seq<T>)
    requires TotalPreorder(le) && SortedBy(s, le)
    ensures SortedBy(r, le)
    ensures multiset(r) == multiset(s) + multiset{x}
  {
    if |s| == 0 then [x]
    else if le(x, s[0]) then [x] + s
    else
      var tail := Insert(x, s[1..], le);
      assert s == [s[0]] + s[1..];
      assert forall k :: 0 <= k < |tail| ==> le(s[0], tail[k]) by {
        forall k | 0 <= k < |tail| ensures le(s[0], tail[k]) {
          assert tail[k] in multiset(tail);
          if tail[k] != x {
            assert tail[k] in s[1..];
          }
        }
      }
      [s[0]] + tail
  }

  /** The elements of `s` in non-decreasing `le` order. */
  function SortBy<T(!new)>(s: seq<T>, le: (T, T) -> bool): (r: seq<T>)
    requires TotalPreorder(le)
    ensures SortedBy(r, le)
    ensures multiset(r) == multiset(s)
  {
    if |s| == 0 then []
    else
      assert s == [s[0]] + s[1..];
      Insert(s[0], SortBy(s[1..], le), le)
  }

  /** `a` is `b` with some elements left out, order kept. */
  predicate SubsequenceOf<T(==)>(a: seq<T>, b: seq<T>)
    decreases |b|
  {
    if |a| == 0 then true
    else if |b| == 0 then false
    else (a[0] == b[0] && SubsequenceOf(a[1..], b[1..])) || SubsequenceOf(a, b[1..])
  }

  lemma {:induction false} SubsequenceReflexive<T>(a: seq<T>)
    ensures SubsequenceOf(a, a)
    decreases |a|
  {
    if |a| > 0 {
      SubsequenceReflexive(a[1..]);
    }
  }

  lemma {:induction false} SubsequenceTransitive<T>(a: seq<T>, b: seq<T>, c: seq<T>)
    requires SubsequenceOf(a, b) && SubsequenceOf(b, c)
    ensures SubsequenceOf(a, c)
    decreases |c|
  {
    if |a| > 0 && |c| > 0 {
      if b[0] == c[0] && SubsequenceOf(b[1..], c[1..]) {
        if a[0] == b[0] && SubsequenceOf(a[1..], b[1..]) {
          SubsequenceTransitive(a[1..], b[1..], c[1..]);
        } else {
          SubsequenceTransitive(a, b[1..], c[1..]);
        }
      } else {
        SubsequenceTransitive(a, b, c[1..]);
      }
    }
  }

  /** The elements of `qs` that pass `keep`, in order. */
  function Where<T(!new,==)>(qs: seq<T>, keep: T -> bool): (r: seq<T>)
    ensures forall x :: x in r <==> x in qs && keep(x)
    ensures SubsequenceOf(r, qs)
    ensures (forall x :: x in qs ==> keep(x)) ==> r == qs
    decreases |qs|
  {
    if |qs| == 0 then []
    else
      var rest := Where(qs[1..], keep);
      if keep(qs[0]) then [qs[0]] + rest
      else
        assert SubsequenceOf(rest, qs) by {
          if |rest| > 0 {
            assert qs[1..] == qs[1..];
          }
        }
        rest
  }

  lemma {:induction false} WhereConcat<T(!new)>(a: seq<T>, b: seq<T>, keep: T -> bool)
    ensures Where(a + b, keep) == Where(a, keep) + Where(b, keep)
    decreases |a|
  {
    if |a| > 0 {
      assert (a + b)[1..] == a[1..] + b;
      WhereConcat(a[1..], b, keep);
    } else {
      assert a + b == b;
    }
  }

  /** Filtering by a stronger condition after a weaker one is filtering by
      the stronger one alone. */
  lemma {:induction false} WhereWhere<T(!new)>(s: seq<T>, weak: T -> bool, strong: T -> bool)
    requires forall x :: strong(x) ==> weak(x)
    ensures Where(Where(s, weak), strong) == Where(s, strong)
    decreases |s|
  {
    if |s| > 0 {
      WhereWhere(s[1..], weak, strong);
      if weak(s[0]) {
        assert Where(s, weak)[1..] == Where(s[1..], weak);
      }
    }
  }

  /** Nothing passes a filter that no element satisfies. */
  lemma WhereNone<T(!new)>(s: seq<T>, keep: T -> bool)
    requires forall x :: x in s ==> !keep(x)
    ensures Where(s, keep) == []
  {
  }

  /** Every element of a subsequence is an element of the whole. */
  lemma {:induction false} SubsequenceMembers<T>(a: seq<T>, b: seq<T>)
    requires SubsequenceOf(a, b)
    ensures forall x :: x in a ==> x in b
    decreases |b|
  {
    if |a| > 0 {
      if a[0] == b[0] && SubsequenceOf(a[1..], b[1..]) {
        SubsequenceMembers(a[1..], b[1..]);
        assert forall x :: x in a ==> x == a[0] || x in a[1..];
      } else {
        SubsequenceMembers(a, b[1..]);
      }
    }
  }

  /** Leaving elements out of a sorted sequence keeps it sorted. */
  lemma {:induction false} SortedSubsequence<T>(a: seq<T>, b: seq<T>, le: (T, T) -> bool)
    requires SubsequenceOf(a, b) && SortedBy(b, le)
    ensures SortedBy(a, le)
    decreases |b|
  {
    if |a| > 0 {
      assert SortedBy(b[1..], le) by {
        forall i, j | 0 <= i < j < |b[1..]| ensures le(b[1..][i], b[1..][j]) {
          assert b[1..][i] == b[i + 1] && b[1..][j] == b[j + 1];
        }
      }
      if a[0] == b[0] && SubsequenceOf(a[1..], b[1..]) {
        SortedSubsequence(a[1..], b[1..], le);
        SubsequenceMembers(a[1..], b[1..]);
        forall i, j | 0 <= i < j < |a| ensures le(a[i], a[j]) {
          if i == 0 {
            assert a[j] == a[1..][j - 1] && a[1..][j - 1] in a[1..];
            var k :| 0 <= k < |b[1..]| && b[1..][k] == a[j];
            assert b[k + 1] == a[j];
          } else {
            assert a[i] == a[1..][i - 1] && a[j] == a[1..][j - 1];
          }
        }
      } else {
        SortedSubsequence(a, b[1..], le);
      }
    }
  }
}
