/** The sequence operations that the source's queries and array methods are made of:
    a SQL `WHERE` or `Array.prototype.filter` (Filter), `COUNT(*)` or `filter().length`
    (Count), and `... LIMIT 1` or `Array.prototype.find` (FirstIndex). */
module Seqs {
  import opened Wrappers

  /** The elements of `s` that satisfy `keep`, in their original order. */
  function Filter<T>(s: seq<T>, keep: T -> bool): (r: seq<T>)
    ensures |r| <= |s|
    ensures forall i :: 0 <= i < |r| ==> r[i] in s && keep(r[i])
    ensures forall i :: 0 <= i < |s| && keep(s[i]) ==> s[i] in r
    ensures multiset(r) <= multiset(s)
  {
    if s == [] then []
    else
      assert s == [s[0]] + s[1..];
      if keep(s[0]) then [s[0]] + Filter(s[1..], keep)
      else Filter(s[1..], keep)
  }

  /** How many elements of `s` satisfy `p`. */
  function Count<T>(s: seq<T>, p: T -> bool): (n: nat)
    ensures n <= |s|
    ensures n == 0 <==> forall i :: 0 <= i < |s| ==> !p(s[i])
  {
    if s == [] then 0
    else (if p(s[0]) then 1 else 0) + Count(s[1..], p)
  }

  /** Counting is filtering and measuring. */
  lemma {:induction false} CountIsFilterLength<T>(s: seq<T>, p: T -> bool)
    ensures Count(s, p) == |Filter(s, p)|
  {
    if s != [] {
      CountIsFilterLength(s[1..], p);
    }
  }

  /** A stronger condition never counts more elements. */
  lemma {:induction false} CountMonotone<T>(s: seq<T>, p: T -> bool, q: T -> bool)
    requires forall x :: p(x) ==> q(x)
    ensures Count(s, p) <= Count(s, q)
  {
    if s != [] {
      CountMonotone(s[1..], p, q);
    }
  }

  /** Filtering by a condition leaves exactly what the opposite condition counts out. */
  lemma {:induction false} FilterComplementLength<T>(s: seq<T>, keep: T -> bool, drop: T -> bool)
    requires forall x :: keep(x) == !drop(x)
    ensures |Filter(s, keep)| == |s| - Count(s, drop)
  {
    if s != [] {
      FilterComplementLength(s[1..], keep, drop);
    }
  }

  /** No two elements satisfy `p`. */
  ghost predicate AtMostOne<T>(s: seq<T>, p: T -> bool) {
    forall i, j :: 0 <= i < j < |s| ==> !(p(s[i]) && p(s[j]))
  }

  /** When no two elements satisfy `p`, it counts one element or none. */
  lemma {:induction false} CountAtMostOne<T>(s: seq<T>, p: T -> bool)
    requires AtMostOne(s, p)
    ensures Count(s, p) == if exists i :: 0 <= i < |s| && p(s[i]) then 1 else 0
  {
    if s != [] {
      assert AtMostOne(s[1..], p) by {
        forall i, j | 0 <= i < j < |s[1..]| ensures !(p(s[1..][i]) && p(s[1..][j])) {
          assert s[1..][i] == s[i + 1] && s[1..][j] == s[j + 1];
        }
      }
      CountAtMostOne(s[1..], p);
      if p(s[0]) {
        forall j | 0 <= j < |s[1..]| ensures !p(s[1..][j]) {
          assert s[1..][j] == s[j + 1];
        }
      } else if exists i :: 0 <= i < |s| && p(s[i]) {
        var i :| 0 <= i < |s| && p(s[i]);
        assert p(s[1..][i - 1]);
      } else {
        forall j | 0 <= j < |s[1..]| ensures !p(s[1..][j]) {
          assert s[1..][j] == s[j + 1];
        }
      }
    }
  }

  /** The index of the first element of `s` that satisfies `p`, if any. */
  function FirstIndex<T>(s: seq<T>, p: T -> bool): (r: Option<nat>)
    ensures r.Some? ==> r.value < |s| && p(s[r.value])
    ensures r.Some? ==> forall j :: 0 <= j < r.value ==> !p(s[j])
    ensures r.None? <==> forall j :: 0 <= j < |s| ==> !p(s[j])
  {
    if s == [] then None
    else if p(s[0]) then Some(0)
    else match FirstIndex(s[1..], p)
      case None => None
      case Some(k) => Some(k + 1)
  }

  /** The first element of `s` that satisfies `p`, if any. */
  function First<T>(s: seq<T>, p: T -> bool): (r: Option<T>)
    ensures r.Some? ==> r.value in s && p(r.value)
    ensures r.None? <==> forall j :: 0 <= j < |s| ==> !p(s[j])
  {
    match FirstIndex(s, p)
    case None => None
    case Some(i) => Some(s[i])
  }

  /** When at most one element satisfies `p`, the first one is the only one. */
  lemma FirstOfUnique<T>(s: seq<T>, p: T -> bool, i: nat)
    requires i < |s| && p(s[i])
    requires forall j :: 0 <= j < |s| && j != i ==> !p(s[j])
    ensures FirstIndex(s, p) == Some(i)
    ensures First(s, p) == Some(s[i])
  {
  }

  /** Two sequences that agree on `p` position by position, and on every element that
      satisfies it, have the same first match. */
  lemma FirstIndexAgrees<T>(s: seq<T>, s': seq<T>, p: T -> bool)
    requires |s| == |s'| && forall j :: 0 <= j < |s| ==> p(s'[j]) == p(s[j])
    requires forall j :: 0 <= j < |s| && p(s[j]) ==> s'[j] == s[j]
    ensures FirstIndex(s', p) == FirstIndex(s, p)
    ensures First(s', p) == First(s, p)
  {
  }

  /** Appending the only element that satisfies `p` makes it the first and only match. */
  lemma AppendOnlyMatch<T>(s: seq<T>, x: T, p: T -> bool)
    requires forall j :: 0 <= j < |s| ==> !p(s[j])
    requires p(x)
    ensures FirstIndex(s + [x], p) == Some(|s|)
    ensures First(s + [x], p) == Some(x)
    ensures Count(s + [x], p) == 1
  {
    var s' := s + [x];
    assert forall j :: 0 <= j < |s| ==> s'[j] == s[j];
    assert s'[|s|] == x;
    FirstOfUnique(s', p, |s|);
    CountAtMostOne(s', p);
  }

  /** Appending an element that does not satisfy `p` does not change the first match. */
  lemma FirstIndexOfAppend<T>(s: seq<T>, x: T, p: T -> bool)
    requires !p(x)
    ensures FirstIndex(s + [x], p) == FirstIndex(s, p)
    ensures First(s + [x], p) == First(s, p)
  {
    var s' := s + [x];
    assert forall j :: 0 <= j < |s| ==> s'[j] == s[j];
  }

  /** Predicates that agree position by position on two sequences of the same length pick
      the same first index, whatever the element types. */
  lemma {:induction false} FirstIndexCorresponds<A, B>(s: seq<A>, t: seq<B>, p: A -> bool, q: B -> bool)
    requires |s| == |t| && forall j :: 0 <= j < |s| ==> p(s[j]) == q(t[j])
    ensures FirstIndex(s, p) == FirstIndex(t, q)
  {
    if s != [] && !p(s[0]) {
      assert forall j :: 0 <= j < |s| - 1 ==> s[1..][j] == s[j + 1] && t[1..][j] == t[j + 1];
      FirstIndexCorresponds(s[1..], t[1..], p, q);
    }
  }

  /** Every element is counted exactly when every element satisfies `p`. */
  lemma {:induction false} CountAll<T>(s: seq<T>, p: T -> bool)
    ensures Count(s, p) == |s| <==> forall i :: 0 <= i < |s| ==> p(s[i])
  {
    if s != [] {
      CountAll(s[1..], p);
      assert forall i :: 1 <= i < |s| ==> s[i] == s[1..][i - 1];
    }
  }
}
