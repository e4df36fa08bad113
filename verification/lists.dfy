/** Order-preserving list operations shared by the board's queries and removals. */
module Lists {
  import opened Wrappers

  /** `r` can be obtained from `s` by deleting elements, keeping the order of the rest. */
  ghost predicate IsSubsequence<T>(r: seq<T>, s: seq<T>)
    decreases |s|
  {
    r == [] || (|s| > 0 && ((r[0] == s[0] && IsSubsequence(r[1..], s[1..])) || IsSubsequence(r, s[1..])))
  }

  /**
   * The elements of `s` satisfying `p`, in their original order: every kept
   * element keeps all its copies and every dropped one loses all of them.
   */
  function Filter<T(!new)>(s: seq<T>, p: T -> bool): (r: seq<T>)
    ensures IsSubsequence(r, s)
    ensures forall x :: multiset(r)[x] == if p(x) then multiset(s)[x] else 0
    ensures forall x :: x in r <==> x in s && p(x)
    ensures |r| <= |s|
  {
    if s == [] then
      []
    else
      var rest := Filter(s[1..], p);
      assert s == [s[0]] + s[1..];
      if p(s[0]) then
        assert ([s[0]] + rest)[1..] == rest;
        [s[0]] + rest
      else
        rest
  }

  /** Filtering with predicates that agree on the elements of `s` gives the same list. */
  lemma {:induction false} FilterCongruent<T(!new)>(s: seq<T>, p: T -> bool, q: T -> bool)
    requires forall x :: x in s ==> p(x) == q(x)
    ensures Filter(s, p) == Filter(s, q)
    decreases |s|
  {
    if s != [] {
      assert forall x :: x in s[1..] ==> x in s;
      FilterCongruent(s[1..], p, q);
    }
  }

  /** A filter that keeps every element keeps the list as it is. */
  lemma {:induction false} FilterKeepsAll<T(!new)>(s: seq<T>, p: T -> bool)
    requires forall i :: 0 <= i < |s| ==> p(s[i])
    ensures Filter(s, p) == s
    decreases |s|
  {
    if s != [] {
      assert p(s[0]);
      assert forall i :: 0 <= i < |s[1..]| ==> s[1..][i] == s[i + 1];
      FilterKeepsAll(s[1..], p);
      assert Filter(s, p) == [s[0]] + Filter(s[1..], p);
      assert s == [s[0]] + s[1..];
    }
  }

  /** The index of the first element satisfying `p` (the Java search loops over a list). */
  function FindFirst<T>(s: seq<T>, p: T -> bool): (r: Option<nat>)
    ensures r.Some? ==> r.value < |s| && p(s[r.value])
    ensures forall j :: 0 <= j < |s| && (r.None? || j < r.value) ==> !p(s[j])
    decreases |s|
  {
    if s == [] then None
    else if p(s[0]) then Some(0)
    else match FindFirst(s[1..], p)
      case None => None
      case Some(i) => Some(i + 1)
  }

  /** List.remove(index): the list without its i-th element. */
  function RemoveAt<T>(s: seq<T>, i: nat): (r: seq<T>)
    requires i < |s|
    ensures |r| == |s| - 1
    ensures multiset(r) == multiset(s) - multiset{s[i]}
    ensures forall j :: 0 <= j < i ==> r[j] == s[j]
    ensures forall j :: i <= j < |r| ==> r[j] == s[j + 1]
  {
    assert s == s[..i] + [s[i]] + s[i + 1..];
    s[..i] + s[i + 1..]
  }

  /** Every pair of elements, taken in list order, is related by `ok`. */
  ghost predicate Pairwise<T>(s: seq<T>, ok: (T, T) -> bool) {
    forall i, j :: 0 <= i < j < |s| ==> ok(s[i], s[j])
  }

  lemma {:induction false} SubsequenceMembers<T>(r: seq<T>, s: seq<T>)
    requires IsSubsequence(r, s)
    ensures forall x :: x in r ==> x in s
    decreases |s|
  {
    if r != [] {
      if r[0] == s[0] && IsSubsequence(r[1..], s[1..]) {
        SubsequenceMembers(r[1..], s[1..]);
        assert forall x :: x in r ==> x == r[0] || x in r[1..];
      } else {
        SubsequenceMembers(r, s[1..]);
      }
      assert forall x :: x in s[1..] ==> x in s;
    }
  }

  /** Dropping elements keeps any pairwise property. */
  lemma {:induction false} PairwiseSubsequence<T>(r: seq<T>, s: seq<T>, ok: (T, T) -> bool)
    requires IsSubsequence(r, s) && Pairwise(s, ok)
    ensures Pairwise(r, ok)
    decreases |s|
  {
    if r != [] {
      assert Pairwise(s[1..], ok);
      if r[0] == s[0] && IsSubsequence(r[1..], s[1..]) {
        PairwiseSubsequence(r[1..], s[1..], ok);
        SubsequenceMembers(r[1..], s[1..]);
        forall i, j | 0 <= i < j < |r|
          ensures ok(r[i], r[j])
        {
          if i == 0 {
            assert r[j] in r[1..];
            var k :| 0 <= k < |s[1..]| && s[1..][k] == r[j];
            assert ok(s[0], s[k + 1]);
          } else {
            assert r[i] == r[1..][i - 1] && r[j] == r[1..][j - 1];
          }
        }
      } else {
        PairwiseSubsequence(r, s[1..], ok);
      }
    }
  }

  /** Removing an element introduces no new one. */
  lemma RemoveAtMembers<T>(s: seq<T>, i: nat)
    requires i < |s|
    ensures forall x :: x in RemoveAt(s, i) ==> x in s
  {
    var r := RemoveAt(s, i);
    forall x | x in r
      ensures x in s
    {
      var j :| 0 <= j < |r| && r[j] == x;
      if j < i {
        assert s[j] == x;
      } else {
        assert s[j + 1] == x;
      }
    }
  }

  /** Removing one element keeps any pairwise property. */
  lemma PairwiseRemoveAt<T>(s: seq<T>, i: nat, ok: (T, T) -> bool)
    requires i < |s| && Pairwise(s, ok)
    ensures Pairwise(RemoveAt(s, i), ok)
  {
    var r := RemoveAt(s, i);
    forall a, c | 0 <= a < c < |r|
      ensures ok(r[a], r[c])
    {
      var a' := if a < i then a else a + 1;
      var c' := if c < i then c else c + 1;
      assert r[a] == s[a'] && r[c] == s[c'];
    }
  }

  /** A list whose elements all equal `x` holds |r| copies of it. */
  lemma {:induction false} AllEqualCount<T>(r: seq<T>, x: T)
    requires forall y :: y in r ==> y == x
    ensures multiset(r)[x] == |r|
    decreases |r|
  {
    if r != [] {
      assert r == [r[0]] + r[1..];
      assert forall y :: y in r[1..] ==> y in r;
      AllEqualCount(r[1..], x);
      assert r[0] in r;
      assert multiset(r) == multiset{r[0]} + multiset(r[1..]);
    }
  }

  /** FindFirst returns the first index whose element satisfies `p`. */
  lemma FindFirstIs<T>(s: seq<T>, p: T -> bool, i: nat)
    requires i < |s| && p(s[i])
    requires forall j :: 0 <= j < i ==> !p(s[j])
    ensures FindFirst(s, p) == Some(i)
  {
  }

  /** The results `f` accepts, in order: a loop that skips the elements `f` rejects. */
  function FilterMap<T, U>(s: seq<T>, f: T -> Option<U>): (r: seq<U>)
    ensures |r| <= |s|
  {
    if s == [] then []
    else (match f(s[0]) case None => [] case Some(u) => [u]) + FilterMap(s[1..], f)
  }

  /** When `f` accepts every element, nothing is skipped and the results line up. */
  lemma {:induction false} FilterMapAll<T, U>(s: seq<T>, f: T -> Option<U>, expected: seq<U>)
    requires |expected| == |s|
    requires forall i :: 0 <= i < |s| ==> f(s[i]) == Some(expected[i])
    ensures FilterMap(s, f) == expected
  {
    if s != [] {
      assert f(s[0]) == Some(expected[0]);
      FilterMapAll(s[1..], f, expected[1..]);
      assert expected == [expected[0]] + expected[1..];
    }
  }
}
