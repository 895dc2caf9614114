/** Array helpers of the source (`filter`, `findIndex`, `map`, `Math.max(...xs, 0)`),
    with the facts about them that the rest of the model relies on. */
module Seqs {
  import opened Wrappers

  /** `a` can be obtained from `b` by deleting elements: an order-preserving sub-list. */
  ghost predicate IsSubsequence<T>(a: seq<T>, b: seq<T>)
    decreases |b|
  {
    a == [] || (b != [] && ((a[0] == b[0] && IsSubsequence(a[1..], b[1..])) || IsSubsequence(a, b[1..])))
  }

  /** `Array.prototype.filter`. */
  function Filter<T>(s: seq<T>, p: T -> bool): (r: seq<T>)
    ensures |r| <= |s|
  {
    if s == [] then []
    else if p(s[0]) then [s[0]] + Filter(s[1..], p)
    else Filter(s[1..], p)
  }

  /** The filter keeps exactly the elements satisfying `p`, each as often as it occurs, in
      their original order. */
  lemma {:induction false} FilterSpec<T>(s: seq<T>, p: T -> bool)
    ensures var r := Filter(s, p);
      && (forall i :: 0 <= i < |r| ==> r[i] in s && p(r[i]))
      && (forall i :: 0 <= i < |s| && p(s[i]) ==> s[i] in r)
      && (forall x :: multiset(r)[x] == if p(x) then multiset(s)[x] else 0)
      && IsSubsequence(r, s)
  {
    FilterMultiset(s, p);
    FilterMembers(s, p);
  }

  lemma {:induction false} FilterMembers<T>(s: seq<T>, p: T -> bool)
    ensures var r := Filter(s, p);
      && (forall i :: 0 <= i < |r| ==> r[i] in s && p(r[i]))
      && (forall i :: 0 <= i < |s| && p(s[i]) ==> s[i] in r)
      && IsSubsequence(r, s)
  {
    if s != [] {
      FilterMembers(s[1..], p);
      var rest := Filter(s[1..], p);
      if p(s[0]) {
        var r := [s[0]] + rest;
        assert r[1..] == rest;
        forall i | 0 <= i < |s| && p(s[i])
          ensures s[i] in r
        {
          if i > 0 {
            assert s[i] == s[1..][i - 1];
          }
        }
      } else {
        forall i | 0 <= i < |s| && p(s[i])
          ensures s[i] in rest
        {
          assert s[i] == s[1..][i - 1];
        }
      }
    }
  }

  /** Each element satisfying `p` occurs in the filtered list as often as in `s`; no other
      element occurs in it. */
  lemma {:induction false} FilterMultiset<T>(s: seq<T>, p: T -> bool)
    ensures forall x :: multiset(Filter(s, p))[x] == if p(x) then multiset(s)[x] else 0
  {
    if s != [] {
      FilterMultiset(s[1..], p);
      assert s == [s[0]] + s[1..];
      assert multiset(s) == multiset([s[0]]) + multiset(s[1..]);
      if p(s[0]) {
        assert multiset(Filter(s, p)) == multiset([s[0]]) + multiset(Filter(s[1..], p));
      }
    }
  }

  /** `s.filter(p).length`. */
  function Count<T>(s: seq<T>, p: T -> bool): (n: nat)
    ensures n <= |s|
  {
    |Filter(s, p)|
  }

  /** `Array.prototype.map`. */
  function Map<T, U>(s: seq<T>, f: T -> U): (r: seq<U>)
    ensures |r| == |s|
    ensures forall i :: 0 <= i < |s| ==> r[i] == f(s[i])
  {
    if s == [] then [] else [f(s[0])] + Map(s[1..], f)
  }

  /** Mapping one element more appends its image. */
  lemma MapSnoc<T, U>(s: seq<T>, f: T -> U, i: nat)
    requires i < |s|
    ensures Map(s[..i + 1], f) == Map(s[..i], f) + [f(s[i])]
  {
    var longer, shorter := Map(s[..i + 1], f), Map(s[..i], f);
    forall k | 0 <= k < |longer|
      ensures longer[k] == (shorter + [f(s[i])])[k]
    {
      if k < i {
        assert s[..i + 1][k] == s[..i][k];
      }
    }
  }

  /** `Array.prototype.findIndex`: the first index satisfying `p`, or -1. */
  function FindIndex<T>(s: seq<T>, p: T -> bool): (i: int)
    ensures -1 <= i < |s|
    ensures i == -1 <==> forall k :: 0 <= k < |s| ==> !p(s[k])
    ensures 0 <= i ==> p(s[i]) && forall k :: 0 <= k < i ==> !p(s[k])
  {
    if s == [] then -1
    else if p(s[0]) then 0
    else var j := FindIndex(s[1..], p); if j == -1 then -1 else j + 1
  }

  /** `Array.prototype.find`: the first element satisfying `p`, or nothing. */
  function Find<T>(s: seq<T>, p: T -> bool): (r: Option<T>)
    ensures r.None? <==> forall k :: 0 <= k < |s| ==> !p(s[k])
    ensures r.Some? ==> exists k :: 0 <= k < |s| && r.value == s[k] && p(s[k]) && forall j :: 0 <= j < k ==> !p(s[j])
  {
    var i := FindIndex(s, p);
    if i == -1 then None else Some(s[i])
  }

  /** `Math.max(...xs, 0)`. */
  function MaxOrZero(xs: seq<int>): (m: int)
    ensures 0 <= m
    ensures forall x :: x in xs ==> x <= m
    ensures m == 0 || m in xs
  {
    if xs == [] then 0
    else var rest := MaxOrZero(xs[1..]);
    assert forall x :: x in xs ==> x == xs[0] || x in xs[1..];
    if xs[0] > rest then xs[0] else rest
  }

  /** Removing one element keeps the others in order (`splice(i, 1)`). */
  lemma {:induction false} RemoveAtIsSubsequence<T>(s: seq<T>, i: nat)
    requires i < |s|
    ensures IsSubsequence(s[..i] + s[i + 1..], s)
  {
    if i == 0 {
      SuffixIsSubsequence(s[1..], s);
      assert s[..0] + s[1..] == s[1..];
    } else {
      RemoveAtIsSubsequence(s[1..], i - 1);
      var r := s[..i] + s[i + 1..];
      assert r[0] == s[0];
      assert r[1..] == s[1..][..i - 1] + s[1..][i..];
    }
  }

  lemma {:induction false} SuffixIsSubsequence<T>(a: seq<T>, b: seq<T>)
    requires |b| > 0 && a == b[1..]
    ensures IsSubsequence(a, b)
  {
    SelfIsSubsequence(a);
  }

  lemma {:induction false} SelfIsSubsequence<T>(a: seq<T>)
    ensures IsSubsequence(a, a)
  {
    if a != [] {
      SelfIsSubsequence(a[1..]);
    }
  }

  lemma {:induction false} FilterAppend<T>(a: seq<T>, b: seq<T>, p: T -> bool)
    ensures Filter(a + b, p) == Filter(a, p) + Filter(b, p)
  {
    if a == [] {
      assert a + b == b;
    } else {
      assert (a + b)[1..] == a[1..] + b;
      FilterAppend(a[1..], b, p);
    }
  }

  /** Replacing an element by one that `p` treats the same way leaves the matches of `p`
      unchanged, except that a matching element is itself replaced. */
  lemma {:induction false} FilterUpdate<T>(s: seq<T>, i: nat, v: T, p: T -> bool)
    requires i < |s| && p(s[i]) == p(v)
    ensures !p(v) ==> Filter(s[i := v], p) == Filter(s, p)
    ensures |Filter(s[i := v], p)| == |Filter(s, p)|
  {
    if i == 0 {
      assert s[i := v][1..] == s[1..];
    } else {
      assert s[i := v][1..] == s[1..][i - 1 := v];
      FilterUpdate(s[1..], i - 1, v, p);
    }
  }

  /** When `k` is the only index satisfying `p`, the filter is exactly `[s[k]]`. */
  lemma {:induction false} FilterSingle<T>(s: seq<T>, k: nat, p: T -> bool)
    requires k < |s| && p(s[k])
    requires forall j :: 0 <= j < |s| && j != k ==> !p(s[j])
    ensures Filter(s, p) == [s[k]]
  {
    if k == 0 {
      FilterNone(s[1..], p);
    } else {
      FilterSingle(s[1..], k - 1, p);
    }
  }

  lemma {:induction false} FilterNone<T>(s: seq<T>, p: T -> bool)
    requires forall j :: 0 <= j < |s| ==> !p(s[j])
    ensures Filter(s, p) == []
  {
    if s != [] {
      FilterNone(s[1..], p);
    }
  }

  /** Replacing a kept element by another kept one is, on the filtered sequence, the same as
      mapping a function that makes that replacement and leaves the other kept elements alone. */
  lemma {:induction false} FilterUpdateAsMap<T>(s: seq<T>, k: nat, v: T, p: T -> bool, f: T -> T)
    requires k < |s| && p(s[k]) && p(v) && f(s[k]) == v
    requires forall i :: 0 <= i < |s| && i != k && p(s[i]) ==> f(s[i]) == s[i]
    ensures Filter(s[k := v], p) == Map(Filter(s, p), f)
  {
    var t := s[k := v];
    assert t[1..] == if k == 0 then s[1..] else s[1..][k - 1 := v];
    if k == 0 {
      FilterMapIdentity(s[1..], p, f);
    } else {
      forall i | 0 <= i < |s[1..]| && i != k - 1 && p(s[1..][i])
        ensures f(s[1..][i]) == s[1..][i]
      {
        assert s[1..][i] == s[i + 1];
      }
      FilterUpdateAsMap(s[1..], k - 1, v, p, f);
      assert t[0] == s[0];
      if p(s[0]) {
        assert f(s[0]) == s[0];
      }
    }
  }

  /** Mapping a function that fixes every kept element leaves the filtered sequence alone. */
  lemma {:induction false} FilterMapIdentity<T>(s: seq<T>, p: T -> bool, f: T -> T)
    requires forall i :: 0 <= i < |s| && p(s[i]) ==> f(s[i]) == s[i]
    ensures Map(Filter(s, p), f) == Filter(s, p)
  {
    if s != [] {
      forall i | 0 <= i < |s[1..]| && p(s[1..][i])
        ensures f(s[1..][i]) == s[1..][i]
      {
        assert s[1..][i] == s[i + 1];
      }
      FilterMapIdentity(s[1..], p, f);
    }
  }

  /** Counting with a weaker predicate never gives less. */
  lemma {:induction false} CountMonotone<T>(s: seq<T>, p: T -> bool, q: T -> bool)
    requires forall x :: p(x) ==> q(x)
    ensures Count(s, p) <= Count(s, q)
  {
    if s != [] {
      CountMonotone(s[1..], p, q);
    }
  }

  /** Every element counts exactly when the count is the length. */
  lemma {:induction false} CountAll<T>(s: seq<T>, p: T -> bool)
    ensures Count(s, p) == |s| <==> forall x :: x in s ==> p(x)
  {
    if s != [] {
      CountAll(s[1..], p);
      assert forall x :: x in s ==> x == s[0] || x in s[1..];
    }
  }

  /** Two predicates that agree on the elements of `s` filter it alike. */
  lemma {:induction false} FilterAgree<T>(s: seq<T>, p: T -> bool, q: T -> bool)
    requires forall i :: 0 <= i < |s| ==> p(s[i]) == q(s[i])
    ensures Filter(s, p) == Filter(s, q)
  {
    if s != [] {
      FilterAgree(s[1..], p, q);
    }
  }

  /** `Array.prototype.some`. */
  function Any<T>(s: seq<T>, p: T -> bool): (b: bool)
    ensures b <==> exists i :: 0 <= i < |s| && p(s[i])
  {
    if s == [] then false
    else p(s[0]) || (assert forall i :: 0 < i < |s| ==> s[i] == s[1..][i - 1]; Any(s[1..], p))
  }

  /** When every element satisfies `p`, filtering keeps the whole sequence. */
  lemma {:induction false} FilterAll<T>(s: seq<T>, p: T -> bool)
    requires forall i :: 0 <= i < |s| ==> p(s[i])
    ensures Filter(s, p) == s
  {
    if s != [] {
      FilterAll(s[1..], p);
    }
  }

  /** Counting one more element. */
  lemma CountSnoc<T>(s: seq<T>, x: T, p: T -> bool)
    ensures Count(s + [x], p) == Count(s, p) + (if p(x) then 1 else 0)
  {
    FilterAppend(s, [x], p);
  }
}
