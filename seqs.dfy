/** Sequence operations the pages use from the JavaScript array library:
    `filter`, `slice(0, n)` and `find`, with the facts the rest of the model
    needs about them. */
module Seqs {

  datatype Option<+T> = None | Some(value: T)

  /** `Array.prototype.filter`: the elements of `s` that satisfy `p`, in order.
      Defined from the back so that appending one element unfolds directly. */
  function Filter<T>(s: seq<T>, p: T -> bool): (r: seq<T>)
    ensures |r| <= |s|
    ensures forall x :: x in r ==> x in s && p(x)
    ensures multiset(r) <= multiset(s)
  {
    if s == [] then []
    else
      var init := Filter(s[..|s| - 1], p);
      assert s == s[..|s| - 1] + [s[|s| - 1]];
      if p(s[|s| - 1]) then init + [s[|s| - 1]] else init
  }

  lemma FilterSnoc<T>(s: seq<T>, x: T, p: T -> bool)
    ensures Filter(s + [x], p) == Filter(s, p) + (if p(x) then [x] else [])
  {
    assert (s + [x])[..|s|] == s;
  }

  /** A common suffix cancels. */
  lemma AppendCancel<T>(a: seq<T>, b: seq<T>, c: seq<T>)
    requires a + c == b + c
    ensures a == b
  {
    assert |a| == |b|;
    assert (a + c)[..|a|] == a;
    assert (b + c)[..|b|] == b;
  }

  /** Two suffixes of which one is empty may be appended in either order. */
  lemma AppendSwapEmpty<T>(a: seq<T>, xs: seq<T>, ys: seq<T>)
    requires xs == [] || ys == []
    ensures a + xs + ys == a + ys + xs
  {
    if xs == [] {
      assert a + xs == a;
      assert a + ys + xs == a + ys;
    } else {
      assert a + ys == a;
      assert a + xs + ys == a + xs;
    }
  }

  /** An element occurs in the filtered sequence exactly as often as in the
      input when it satisfies `p`, and not at all otherwise. */
  lemma {:induction false} FilterMultiplicity<T>(s: seq<T>, p: T -> bool, x: T)
    ensures multiset(Filter(s, p))[x] == if p(x) then multiset(s)[x] else 0
  {
    if s != [] {
      var init, last := s[..|s| - 1], s[|s| - 1];
      assert s == init + [last];
      FilterMultiplicity(init, p, x);
      FilterSnoc(init, last, p);
    }
  }

  lemma FilterKeeps<T>(s: seq<T>, p: T -> bool, x: T)
    requires x in s && p(x)
    ensures x in Filter(s, p)
  {
    FilterMultiplicity(s, p, x);
  }

  /** Filtering with two extensionally equal predicates gives the same result. */
  lemma {:induction false} FilterExt<T>(s: seq<T>, p: T -> bool, q: T -> bool)
    requires forall x :: x in s ==> p(x) == q(x)
    ensures Filter(s, p) == Filter(s, q)
  {
    if s != [] {
      FilterExt(s[..|s| - 1], p, q);
    }
  }

  /** A predicate that holds on every element keeps the whole sequence. */
  lemma {:induction false} FilterAll<T>(s: seq<T>, p: T -> bool)
    requires forall x :: x in s ==> p(x)
    ensures Filter(s, p) == s
  {
    if s != [] {
      FilterAll(s[..|s| - 1], p);
      assert s == s[..|s| - 1] + [s[|s| - 1]];
    }
  }

  /** Two filters in a row are one filter by the conjunction. */
  lemma {:induction false} FilterFilter<T>(s: seq<T>, p: T -> bool, q: T -> bool, pq: T -> bool)
    requires forall x :: x in s ==> pq(x) == (p(x) && q(x))
    ensures Filter(Filter(s, p), q) == Filter(s, pq)
  {
    if s != [] {
      var init, last := s[..|s| - 1], s[|s| - 1];
      FilterFilter(init, p, q, pq);
      if p(last) {
        FilterSnoc(Filter(init, p), last, q);
      }
    }
  }

  /** One guarded step of a filter chain, `if (active) cur = cur.filter(step)`,
      turns the filter by `stage` into the filter by `next`. */
  lemma FilterGuarded<T>(s: seq<T>, cur: seq<T>, stage: T -> bool, step: T -> bool,
                         next: T -> bool, active: bool, out: seq<T>)
    requires cur == Filter(s, stage)
    requires out == if active then Filter(cur, step) else cur
    requires forall x :: next(x) == (stage(x) && (active ==> step(x)))
    ensures out == Filter(s, next)
  {
    if active {
      FilterFilter(s, stage, step, next);
    } else {
      FilterExt(s, stage, next);
    }
  }

  /** `a` is a subsequence of `b`: `b` with some elements deleted, order kept. */
  predicate IsSubseq<T(==)>(a: seq<T>, b: seq<T>)
    decreases |b|
  {
    a == [] ||
    (b != [] &&
     ((a[|a| - 1] == b[|b| - 1] && IsSubseq(a[..|a| - 1], b[..|b| - 1])) ||
      IsSubseq(a, b[..|b| - 1])))
  }

  lemma {:induction false} FilterIsSubseq<T>(s: seq<T>, p: T -> bool)
    ensures IsSubseq(Filter(s, p), s)
  {
    if s != [] {
      var init, last := s[..|s| - 1], s[|s| - 1];
      FilterIsSubseq(init, p);
      var f := Filter(init, p);
      if p(last) {
        assert (f + [last])[..|f|] == f;
      }
    }
  }

  lemma {:induction false} IsSubseqTrans<T>(a: seq<T>, b: seq<T>, c: seq<T>)
    requires IsSubseq(a, b) && IsSubseq(b, c)
    ensures IsSubseq(a, c)
    decreases |c|
  {
    if a != [] {
      assert b != [] && c != [];
      var bi, ci := b[..|b| - 1], c[..|c| - 1];
      if IsSubseq(b, ci) {
        IsSubseqTrans(a, b, ci);
      } else {
        assert b[|b| - 1] == c[|c| - 1] && IsSubseq(bi, ci);
        if a[|a| - 1] == b[|b| - 1] && IsSubseq(a[..|a| - 1], bi) {
          IsSubseqTrans(a[..|a| - 1], bi, ci);
        } else {
          IsSubseqTrans(a, bi, ci);
        }
      }
    }
  }

  lemma {:induction false} PrefixIsSubseq<T>(s: seq<T>, n: nat)
    requires n <= |s|
    ensures IsSubseq(s[..n], s)
    decreases |s|
  {
    if n > 0 {
      if n == |s| {
        assert s[..n] == s;
        PrefixIsSubseq(s[..|s| - 1], n - 1);
        assert s[..n][..n - 1] == s[..|s| - 1][..n - 1];
      } else {
        PrefixIsSubseq(s[..|s| - 1], n);
        assert s[..|s| - 1][..n] == s[..n];
      }
    }
  }

  /** `slice(0, n)`: the first `n` elements, or all of `s` when it is shorter. */
  function Take<T>(s: seq<T>, n: nat): (r: seq<T>)
    ensures |r| <= n
    ensures |r| == if |s| <= n then |s| else n
    ensures r == s[..|r|]
  {
    if |s| <= n then s else s[..n]
  }

  /** Index of the first element satisfying `p`, the position `find` returns. */
  function FindIndex<T>(s: seq<T>, p: T -> bool): (r: Option<nat>)
    ensures r.Some? ==> r.value < |s| && p(s[r.value])
    ensures r.Some? ==> forall j :: 0 <= j < r.value ==> !p(s[j])
    ensures r.None? ==> forall j :: 0 <= j < |s| ==> !p(s[j])
  {
    if s == [] then None
    else if p(s[0]) then Some(0)
    else
      match FindIndex(s[1..], p)
      case None => None
      case Some(k) => Some(k + 1)
  }

  /** `Array.prototype.find`: the first element satisfying `p`, if any. */
  function Find<T>(s: seq<T>, p: T -> bool): (r: Option<T>)
    ensures r.None? <==> forall j :: 0 <= j < |s| ==> !p(s[j])
    ensures r.Some? ==> exists i :: 0 <= i < |s| && s[i] == r.value && p(s[i]) &&
                         forall j :: 0 <= j < i ==> !p(s[j])
  {
    match FindIndex(s, p)
    case None => None
    case Some(i) => Some(s[i])
  }
}
