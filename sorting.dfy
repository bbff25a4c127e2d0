/** The sort step of the listings query. `Array.prototype.sort` with a
    comparator is required to be stable (section 23.1.3.30 of ECMA-262, 2024
    edition; stable since the 2019 edition), so its result is fixed by the
    comparator alone: `StableSortIsInsertionSort` shows that the insertion sort
    below is the only sequence a stable sort can produce. */
module Sorting {
  import opened Seqs
  import opened Text
  import opened Catalog

  /** The five keys of the sort switch. */
  datatype Order = PriceAsc | PriceDesc | SizeAsc | SizeDesc | ByName

  /** The comparator of `o` returns at most 0 for `(a, b)`: `a` may be placed
      before `b`. */
  predicate Before(o: Order, a: Property, b: Property) {
    match o
    case PriceAsc => a.price - b.price <= 0
    case PriceDesc => b.price - a.price <= 0
    case SizeAsc => a.size - b.size <= 0
    case SizeDesc => b.size - a.size <= 0
    case ByName => StrLe(a.name, b.name)
  }

  lemma BeforeTotal(o: Order, a: Property, b: Property)
    ensures Before(o, a, b) || Before(o, b, a)
  {
    if o.ByName? {
      StrLeTotal(a.name, b.name);
    }
  }

  lemma BeforeTrans(o: Order, a: Property, b: Property, c: Property)
    requires Before(o, a, b) && Before(o, b, c)
    ensures Before(o, a, c)
  {
    if o.ByName? {
      StrLeTrans(a.name, b.name, c.name);
    }
  }

  /** The comparator returns 0 both ways: the two records tie. */
  predicate SameKey(o: Order, a: Property, b: Property) {
    Before(o, a, b) && Before(o, b, a)
  }

  /** Records tie exactly when the sort key of `o` is equal. */
  lemma SameKeyIffEqualKey(o: Order, a: Property, b: Property)
    ensures SameKey(o, a, b) <==>
      match o
      case PriceAsc => a.price == b.price
      case PriceDesc => a.price == b.price
      case SizeAsc => a.size == b.size
      case SizeDesc => a.size == b.size
      case ByName => a.name == b.name
  {
    if o.ByName? {
      StrLeTotal(a.name, a.name);
      if SameKey(o, a, b) {
        StrLeAntisymmetric(a.name, b.name);
      }
    }
  }

  /** Every pair, in order, is accepted by the comparator. */
  ghost predicate Sorted(o: Order, s: seq<Property>) {
    forall i, j :: 0 <= i < j < |s| ==> Before(o, s[i], s[j])
  }

  /** Places `x` after the last element it does not have to precede. */
  function Insert(o: Order, x: Property, s: seq<Property>): (r: seq<Property>)
    ensures |r| == |s| + 1
    decreases |s|
  {
    if s == [] then [x]
    else
      if Before(o, s[|s| - 1], x) then s + [x]
      else Insert(o, x, s[..|s| - 1]) + [s[|s| - 1]]
  }

  /** The stable sort of `s`, building the result from the left. */
  function InsertionSort(o: Order, s: seq<Property>): (r: seq<Property>)
    ensures |r| == |s|
  {
    if s == [] then []
    else
      Insert(o, s[|s| - 1], InsertionSort(o, s[..|s| - 1]))
  }

  lemma {:induction false} InsertPermutes(o: Order, x: Property, s: seq<Property>)
    ensures multiset(Insert(o, x, s)) == multiset(s) + multiset{x}
    decreases |s|
  {
    if s != [] {
      assert s == s[..|s| - 1] + [s[|s| - 1]];
      InsertPermutes(o, x, s[..|s| - 1]);
    }
  }

  /** The sort only reorders: the result is a permutation of the input. */
  lemma {:induction false} InsertionSortPermutes(o: Order, s: seq<Property>)
    ensures multiset(InsertionSort(o, s)) == multiset(s)
  {
    if s != [] {
      assert s == s[..|s| - 1] + [s[|s| - 1]];
      InsertionSortPermutes(o, s[..|s| - 1]);
      InsertPermutes(o, s[|s| - 1], InsertionSort(o, s[..|s| - 1]));
    }
  }

  lemma {:induction false} InsertSorted(o: Order, x: Property, s: seq<Property>)
    requires Sorted(o, s)
    ensures Sorted(o, Insert(o, x, s))
    decreases |s|
  {
    if s != [] {
      var init, last := s[..|s| - 1], s[|s| - 1];
      if Before(o, last, x) {
        var r := s + [x];
        forall i, j | 0 <= i < j < |r|
          ensures Before(o, r[i], r[j])
        {
          if j == |s| && i < |s| - 1 {
            BeforeTrans(o, s[i], last, x);
          }
        }
      } else {
        BeforeTotal(o, last, x);
        InsertSorted(o, x, init);
        var ins := Insert(o, x, init);
        InsertPermutes(o, x, init);
        var r := ins + [last];
        forall i, j | 0 <= i < j < |r|
          ensures Before(o, r[i], r[j])
        {
          if j == |ins| {
            assert r[i] in multiset(ins);
            if r[i] != x {
              assert r[i] in multiset(init);
              var k :| 0 <= k < |init| && init[k] == r[i];
              assert Before(o, s[k], s[|s| - 1]);
            }
          }
        }
      }
    }
  }

  lemma {:induction false} InsertionSortSorted(o: Order, s: seq<Property>)
    ensures Sorted(o, InsertionSort(o, s))
  {
    if s != [] {
      InsertionSortSorted(o, s[..|s| - 1]);
      InsertSorted(o, s[|s| - 1], InsertionSort(o, s[..|s| - 1]));
    }
  }

  /** The records of `s` that tie with `q`, in the order `s` holds them. */
  function KeyClass(o: Order, s: seq<Property>, q: Property): seq<Property> {
    Filter(s, e => SameKey(o, e, q))
  }

  /** Inserting `x` keeps the order within every group of tied records, with `x`
      last in its own group. */
  lemma {:induction false} InsertKeyClass(o: Order, x: Property, s: seq<Property>, q: Property)
    ensures KeyClass(o, Insert(o, x, s), q) ==
            KeyClass(o, s, q) + (if SameKey(o, x, q) then [x] else [])
    decreases |s|
  {
    if s == [] {
      FilterSnoc([], x, e => SameKey(o, e, q));
      assert [] + [x] == [x];
    } else {
      var init, last := s[..|s| - 1], s[|s| - 1];
      assert s == init + [last];
      if Before(o, last, x) {
        FilterSnoc(s, x, e => SameKey(o, e, q));
      } else {
        InsertKeyClass(o, x, init, q);
        InsertKeyClassPast(o, x, init, last, q);
      }
    }
  }

  /** The step of `InsertKeyClass` where `x` moves in front of `last`: a record
      that must follow `x` is not tied with anything `x` ties with, so the two
      may change places within every group. */
  lemma InsertKeyClassPast(o: Order, x: Property, init: seq<Property>, last: Property, q: Property)
    requires !Before(o, last, x)
    requires KeyClass(o, Insert(o, x, init), q) ==
             KeyClass(o, init, q) + (if SameKey(o, x, q) then [x] else [])
    ensures KeyClass(o, Insert(o, x, init + [last]), q) ==
            KeyClass(o, init + [last], q) + (if SameKey(o, x, q) then [x] else [])
  {
    var s := init + [last];
    assert s[..|s| - 1] == init && s[|s| - 1] == last;
    var xs := if SameKey(o, x, q) then [x] else [];
    var ls := if SameKey(o, last, q) then [last] else [];
    assert xs == [] || ls == [] by {
      if SameKey(o, x, q) && SameKey(o, last, q) {
        BeforeTrans(o, last, q, x);
      }
    }
    calc {
      KeyClass(o, Insert(o, x, s), q);
      KeyClass(o, Insert(o, x, init) + [last], q);
      { FilterSnoc(Insert(o, x, init), last, e => SameKey(o, e, q)); }
      KeyClass(o, Insert(o, x, init), q) + ls;
      KeyClass(o, init, q) + xs + ls;
      { AppendSwapEmpty(KeyClass(o, init, q), xs, ls); }
      KeyClass(o, init, q) + ls + xs;
      { FilterSnoc(init, last, e => SameKey(o, e, q)); }
      KeyClass(o, s, q) + xs;
    }
  }

  /** Stability: records that tie keep their relative input order. */
  lemma {:induction false} InsertionSortStable(o: Order, s: seq<Property>, q: Property)
    ensures KeyClass(o, InsertionSort(o, s), q) == KeyClass(o, s, q)
  {
    if s != [] {
      var init, last := s[..|s| - 1], s[|s| - 1];
      assert s == init + [last];
      InsertionSortStable(o, init, q);
      InsertKeyClass(o, last, InsertionSort(o, init), q);
      FilterSnoc(init, last, e => SameKey(o, e, q));
    }
  }

  /** What a stable sort of `input` by `o` must return: a sorted sequence in
      which every group of tied records is in input order. */
  ghost predicate IsStableSortOf(o: Order, input: seq<Property>, output: seq<Property>) {
    Sorted(o, output) && forall q :: KeyClass(o, output, q) == KeyClass(o, input, q)
  }

  lemma {:induction false} KeyClassSelf(o: Order, s: seq<Property>, x: Property)
    requires x in s
    ensures x in KeyClass(o, s, x)
  {
    BeforeTotal(o, x, x);
    FilterKeeps(s, e => SameKey(o, e, x), x);
  }

  /** With the same groups of tied records, the last record of `u` also occurs
      in sorted `t`, so it may precede the last record of `t`. */
  lemma {:induction false} LastMayPrecedeLast(o: Order, t: seq<Property>, u: seq<Property>)
    requires Sorted(o, t) && t != [] && u != []
    requires forall q :: KeyClass(o, t, q) == KeyClass(o, u, q)
    ensures Before(o, u[|u| - 1], t[|t| - 1])
  {
    var y := u[|u| - 1];
    KeyClassSelf(o, u, y);
    assert KeyClass(o, u, y) == KeyClass(o, t, y);
    assert y in t;
    var k :| 0 <= k < |t| && t[k] == y;
    if k == |t| - 1 {
      BeforeTotal(o, y, y);
    }
  }

  /** Records tying with `x` that end both groups of `x` are the same record. */
  lemma {:induction false} GroupEndsEqual(o: Order, ti: seq<Property>, x: Property, ui: seq<Property>, y: Property)
    requires SameKey(o, x, x) && SameKey(o, y, x)
    requires KeyClass(o, ti + [x], x) == KeyClass(o, ui + [y], x)
    ensures x == y
  {
    FilterSnoc(ti, x, e => SameKey(o, e, x));
    FilterSnoc(ui, y, e => SameKey(o, e, x));
    var A, B := KeyClass(o, ti, x), KeyClass(o, ui, x);
    assert A + [x] == B + [y];
    assert (A + [x])[|A|] == x;
    assert (B + [y])[|B|] == y;
  }

  /** Both last records close the group of the last record of `t`, so they are
      the same record. */
  lemma {:induction false} LastsEqual(o: Order, t: seq<Property>, u: seq<Property>)
    requires Sorted(o, t) && Sorted(o, u) && t != [] && u != []
    requires forall q :: KeyClass(o, t, q) == KeyClass(o, u, q)
    ensures t[|t| - 1] == u[|u| - 1]
  {
    var x, y := t[|t| - 1], u[|u| - 1];
    LastMayPrecedeLast(o, t, u);
    LastMayPrecedeLast(o, u, t);
    BeforeTotal(o, x, x);
    assert KeyClass(o, t, x) == KeyClass(o, u, x);
    assert t == t[..|t| - 1] + [x] && u == u[..|u| - 1] + [y];
    GroupEndsEqual(o, t[..|t| - 1], x, u[..|u| - 1], y);
  }

  /** Removing the same last record from both keeps the groups equal. */
  lemma {:induction false} InitsSameClasses(o: Order, t: seq<Property>, u: seq<Property>, x: Property)
    requires forall q :: KeyClass(o, t + [x], q) == KeyClass(o, u + [x], q)
    ensures forall q :: KeyClass(o, t, q) == KeyClass(o, u, q)
  {
    forall q
      ensures KeyClass(o, t, q) == KeyClass(o, u, q)
    {
      FilterSnoc(t, x, e => SameKey(o, e, q));
      FilterSnoc(u, x, e => SameKey(o, e, q));
      assert KeyClass(o, t + [x], q) == KeyClass(o, u + [x], q);
      AppendCancel(KeyClass(o, t, q), KeyClass(o, u, q), if SameKey(o, x, q) then [x] else []);
    }
  }

  /** Two sorted sequences with the same groups of tied records are equal. */
  lemma {:induction false} SortedWithSameClassesEqual(o: Order, t: seq<Property>, u: seq<Property>)
    requires Sorted(o, t) && Sorted(o, u)
    requires forall q :: KeyClass(o, t, q) == KeyClass(o, u, q)
    ensures t == u
    decreases |t| + |u|
  {
    if t == [] && u != [] {
      KeyClassSelf(o, u, u[0]);
    } else if t != [] && u == [] {
      KeyClassSelf(o, t, t[0]);
    } else if t != [] {
      var ti, ui := t[..|t| - 1], u[..|u| - 1];
      LastsEqual(o, t, u);
      var x := t[|t| - 1];
      assert t == ti + [x] && u == ui + [x];
      InitsSameClasses(o, ti, ui, x);
      assert Sorted(o, ti) && Sorted(o, ui);
      SortedWithSameClassesEqual(o, ti, ui);
    }
  }

  /** The insertion sort is a stable sort, and no other sequence is: any
      stable sort by `o` returns exactly `InsertionSort(o, input)`. */
  lemma StableSortIsInsertionSort(o: Order, input: seq<Property>, output: seq<Property>)
    ensures IsStableSortOf(o, input, output) <==> output == InsertionSort(o, input)
  {
    var r := InsertionSort(o, input);
    InsertionSortSorted(o, input);
    forall q
      ensures KeyClass(o, r, q) == KeyClass(o, input, q)
    {
      InsertionSortStable(o, input, q);
    }
    if IsStableSortOf(o, input, output) {
      SortedWithSameClassesEqual(o, output, r);
    }
  }

  /** Moving `x` past one more record that must follow it. */
  lemma {:induction false} InsertShift(o: Order, x: Property, s: seq<Property>, j: nat)
    requires 0 < j <= |s| && !Before(o, s[j - 1], x)
    ensures Insert(o, x, s[..j]) + s[j..] == Insert(o, x, s[..j - 1]) + s[j - 1..]
  {
    assert s[..j][..j - 1] == s[..j - 1];
    assert s[j - 1..] == [s[j - 1]] + s[j..];
  }

  /** `x` comes to rest after a record it may follow, or at the front. */
  lemma {:induction false} InsertStop(o: Order, x: Property, s: seq<Property>, j: nat)
    requires j <= |s| && (j == 0 || Before(o, s[j - 1], x))
    ensures Insert(o, x, s[..j]) == s[..j] + [x]
  {
    if j == 0 {
      assert s[..j] == [];
    }
  }

  /** Inserting `x` passes every record at the end that must follow it. */
  lemma {:induction false} InsertPastAll(o: Order, x: Property, s: seq<Property>, j: nat)
    requires j <= |s|
    requires forall k :: j <= k < |s| ==> !Before(o, s[k], x)
    ensures Insert(o, x, s) == Insert(o, x, s[..j]) + s[j..]
    decreases |s| - j
  {
    if j < |s| {
      InsertPastAll(o, x, s, j + 1);
      InsertShift(o, x, s, j + 1);
    } else {
      assert s[..j] == s && s[j..] == [];
    }
  }

  /** The loop of one pass: shifts one place right the records at the end of
      `a[..i]` that the comparator puts strictly after `x`, and returns the
      position left free. */
  method ShiftPast(a: array<Property>, i: nat, x: Property, o: Order) returns (j: nat)
    requires i < a.Length
    modifies a
    ensures j <= i
    ensures j == 0 || Before(o, old(a[j - 1]), x)
    ensures forall k :: j <= k < i ==> !Before(o, old(a[k]), x)
    ensures forall k :: 0 <= k < j ==> a[k] == old(a[k])
    ensures forall k :: j < k <= i ==> a[k] == old(a[k - 1])
    ensures forall k :: i < k < a.Length ==> a[k] == old(a[k])
  {
    ghost var sorted := a[..i];
    j := i;
    while j > 0 && !Before(o, a[j - 1], x)
      invariant 0 <= j <= i
      invariant forall k :: 0 <= k < j ==> a[k] == sorted[k]
      invariant forall k :: j < k <= i ==> a[k] == sorted[k - 1]
      invariant forall k :: i < k < a.Length ==> a[k] == old(a[k])
      invariant forall k :: j <= k < i ==> !Before(o, sorted[k], x)
    {
      a[j] := a[j - 1];
      j := j - 1;
    }
  }

  /** A sequence that agrees element by element with `s[..j] + [x] + s[j..] + rest`
      is that sequence. */
  lemma Splice(s: seq<Property>, x: Property, rest: seq<Property>, j: nat, view: seq<Property>)
    requires j <= |s| && |view| == |s| + 1 + |rest|
    requires forall k :: 0 <= k < j ==> view[k] == s[k]
    requires view[j] == x
    requires forall k :: j < k <= |s| ==> view[k] == s[k - 1]
    requires forall k :: |s| < k < |view| ==> view[k] == rest[k - |s| - 1]
    ensures view == s[..j] + [x] + s[j..] + rest
  {
    var r := s[..j] + [x] + s[j..] + rest;
    forall k | 0 <= k < |view|
      ensures view[k] == r[k]
    {
      if k < j {
      } else if k == j {
      } else if k <= |s| {
        assert r[k] == s[j..][k - j - 1];
      } else {
        assert r[k] == rest[k - |s| - 1];
      }
    }
  }

  /** One pass of the sort: moves `a[i]` left past the records of the
      already sorted prefix `a[..i]` that the comparator puts strictly after it. */
  method InsertAt(a: array<Property>, i: nat, o: Order)
    requires i < a.Length
    modifies a
    ensures a[..] == Insert(o, old(a[..])[i], old(a[..])[..i]) + old(a[..])[i + 1..]
  {
    ghost var sorted := a[..i];
    ghost var rest := a[i + 1..];
    var x := a[i];
    var j := ShiftPast(a, i, x, o);
    InsertPastAll(o, x, sorted, j);
    InsertStop(o, x, sorted, j);
    a[j] := x;
    Splice(sorted, x, rest, j, a[..]);
  }

  /** Sorting one more record of the input is one more insertion. */
  lemma {:induction false} SortStep(o: Order, orig: seq<Property>, i: nat, prev: seq<Property>)
    requires i < |orig|
    requires prev == InsertionSort(o, orig[..i]) + orig[i..]
    ensures Insert(o, prev[i], prev[..i]) + prev[i + 1..] == InsertionSort(o, orig[..i + 1]) + orig[i + 1..]
  {
    var done := InsertionSort(o, orig[..i]);
    assert prev[..i] == done;
    assert prev[i] == orig[i];
    assert prev[i + 1..] == orig[i + 1..];
    assert orig[..i + 1][..i] == orig[..i];
  }

  /** `filtered.sort(cmp)`: sorts the array in place, one insertion pass per
      position. */
  method SortInPlace(a: array<Property>, o: Order)
    modifies a
    ensures a[..] == InsertionSort(o, old(a[..]))
  {
    ghost var orig := a[..];
    var i := 0;
    assert orig[..0] == [] && orig[0..] == orig;
    while i < a.Length
      invariant 0 <= i <= a.Length
      invariant a[..] == InsertionSort(o, orig[..i]) + orig[i..]
    {
      SortStep(o, orig, i, a[..]);
      InsertAt(a, i, o);
      i := i + 1;
    }
    assert orig[..a.Length] == orig;
    assert orig[a.Length..] == [];
  }
}
