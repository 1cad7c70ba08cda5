/** Sorting, and what does not depend on the order of a sequence. */
module Permutations {
  ghost predicate Permuted<T>(xs: seq<T>, ys: seq<T>) { multiset(xs) == multiset(ys) }

  lemma SameLength<T>(xs: seq<T>, ys: seq<T>)
    requires Permuted(xs, ys)
    ensures |xs| == |ys|
  {
    assert |multiset(xs)| == |xs| && |multiset(ys)| == |ys|;
  }

  // ---- Sorting ----

  predicate Sorted(xs: seq<nat>) { forall i, j :: 0 <= i < j < |xs| ==> xs[i] <= xs[j] }

  function Insert(x: nat, xs: seq<nat>): (r: seq<nat>)
    ensures multiset(r) == multiset(xs) + multiset{x} && |r| == |xs| + 1
  {
    if xs == [] || x <= xs[0] then [x] + xs
    else
      assert xs == [xs[0]] + xs[1..];
      [xs[0]] + Insert(x, xs[1..])
  }

  lemma SortedCons(x: nat, xs: seq<nat>)
    requires Sorted(xs) && forall y :: y in xs ==> x <= y
    ensures Sorted([x] + xs)
  {
    forall i | 0 <= i < |xs| ensures x <= xs[i] { assert xs[i] in xs; }
  }

  lemma SortedTail(xs: seq<nat>)
    requires Sorted(xs) && xs != []
    ensures Sorted(xs[1..]) && forall y :: y in xs ==> xs[0] <= y
  {}

  lemma {:induction false} InsertSorted(x: nat, xs: seq<nat>)
    requires Sorted(xs)
    ensures Sorted(Insert(x, xs))
  {
    if xs != [] {
      SortedTail(xs);
      if x <= xs[0] {
        SortedCons(x, xs);
      } else {
        var rest := Insert(x, xs[1..]);
        InsertSorted(x, xs[1..]);
        forall y | y in rest ensures xs[0] <= y {
          assert y in multiset(rest);
          assert y == x || y in multiset(xs[1..]);
        }
        SortedCons(xs[0], rest);
      }
    }
  }

  lemma SortStep(xs: seq<nat>, rest: seq<nat>)
    requires xs != [] && Sorted(rest) && Permuted(rest, xs[1..])
    ensures Sorted(Insert(xs[0], rest)) && Permuted(Insert(xs[0], rest), xs)
  {
    hide Insert;
    InsertSorted(xs[0], rest);
    assert xs == [xs[0]] + xs[1..];
  }

  function Sort(xs: seq<nat>): (r: seq<nat>)
    ensures Sorted(r) && Permuted(r, xs) && |r| == |xs|
  {
    if xs == [] then []
    else
      SortStep(xs, Sort(xs[1..]));
      Insert(xs[0], Sort(xs[1..]))
  }

  lemma SameLeast(xs: seq<nat>, ys: seq<nat>)
    requires Sorted(xs) && Sorted(ys) && Permuted(xs, ys) && xs != [] && ys != []
    ensures xs[0] == ys[0]
  {
    SortedTail(xs);
    SortedTail(ys);
    assert xs[0] in multiset(ys) && ys[0] in multiset(xs);
  }

  lemma TailsPermuted<T>(xs: seq<T>, ys: seq<T>)
    requires Permuted(xs, ys) && xs != [] && ys != [] && xs[0] == ys[0]
    ensures Permuted(xs[1..], ys[1..])
  {
    assert xs == [xs[0]] + xs[1..] && ys == [ys[0]] + ys[1..];
    assert multiset(xs[1..]) == multiset(xs) - multiset{xs[0]};
    assert multiset(ys[1..]) == multiset(ys) - multiset{ys[0]};
  }

  lemma {:induction false} SortedIsUnique(xs: seq<nat>, ys: seq<nat>)
    requires Sorted(xs) && Sorted(ys) && Permuted(xs, ys)
    ensures xs == ys
  {
    SameLength(xs, ys);
    if xs != [] {
      SameLeast(xs, ys);
      TailsPermuted(xs, ys);
      SortedIsUnique(xs[1..], ys[1..]);
      assert xs == [xs[0]] + xs[1..] && ys == [ys[0]] + ys[1..];
    }
  }

  /** Sorting forgets the order. */
  lemma SortForgetsOrder(xs: seq<nat>, ys: seq<nat>)
    requires Permuted(xs, ys)
    ensures Sort(xs) == Sort(ys)
  {
    SortedIsUnique(Sort(xs), Sort(ys));
  }

  // ---- Maps, filters, sums and counts ----

  function Map<T, U>(f: T -> U, xs: seq<T>): (r: seq<U>)
    ensures |r| == |xs| && forall i :: 0 <= i < |xs| ==> r[i] == f(xs[i])
  {
    if xs == [] then [] else [f(xs[0])] + Map(f, xs[1..])
  }

  function Filter<T(!new)>(p: T -> bool, xs: seq<T>): (r: seq<T>)
    ensures |r| <= |xs|
  {
    if xs == [] then []
    else if p(xs[0]) then [xs[0]] + Filter(p, xs[1..])
    else Filter(p, xs[1..])
  }

  lemma {:induction false} FilterMembers<T(!new)>(p: T -> bool, xs: seq<T>)
    ensures forall x :: x in Filter(p, xs) <==> x in xs && p(x)
  {
    if xs != [] {
      FilterMembers(p, xs[1..]);
      assert forall x :: x in xs <==> x == xs[0] || x in xs[1..];
    }
  }

  lemma {:induction false} FilterSame<T(!new)>(p: T -> bool, q: T -> bool, xs: seq<T>)
    requires forall x :: p(x) == q(x)
    ensures Filter(p, xs) == Filter(q, xs)
  {
    if xs != [] { FilterSame(p, q, xs[1..]); }
  }

  function Sum(xs: seq<nat>): nat {
    if xs == [] then 0 else xs[0] + Sum(xs[1..])
  }

  /** How many of the elements lie in `[a, b]`. */
  function Count(xs: seq<nat>, a: int, b: int): nat {
    if xs == [] then 0 else (if a <= xs[0] <= b then 1 else 0) + Count(xs[1..], a, b)
  }

  /** Take the first element of one side out of the other. */
  lemma TakeOut<T>(xs: seq<T>, ys: seq<T>) returns (left: seq<T>, right: seq<T>)
    requires Permuted(xs, ys) && xs != []
    ensures ys == left + ([xs[0]] + right) && Permuted(xs[1..], left + right)
  {
    assert xs[0] in multiset(ys);
    var i :| 0 <= i < |ys| && ys[i] == xs[0];
    left, right := ys[..i], ys[i + 1..];
    assert ys == left + ([xs[0]] + right);
    assert xs == [xs[0]] + xs[1..];
    assert multiset(left + right) == multiset(ys) - multiset{xs[0]};
    assert multiset(xs[1..]) == multiset(xs) - multiset{xs[0]};
  }

  lemma MapJoin<T, U>(f: T -> U, xs: seq<T>, ys: seq<T>)
    ensures Map(f, xs + ys) == Map(f, xs) + Map(f, ys)
  {}

  lemma Associative<T>(xs: seq<T>, ys: seq<T>, zs: seq<T>)
    ensures (xs + ys) + zs == xs + (ys + zs)
  {}

  lemma FilterCons<T(!new)>(p: T -> bool, x: T, xs: seq<T>)
    ensures Filter(p, [x] + xs) == (if p(x) then [x] else []) + Filter(p, xs)
  {
    assert ([x] + xs)[1..] == xs;
  }

  lemma {:induction false} FilterJoin<T(!new)>(p: T -> bool, xs: seq<T>, ys: seq<T>)
    ensures Filter(p, xs + ys) == Filter(p, xs) + Filter(p, ys)
  {
    if xs == [] {
      assert Filter(p, xs) == [];
      assert xs + ys == ys;
    } else {
      hide Filter;
      var x, rest := xs[0], xs[1..];
      FilterJoin(p, rest, ys);
      FilterCons(p, x, rest);
      FilterCons(p, x, rest + ys);
      Associative([x], rest, ys);
      Associative(if p(x) then [x] else [], Filter(p, rest), Filter(p, ys));
      assert xs == [x] + rest;
    }
  }

  lemma {:induction false} SumJoin(xs: seq<nat>, ys: seq<nat>)
    ensures Sum(xs + ys) == Sum(xs) + Sum(ys)
  {
    if xs == [] {
      assert xs + ys == ys;
    } else {
      SumJoin(xs[1..], ys);
      assert (xs + ys)[1..] == xs[1..] + ys;
    }
  }

  lemma {:induction false} CountJoin(xs: seq<nat>, ys: seq<nat>, a: int, b: int)
    ensures Count(xs + ys, a, b) == Count(xs, a, b) + Count(ys, a, b)
  {
    if xs == [] {
      assert xs + ys == ys;
    } else {
      CountJoin(xs[1..], ys, a, b);
      assert (xs + ys)[1..] == xs[1..] + ys;
    }
  }

  lemma {:induction false} MapPermuted<T, U>(f: T -> U, xs: seq<T>, ys: seq<T>)
    requires Permuted(xs, ys)
    ensures Permuted(Map(f, xs), Map(f, ys))
    decreases |xs|
  {
    SameLength(xs, ys);
    if xs != [] {
      var left, right := TakeOut(xs, ys);
      MapPermuted(f, xs[1..], left + right);
      MapJoin(f, left, right);
      MapJoin(f, left, [xs[0]] + right);
      assert ([xs[0]] + right)[1..] == right;
      assert Map(f, [xs[0]] + right) == [f(xs[0])] + Map(f, right);
      MovedToFront(Map(f, left), f(xs[0]), Map(f, right));
    }
  }

  lemma MovedToFront<T>(left: seq<T>, x: T, right: seq<T>)
    ensures Permuted(left + ([x] + right), [x] + (left + right))
  {}

  lemma {:induction false} FilterPermuted<T(!new)>(p: T -> bool, xs: seq<T>, ys: seq<T>)
    requires Permuted(xs, ys)
    ensures Permuted(Filter(p, xs), Filter(p, ys))
    decreases |xs|
  {
    SameLength(xs, ys);
    if xs != [] {
      var left, right := TakeOut(xs, ys);
      FilterPermuted(p, xs[1..], left + right);
      FilterJoin(p, left, right);
      FilterJoin(p, left, [xs[0]] + right);
      FilterCons(p, xs[0], xs[1..]);
      FilterCons(p, xs[0], right);
      assert xs == [xs[0]] + xs[1..];
      if p(xs[0]) { MovedToFront(Filter(p, left), xs[0], Filter(p, right)); }
    }
  }

  lemma {:induction false} SumPermuted(xs: seq<nat>, ys: seq<nat>)
    requires Permuted(xs, ys)
    ensures Sum(xs) == Sum(ys)
    decreases |xs|
  {
    SameLength(xs, ys);
    if xs != [] {
      var left, right := TakeOut(xs, ys);
      SumPermuted(xs[1..], left + right);
      SumJoin(left, right);
      SumJoin(left, [xs[0]] + right);
      assert ([xs[0]] + right)[1..] == right;
    }
  }

  lemma {:induction false} CountPermuted(xs: seq<nat>, ys: seq<nat>, a: int, b: int)
    requires Permuted(xs, ys)
    ensures Count(xs, a, b) == Count(ys, a, b)
    decreases |xs|
  {
    SameLength(xs, ys);
    if xs != [] {
      var left, right := TakeOut(xs, ys);
      CountPermuted(xs[1..], left + right, a, b);
      CountJoin(left, right, a, b);
      CountJoin(left, [xs[0]] + right, a, b);
      assert ([xs[0]] + right)[1..] == right;
    }
  }

  lemma {:induction false} CountBounds(xs: seq<nat>, a: int, b: int)
    ensures Count(xs, a, b) <= |xs|
    ensures (forall i :: 0 <= i < |xs| ==> a <= xs[i] <= b) ==> Count(xs, a, b) == |xs|
    ensures (forall i :: 0 <= i < |xs| ==> !(a <= xs[i] <= b)) ==> Count(xs, a, b) == 0
  {
    if xs != [] {
      CountBounds(xs[1..], a, b);
      assert forall i :: 0 <= i < |xs| - 1 ==> xs[1..][i] == xs[i + 1];
    }
  }

  /** Counting splits at any position. */
  lemma CountCut(s: seq<nat>, k: nat, a: int, b: int)
    requires k <= |s|
    ensures Count(s, a, b) == Count(s[..k], a, b) + Count(s[k..], a, b)
  {
    assert s == s[..k] + s[k..];
    CountJoin(s[..k], s[k..], a, b);
  }

  /** In a sorted sequence, at most `k` lie in the interval when position `k` is already above it. */
  lemma CountBelow(s: seq<nat>, k: nat, a: int, b: int)
    requires Sorted(s) && k < |s| && s[k] > b
    ensures Count(s, a, b) <= k
  {
    CountCut(s, k, a, b);
    CountBounds(s[..k], a, b);
    CountBounds(s[k..], a, b);
  }

  /** And only those past position `k` when it is still below. */
  lemma CountAbove(s: seq<nat>, k: nat, a: int, b: int)
    requires Sorted(s) && k < |s| && s[k] < a
    ensures Count(s, a, b) <= |s| - k - 1
  {
    CountCut(s, k + 1, a, b);
    CountBounds(s[..k + 1], a, b);
    CountBounds(s[k + 1..], a, b);
  }

  /** And at least `k + 1` when positions `0` to `k` are all inside. */
  lemma CountInside(s: seq<nat>, k: nat, a: int, b: int)
    requires Sorted(s) && k < |s| && a <= s[0] && s[k] <= b
    ensures Count(s, a, b) >= k + 1
  {
    CountCut(s, k + 1, a, b);
    CountBounds(s[..k + 1], a, b);
  }

  lemma CountSplit(s: seq<nat>, k: nat, a: int, b: int)
    requires Sorted(s) && k < |s|
    ensures s[k] > b ==> Count(s, a, b) <= k
    ensures s[k] < a ==> Count(s, a, b) <= |s| - k - 1
    ensures a <= s[0] && s[k] <= b ==> Count(s, a, b) >= k + 1
  {
    hide Count;
    if s[k] > b { CountBelow(s, k, a, b); }
    if s[k] < a { CountAbove(s, k, a, b); }
    if a <= s[0] && s[k] <= b { CountInside(s, k, a, b); }
  }
}
