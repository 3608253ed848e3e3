// The specification of `Array.prototype.sort` with a comparator: the stable
// sort. `Sort` is one way to compute it; `StableSortUnique` says every stable
// sort gives the same sequence, so nothing depends on the engine's algorithm.
module Sorting {
  import opened Text

  ghost predicate TotalPreorder<T(!new)>(leq: (T, T) -> bool) {
    && (forall x, y :: leq(x, y) || leq(y, x))
    && (forall x, y, z :: leq(x, y) && leq(y, z) ==> leq(x, z))
  }

  ghost predicate Ordered<T>(leq: (T, T) -> bool, xs: seq<T>) {
    forall i, j :: 0 <= i < j < |xs| ==> leq(xs[i], xs[j])
  }

  function Filter<T>(p: T -> bool, xs: seq<T>): (ys: seq<T>)
    ensures forall y :: y in ys ==> y in xs && p(y)
    ensures forall x :: x in xs && p(x) ==> x in ys
  {
    if xs == [] then []
    else if p(xs[0]) then [xs[0]] + Filter(p, xs[1..])
    else Filter(p, xs[1..])
  }

  /** The elements of `xs` that compare equal to `k`, in order. */
  ghost function Ties<T>(leq: (T, T) -> bool, k: T, xs: seq<T>): (r: seq<T>)
    ensures forall y :: y in r ==> y in xs && leq(y, k) && leq(k, y)
  {
    if xs == [] then []
    else if leq(xs[0], k) && leq(k, xs[0]) then [xs[0]] + Ties(leq, k, xs[1..])
    else Ties(leq, k, xs[1..])
  }

  /** `ys` is `xs` put in order without reordering elements that tie. */
  ghost predicate StableSortOf<T(!new)>(leq: (T, T) -> bool, xs: seq<T>, ys: seq<T>) {
    Ordered(leq, ys) && forall k :: Ties(leq, k, ys) == Ties(leq, k, xs)
  }

  function Insert<T>(leq: (T, T) -> bool, x: T, ys: seq<T>): (r: seq<T>)
    ensures multiset(r) == multiset{x} + multiset(ys)
  {
    if ys == [] || leq(x, ys[0]) then [x] + ys
    else
      assert ys == [ys[0]] + ys[1..];
      [ys[0]] + Insert(leq, x, ys[1..])
  }

  function Sort<T>(leq: (T, T) -> bool, xs: seq<T>): (r: seq<T>)
    ensures multiset(r) == multiset(xs)
    ensures |r| == |xs|
  {
    if xs == [] then []
    else
      var r := Insert(leq, xs[0], Sort(leq, xs[1..]));
      assert xs == [xs[0]] + xs[1..];
      assert |multiset(r)| == |multiset(xs)|;
      r
  }

  lemma {:induction false} InsertOrdered<T(!new)>(leq: (T, T) -> bool, x: T, ys: seq<T>)
    requires TotalPreorder(leq) && Ordered(leq, ys)
    ensures Ordered(leq, Insert(leq, x, ys))
  {
    if ys != [] && !leq(x, ys[0]) {
      InsertOrdered(leq, x, ys[1..]);
      var r := Insert(leq, x, ys[1..]);
      forall i | 0 <= i < |r| ensures leq(ys[0], r[i]) {
        assert r[i] in multiset(r);
        assert r[i] == x || r[i] in ys[1..];
      }
    }
  }

  lemma {:induction false} InsertTies<T(!new)>(leq: (T, T) -> bool, x: T, ys: seq<T>, k: T)
    requires TotalPreorder(leq) && Ordered(leq, ys)
    ensures Ties(leq, k, Insert(leq, x, ys)) == Ties(leq, k, [x] + ys)
  {
    assert ([x] + ys)[1..] == ys;
    if ys != [] && !leq(x, ys[0]) {
      InsertTies(leq, x, ys[1..], k);
      assert ([x] + ys[1..])[1..] == ys[1..];
      assert ([ys[0]] + Insert(leq, x, ys[1..]))[1..] == Insert(leq, x, ys[1..]);
    }
  }

  lemma {:induction false} SortIsStable<T(!new)>(leq: (T, T) -> bool, xs: seq<T>)
    requires TotalPreorder(leq)
    ensures StableSortOf(leq, xs, Sort(leq, xs))
  {
    if xs != [] {
      var rest := Sort(leq, xs[1..]);
      SortIsStable(leq, xs[1..]);
      InsertOrdered(leq, xs[0], rest);
      forall k ensures Ties(leq, k, Sort(leq, xs)) == Ties(leq, k, xs) {
        InsertTies(leq, xs[0], rest, k);
        assert ([xs[0]] + rest)[1..] == rest;
      }
    }
  }

  lemma {:induction false} TiesHead<T(!new)>(leq: (T, T) -> bool, ys: seq<T>)
    requires TotalPreorder(leq) && ys != []
    ensures Ties(leq, ys[0], ys) == [ys[0]] + Ties(leq, ys[0], ys[1..])
  {
    assert leq(ys[0], ys[0]);
  }

  lemma {:induction false} TiesTail<T(!new)>(leq: (T, T) -> bool, k: T, ys: seq<T>)
    requires ys != []
    ensures Ties(leq, k, ys[1..])
         == if leq(ys[0], k) && leq(k, ys[0]) then Ties(leq, k, ys)[1..] else Ties(leq, k, ys)
  {
  }

  /** There is only one stable sort. */
  lemma {:induction false} StableSortUnique<T(!new)>(leq: (T, T) -> bool, ys: seq<T>, zs: seq<T>)
    requires TotalPreorder(leq) && Ordered(leq, ys) && Ordered(leq, zs)
    requires forall k :: Ties(leq, k, ys) == Ties(leq, k, zs)
    ensures ys == zs
  {
    if ys == [] {
      if zs != [] { TiesHead(leq, zs); }
    } else {
      TiesHead(leq, ys);
      assert ys[0] in Ties(leq, ys[0], zs);
      TiesHead(leq, zs);
      assert zs[0] in Ties(leq, zs[0], ys);
      assert leq(ys[0], zs[0]) && leq(zs[0], ys[0]);
      SameClass(leq, ys[0], zs[0], zs);
      assert ys[0] == zs[0];
      forall k ensures Ties(leq, k, ys[1..]) == Ties(leq, k, zs[1..]) {
        assert Ties(leq, k, ys) == Ties(leq, k, zs);
        TiesTail(leq, k, ys);
        TiesTail(leq, k, zs);
      }
      StableSortUnique(leq, ys[1..], zs[1..]);
      assert ys == [ys[0]] + ys[1..] && zs == [zs[0]] + zs[1..];
    }
  }

  lemma {:induction false} SameClass<T(!new)>(leq: (T, T) -> bool, a: T, b: T, xs: seq<T>)
    requires TotalPreorder(leq) && leq(a, b) && leq(b, a)
    ensures Ties(leq, a, xs) == Ties(leq, b, xs)
  {
    if xs != [] { SameClass(leq, a, b, xs[1..]); }
  }

  /** `xs.find(p)`. */
  function Find<T>(p: T -> bool, xs: seq<T>): (r: Option<T>)
    ensures r.Some? ==> r.value in xs && p(r.value)
    ensures r.None? ==> forall x :: x in xs ==> !p(x)
  {
    if xs == [] then None
    else if p(xs[0]) then Some(xs[0])
    else Find(p, xs[1..])
  }

  /** The leftmost element of `xs` satisfying `p` that is least under `leq`. */
  function LeastWhere<T>(leq: (T, T) -> bool, p: T -> bool, xs: seq<T>): Option<T> {
    if xs == [] then None
    else
      var r := LeastWhere(leq, p, xs[1..]);
      if p(xs[0]) && (r.None? || leq(xs[0], r.value)) then Some(xs[0]) else r
  }

  lemma {:induction false} FindInInsert<T(!new)>(leq: (T, T) -> bool, p: T -> bool, x: T, ys: seq<T>)
    requires TotalPreorder(leq) && Ordered(leq, ys)
    ensures Find(p, Insert(leq, x, ys))
         == (var r := Find(p, ys); if p(x) && (r.None? || leq(x, r.value)) then Some(x) else r)
  {
    assert ([x] + ys)[1..] == ys;
    if ys != [] && !leq(x, ys[0]) {
      FindInInsert(leq, p, x, ys[1..]);
      assert ([ys[0]] + Insert(leq, x, ys[1..]))[1..] == Insert(leq, x, ys[1..]);
    } else if ys != [] {
      var r := Find(p, ys);
      assert r.Some? ==> r.value == ys[0] || r.value in ys[1..];
    }
  }

  /** Sorting and taking the first match selects the leftmost least match. */
  lemma {:induction false} FindInSort<T(!new)>(leq: (T, T) -> bool, p: T -> bool, xs: seq<T>)
    requires TotalPreorder(leq)
    ensures Find(p, Sort(leq, xs)) == LeastWhere(leq, p, xs)
  {
    if xs != [] {
      FindInSort(leq, p, xs[1..]);
      SortIsStable(leq, xs[1..]);
      FindInInsert(leq, p, xs[0], Sort(leq, xs[1..]));
    }
  }

  /** What `LeastWhere` selects, said by position. */
  lemma {:induction false} LeastWhereMeaning<T(!new)>(leq: (T, T) -> bool, p: T -> bool, xs: seq<T>)
    requires TotalPreorder(leq)
    ensures var r := LeastWhere(leq, p, xs);
            if r.None? then forall x :: x in xs ==> !p(x)
            else exists i :: IsLeftmostLeast(leq, p, xs, i) && xs[i] == r.value
  {
    if xs != [] {
      var rest := xs[1..];
      LeastWhereMeaning(leq, p, rest);
      var r := LeastWhere(leq, p, rest);
      if p(xs[0]) && (r.None? || leq(xs[0], r.value)) {
        assert forall j :: 0 < j < |xs| ==> xs[j] == rest[j - 1];
        assert IsLeftmostLeast(leq, p, xs, 0);
      } else if r.Some? {
        var i :| IsLeftmostLeast(leq, p, rest, i) && rest[i] == r.value;
        assert forall j :: 0 < j < |xs| ==> xs[j] == rest[j - 1];
        assert IsLeftmostLeast(leq, p, xs, i + 1);
      }
    }
  }

  /** `xs[i]` satisfies `p`, is least among such elements and beats every earlier one strictly. */
  ghost predicate IsLeftmostLeast<T>(leq: (T, T) -> bool, p: T -> bool, xs: seq<T>, i: int) {
    && 0 <= i < |xs| && p(xs[i])
    && (forall j :: 0 <= j < |xs| && p(xs[j]) ==> leq(xs[i], xs[j]))
    && (forall j :: 0 <= j < i && p(xs[j]) ==> !leq(xs[j], xs[i]))
  }

  /** Only the elements satisfying `p` matter to the selection. */
  lemma {:induction false} LeastWhereFilter<T(!new)>(leq: (T, T) -> bool, p: T -> bool, q: T -> bool, xs: seq<T>)
    requires forall x :: p(x) ==> q(x)
    ensures LeastWhere(leq, p, xs) == LeastWhere(leq, p, Filter(q, xs))
  {
    if xs != [] {
      LeastWhereFilter(leq, p, q, xs[1..]);
      assert q(xs[0]) ==> ([xs[0]] + Filter(q, xs[1..]))[1..] == Filter(q, xs[1..]);
    }
  }
}
