/** Sequence utilities with the exact tie-breaking of the Rust library calls the
    reconciler relies on: `filter`, the stable `sort_by_key`, and
    `max_by_key`, which returns the last of several equal maxima. */
module Order {

  /** Keeps the elements satisfying `p`, in their original order. */
  function Filter<T>(xs: seq<T>, p: T -> bool): (r: seq<T>)
    ensures |r| <= |xs|
    ensures forall i :: 0 <= i < |r| ==> p(r[i])
    ensures forall i :: 0 <= i < |r| ==> r[i] in xs
    ensures forall i :: 0 <= i < |xs| && p(xs[i]) ==> xs[i] in r
  {
    if |xs| == 0 then []
    else (if p(xs[0]) then [xs[0]] else []) + Filter(xs[1..], p)
  }

  /** Filtering a concatenation filters each part and keeps the parts in
      order; with the one-element case below, the kept elements appear in the
      order and multiplicity they have in the input. */
  lemma {:induction false} FilterAppend<T>(xs: seq<T>, ys: seq<T>, p: T -> bool)
    ensures Filter(xs + ys, p) == Filter(xs, p) + Filter(ys, p)
  {
    if |xs| > 0 {
      assert (xs + ys)[1..] == xs[1..] + ys;
      FilterAppend(xs[1..], ys, p);
    } else {
      assert xs + ys == ys;
    }
  }

  /** One element is kept exactly when it satisfies `p`. */
  lemma FilterOne<T>(x: T, p: T -> bool)
    ensures Filter([x], p) == if p(x) then [x] else []
  {
    assert [x][1..] == [];
  }

  /** Keys never decrease along `s`. */
  predicate SortedBy<T>(s: seq<T>, key: T -> int)
  {
    forall i, j :: 0 <= i < j < |s| ==> key(s[i]) <= key(s[j])
  }

  /** Inserts `x` in front of the first element whose key is not smaller,
      so that `x` stays ahead of the elements it ties with. */
  function Insert<T>(x: T, s: seq<T>, key: T -> int): (r: seq<T>)
    requires SortedBy(s, key)
    ensures |r| == |s| + 1
    ensures SortedBy(r, key)
    ensures multiset(r) == multiset(s) + multiset{x}
    ensures r[0] == (if |s| == 0 || key(x) <= key(s[0]) then x else s[0])
  {
    if |s| == 0 || key(x) <= key(s[0]) then [x] + s
    else
      var rest := Insert(x, s[1..], key);
      assert s == [s[0]] + s[1..];
      [s[0]] + rest
  }

  /** A stable sort by ascending key: the model of `sort_by_key`. */
  function SortByKey<T>(xs: seq<T>, key: T -> int): (r: seq<T>)
    ensures |r| == |xs|
    ensures SortedBy(r, key)
    ensures multiset(r) == multiset(xs)
  {
    if |xs| == 0 then []
    else
      assert xs == [xs[0]] + xs[1..];
      Insert(xs[0], SortByKey(xs[1..], key), key)
  }

  /** The elements whose key is `k`. */
  function KeyIs<T>(key: T -> int, k: int): T -> bool
  {
    y => key(y) == k
  }

  /** Two elements of different keys never both have key `k`, so their
      order does not matter to the elements of key `k`. */
  lemma SwapDistinctKeys<T>(a: T, b: T, key: T -> int, k: int)
    requires key(a) != key(b)
    ensures Filter([a], KeyIs(key, k)) + Filter([b], KeyIs(key, k))
            == Filter([b], KeyIs(key, k)) + Filter([a], KeyIs(key, k))
  {
    FilterOne(a, KeyIs(key, k));
    FilterOne(b, KeyIs(key, k));
  }

  /** Sequence algebra for moving a block `b` ahead of a block `a` it commutes with. */
  lemma MoveAhead<T>(a: seq<T>, b: seq<T>, c: seq<T>, d: seq<T>)
    requires a + b == b + a && d == b + c
    ensures a + d == b + (a + c)
  {
    calc {
      a + d;
      a + (b + c);
      (a + b) + c;
      (b + a) + c;
      b + (a + c);
    }
  }

  /** Inserting `x` into a sorted sequence puts it ahead of every element it
      ties with: among the elements of one key, `x` comes first. */
  lemma {:induction false} InsertStable<T>(x: T, s: seq<T>, key: T -> int, k: int)
    requires SortedBy(s, key)
    ensures Filter(Insert(x, s, key), KeyIs(key, k)) == Filter([x], KeyIs(key, k)) + Filter(s, KeyIs(key, k))
  {
    var q := KeyIs(key, k);
    if |s| == 0 || key(x) <= key(s[0]) {
      FilterAppend([x], s, q);
    } else {
      var head, tail := s[0], s[1..];
      assert s == [head] + tail;
      var rest := Insert(x, tail, key);
      assert Insert(x, s, key) == [head] + rest;
      InsertStable(x, tail, key, k);
      FilterAppend([head], rest, q);
      FilterAppend([head], tail, q);
      SwapDistinctKeys(head, x, key, k);
      MoveAhead(Filter([head], q), Filter([x], q), Filter(tail, q), Filter(rest, q));
    }
  }

  /** The sort is stable: the elements of each key keep their input order. */
  lemma {:induction false} SortStable<T>(xs: seq<T>, key: T -> int, k: int)
    ensures Filter(SortByKey(xs, key), KeyIs(key, k)) == Filter(xs, KeyIs(key, k))
  {
    if |xs| > 0 {
      assert xs == [xs[0]] + xs[1..];
      SortStable(xs[1..], key, k);
      InsertStable(xs[0], SortByKey(xs[1..], key), key, k);
      FilterAppend([xs[0]], xs[1..], KeyIs(key, k));
    }
  }

  /** The position of the first element with the smallest key. */
  function FirstMinIndex<T>(xs: seq<T>, key: T -> int): (i: nat)
    requires |xs| > 0
    ensures i < |xs|
    ensures forall j :: 0 <= j < |xs| ==> key(xs[i]) <= key(xs[j])
    ensures forall j :: 0 <= j < i ==> key(xs[i]) < key(xs[j])
  {
    if |xs| == 1 then 0
    else
      var j := FirstMinIndex(xs[1..], key);
      if key(xs[0]) <= key(xs[1 + j]) then 0 else 1 + j
  }

  /** Because the sort is stable, its head is the first element of minimal key. */
  lemma {:induction false} SortHeadIsFirstMin<T>(xs: seq<T>, key: T -> int)
    ensures |xs| > 0 ==> SortByKey(xs, key)[0] == xs[FirstMinIndex(xs, key)]
  {
    if |xs| > 1 {
      SortHeadIsFirstMin(xs[1..], key);
    }
  }

  /** The position Rust's `max_by_key` picks: the last element of maximal key. */
  function LastMaxIndex<T>(xs: seq<T>, key: T -> int): (i: nat)
    requires |xs| > 0
    ensures i < |xs|
    ensures forall j :: 0 <= j < |xs| ==> key(xs[j]) <= key(xs[i])
    ensures forall j :: i < j < |xs| ==> key(xs[j]) < key(xs[i])
  {
    if |xs| == 1 then 0
    else
      var i := LastMaxIndex(xs[..|xs| - 1], key);
      if key(xs[|xs| - 1]) >= key(xs[i]) then |xs| - 1 else i
  }

  /** Concatenates `f(xs[i], i)` over the positions of `xs`, in order. */
  function FlatMapIndexed<T, U>(xs: seq<T>, f: (T, nat) -> seq<U>): (r: seq<U>)
    ensures (forall i :: 0 <= i < |xs| ==> |f(xs[i], i)| >= 1) ==> |r| >= |xs|
  {
    if |xs| == 0 then []
    else FlatMapIndexed(xs[..|xs| - 1], f) + f(xs[|xs| - 1], |xs| - 1)
  }

  /** The block of element i comes after the blocks of the earlier elements
      and before those of the later ones; the block of the last element ends
      the result. */
  lemma {:induction false} FlatMapInOrder<T, U>(xs: seq<T>, f: (T, nat) -> seq<U>, i: nat)
    requires i < |xs|
    ensures FlatMapIndexed(xs[..i], f) + f(xs[i], i) <= FlatMapIndexed(xs, f)
    ensures i == |xs| - 1 ==> FlatMapIndexed(xs[..i], f) + f(xs[i], i) == FlatMapIndexed(xs, f)
    decreases |xs|
  {
    var last := |xs| - 1;
    var init := xs[..last];
    assert xs[..|xs|][..i] == xs[..i];
    if i < last {
      FlatMapInOrder(init, f, i);
      assert init[..i] == xs[..i];
      assert init[i] == xs[i];
    } else {
      assert init == xs[..i];
    }
  }

  /** When every element yields exactly one value, the result lists those
      values position by position. */
  lemma {:induction false} FlatMapOnePer<T, U>(xs: seq<T>, f: (T, nat) -> seq<U>)
    requires forall i :: 0 <= i < |xs| ==> |f(xs[i], i)| == 1
    ensures var r := FlatMapIndexed(xs, f);
            |r| == |xs| && forall i :: 0 <= i < |xs| ==> r[i] == f(xs[i], i)[0]
  {
    if |xs| > 0 {
      var last := |xs| - 1;
      var init := xs[..last];
      assert forall i :: 0 <= i < |init| ==> init[i] == xs[i];
      FlatMapOnePer(init, f);
    }
  }

  /** A property every block has, the whole result has. */
  lemma {:induction false} FlatMapAll<T, U>(xs: seq<T>, f: (T, nat) -> seq<U>, p: U -> bool)
    requires forall i, j :: 0 <= i < |xs| && 0 <= j < |f(xs[i], i)| ==> p(f(xs[i], i)[j])
    ensures forall j :: 0 <= j < |FlatMapIndexed(xs, f)| ==> p(FlatMapIndexed(xs, f)[j])
  {
    if |xs| > 0 {
      var last := |xs| - 1;
      var init := xs[..last];
      assert forall i :: 0 <= i < |init| ==> init[i] == xs[i];
      FlatMapAll(init, f, p);
      var r0 := FlatMapIndexed(init, f);
      var mine := f(xs[last], last);
      assert forall j :: 0 <= j < |mine| ==> p(mine[j]);
      var r := FlatMapIndexed(xs, f);
      assert r == r0 + mine;
      forall j | 0 <= j < |r|
        ensures p(r[j])
      {
        if j < |r0| {
          assert r[j] == r0[j];
          assert p(r0[j]);
        } else {
          assert r[j] == mine[j - |r0|];
          assert p(mine[j - |r0|]);
        }
      }
    }
  }
}
