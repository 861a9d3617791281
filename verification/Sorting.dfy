/** Stable sorting by an integer key, as Python's `sorted` and SQL's ORDER BY on a
    key followed by the row id both do it. */
module Sorting {

  ghost predicate Sorted<T>(xs: seq<T>, key: T -> int) {
    forall i, j :: 0 <= i < j < |xs| ==> key(xs[i]) <= key(xs[j])
  }

  predicate Distinct<T(==)>(xs: seq<T>) {
    forall i, j :: 0 <= i < j < |xs| ==> xs[i] != xs[j]
  }

  /** The items with one key, in their order of appearance. */
  ghost function Bucket<T>(xs: seq<T>, key: T -> int, n: int): seq<T> {
    if xs == [] then []
    else Bucket(xs[..|xs| - 1], key, n) + (if key(xs[|xs| - 1]) == n then [xs[|xs| - 1]] else [])
  }

  /** What "stable sort" means: ordered by key, and items with equal keys keep their order. */
  ghost predicate IsStableSort<T>(ys: seq<T>, xs: seq<T>, key: T -> int) {
    Sorted(ys, key) && forall n :: Bucket(ys, key, n) == Bucket(xs, key, n)
  }

  function Insert<T>(ys: seq<T>, x: T, key: T -> int): (r: seq<T>)
    ensures |r| == |ys| + 1
  {
    if ys == [] || key(ys[|ys| - 1]) <= key(x) then ys + [x]
    else Insert(ys[..|ys| - 1], x, key) + [ys[|ys| - 1]]
  }

  function StableSort<T>(xs: seq<T>, key: T -> int): (r: seq<T>)
    ensures |r| == |xs|
  {
    if xs == [] then [] else Insert(StableSort(xs[..|xs| - 1], key), xs[|xs| - 1], key)
  }

  lemma BucketAppend<T>(xs: seq<T>, x: T, key: T -> int, n: int)
    ensures Bucket(xs + [x], key, n) == Bucket(xs, key, n) + (if key(x) == n then [x] else [])
  {
    assert (xs + [x])[..|xs|] == xs;
  }

  lemma {:induction false} InsertItems<T>(ys: seq<T>, x: T, key: T -> int)
    ensures multiset(Insert(ys, x, key)) == multiset(ys) + multiset{x}
  {
    if ys != [] && key(ys[|ys| - 1]) > key(x) {
      InsertItems(ys[..|ys| - 1], x, key);
      assert ys == ys[..|ys| - 1] + [ys[|ys| - 1]];
    }
  }

  lemma {:induction false} InsertSorted<T>(ys: seq<T>, x: T, key: T -> int)
    requires Sorted(ys, key)
    ensures Sorted(Insert(ys, x, key), key)
  {
    if ys != [] && key(ys[|ys| - 1]) > key(x) {
      var front, last := ys[..|ys| - 1], ys[|ys| - 1];
      var rest := Insert(front, x, key);
      InsertSorted(front, x, key);
      InsertItems(front, x, key);
      forall i | 0 <= i < |rest| ensures key(rest[i]) <= key(last) {
        assert rest[i] in multiset(rest);
        assert rest[i] in front || rest[i] == x;
      }
    }
  }

  lemma {:induction false} InsertStable<T>(ys: seq<T>, x: T, key: T -> int, n: int)
    ensures Bucket(Insert(ys, x, key), key, n) == Bucket(ys + [x], key, n)
  {
    if ys != [] && key(ys[|ys| - 1]) > key(x) {
      var front, last := ys[..|ys| - 1], ys[|ys| - 1];
      InsertStable(front, x, key, n);
      BucketAppend(Insert(front, x, key), last, key, n);
      BucketAppend(front, x, key, n);
      BucketAppend(ys, x, key, n);
    }
  }

  lemma {:induction false} StableSortIsStable<T>(xs: seq<T>, key: T -> int)
    ensures IsStableSort(StableSort(xs, key), xs, key)
    ensures multiset(StableSort(xs, key)) == multiset(xs)
  {
    if xs != [] {
      var front, x := xs[..|xs| - 1], xs[|xs| - 1];
      var ys := StableSort(front, key);
      StableSortIsStable(front, key);
      InsertItems(ys, x, key);
      InsertSorted(ys, x, key);
      assert xs == front + [x];
      forall n ensures Bucket(StableSort(xs, key), key, n) == Bucket(xs, key, n) {
        InsertStable(ys, x, key, n);
        BucketAppend(ys, x, key, n);
      }
    }
  }

  /** A stable sort is determined by its input. */
  lemma {:induction false} StableSortUnique<T>(ys: seq<T>, zs: seq<T>, key: T -> int)
    requires Sorted(ys, key) && Sorted(zs, key)
    requires forall n :: Bucket(ys, key, n) == Bucket(zs, key, n)
    ensures ys == zs
    decreases |ys|
  {
    if ys == [] {
      LastIsBucketed(zs, key);
    } else {
      SameLast(ys, zs, key);
      var ys', zs', y := ys[..|ys| - 1], zs[..|zs| - 1], ys[|ys| - 1];
      assert ys == ys' + [y] && zs == zs' + [y];
      forall k ensures Bucket(ys', key, k) == Bucket(zs', key, k) {
        BucketAppend(ys', y, key, k);
        BucketAppend(zs', y, key, k);
        CancelTail(Bucket(ys', key, k), Bucket(zs', key, k), if key(y) == k then [y] else []);
      }
      StableSortUnique(ys', zs', key);
    }
  }

  lemma SameLast<T>(ys: seq<T>, zs: seq<T>, key: T -> int)
    requires ys != [] && Sorted(ys, key) && Sorted(zs, key)
    requires forall n :: Bucket(ys, key, n) == Bucket(zs, key, n)
    ensures zs != [] && zs[|zs| - 1] == ys[|ys| - 1]
  {
    LastInOther(ys, zs, key);
    LastInOther(zs, ys, key);
    LastIsLargest(ys, zs[|zs| - 1], key);
    LastIsLargest(zs, ys[|ys| - 1], key);
    SameBucketSameLast(ys, zs, key);
  }

  lemma SameBucketSameLast<T>(ys: seq<T>, zs: seq<T>, key: T -> int)
    requires ys != [] && zs != [] && key(ys[|ys| - 1]) == key(zs[|zs| - 1])
    requires Bucket(ys, key, key(ys[|ys| - 1])) == Bucket(zs, key, key(zs[|zs| - 1]))
    ensures zs[|zs| - 1] == ys[|ys| - 1]
  {
    LastIsBucketed(ys, key);
    LastIsBucketed(zs, key);
  }

  lemma LastInOther<T>(ys: seq<T>, zs: seq<T>, key: T -> int)
    requires ys != []
    requires forall n :: Bucket(ys, key, n) == Bucket(zs, key, n)
    ensures ys[|ys| - 1] in zs
  {
    var y := ys[|ys| - 1];
    LastIsBucketed(ys, key);
    assert y in Bucket(zs, key, key(y));
    BucketMembers(zs, key, key(y));
  }

  lemma LastIsLargest<T>(xs: seq<T>, x: T, key: T -> int)
    requires Sorted(xs, key) && x in xs
    ensures key(x) <= key(xs[|xs| - 1])
  {
  }

  lemma CancelTail<T>(a: seq<T>, b: seq<T>, t: seq<T>)
    requires a + t == b + t
    ensures a == b
  {
    assert a == (a + t)[..|a|] && b == (b + t)[..|b|];
  }

  lemma LastIsBucketed<T>(xs: seq<T>, key: T -> int)
    ensures xs != [] ==>
              var b := Bucket(xs, key, key(xs[|xs| - 1]));
              b != [] && b[|b| - 1] == xs[|xs| - 1]
  {
  }

  lemma {:induction false} BucketMembers<T>(xs: seq<T>, key: T -> int, n: int)
    ensures forall x :: x in Bucket(xs, key, n) ==> x in xs && key(x) == n
  {
    if xs != [] { BucketMembers(xs[..|xs| - 1], key, n); }
  }

  /** Sorting again after adding one item to a sorted list is sorting everything at once:
      `sorted(_SECRETS + [value])` keeps `_SECRETS` the sort of all values so far. */
  lemma {:induction false} SortIncrementally<T>(xs: seq<T>, x: T, key: T -> int)
    ensures StableSort(StableSort(xs, key) + [x], key) == StableSort(xs + [x], key)
  {
    var ys := StableSort(xs, key);
    StableSortIsStable(xs, key);
    SortSorted(ys, key);
    assert (ys + [x])[..|ys|] == ys && (xs + [x])[..|xs|] == xs;
  }

  lemma {:induction false} SortSorted<T>(xs: seq<T>, key: T -> int)
    requires Sorted(xs, key)
    ensures StableSort(xs, key) == xs
  {
    if xs != [] {
      SortSorted(xs[..|xs| - 1], key);
      assert xs == xs[..|xs| - 1] + [xs[|xs| - 1]];
    }
  }

  lemma SameItemsDistinct<T>(ys: seq<T>, xs: seq<T>)
    requires multiset(ys) == multiset(xs) && Distinct(xs)
    ensures Distinct(ys)
    ensures forall x :: x in ys <==> x in xs
  {
    forall x ensures multiset(ys)[x] <= 1 { DistinctCount(xs, x); }
    CountedDistinct(ys);
    forall x ensures x in ys <==> x in xs {
      assert x in multiset(ys) <==> x in multiset(xs);
    }
  }

  lemma {:induction false} DistinctCount<T>(xs: seq<T>, x: T)
    requires Distinct(xs)
    ensures multiset(xs)[x] <= 1
  {
    if xs != [] {
      var front := xs[..|xs| - 1];
      assert xs == front + [xs[|xs| - 1]];
      DistinctCount(front, x);
      assert x == xs[|xs| - 1] ==> x !in front;
    }
  }

  lemma {:induction false} CountedDistinct<T>(xs: seq<T>)
    requires forall x :: multiset(xs)[x] <= 1
    ensures Distinct(xs)
  {
    if xs != [] {
      var front, last := xs[..|xs| - 1], xs[|xs| - 1];
      assert xs == front + [last];
      forall x ensures multiset(front)[x] <= 1 { assert multiset(xs)[x] <= 1; }
      CountedDistinct(front);
      assert multiset(xs)[last] <= 1;
      assert last !in multiset(front);
    }
  }
}
