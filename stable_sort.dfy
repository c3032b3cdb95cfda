/** Python's `sorted(items, key=lambda item: item[1], reverse=True)` on (value, key) pairs:
    a stable sort by descending key. `reverse=True` keeps items with equal keys in their
    original order, so it is not the reverse of the ascending sort. */
module StableSort {

  /** Sorted by descending key. */
  predicate SortedDesc<T>(xs: seq<(T, int)>)
  {
    forall a, b | 0 <= a < b < |xs| :: xs[a].1 >= xs[b].1
  }

  /** The items with key v, in order. */
  function WithKey<T>(xs: seq<(T, int)>, v: int): (r: seq<(T, int)>)
    ensures |r| <= |xs|
  {
    if xs == [] then []
    else (if xs[0].1 == v then [xs[0]] else []) + WithKey(xs[1..], v)
  }

  /** Place x before the first item whose key is not above x's. */
  function InsertDesc<T>(x: (T, int), ys: seq<(T, int)>): (r: seq<(T, int)>)
    ensures |r| == |ys| + 1
  {
    if ys == [] then [x]
    else if x.1 >= ys[0].1 then [x] + ys
    else [ys[0]] + InsertDesc(x, ys[1..])
  }

  /** Inserting adds x and keeps every other item. */
  lemma {:induction false} InsertDescPermutes<T>(x: (T, int), ys: seq<(T, int)>)
    ensures multiset(InsertDesc(x, ys)) == multiset(ys) + multiset{x}
  {
    if ys != [] && x.1 < ys[0].1 {
      InsertDescPermutes(x, ys[1..]);
      assert ys == [ys[0]] + ys[1..];
    }
  }

  /** The stable descending sort: the first item goes in front of every later item with
      the same key. */
  function SortDesc<T>(xs: seq<(T, int)>): (r: seq<(T, int)>)
    ensures |r| == |xs|
  {
    if xs == [] then []
    else InsertDesc(xs[0], SortDesc(xs[1..]))
  }

  /** The sort is a permutation. */
  lemma {:induction false} SortDescPermutes<T>(xs: seq<(T, int)>)
    ensures multiset(SortDesc(xs)) == multiset(xs)
  {
    if xs != [] {
      SortDescPermutes(xs[1..]);
      InsertDescPermutes(xs[0], SortDesc(xs[1..]));
      assert xs == [xs[0]] + xs[1..];
    }
  }

  /** Putting an item no lower than the head in front keeps the order. */
  lemma SortedCons<T>(y: (T, int), zs: seq<(T, int)>)
    requires SortedDesc(zs) && (zs != [] ==> y.1 >= zs[0].1)
    ensures SortedDesc([y] + zs)
  {
    var r := [y] + zs;
    forall a, b | 0 <= a < b < |r| ensures r[a].1 >= r[b].1 {
      assert r[b] == zs[b - 1];
      if a > 0 {
        assert r[a] == zs[a - 1];
      } else if b > 1 {
        assert zs[0].1 >= zs[b - 1].1;
      }
    }
  }

  lemma {:induction false} InsertKeepsSorted<T>(x: (T, int), ys: seq<(T, int)>)
    requires SortedDesc(ys)
    ensures SortedDesc(InsertDesc(x, ys))
    ensures InsertDesc(x, ys)[0] == x || InsertDesc(x, ys)[0] == ys[0]
  {
    if ys == [] {
    } else if x.1 >= ys[0].1 {
      SortedCons(x, ys);
    } else {
      var tail := ys[1..];
      assert SortedDesc(tail) by {
        forall a, b | 0 <= a < b < |tail| ensures tail[a].1 >= tail[b].1 {
          assert tail[a] == ys[a + 1] && tail[b] == ys[b + 1];
        }
      }
      InsertKeepsSorted(x, tail);
      var rest := InsertDesc(x, tail);
      assert InsertDesc(x, ys) == [ys[0]] + rest;
      // the new head ys[0] is above rest's head (x or ys[1])
      assert ys[0].1 >= rest[0].1 by {
        if |ys| > 1 {
          assert tail[0] == ys[1];
        }
      }
      SortedCons(ys[0], rest);
    }
  }

  /** The result is in descending order of key. */
  lemma {:induction false} SortDescSorted<T>(xs: seq<(T, int)>)
    ensures SortedDesc(SortDesc(xs))
  {
    if xs != [] {
      SortDescSorted(xs[1..]);
      InsertKeepsSorted(xs[0], SortDesc(xs[1..]));
    }
  }

  lemma {:induction false} WithKeyAppend<T>(xs: seq<(T, int)>, ys: seq<(T, int)>, v: int)
    ensures WithKey(xs + ys, v) == WithKey(xs, v) + WithKey(ys, v)
  {
    if xs != [] {
      assert (xs + ys)[1..] == xs[1..] + ys;
      WithKeyAppend(xs[1..], ys, v);
    } else {
      assert xs + ys == ys;
    }
  }

  /** No item of a list whose keys are all above v has key v. */
  lemma {:induction false} WithKeyNone<T>(ys: seq<(T, int)>, v: int)
    requires forall k | 0 <= k < |ys| :: ys[k].1 != v
    ensures WithKey(ys, v) == []
  {
    if ys != [] {
      WithKeyNone(ys[1..], v);
    }
  }

  lemma WithKeyCons<T>(y: (T, int), zs: seq<(T, int)>, v: int)
    ensures WithKey([y] + zs, v) == (if y.1 == v then [y] else []) + WithKey(zs, v)
  {
    assert ([y] + zs)[1..] == zs;
  }

  /** Inserting x changes only the items with x's key, and puts x ahead of them: the items
      it passes have keys above x's. */
  lemma {:induction false} InsertWithKey<T>(x: (T, int), ys: seq<(T, int)>, v: int)
    ensures WithKey(InsertDesc(x, ys), v) == (if x.1 == v then [x] else []) + WithKey(ys, v)
  {
    if ys == [] {
      WithKeyCons(x, ys, v);
    } else if x.1 >= ys[0].1 {
      WithKeyCons(x, ys, v);
    } else {
      InsertWithKey(x, ys[1..], v);
      assert InsertDesc(x, ys) == [ys[0]] + InsertDesc(x, ys[1..]);
      assert ys == [ys[0]] + ys[1..];
      PassHead(ys[0], InsertDesc(x, ys[1..]), ys[1..], x, v);
    }
  }

  /** x passes the head y, whose key is above x's and so is not both x's and v. */
  lemma PassHead<T>(y: (T, int), rest: seq<(T, int)>, tail: seq<(T, int)>, x: (T, int), v: int)
    requires x.1 < y.1
    requires WithKey(rest, v) == (if x.1 == v then [x] else []) + WithKey(tail, v)
    ensures WithKey([y] + rest, v) == (if x.1 == v then [x] else []) + WithKey([y] + tail, v)
  {
    WithKeyCons(y, rest, v);
    WithKeyCons(y, tail, v);
  }

  /** Stability: among items with the same key the sort keeps the original order. */
  lemma {:induction false} SortDescStable<T>(xs: seq<(T, int)>, v: int)
    ensures WithKey(SortDesc(xs), v) == WithKey(xs, v)
  {
    if xs != [] {
      SortDescStable(xs[1..], v);
      InsertWithKey(xs[0], SortDesc(xs[1..]), v);
    }
  }
}
