/**
 * Choosing, among the keypoint arrays of one input record, the five that
 * hold the most non-zero values: a stable sort by that count, largest
 * first, followed by taking at most five from the front.
 *
 * The sort is modelled on indices: Order lists the positions 0 .. n-1 so
 * that a larger count comes first and, between equal counts, the earlier
 * position comes first, which is what a stable sort in reverse order gives.
 */
module KeypointsChoose {
  import opened Wrappers

  /** How many values of arr differ from zero. */
  function CountNonZero(arr: seq<real>): (n: nat)
    ensures n <= |arr|
  {
    if arr == [] then 0
    else CountNonZero(arr[..|arr| - 1]) + (if arr[|arr| - 1] != 0.0 then 1 else 0)
  }

  /** The count is the length less the number of zeros. */
  lemma {:induction false} CountNonZeroZeros(arr: seq<real>)
    ensures CountNonZero(arr) == |arr| - multiset(arr)[0.0]
  {
    if arr != [] {
      var init := arr[..|arr| - 1];
      assert arr == init + [arr[|arr| - 1]];
      CountNonZeroZeros(init);
    }
  }

  /** One entry of a record's coordinate list; its keypoints may be absent. */
  datatype CoordObject = CoordObject(keypoints: Option<seq<real>>)

  /** The keypoints of an entry, or the empty array when it has none. */
  function KeypointsOf(obj: CoordObject): seq<real>
  {
    if obj.keypoints.Some? then obj.keypoints.value else []
  }

  /** The arrays of a record's entries, in entry order. */
  function Gathered(objs: seq<CoordObject>): seq<seq<real>>
  {
    seq(|objs|, i requires 0 <= i < |objs| => KeypointsOf(objs[i]))
  }

  /** The gathering loop: one array per entry, in entry order. */
  method GatherKeypoints(objs: seq<CoordObject>) returns (arrays: seq<seq<real>>)
    ensures arrays == Gathered(objs)
    ensures |arrays| == |objs|
    ensures forall i :: 0 <= i < |objs| ==> arrays[i] == KeypointsOf(objs[i])
    ensures forall i :: 0 <= i < |objs| && objs[i].keypoints.None? ==> arrays[i] == []
  {
    arrays := [];
    for i := 0 to |objs|
      invariant |arrays| == i
      invariant forall j :: 0 <= j < i ==> arrays[j] == KeypointsOf(objs[j])
    {
      arrays := arrays + [KeypointsOf(objs[i])];
    }
  }

  /** The sort key of position a; positions past the end have key 0. */
  function Key(keys: seq<nat>, a: int): nat
  {
    if 0 <= a < |keys| then keys[a] else 0
  }

  /** Position a goes before position b: larger key first, then earlier position. */
  predicate Before(keys: seq<nat>, a: int, b: int)
  {
    Key(keys, a) > Key(keys, b) || (Key(keys, a) == Key(keys, b) && a < b)
  }

  lemma BeforeTransitive(keys: seq<nat>, a: int, b: int, c: int)
    requires Before(keys, a, b) && Before(keys, b, c)
    ensures Before(keys, a, c)
  {
  }

  /** Every pair of positions in ord is in Before order. */
  ghost predicate Sorted(keys: seq<nat>, ord: seq<int>)
  {
    forall k, l :: 0 <= k < l < |ord| ==> Before(keys, ord[k], ord[l])
  }

  /** Inserts position i into ord before the first position it goes before. */
  function InsertIdx(keys: seq<nat>, ord: seq<int>, i: int): (r: seq<int>)
    ensures |r| == |ord| + 1
  {
    if ord == [] then [i]
    else if Before(keys, ord[0], i) then [ord[0]] + InsertIdx(keys, ord[1..], i)
    else [i] + ord
  }

  /** Insertion adds i and keeps every position already there. */
  lemma {:induction false} InsertIdxPermutes(keys: seq<nat>, ord: seq<int>, i: int)
    ensures multiset(InsertIdx(keys, ord, i)) == multiset(ord) + multiset{i}
  {
    if ord != [] && Before(keys, ord[0], i) {
      InsertIdxPermutes(keys, ord[1..], i);
      assert ord == [ord[0]] + ord[1..];
    }
  }

  /** Insertion into a sorted order of a position not yet in it keeps it sorted. */
  lemma {:induction false} InsertIdxSorted(keys: seq<nat>, ord: seq<int>, i: int)
    requires Sorted(keys, ord) && i !in ord
    ensures Sorted(keys, InsertIdx(keys, ord, i))
  {
    if ord != [] {
      var r := InsertIdx(keys, ord, i);
      if Before(keys, ord[0], i) {
        var rest := InsertIdx(keys, ord[1..], i);
        InsertIdxSorted(keys, ord[1..], i);
        InsertHeadBefore(keys, ord, i);
        forall k, l | 0 <= k < l < |r| ensures Before(keys, r[k], r[l]) {
          if k == 0 {
            assert r[l] == rest[l - 1];
          } else {
            assert r[k] == rest[k - 1] && r[l] == rest[l - 1];
          }
        }
      } else {
        assert i != ord[0];
        forall k, l | 0 <= k < l < |r| ensures Before(keys, r[k], r[l]) {
          if k == 0 && l > 1 {
            BeforeTransitive(keys, i, ord[0], ord[l - 1]);
          }
        }
      }
    }
  }

  /** When the head of ord goes before i, it goes before everything the rest becomes. */
  lemma InsertHeadBefore(keys: seq<nat>, ord: seq<int>, i: int)
    requires Sorted(keys, ord) && ord != [] && Before(keys, ord[0], i)
    ensures forall x :: x in InsertIdx(keys, ord[1..], i) ==> Before(keys, ord[0], x)
  {
    var rest := InsertIdx(keys, ord[1..], i);
    InsertIdxPermutes(keys, ord[1..], i);
    forall x | x in rest ensures Before(keys, ord[0], x) {
      assert x in multiset(rest);
      if x != i {
        assert x in ord[1..];
        var m :| 0 <= m < |ord[1..]| && ord[1..][m] == x;
        assert ord[m + 1] == x;
      }
    }
  }

  /** The positions 0 .. n-1 inserted one after the other. */
  function Order(keys: seq<nat>, n: nat): (r: seq<int>)
    ensures |r| == n
  {
    if n == 0 then [] else InsertIdx(keys, Order(keys, n - 1), n - 1)
  }

  /** Order(keys, n) holds each of 0 .. n-1 exactly once. */
  lemma {:induction false} OrderPermutes(keys: seq<nat>, n: nat)
    ensures multiset(Order(keys, n)) == Upto(n)
  {
    if n > 0 {
      var prev := Order(keys, n - 1);
      OrderPermutes(keys, n - 1);
      InsertIdxPermutes(keys, prev, n - 1);
      calc {
        multiset(Order(keys, n));
        multiset(InsertIdx(keys, prev, n - 1));
        multiset(prev) + multiset{n - 1};
        Upto(n - 1) + multiset{n - 1};
        Upto(n);
      }
    }
  }

  /** Order(keys, n) is sorted by Before. */
  lemma {:induction false} OrderSorted(keys: seq<nat>, n: nat)
    ensures Sorted(keys, Order(keys, n))
  {
    if n > 0 {
      OrderSorted(keys, n - 1);
      OrderPermutes(keys, n - 1);
      InsertNext(keys, Order(keys, n - 1), n);
    }
  }

  /** Inserting n - 1 into a sorted order of 0 .. n-2 keeps it sorted. */
  lemma InsertNext(keys: seq<nat>, prev: seq<int>, n: nat)
    requires 0 < n && Sorted(keys, prev) && multiset(prev) == Upto(n - 1)
    ensures Sorted(keys, InsertIdx(keys, prev, n - 1))
  {
    assert multiset(prev)[n - 1] == 0;
    InsertIdxSorted(keys, prev, n - 1);
  }

  /** The multiset holding each of 0 .. n-1 once. */
  ghost function Upto(n: nat): (m: multiset<int>)
    ensures forall x :: m[x] == if 0 <= x < n then 1 else 0
  {
    if n == 0 then multiset{} else Upto(n - 1) + multiset{n - 1}
  }

  /** The array at position j, or the empty array past the end. */
  function At(arrays: seq<seq<real>>, j: int): seq<real>
  {
    if 0 <= j < |arrays| then arrays[j] else []
  }

  /** The arrays at the positions listed in ord. */
  function Pick(arrays: seq<seq<real>>, ord: seq<int>): (r: seq<seq<real>>)
    ensures |r| == |ord|
  {
    if ord == [] then [] else [At(arrays, ord[0])] + Pick(arrays, ord[1..])
  }

  /** Entry k of the pick is the array at position ord[k]. */
  lemma {:induction false} PickIndex(arrays: seq<seq<real>>, ord: seq<int>)
    ensures forall k :: 0 <= k < |ord| ==> Pick(arrays, ord)[k] == At(arrays, ord[k])
  {
    if ord != [] {
      PickIndex(arrays, ord[1..]);
    }
  }

  /** Picking along an insertion adds the inserted position's array. */
  lemma {:induction false} PickInsert(arrays: seq<seq<real>>, keys: seq<nat>, ord: seq<int>, i: int)
    ensures multiset(Pick(arrays, InsertIdx(keys, ord, i))) == multiset(Pick(arrays, ord)) + multiset{At(arrays, i)}
  {
    var r := InsertIdx(keys, ord, i);
    if ord == [] {
    } else if Before(keys, ord[0], i) {
      PickInsert(arrays, keys, ord[1..], i);
      assert r[1..] == InsertIdx(keys, ord[1..], i);
    } else {
      assert r[1..] == ord;
    }
  }

  /** The sort keys: the non-zero count of each array. */
  function Counts(arrays: seq<seq<real>>): seq<nat>
  {
    seq(|arrays|, i requires 0 <= i < |arrays| => CountNonZero(arrays[i]))
  }

  /** Picking along Order(keys, n) reorders arrays[..n]. */
  lemma {:induction false} OrderPicks(arrays: seq<seq<real>>, keys: seq<nat>, n: nat)
    requires n <= |arrays|
    ensures multiset(Pick(arrays, Order(keys, n))) == multiset(arrays[..n])
  {
    if n > 0 {
      OrderPicks(arrays, keys, n - 1);
      PickNext(arrays, keys, Order(keys, n - 1), n);
    }
  }

  /** Picking along the insertion of n - 1 extends a reordering of arrays[..n - 1] to one of arrays[..n]. */
  lemma PickNext(arrays: seq<seq<real>>, keys: seq<nat>, prev: seq<int>, n: nat)
    requires 0 < n <= |arrays|
    requires multiset(Pick(arrays, prev)) == multiset(arrays[..n - 1])
    ensures multiset(Pick(arrays, InsertIdx(keys, prev, n - 1))) == multiset(arrays[..n])
  {
    PickInsert(arrays, keys, prev, n - 1);
    SliceSnoc(arrays, n);
  }

  /** Order(keys, n) lists positions below n only. */
  lemma OrderBelow(keys: seq<nat>, n: nat)
    ensures forall k :: 0 <= k < |Order(keys, n)| ==> 0 <= Order(keys, n)[k] < n
  {
    OrderPermutes(keys, n);
    forall k | 0 <= k < |Order(keys, n)| ensures 0 <= Order(keys, n)[k] < n {
      assert Order(keys, n)[k] in multiset(Order(keys, n));
    }
  }

  lemma SliceSnoc<T>(s: seq<T>, n: nat)
    requires 0 < n <= |s|
    ensures s[..n] == s[..n - 1] + [s[n - 1]]
  {
  }

  /** The arrays stably sorted by non-zero count, largest count first. */
  function SortByCount(arrays: seq<seq<real>>): (r: seq<seq<real>>)
    ensures |r| == |arrays|
  {
    OrderPermutes(Counts(arrays), |arrays|);
    Pick(arrays, Order(Counts(arrays), |arrays|))
  }

  /** The first five of the sorted arrays, or all of them when there are fewer. */
  function TopFive(arrays: seq<seq<real>>): (r: seq<seq<real>>)
    ensures |r| == if |arrays| < 5 then |arrays| else 5
  {
    var sorted := SortByCount(arrays);
    if |sorted| <= 5 then sorted else sorted[..5]
  }

  /** The sort reorders the arrays: nothing is added or lost. */
  lemma SortByCountPermutes(arrays: seq<seq<real>>)
    ensures multiset(SortByCount(arrays)) == multiset(arrays)
  {
    OrderPicks(arrays, Counts(arrays), |arrays|);
    assert arrays[..|arrays|] == arrays;
  }

  /**
   * The sort is by count, largest first, and stable: of two arrays with the
   * same count, the one earlier in the input stays earlier.
   */
  lemma SortByCountOrdered(arrays: seq<seq<real>>)
    ensures var ord := Order(Counts(arrays), |arrays|);
            |ord| == |arrays| &&
            (forall k :: 0 <= k < |ord| ==> 0 <= ord[k] < |arrays| && SortByCount(arrays)[k] == arrays[ord[k]]) &&
            (forall k, l :: 0 <= k < l < |ord| ==>
               CountNonZero(arrays[ord[k]]) >= CountNonZero(arrays[ord[l]]) &&
               (CountNonZero(arrays[ord[k]]) == CountNonZero(arrays[ord[l]]) ==> ord[k] < ord[l]))
  {
    var ord := Order(Counts(arrays), |arrays|);
    OrderPermutes(Counts(arrays), |arrays|);
    OrderSorted(Counts(arrays), |arrays|);
    OrderBelow(Counts(arrays), |arrays|);
    PickIndex(arrays, ord);
    forall k, l | 0 <= k < l < |ord|
      ensures CountNonZero(arrays[ord[k]]) >= CountNonZero(arrays[ord[l]]) &&
              (CountNonZero(arrays[ord[k]]) == CountNonZero(arrays[ord[l]]) ==> ord[k] < ord[l])
    {
      assert Before(Counts(arrays), ord[k], ord[l]);
    }
  }

  /** No array left out of the top five has a larger count than one chosen. */
  lemma TopFiveMaximal(arrays: seq<seq<real>>)
    ensures forall k, l :: 0 <= k < |TopFive(arrays)| <= l < |arrays| ==>
              CountNonZero(TopFive(arrays)[k]) >= CountNonZero(SortByCount(arrays)[l])
    ensures forall k :: 0 <= k < |TopFive(arrays)| ==> TopFive(arrays)[k] == SortByCount(arrays)[k]
  {
    SortByCountOrdered(arrays);
  }

  /** One input record: gather its arrays, then keep the five with most non-zero values. */
  method TopKeypoints(objs: seq<CoordObject>) returns (top: seq<seq<real>>)
    ensures top == TopFive(Gathered(objs))
    ensures |top| == if |objs| < 5 then |objs| else 5
    ensures forall k, l :: 0 <= k < l < |top| ==> CountNonZero(top[k]) >= CountNonZero(top[l])
    ensures forall a :: a in top ==> exists i :: 0 <= i < |objs| && a == KeypointsOf(objs[i])
    ensures forall k, i :: 0 <= k < |top| && 0 <= i < |objs| && KeypointsOf(objs[i]) !in top ==>
              CountNonZero(top[k]) >= CountNonZero(KeypointsOf(objs[i]))
  {
    var arrays := GatherKeypoints(objs);
    top := TopFive(arrays);
    SortByCountPermutes(arrays);
    TopFiveMaximal(arrays);
    var sorted := SortByCount(arrays);
    SortByCountOrdered(arrays);
    forall k, l | 0 <= k < l < |top| ensures CountNonZero(top[k]) >= CountNonZero(top[l]) {
      var ord := Order(Counts(arrays), |arrays|);
      assert top[k] == arrays[ord[k]] && top[l] == arrays[ord[l]];
    }
    forall a | a in top ensures exists i :: 0 <= i < |objs| && a == KeypointsOf(objs[i]) {
      assert a in multiset(sorted);
      var i :| 0 <= i < |arrays| && arrays[i] == a;
    }
    forall k, i | 0 <= k < |top| && 0 <= i < |objs| && KeypointsOf(objs[i]) !in top
      ensures CountNonZero(top[k]) >= CountNonZero(KeypointsOf(objs[i]))
    {
      assert arrays[i] in multiset(sorted);
      var l :| 0 <= l < |sorted| && sorted[l] == arrays[i];
    }
  }
}
