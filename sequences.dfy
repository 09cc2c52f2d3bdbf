/**
 Sequence helpers shared by both indexing modes: duplicate-freedom, the
 linear search `std::find` performs, the swap-with-last-then-pop removal both
 modes use, and the flattening of a list of buckets.
 */
module Sequences {

  /** True iff no element occurs twice in `s`. */
  ghost predicate NoDuplicates<T>(s: seq<T>)
  {
    forall i, j :: 0 <= i < j < |s| ==> s[i] != s[j]
  }

  /** The set of elements of `s`. */
  ghost function Elements<T>(s: seq<T>): set<T>
  {
    set x | x in s
  }

  /** A duplicate-free sequence has as many distinct elements as it has positions. */
  lemma {:induction false} DistinctCard<T>(s: seq<T>)
    requires NoDuplicates(s)
    ensures |Elements(s)| == |s|
  {
    if s != [] {
      var init := s[..|s| - 1];
      var last := s[|s| - 1];
      assert NoDuplicates(init);
      DistinctCard(init);
      assert Elements(s) == Elements(init) + {last} by {
        assert s == init + [last];
      }
      assert forall j :: 0 <= j < |init| ==> init[j] == s[j] != s[|s| - 1];
      assert last !in Elements(init);
    }
  }

  /**
   The position of the first occurrence of `x` in `s`, or `|s|` when `x` does
   not occur (the end iterator returned by a linear search).
   */
  function IndexOf<T(==)>(s: seq<T>, x: T): (k: nat)
    ensures k <= |s|
    ensures k < |s| ==> s[k] == x
    ensures forall j :: 0 <= j < k ==> s[j] != x
    ensures k == |s| <==> x !in s
  {
    if s == [] then 0
    else if s[0] == x then 0
    else 1 + IndexOf(s[1..], x)
  }

  /**
   Exchange position `i` with the last position, then drop the last position:
   the O(1) removal of `s[i]` that does not preserve order.
   */
  function SwapRemove<T>(s: seq<T>, i: nat): (r: seq<T>)
    requires i < |s|
    ensures |r| == |s| - 1
    ensures forall j :: 0 <= j < |r| && j != i ==> r[j] == s[j]
    ensures i < |r| ==> r[i] == s[|s| - 1]
  {
    var last := |s| - 1;
    s[i := s[last]][last := s[i]][..last]
  }

  /** Swap-removal takes away exactly one occurrence of the removed element. */
  lemma SwapRemoveMultiset<T>(s: seq<T>, i: nat)
    requires i < |s|
    ensures multiset(SwapRemove(s, i)) + multiset{s[i]} == multiset(s)
  {
    var last := |s| - 1;
    var r := SwapRemove(s, i);
    if i == last {
      assert s == r + [s[i]];
    } else {
      var mid := s[i + 1..last];
      assert s == s[..i] + [s[i]] + mid + [s[last]];
      assert r == s[..i] + [s[last]] + mid;
      calc {
        multiset(s);
        multiset(s[..i]) + multiset{s[i]} + multiset(mid) + multiset{s[last]};
        multiset(s[..i]) + multiset{s[last]} + multiset(mid) + multiset{s[i]};
        multiset(r) + multiset{s[i]};
      }
    }
  }

  /** The buckets laid end to end, first bucket first. */
  function Concat<T>(bs: seq<seq<T>>): seq<T>
  {
    if bs == [] then [] else Concat(bs[..|bs| - 1]) + bs[|bs| - 1]
  }

  /** The length of the concatenation is the sum of the bucket lengths. */
  function TotalLength<T>(bs: seq<seq<T>>): nat
  {
    if bs == [] then 0 else TotalLength(bs[..|bs| - 1]) + |bs[|bs| - 1]|
  }

  lemma {:induction false} ConcatLength<T>(bs: seq<seq<T>>)
    ensures |Concat(bs)| == TotalLength(bs)
  {
    if bs != [] {
      ConcatLength(bs[..|bs| - 1]);
    }
  }

  /** An element is in the concatenation iff it is in one of the buckets. */
  lemma {:induction false} ConcatMember<T>(bs: seq<seq<T>>, x: T)
    ensures x in Concat(bs) <==> exists i :: 0 <= i < |bs| && x in bs[i]
  {
    if bs != [] {
      var init := bs[..|bs| - 1];
      ConcatMember(init, x);
      if x in Concat(bs) && x !in bs[|bs| - 1] {
        var i :| 0 <= i < |init| && x in init[i];
        assert x in bs[i];
      }
      if exists i :: 0 <= i < |bs| && x in bs[i] {
        var i :| 0 <= i < |bs| && x in bs[i];
        if i < |init| {
          assert x in init[i];
        }
      }
    }
  }

  /**
   Replacing one bucket changes the concatenation, as a multiset, by exactly
   the difference between the old and the new bucket.
   */
  lemma {:induction false} ConcatUpdate<T>(bs: seq<seq<T>>, i: nat, b: seq<T>)
    requires i < |bs|
    ensures multiset(Concat(bs[i := b])) + multiset(bs[i]) == multiset(Concat(bs)) + multiset(b)
  {
    var n := |bs| - 1;
    var updated := bs[i := b];
    assert updated[..n] == if i == n then bs[..n] else bs[..n][i := b];
    if i < n {
      ConcatUpdate(bs[..n], i, b);
      calc {
        multiset(Concat(updated)) + multiset(bs[i]);
        multiset(Concat(bs[..n][i := b])) + multiset(bs[n]) + multiset(bs[..n][i]);
        multiset(Concat(bs[..n])) + multiset(b) + multiset(bs[n]);
        multiset(Concat(bs)) + multiset(b);
      }
    }
  }

  /** Appending a bucket appends its contents. */
  lemma ConcatAppend<T>(bs: seq<seq<T>>, b: seq<T>)
    ensures Concat(bs + [b]) == Concat(bs) + b
  {
    assert (bs + [b])[..|bs|] == bs;
  }

  /** Swap-popping the entry at `k` of bucket `i` removes exactly that entry from the concatenation. */
  lemma ShrinkBucketContents<T>(bs: seq<seq<T>>, i: nat, k: nat)
    requires i < |bs| && k < |bs[i]|
    ensures multiset(Concat(bs[i := SwapRemove(bs[i], k)])) + multiset{bs[i][k]} == multiset(Concat(bs))
    ensures |Concat(bs[i := SwapRemove(bs[i], k)])| + 1 == |Concat(bs)|
  {
    var b := bs[i];
    var b' := SwapRemove(b, k);
    var r := bs[i := b'];
    ConcatUpdate(bs, i, b');
    SwapRemoveMultiset(b, k);
    MultisetSwapOut(multiset(Concat(r)), multiset(b), multiset(Concat(bs)), multiset(b'), b[k]);
    assert |multiset(Concat(r))| == |Concat(r)|;
    assert |multiset(Concat(bs))| == |Concat(bs)|;
  }

  lemma MultisetSwapOut<T>(a: multiset<T>, b: multiset<T>, c: multiset<T>, rest: multiset<T>, x: T)
    requires a + b == c + rest
    requires b == rest + multiset{x}
    ensures a + multiset{x} == c
  {
    forall y ensures (a + multiset{x})[y] == c[y] {
      assert (a + b)[y] == (c + rest)[y];
    }
  }
}
