/**
 The array-as-heap algorithms a sector uses: positions are 1-indexed, position `k`
 is stored at `s[k - 1]` and its parent is position `k / 2`. The heap is a min-heap
 on a caller-supplied integer `key`, so the least popular element sits at position 1.

 Swap, swim and sink are the sector operations the warehouse calls; `FixFrom`
 is the warehouse's "swim every position from 2 to size" pass.
 */
module Heap {

  /** The element at index `i` (position `i + 1`) is no smaller than its parent. */
  predicate PairOk<T>(key: T -> int, s: seq<T>, i: nat)
    requires 0 < i < |s|
  {
    key(s[(i - 1) / 2]) <= key(s[i])
  }

  /** Every parent/child pair among the first `n` elements is ordered by `key`. */
  predicate HeapPrefix<T>(key: T -> int, s: seq<T>, n: nat)
    requires n <= |s|
  {
    forall i :: 0 < i < n ==> PairOk(key, s, i)
  }

  /** The whole sequence is a min-heap under `key`. */
  predicate HeapOrdered<T>(key: T -> int, s: seq<T>)
  {
    HeapPrefix(key, s, |s|)
  }

  /** Exchange the elements at positions `i` and `j`. */
  function Swap<T>(s: seq<T>, i: nat, j: nat): (r: seq<T>)
    requires 1 <= i <= |s| && 1 <= j <= |s|
    ensures |r| == |s|
    ensures r[i - 1] == s[j - 1] && r[j - 1] == s[i - 1]
    ensures forall k :: 0 <= k < |s| && k != i - 1 && k != j - 1 ==> r[k] == s[k]
    ensures multiset(r) == multiset(s)
  {
    s[i - 1 := s[j - 1]][j - 1 := s[i - 1]]
  }

  /**
   Move the element at position `k` up: while its parent has a strictly larger key,
   exchange the two. Positions after `k` are never touched.
   */
  function Swim<T>(key: T -> int, s: seq<T>, k: nat): (r: seq<T>)
    requires 1 <= k <= |s|
    ensures |r| == |s|
    ensures multiset(r) == multiset(s)
    ensures forall j :: k <= j < |s| ==> r[j] == s[j]
    decreases k
  {
    if k == 1 || key(s[k / 2 - 1]) <= key(s[k - 1]) then s
    else Swim(key, Swap(s, k, k / 2), k / 2)
  }

  /** The position of the child of `k` that `Sink` compares against: the smaller-keyed one, the left one on ties. */
  function MinChild<T>(key: T -> int, s: seq<T>, k: nat): (c: nat)
    requires 1 <= k && 2 * k <= |s|
    ensures c == 2 * k || c == 2 * k + 1
    ensures c <= |s|
    ensures forall j :: 0 <= j < |s| && (j - 1) / 2 == k - 1 && 0 < j ==> key(s[c - 1]) <= key(s[j])
  {
    if 2 * k + 1 <= |s| && key(s[2 * k]) < key(s[2 * k - 1]) then 2 * k + 1 else 2 * k
  }

  /**
   Move the element at position `k` down: while its smaller child has a strictly
   smaller key, exchange the two. A position without children (including one
   beyond the size) is left alone.
   */
  function Sink<T>(key: T -> int, s: seq<T>, k: nat): (r: seq<T>)
    requires 1 <= k
    ensures |r| == |s|
    ensures multiset(r) == multiset(s)
    decreases |s| - k
  {
    if 2 * k > |s| then s
    else
      var c := MinChild(key, s, k);
      if key(s[c - 1]) < key(s[k - 1]) then Sink(key, Swap(s, k, c), c) else s
  }

  /**
   The sequence is a heap on its first `n` elements except possibly between
   position `k` and its parent, and `k`'s parent is no larger than `k`'s children.
   This is what holds while `Swim` climbs from `k`.
   */
  ghost predicate SwimReady<T>(key: T -> int, s: seq<T>, n: nat, k: nat)
    requires 1 <= k <= n <= |s|
  {
    (forall i :: 0 < i < n && i != k - 1 ==> PairOk(key, s, i)) &&
    (k > 1 ==> forall i :: 0 < i < n && (i - 1) / 2 == k - 1 ==> key(s[k / 2 - 1]) <= key(s[i]))
  }

  /**
   The sequence is a heap except possibly between position `k` and its children,
   and `k`'s parent is no larger than `k`'s children. This is what holds while
   `Sink` descends from `k`.
   */
  ghost predicate SinkReady<T>(key: T -> int, s: seq<T>, k: nat)
    requires 1 <= k
  {
    (forall i :: 0 < i < |s| && (i - 1) / 2 != k - 1 ==> PairOk(key, s, i)) &&
    (k > 1 ==> forall i :: 0 < i < |s| && (i - 1) / 2 == k - 1 ==> key(s[k / 2 - 1]) <= key(s[i]))
  }

  /** One exchange of `Swim` keeps every pair below the new out-of-place position ordered. */
  lemma SwimStepPairs<T>(key: T -> int, s: seq<T>, n: nat, k: nat)
    requires 1 < k <= n <= |s|
    requires SwimReady(key, s, n, k)
    requires key(s[k - 1]) < key(s[k / 2 - 1])
    ensures forall i :: 0 < i < n && i != k / 2 - 1 ==> PairOk(key, Swap(s, k, k / 2), i)
  {
    var p := k / 2;
    var t := Swap(s, k, p);
    forall i | 0 < i < n && i != p - 1
      ensures PairOk(key, t, i)
    {
      if i == k - 1 {
      } else if (i - 1) / 2 == k - 1 {
      } else if (i - 1) / 2 == p - 1 {
        assert PairOk(key, s, i);
      } else {
        assert PairOk(key, s, i);
      }
    }
  }

  /** After one exchange of `Swim`, the new position's parent is no larger than its children. */
  lemma SwimStepParent<T>(key: T -> int, s: seq<T>, n: nat, k: nat)
    requires 1 < k <= n <= |s|
    requires SwimReady(key, s, n, k)
    requires key(s[k - 1]) < key(s[k / 2 - 1])
    ensures k / 2 > 1 ==> forall i :: 0 < i < n && (i - 1) / 2 == k / 2 - 1 ==>
      key(Swap(s, k, k / 2)[k / 2 / 2 - 1]) <= key(Swap(s, k, k / 2)[i])
  {
    var p := k / 2;
    var t := Swap(s, k, p);
    if p > 1 {
      forall i | 0 < i < n && (i - 1) / 2 == p - 1
        ensures key(t[p / 2 - 1]) <= key(t[i])
      {
        assert PairOk(key, s, p - 1);
        if i != k - 1 {
          assert PairOk(key, s, i);
        }
      }
    }
  }

  /** Swimming the one out-of-place element of a prefix makes that prefix a heap. */
  lemma {:induction false} SwimRestoresHeap<T>(key: T -> int, s: seq<T>, n: nat, k: nat)
    requires 1 <= k <= n <= |s|
    requires SwimReady(key, s, n, k)
    ensures HeapPrefix(key, Swim(key, s, k), n)
    decreases k
  {
    if k == 1 || key(s[k / 2 - 1]) <= key(s[k - 1]) {
      SwimDoneIsHeap(key, s, n, k);
    } else {
      SwimStepPairs(key, s, n, k);
      SwimStepParent(key, s, n, k);
      SwimRestoresHeap(key, Swap(s, k, k / 2), n, k / 2);
    }
  }

  /** Swim stops where `k` is the root or no smaller than its parent: the prefix is then a heap. */
  lemma SwimDoneIsHeap<T>(key: T -> int, s: seq<T>, n: nat, k: nat)
    requires 1 <= k <= n <= |s|
    requires SwimReady(key, s, n, k)
    requires k == 1 || key(s[k / 2 - 1]) <= key(s[k - 1])
    ensures Swim(key, s, k) == s && HeapPrefix(key, s, n)
  {
    if k > 1 {
      assert (k - 2) / 2 == k / 2 - 1;
      assert PairOk(key, s, k - 1);
    }
  }

  /** One exchange of `Sink` keeps every pair outside the new out-of-place position ordered. */
  lemma SinkStepPairs<T>(key: T -> int, s: seq<T>, k: nat, c: nat)
    requires 1 <= k && 2 * k <= |s| && c == MinChild(key, s, k)
    requires SinkReady(key, s, k)
    requires key(s[c - 1]) < key(s[k - 1])
    ensures forall i :: 0 < i < |s| && (i - 1) / 2 != c - 1 ==> PairOk(key, Swap(s, k, c), i)
  {
    var t := Swap(s, k, c);
    forall i | 0 < i < |t| && (i - 1) / 2 != c - 1
      ensures PairOk(key, t, i)
    {
      if i == c - 1 {
      } else if (i - 1) / 2 == k - 1 {
      } else if i == k - 1 {
        if k > 1 {
          assert key(s[k / 2 - 1]) <= key(s[c - 1]);
        }
      } else {
        assert PairOk(key, s, i);
      }
    }
  }

  /** After one exchange of `Sink`, the new position's parent is no larger than its children. */
  lemma SinkStepParent<T>(key: T -> int, s: seq<T>, k: nat, c: nat)
    requires 1 <= k && 2 * k <= |s| && c == MinChild(key, s, k)
    requires SinkReady(key, s, k)
    ensures forall i :: 0 < i < |s| && (i - 1) / 2 == c - 1 ==>
      key(Swap(s, k, c)[c / 2 - 1]) <= key(Swap(s, k, c)[i])
  {
    var t := Swap(s, k, c);
    forall i | 0 < i < |t| && (i - 1) / 2 == c - 1
      ensures key(t[c / 2 - 1]) <= key(t[i])
    {
      assert c / 2 == k;
      assert PairOk(key, s, i);
    }
  }

  /** Sinking the one out-of-place element of a sequence makes it a heap. */
  lemma {:induction false} SinkRestoresHeap<T>(key: T -> int, s: seq<T>, k: nat)
    requires 1 <= k
    requires SinkReady(key, s, k)
    ensures HeapOrdered(key, Sink(key, s, k))
    decreases |s| - k
  {
    if 2 * k > |s| {
      SinkLeafIsHeap(key, s, k);
    } else {
      var c := MinChild(key, s, k);
      if key(s[c - 1]) < key(s[k - 1]) {
        SinkStepReady(key, s, k, c);
        SinkRestoresHeap(key, Swap(s, k, c), c);
        SinkSwaps(key, s, k);
      } else {
        SinkDoneIsHeap(key, s, k);
        SinkStops(key, s, k);
      }
    }
  }

  /** A position without children that is ready to sink leaves a heap. */
  lemma SinkLeafIsHeap<T>(key: T -> int, s: seq<T>, k: nat)
    requires 1 <= k && 2 * k > |s|
    requires SinkReady(key, s, k)
    ensures HeapOrdered(key, s)
  {
    forall i | 0 < i < |s|
      ensures PairOk(key, s, i)
    {
      assert (i - 1) / 2 != k - 1;
    }
  }

  /** One exchange of `Sink` leaves the sequence ready to sink from the child. */
  lemma SinkStepReady<T>(key: T -> int, s: seq<T>, k: nat, c: nat)
    requires 1 <= k && 2 * k <= |s| && c == MinChild(key, s, k)
    requires SinkReady(key, s, k)
    requires key(s[c - 1]) < key(s[k - 1])
    ensures SinkReady(key, Swap(s, k, c), c)
  {
    SinkStepPairs(key, s, k, c);
    SinkStepParent(key, s, k, c);
  }

  /** Sink stops where the smaller child is no smaller than position `k`: the sequence is then a heap. */
  lemma SinkDoneIsHeap<T>(key: T -> int, s: seq<T>, k: nat)
    requires 1 <= k && 2 * k <= |s|
    requires SinkReady(key, s, k)
    requires key(s[k - 1]) <= key(s[MinChild(key, s, k) - 1])
    ensures HeapOrdered(key, s)
  {
    var c := MinChild(key, s, k);
    forall i | 0 < i < |s|
      ensures PairOk(key, s, i)
    {
      if (i - 1) / 2 == k - 1 {
        assert key(s[c - 1]) <= key(s[i]);
      }
    }
  }

  /** On a heap, swimming any position changes nothing. */
  lemma SwimOnHeap<T>(key: T -> int, s: seq<T>, k: nat)
    requires 1 <= k <= |s|
    requires HeapOrdered(key, s)
    ensures Swim(key, s, k) == s
  {
    if k > 1 {
      assert (k - 2) / 2 == k / 2 - 1;
      assert PairOk(key, s, k - 1);
    }
  }

  /** On a heap, sinking any position changes nothing. */
  lemma SinkOnHeap<T>(key: T -> int, s: seq<T>, k: nat)
    requires 1 <= k
    requires HeapOrdered(key, s)
    ensures Sink(key, s, k) == s
  {
    if 2 * k <= |s| {
      var c := MinChild(key, s, k);
      ChildOfParent(k, c);
      assert PairOk(key, s, c - 1);
      SinkStops(key, s, k);
    }
  }

  /** Sink exchanges `k` with its smaller child when that child is smaller, and goes on from there. */
  lemma SinkSwaps<T>(key: T -> int, s: seq<T>, k: nat)
    requires 1 <= k && 2 * k <= |s|
    requires key(s[MinChild(key, s, k) - 1]) < key(s[k - 1])
    ensures Sink(key, s, k) == Sink(key, Swap(s, k, MinChild(key, s, k)), MinChild(key, s, k))
  {
  }

  /** Positions `2k` and `2k + 1` have parent `k`. */
  lemma ChildOfParent(k: nat, c: nat)
    requires 1 <= k && (c == 2 * k || c == 2 * k + 1)
    ensures (c - 2) / 2 == k - 1 && c / 2 == k
  {
  }

  /** Sink leaves the sequence alone when the smaller child of `k` is no smaller than `k`. */
  lemma SinkStops<T>(key: T -> int, s: seq<T>, k: nat)
    requires 1 <= k && 2 * k <= |s|
    requires key(s[k - 1]) <= key(s[MinChild(key, s, k) - 1])
    ensures Sink(key, s, k) == s
  {
  }

  /** The root of a heap has the smallest key of all its elements. */
  lemma {:induction false} RootIsMinimum<T>(key: T -> int, s: seq<T>, j: nat)
    requires j < |s|
    requires HeapOrdered(key, s)
    ensures key(s[0]) <= key(s[j])
    decreases j
  {
    if j > 0 {
      assert PairOk(key, s, j);
      RootIsMinimum(key, s, (j - 1) / 2);
    }
  }

  /**
   Swim positions `i`, `i + 1`, ..., `|s|` in turn. Started at position 2 this
   turns any sequence into a heap holding the same elements, and leaves a heap as it is.
   */
  function FixFrom<T>(key: T -> int, s: seq<T>, i: nat): (r: seq<T>)
    requires 2 <= i
    ensures |r| == |s|
    ensures multiset(r) == multiset(s)
    ensures i - 1 <= |s| && HeapPrefix(key, s, i - 1) ==> HeapOrdered(key, r)
    ensures HeapOrdered(key, s) ==> r == s
    decreases |s| + 1 - i
  {
    if i > |s| then s
    else
      var t := Swim(key, s, i);
      assert HeapPrefix(key, s, i - 1) ==> HeapPrefix(key, t, i) by {
        if HeapPrefix(key, s, i - 1) {
          assert SwimReady(key, s, i, i);
          SwimRestoresHeap(key, s, i, i);
        }
      }
      assert HeapOrdered(key, s) ==> t == s by {
        if HeapOrdered(key, s) {
          SwimOnHeap(key, s, i);
        }
      }
      FixFrom(key, t, i + 1)
  }
}
