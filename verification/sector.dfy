/**
 A sector: a min-heap of at most `Capacity` products stored at 1-indexed positions
 1..size, with the accessors the warehouse calls (`add`, `get`, `deleteLast`,
 `getSize`; `swap`, `sink` and `swim` are the ones of module Heap).

 Besides the primitives this module holds the removal of an arbitrary position,
 in the two forms discussed in README.md: the one the warehouse performs
 (exchange with the last position, drop the last, sink the root) and the one
 that keeps the heap order (the same, then sink and swim the vacated position).
 */
module Sectors {
  import opened Products
  import opened Heap

  /** The number of products a sector can hold. */
  const Capacity: nat := 5

  type Sector = seq<Product>

  datatype Option<T> = None | Some(value: T)

  /** `get(i)`: the product at position `i`, absent outside 1..size. */
  function Get(s: Sector, i: int): (r: Option<Product>)
    ensures r.Some? <==> 1 <= i <= |s|
    ensures r.Some? ==> r.value == s[i - 1]
  {
    if 1 <= i <= |s| then Some(s[i - 1]) else None
  }

  /** `add(p)`: append at position size + 1; the sector must have room. */
  function Add(s: Sector, p: Product): (r: Sector)
    requires |s| < Capacity
    ensures |r| == |s| + 1 && r[|s|] == p && r[..|s|] == s
  {
    s + [p]
  }

  /** `deleteLast()`: drop the product at position size. */
  function DeleteLast(s: Sector): (r: Sector)
    requires |s| > 0
    ensures |r| == |s| - 1
    ensures forall j :: 0 <= j < |r| ==> r[j] == s[j]
    ensures multiset(r) + multiset{s[|s| - 1]} == multiset(s)
  {
    assert s == s[..|s| - 1] + [s[|s| - 1]];
    s[..|s| - 1]
  }

  /** A sector with `Capacity` products is full: `get(Capacity)` is present exactly then. */
  lemma FullIffLastSlotPresent(s: Sector)
    requires |s| <= Capacity
    ensures Get(s, Capacity).Some? <==> |s| == Capacity
  {
  }

  /** `s` without its element at index `m`. */
  function Without(s: Sector, m: nat): (r: Sector)
    requires m < |s|
    ensures |r| == |s| - 1
    ensures multiset(r) == multiset(s) - multiset{s[m]}
  {
    assert s == s[..m] + [s[m]] + s[m + 1..];
    s[..m] + s[m + 1..]
  }

  /**
   Exchange position `i` with the last one and drop the last: the product at
   `i` is gone, the former last product now sits at `i`, nothing else moves.
   */
  function Unlink(s: Sector, i: nat): (r: Sector)
    requires 1 <= i <= |s|
    ensures |r| == |s| - 1
    ensures multiset(r) == multiset(Without(s, i - 1))
    ensures i <= |r| ==> r[i - 1] == s[|s| - 1]
    ensures forall j :: 0 <= j < |r| && j != i - 1 ==> r[j] == s[j]
  {
    var t := Swap(s, i, |s|);
    assert t[|s| - 1] == s[i - 1];
    DeleteLast(t)
  }

  /** Removal as the warehouse performs it: exchange with the last position, drop the last, sink position 1. */
  function RemoveAsWritten(key: Key, s: Sector, i: nat): (r: Sector)
    requires 1 <= i <= |s|
    ensures |r| == |s| - 1
    ensures multiset(r) == multiset(s) - multiset{s[i - 1]}
  {
    Sink(key, Unlink(s, i), 1)
  }

  /** Removal that repairs the vacated position: sink it, then swim it. */
  function RemoveAt(key: Key, s: Sector, i: nat): (r: Sector)
    requires 1 <= i <= |s|
    ensures |r| == |s| - 1
    ensures multiset(r) == multiset(s) - multiset{s[i - 1]}
    ensures HeapOrdered(key, s) ==> HeapOrdered(key, r)
  {
    var t := Unlink(s, i);
    if i <= |t| then
      var u := Sink(key, t, i);
      assert HeapOrdered(key, s) ==> HeapOrdered(key, Swim(key, u, i)) by {
        if HeapOrdered(key, s) {
          RepairAfterUnlink(key, s, i);
        }
      }
      Swim(key, u, i)
    else
      assert HeapOrdered(key, s) ==> HeapOrdered(key, t) by {
        if HeapOrdered(key, s) {
          forall j | 0 < j < |t| ensures PairOk(key, t, j) {
            assert PairOk(key, s, j);
          }
        }
      }
      t
  }

  /** The two cases of repairing the position that received the former last product. */
  lemma RepairAfterUnlink(key: Key, s: Sector, i: nat)
    requires 1 <= i < |s|
    requires HeapOrdered(key, s)
    ensures HeapOrdered(key, Swim(key, Sink(key, Unlink(s, i), i), i))
  {
    var t := Unlink(s, i);
    if i == 1 || key(t[i / 2 - 1]) <= key(t[i - 1]) {
      RepairBySink(key, s, i);
      SwimOnHeap(key, Sink(key, t, i), i);
    } else {
      RepairBySwim(key, s, i);
    }
  }

  /** A former last product no smaller than its new parent only needs to sink. */
  lemma RepairBySink(key: Key, s: Sector, i: nat)
    requires 1 <= i < |s|
    requires HeapOrdered(key, s)
    requires i == 1 || key(Unlink(s, i)[i / 2 - 1]) <= key(Unlink(s, i)[i - 1])
    ensures HeapOrdered(key, Sink(key, Unlink(s, i), i))
  {
    var t := Unlink(s, i);
    forall j | 0 < j < |t| && (j - 1) / 2 != i - 1
      ensures PairOk(key, t, j)
    {
      if j != i - 1 {
        assert PairOk(key, s, j);
      }
    }
    if i > 1 {
      forall j | 0 < j < |t| && (j - 1) / 2 == i - 1
        ensures key(t[i / 2 - 1]) <= key(t[j])
      {
        assert PairOk(key, s, i - 1);
        assert PairOk(key, s, j);
      }
    }
    assert SinkReady(key, t, i);
    SinkRestoresHeap(key, t, i);
  }

  /** A former last product smaller than its new parent stays put under sink and then swims. */
  lemma RepairBySwim(key: Key, s: Sector, i: nat)
    requires 1 < i < |s|
    requires HeapOrdered(key, s)
    requires key(Unlink(s, i)[i - 1]) < key(Unlink(s, i)[i / 2 - 1])
    ensures HeapOrdered(key, Swim(key, Sink(key, Unlink(s, i), i), i))
  {
    var t := Unlink(s, i);
    assert PairOk(key, s, i - 1);
    forall j | 0 < j < |t| && (j - 1) / 2 == i - 1
      ensures key(t[i - 1]) < key(t[j]) && key(t[i / 2 - 1]) <= key(t[j])
    {
      assert PairOk(key, s, j);
    }
    SinkStaysPut(key, t, i);
    forall j | 0 < j < |t| && j != i - 1
      ensures PairOk(key, t, j)
    {
      assert PairOk(key, s, j);
    }
    assert SwimReady(key, t, |t|, i);
    SwimRestoresHeap(key, t, |t|, i);
  }

  /** Sink leaves a position alone whose children all have larger keys. */
  lemma SinkStaysPut(key: Key, t: Sector, i: nat)
    requires 1 <= i <= |t|
    requires forall j :: 0 < j < |t| && (j - 1) / 2 == i - 1 ==> key(t[i - 1]) < key(t[j])
    ensures Sink(key, t, i) == t
  {
  }

  /** Removing the root the warehouse's way keeps the heap order, and what leaves is a minimum. */
  lemma RemoveRootKeepsHeap(key: Key, s: Sector)
    requires 1 <= |s|
    requires HeapOrdered(key, s)
    ensures HeapOrdered(key, RemoveAsWritten(key, s, 1))
    ensures forall j :: 0 <= j < |s| ==> key(s[0]) <= key(s[j])
  {
    var t := Unlink(s, 1);
    forall j | 0 < j < |t| && (j - 1) / 2 != 0
      ensures PairOk(key, t, j)
    {
      assert PairOk(key, s, j);
    }
    assert SinkReady(key, t, 1);
    SinkRestoresHeap(key, t, 1);
    forall j | 0 <= j < |s|
      ensures key(s[0]) <= key(s[j])
    {
      RootIsMinimum(key, s, j);
    }
  }
}
