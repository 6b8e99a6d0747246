/**
 The warehouse: a table of `SectorCount` sectors, a product with id `id` belonging
 to sector `id % SectorCount`. Every operation takes the warehouse and returns the
 updated one; the popularity key the sectors order by is passed in as `key`.

 The operations follow the warehouse's own code, including its quirks: the
 purchase scan aborts on any slot with too little stock and may purchase a
 product a second time after sinking it, deletion sinks position 1 instead of
 the vacated position, and the spill-over admission repairs the natural sector
 instead of the one it appended to. The corrected forms of the last three are
 here as well (`PurchaseOnce`, `DeleteProductRepaired`, `BetterAddProductRepaired`).
 */
module Warehouses {
  import opened Products
  import opened Heap
  import opened Sectors

  /** The number of sectors. */
  const SectorCount: nat := 10

  datatype Warehouse = Warehouse(sectors: seq<Sector>)
  {
    /** Exactly `SectorCount` sectors, none over capacity. */
    predicate Valid()
    {
      |sectors| == SectorCount && forall k :: 0 <= k < |sectors| ==> |sectors[k]| <= Capacity
    }
  }

  /** The sector a product id belongs to. */
  function SectorOf(id: int): (k: nat)
    requires id >= 0
    ensures k < SectorCount
  {
    id % SectorCount
  }

  /** The sector `d` steps after sector `k` in circular order. */
  function Next(k: nat, d: nat): nat
  {
    (k + d) % SectorCount
  }

  /** `r` has the sectors of `w` except possibly sector `k`. */
  predicate OnlyChanged(w: Warehouse, r: Warehouse, k: nat)
  {
    |r.sectors| == |w.sectors| && forall j :: 0 <= j < |w.sectors| && j != k ==> r.sectors[j] == w.sectors[j]
  }

  /** Every product sits in the sector its id names. */
  predicate Routed(w: Warehouse)
  {
    forall k, j :: 0 <= k < |w.sectors| && 0 <= j < |w.sectors[k]| ==> w.sectors[k][j].id % SectorCount == k
  }

  /** No product in the sector has the id. */
  predicate Absent(s: Sector, id: int)
  {
    forall j :: 0 <= j < |s| ==> s[j].id != id
  }

  /** Index `m` holds the only product with the id. */
  predicate UniqueAt(s: Sector, id: int, m: nat)
  {
    m < |s| && s[m].id == id && forall j :: 0 <= j < |s| && j != m ==> s[j].id != id
  }

  /** The number of products in the given sectors. */
  function Total(ss: seq<Sector>): nat
  {
    if ss == [] then 0 else |ss[0]| + Total(ss[1..])
  }

  /** Replacing one sector changes the total by the difference in sizes. */
  lemma {:induction false} TotalUpdate(ss: seq<Sector>, k: nat, t: Sector)
    requires k < |ss|
    ensures Total(ss[k := t]) + |ss[k]| == Total(ss) + |t|
    decreases |ss|
  {
    if k > 0 {
      assert ss[k := t][1..] == ss[1..][k - 1 := t];
      TotalUpdate(ss[1..], k - 1, t);
    }
  }

  /** When sector `k` changes and holds only products routed to `k`, the warehouse stays routed. */
  lemma RoutedAfterChange(w: Warehouse, r: Warehouse, k: nat)
    requires Routed(w) && OnlyChanged(w, r, k) && k < |w.sectors|
    requires forall x :: x in r.sectors[k] ==> x.id % SectorCount == k
    ensures Routed(r)
  {
  }

  /** Every product of a sector of a routed warehouse belongs to that sector. */
  lemma RoutedMember(w: Warehouse, k: nat, x: Product)
    requires Routed(w) && k < |w.sectors| && x in w.sectors[k]
    ensures x.id % SectorCount == k
  {
  }

  /** Sector `k` of `r` holds only products of sector `k` of `w` and `p`, which belongs there: `r` stays routed. */
  lemma RoutedAfterAdmit(w: Warehouse, r: Warehouse, k: nat, p: Product)
    requires Routed(w) && OnlyChanged(w, r, k) && k < |w.sectors|
    requires p.id % SectorCount == k
    requires forall x :: x in r.sectors[k] ==> x in w.sectors[k] || x == p
    ensures Routed(r)
  {
    forall x | x in r.sectors[k]
      ensures x.id % SectorCount == k
    {
      if x != p {
        RoutedMember(w, k, x);
      }
    }
    RoutedAfterChange(w, r, k);
  }

  /** The warehouse with sector `k` replaced by `t`. */
  function Replace(w: Warehouse, k: nat, t: Sector): (r: Warehouse)
    requires w.Valid() && k < SectorCount && |t| <= Capacity
    ensures r.Valid() && OnlyChanged(w, r, k) && r.sectors[k] == t
  {
    w.(sectors := w.sectors[k := t])
  }

  /** The constructor: `SectorCount` empty sectors. */
  function Init(): (w: Warehouse)
    ensures w.Valid() && Routed(w)
    ensures |w.sectors| == SectorCount
    ensures forall k :: 0 <= k < SectorCount ==> |w.sectors[k]| == 0
    ensures Total(w.sectors) == 0
  {
    var w := Warehouse(seq(SectorCount, _ => []));
    TotalEmpty(w.sectors);
    w
  }

  /** Sectors that are all empty hold no product. */
  lemma {:induction false} TotalEmpty(ss: seq<Sector>)
    requires forall k :: 0 <= k < |ss| ==> |ss[k]| == 0
    ensures Total(ss) == 0
    decreases |ss|
  {
    if ss != [] {
      TotalEmpty(ss[1..]);
    }
  }

  /** The record the warehouse admits for these arguments: its last purchase day is the admission day. */
  function Admitted(id: int, name: string, stock: int, day: int, demand: int): (p: Product)
    ensures p.id == id && p.lastPurchaseDay == day && p.stock == stock && p.demand == demand
  {
    SetLastPurchaseDay(Product(id, name, stock, day, demand), day)
  }

  /**
   `evictIfNeeded`: a full sector loses its root (exchanged with the last
   position, dropped, then position 1 sunk); any other sector is left alone.
   */
  function EvictIfNeeded(key: Key, w: Warehouse, id: int): (r: Warehouse)
    requires w.Valid() && id >= 0
    ensures r.Valid() && OnlyChanged(w, r, SectorOf(id))
    ensures |w.sectors[SectorOf(id)]| < Capacity ==> r.sectors[SectorOf(id)] == w.sectors[SectorOf(id)]
    ensures var s, t := w.sectors[SectorOf(id)], r.sectors[SectorOf(id)];
      |s| == Capacity ==> |t| == Capacity - 1 && multiset(t) + multiset{s[0]} == multiset(s)
    ensures var s, t := w.sectors[SectorOf(id)], r.sectors[SectorOf(id)];
      |s| == Capacity && HeapOrdered(key, s) ==>
        HeapOrdered(key, t) && forall j :: 0 <= j < |s| ==> key(s[0]) <= key(s[j])
  {
    var k := SectorOf(id);
    var s := w.sectors[k];
    if |s| == Capacity then
      // swap(1, 5), deleteLast(), sink(1)
      var t := RemoveAsWritten(key, s, 1);
      EvictRoot(key, s);
      Replace(w, k, t)
    else
      w
  }

  /** Evicting the root of a full sector: four products remain, and a heap loses a least product and stays a heap. */
  lemma EvictRoot(key: Key, s: Sector)
    requires |s| == Capacity
    ensures multiset(RemoveAsWritten(key, s, 1)) + multiset{s[0]} == multiset(s)
    ensures HeapOrdered(key, s) ==>
      HeapOrdered(key, RemoveAsWritten(key, s, 1)) && forall j :: 0 <= j < |s| ==> key(s[0]) <= key(s[j])
  {
    if HeapOrdered(key, s) {
      RemoveRootKeepsHeap(key, s);
    }
  }

  /** `addToEnd`: append the admitted record to the id's sector, which must have room. */
  function AddToEnd(w: Warehouse, id: int, name: string, stock: int, day: int, demand: int): (r: Warehouse)
    requires w.Valid() && id >= 0 && |w.sectors[SectorOf(id)]| < Capacity
    ensures r.Valid() && OnlyChanged(w, r, SectorOf(id))
    ensures r.sectors[SectorOf(id)] == w.sectors[SectorOf(id)] + [Admitted(id, name, stock, day, demand)]
  {
    var k := SectorOf(id);
    w.(sectors := w.sectors[k := Add(w.sectors[k], Admitted(id, name, stock, day, demand))])
  }

  /** Swim positions 2..size of sector `k`: the sector becomes a heap of the same products. */
  function FixSector(key: Key, w: Warehouse, k: nat): (r: Warehouse)
    requires w.Valid() && k < SectorCount
    ensures r.Valid() && OnlyChanged(w, r, k)
    ensures var s, t := w.sectors[k], r.sectors[k];
      |t| == |s| && multiset(t) == multiset(s) && HeapOrdered(key, t)
    ensures HeapOrdered(key, w.sectors[k]) ==> r == w
  {
    var t := FixFrom(key, w.sectors[k], 2);
    assert w.sectors[k := t] == w.sectors ==> w.(sectors := w.sectors[k := t]) == w;
    w.(sectors := w.sectors[k := t])
  }

  /** `fixHeap(id)`: the sector of the id becomes a heap of the same products, whatever its order was. */
  function FixHeap(key: Key, w: Warehouse, id: int): (r: Warehouse)
    requires w.Valid() && id >= 0
    ensures r.Valid() && OnlyChanged(w, r, SectorOf(id))
    ensures var s, t := w.sectors[SectorOf(id)], r.sectors[SectorOf(id)];
      |t| == |s| && multiset(t) == multiset(s) && HeapOrdered(key, t)
    ensures HeapOrdered(key, w.sectors[SectorOf(id)]) ==> r == w
  {
    FixSector(key, w, SectorOf(id))
  }

  /**
   `addProduct`: evict if the sector is full, append, then rebuild the heap order.
   Only the id's sector changes; it grows by one up to the capacity, holds the new
   record, is a heap, and (when it was full) has lost exactly its former root.
   */
  function AddProduct(key: Key, w: Warehouse, id: int, name: string, stock: int, day: int, demand: int): (r: Warehouse)
    requires w.Valid() && id >= 0
    ensures r.Valid() && OnlyChanged(w, r, SectorOf(id))
    ensures var s, t, p := w.sectors[SectorOf(id)], r.sectors[SectorOf(id)], Admitted(id, name, stock, day, demand);
      && |t| == (if |s| < Capacity then |s| + 1 else Capacity)
      && p in t
      && HeapOrdered(key, t)
      && (|s| < Capacity ==> multiset(t) == multiset(s) + multiset{p})
      && (|s| == Capacity ==> multiset(t) + multiset{s[0]} == multiset(s) + multiset{p})
      && (|s| == Capacity && HeapOrdered(key, s) ==> forall j :: 0 <= j < |s| ==> key(s[0]) <= key(s[j]))
    ensures Routed(w) ==> Routed(r)
  {
    var k := SectorOf(id);
    var p := Admitted(id, name, stock, day, demand);
    var w1 := EvictIfNeeded(key, w, id);
    var w2 := AddToEnd(w1, id, name, stock, day, demand);
    var r := FixHeap(key, w2, id);
    AdmitSteps(w, w1, w2, r, k, p);
    r
  }

  /**
   The three steps of an admission to sector `k` (evict, append `p`, rebuild)
   together: only sector `k` changes, it holds the products described by
   `AdmitCounts`, and routing is kept.
   */
  lemma AdmitSteps(w: Warehouse, w1: Warehouse, w2: Warehouse, r: Warehouse, k: nat, p: Product)
    requires w.Valid() && k < SectorCount && p.id % SectorCount == k
    requires OnlyChanged(w, w1, k) && OnlyChanged(w1, w2, k) && OnlyChanged(w2, r, k)
    requires var s, e := w.sectors[k], w1.sectors[k];
      && (|s| < Capacity ==> e == s)
      && (|s| == Capacity ==> |e| == Capacity - 1 && multiset(e) + multiset{s[0]} == multiset(s))
    requires w2.sectors[k] == w1.sectors[k] + [p]
    requires |r.sectors[k]| == |w2.sectors[k]| && multiset(r.sectors[k]) == multiset(w2.sectors[k])
    ensures OnlyChanged(w, r, k)
    ensures var s, t := w.sectors[k], r.sectors[k];
      && |t| == (if |s| < Capacity then |s| + 1 else Capacity)
      && p in t
      && (|s| < Capacity ==> multiset(t) == multiset(s) + multiset{p})
      && (|s| == Capacity ==> multiset(t) + multiset{s[0]} == multiset(s) + multiset{p})
    ensures Routed(w) ==> Routed(r)
  {
    AdmitCounts(w.sectors[k], w1.sectors[k], r.sectors[k], p);
    if Routed(w) {
      RoutedAfterAdmit(w, r, k, p);
    }
  }

  /**
   The bookkeeping of an admission: `e` is `s` after eviction, `t` a reordering
   of `e` with `p` appended.
   */
  lemma AdmitCounts(s: Sector, e: Sector, t: Sector, p: Product)
    requires |s| <= Capacity
    requires |s| < Capacity ==> e == s
    requires |s| == Capacity ==> |e| == Capacity - 1 && multiset(e) + multiset{s[0]} == multiset(s)
    requires |t| == |e| + 1 && multiset(t) == multiset(e + [p])
    ensures |t| == (if |s| < Capacity then |s| + 1 else Capacity)
    ensures p in t
    ensures |s| < Capacity ==> multiset(t) == multiset(s) + multiset{p}
    ensures |s| == Capacity ==> multiset(t) + multiset{s[0]} == multiset(s) + multiset{p}
    ensures forall x :: x in t ==> x in s || x == p
  {
    assert multiset(e + [p]) == multiset(e) + multiset{p};
    assert p in multiset(t);
    forall x | x in t
      ensures x in s || x == p
    {
      assert x in multiset(t);
      if x != p {
        assert x in multiset(e);
        assert x in multiset(s);
      }
    }
  }

  /**
   `restockProduct`: every product with the id in the id's sector gains `amount`
   stock; positions, sizes, other fields and other sectors stay as they were.
   The code does not reorder the sector, which is sound when the ranking `key`
   ignores stock: a heap then stays a heap.
   */
  method RestockProduct(key: Key, w: Warehouse, id: int, amount: int) returns (r: Warehouse)
    requires w.Valid() && id >= 0
    ensures r.Valid() && OnlyChanged(w, r, SectorOf(id))
    ensures var s, t := w.sectors[SectorOf(id)], r.sectors[SectorOf(id)];
      |t| == |s| &&
      forall j :: 0 <= j < |s| ==> t[j] == (if s[j].id == id then UpdateStock(s[j], amount) else s[j])
    ensures Absent(w.sectors[SectorOf(id)], id) ==> r == w
    ensures Routed(w) ==> Routed(r)
    ensures StockBlind(key) && HeapOrdered(key, w.sectors[SectorOf(id)]) ==> HeapOrdered(key, r.sectors[SectorOf(id)])
  {
    var k := SectorOf(id);
    var s0 := w.sectors[k];
    var s := s0;
    var i := 1;
    while i <= |s|
      invariant 1 <= i <= |s0| + 1
      invariant |s| == |s0|
      invariant forall j :: 0 <= j < i - 1 ==> s[j] == (if s0[j].id == id then UpdateStock(s0[j], amount) else s0[j])
      invariant forall j :: i - 1 <= j < |s0| ==> s[j] == s0[j]
    {
      match Get(s, i) {
        case Some(p) =>
          if p.id == id {
            s := s[i - 1 := UpdateStock(p, amount)];
          }
        case None =>
      }
      i := i + 1;
    }
    r := w.(sectors := w.sectors[k := s]);
    if Absent(s0, id) {
      assert s == s0;
      assert r.sectors == w.sectors;
    }
    if Routed(w) {
      forall x | x in s ensures x.id % SectorCount == k {
        var j :| 0 <= j < |s| && s[j] == x;
        assert s0[j].id % SectorCount == k;
      }
      RoutedAfterChange(w, r, k);
    }
    if StockBlind(key) && HeapOrdered(key, s0) {
      RestockKeepsHeap(key, s0, s);
    }
  }

  /** Sectors that agree position by position up to stock have the same keys under a stock-blind key. */
  lemma RestockKeepsHeap(key: Key, s0: Sector, s: Sector)
    requires StockBlind(key) && HeapOrdered(key, s0) && |s| == |s0|
    requires forall j :: 0 <= j < |s0| ==> s[j] == s0[j] || exists n :: s[j] == UpdateStock(s0[j], n)
    ensures HeapOrdered(key, s)
  {
    forall j | 0 <= j < |s|
      ensures key(s[j]) == key(s0[j])
    {
    }
    forall j | 0 < j < |s|
      ensures PairOk(key, s, j)
    {
      assert PairOk(key, s0, j);
    }
  }

  /** A removal that leaves `t` holding `s` less its only product with the id leaves no product with that id. */
  lemma RemovedIdGone(s: Sector, t: Sector, id: int, m: nat)
    requires UniqueAt(s, id, m)
    requires multiset(t) == multiset(s) - multiset{s[m]}
    ensures Absent(t, id)
  {
    var rest := Without(s, m);
    assert multiset(t) == multiset(rest);
    forall j | 0 <= j < |t|
      ensures t[j].id != id
    {
      assert t[j] in multiset(rest);
      var q :| 0 <= q < |rest| && rest[q] == t[j];
      if q < m {
        assert rest[q] == s[q];
      } else {
        assert rest[q] == s[q + 1];
      }
    }
  }

  /**
   `deleteProduct`: scan the id's sector; at each slot holding the id, exchange it
   with the last slot, drop the last slot and sink position 1, then go on with the
   next position. An absent id changes nothing; an id held once loses exactly that
   product; no other sector changes.
   */
  method DeleteProduct(key: Key, w: Warehouse, id: int) returns (r: Warehouse)
    requires w.Valid() && id >= 0
    ensures r.Valid() && OnlyChanged(w, r, SectorOf(id))
    ensures multiset(r.sectors[SectorOf(id)]) <= multiset(w.sectors[SectorOf(id)])
    ensures Absent(w.sectors[SectorOf(id)], id) ==> r == w
    ensures forall m: nat :: UniqueAt(w.sectors[SectorOf(id)], id, m) ==>
      var s, t := w.sectors[SectorOf(id)], r.sectors[SectorOf(id)];
      && |t| == |s| - 1
      && multiset(t) == multiset(s) - multiset{s[m]}
      && t == RemoveAsWritten(key, s, m + 1)
    ensures Routed(w) ==> Routed(r)
  {
    var k := SectorOf(id);
    var t := DeleteScan(key, w.sectors[k], id, false);
    r := Replace(w, k, t);
    if Absent(w.sectors[k], id) {
      assert r.sectors == w.sectors;
    }
    if Routed(w) {
      RoutedAfterRemoval(w, r, k);
    }
  }

  /**
   The deletion scan with the vacated position repaired (`RemoveAt`: sink it,
   then swim it) instead of position 1: the same removals, and a heap stays a heap.
   */
  method DeleteProductRepaired(key: Key, w: Warehouse, id: int) returns (r: Warehouse)
    requires w.Valid() && id >= 0
    ensures r.Valid() && OnlyChanged(w, r, SectorOf(id))
    ensures multiset(r.sectors[SectorOf(id)]) <= multiset(w.sectors[SectorOf(id)])
    ensures Absent(w.sectors[SectorOf(id)], id) ==> r == w
    ensures forall m: nat :: UniqueAt(w.sectors[SectorOf(id)], id, m) ==>
      var s, t := w.sectors[SectorOf(id)], r.sectors[SectorOf(id)];
      |t| == |s| - 1 && multiset(t) == multiset(s) - multiset{s[m]}
    ensures HeapOrdered(key, w.sectors[SectorOf(id)]) ==> HeapOrdered(key, r.sectors[SectorOf(id)])
    ensures Routed(w) ==> Routed(r)
  {
    var k := SectorOf(id);
    var t := DeleteScan(key, w.sectors[k], id, true);
    r := Replace(w, k, t);
    if Absent(w.sectors[k], id) {
      assert r.sectors == w.sectors;
    }
    if Routed(w) {
      RoutedAfterRemoval(w, r, k);
    }
  }

  /** Removal from a sector keeps a routed warehouse routed. */
  lemma RoutedAfterRemoval(w: Warehouse, r: Warehouse, k: nat)
    requires Routed(w) && OnlyChanged(w, r, k) && k < |w.sectors|
    requires multiset(r.sectors[k]) <= multiset(w.sectors[k])
    ensures Routed(r)
  {
    forall x | x in r.sectors[k]
      ensures x.id % SectorCount == k
    {
      assert x in multiset(w.sectors[k]);
      RoutedMember(w, k, x);
    }
    RoutedAfterChange(w, r, k);
  }

  /** One removal of the deletion scan: as the warehouse does it, or repaired. */
  function RemoveBy(key: Key, s: Sector, i: nat, repaired: bool): (r: Sector)
    requires 1 <= i <= |s|
    ensures |r| == |s| - 1
    ensures multiset(r) == multiset(s) - multiset{s[i - 1]}
    ensures repaired && HeapOrdered(key, s) ==> HeapOrdered(key, r)
  {
    if repaired then RemoveAt(key, s, i) else RemoveAsWritten(key, s, i)
  }

  /** The product at `i` is removed when it has the id. */
  function DeleteAt(key: Key, s: Sector, id: int, repaired: bool, i: nat): (r: Sector)
    requires 1 <= i <= |s|
    ensures |r| <= |s| && multiset(r) <= multiset(s)
    ensures repaired && HeapOrdered(key, s) ==> HeapOrdered(key, r)
  {
    if s[i - 1].id == id then RemoveBy(key, s, i, repaired) else s
  }

  /** The invariant of the deletion scan about an id held once: nothing happens before its index, then exactly its removal. */
  ghost predicate DeletedOnce(key: Key, s0: Sector, s: Sector, id: int, repaired: bool, i: nat)
  {
    forall m: nat :: UniqueAt(s0, id, m) ==>
      (i <= m + 1 ==> s == s0) && (m + 1 < i ==> s == RemoveBy(key, s0, m + 1, repaired))
  }

  /** One position of the deletion scan keeps `DeletedOnce`. */
  lemma DeletedOnceStep(key: Key, s0: Sector, s: Sector, id: int, repaired: bool, i: nat)
    requires 1 <= i <= |s|
    requires DeletedOnce(key, s0, s, id, repaired, i)
    ensures DeletedOnce(key, s0, DeleteAt(key, s, id, repaired, i), id, repaired, i + 1)
  {
    var t := DeleteAt(key, s, id, repaired, i);
    forall m: nat | UniqueAt(s0, id, m)
      ensures i + 1 <= m + 1 ==> t == s0
      ensures m + 1 < i + 1 ==> t == RemoveBy(key, s0, m + 1, repaired)
    {
      if i > m + 1 {
        DeleteAfterRemoval(key, s0, s, id, repaired, i, m);
      } else {
        DeleteUpTo(key, s0, s, id, repaired, i, m);
      }
    }
  }

  /** Once the only product with the id is removed, later deletion steps change nothing. */
  lemma DeleteAfterRemoval(key: Key, s0: Sector, t: Sector, id: int, repaired: bool, i: nat, m: nat)
    requires UniqueAt(s0, id, m) && 1 <= i <= |t|
    requires multiset(t) == multiset(s0) - multiset{s0[m]}
    ensures DeleteAt(key, t, id, repaired, i) == t
  {
    RemovedIdGone(s0, t, id, m);
    DeleteAtMiss(key, t, id, repaired, i);
  }

  /** Up to the only product with the id, the deletion step changes nothing; at it, the step removes it. */
  lemma DeleteUpTo(key: Key, s0: Sector, s: Sector, id: int, repaired: bool, i: nat, m: nat)
    requires UniqueAt(s0, id, m) && 1 <= i <= m + 1 && s == s0
    ensures i <= m ==> DeleteAt(key, s, id, repaired, i) == s0
    ensures i == m + 1 ==> DeleteAt(key, s, id, repaired, i) == RemoveBy(key, s0, m + 1, repaired)
  {
    if i == m + 1 {
      DeleteAtHit(key, s0, id, repaired, i);
    } else {
      DeleteAtMiss(key, s0, id, repaired, i);
    }
  }

  /** The deletion step at a position without the id changes nothing. */
  lemma DeleteAtMiss(key: Key, s: Sector, id: int, repaired: bool, i: nat)
    requires 1 <= i <= |s| && s[i - 1].id != id
    ensures DeleteAt(key, s, id, repaired, i) == s
  {
  }

  /** The deletion step at a position with the id removes it. */
  lemma DeleteAtHit(key: Key, s: Sector, id: int, repaired: bool, i: nat)
    requires 1 <= i <= |s| && s[i - 1].id == id
    ensures DeleteAt(key, s, id, repaired, i) == RemoveBy(key, s, i, repaired)
  {
  }

  /**
   The scan of `deleteProduct` over one sector, removing with `RemoveBy`:
   positions 1, 2, ... up to the current size, the position after a removal
   being the next one.
   */
  method DeleteScan(key: Key, s0: Sector, id: int, repaired: bool) returns (s: Sector)
    ensures |s| <= |s0| && multiset(s) <= multiset(s0)
    ensures Absent(s0, id) ==> s == s0
    ensures forall m: nat :: UniqueAt(s0, id, m) ==>
      |s| == |s0| - 1 && multiset(s) == multiset(s0) - multiset{s0[m]} && s == RemoveBy(key, s0, m + 1, repaired)
    ensures repaired && HeapOrdered(key, s0) ==> HeapOrdered(key, s)
  {
    s := s0;
    var i := 1;
    while i <= |s|
      invariant 1 <= i
      invariant |s| <= |s0| && multiset(s) <= multiset(s0)
      invariant Absent(s0, id) ==> s == s0
      invariant repaired && HeapOrdered(key, s0) ==> HeapOrdered(key, s)
      invariant DeletedOnce(key, s0, s, id, repaired, i)
      decreases |s| + 1 - i
    {
      DeleteScanStep(key, s0, s, id, repaired, i);
      ghost var next := DeleteAt(key, s, id, repaired, i);
      match Get(s, i) {
        case Some(p) =>
          if p.id == id {
            s := RemoveBy(key, s, i, repaired);
          }
        case None =>
      }
      assert s == next;
      i := i + 1;
    }
    DeleteScanDone(key, s0, s, id, repaired, i);
  }

  /** One position of the deletion scan keeps every invariant of its loop. */
  lemma DeleteScanStep(key: Key, s0: Sector, s: Sector, id: int, repaired: bool, i: nat)
    requires 1 <= i <= |s|
    requires |s| <= |s0| && multiset(s) <= multiset(s0)
    requires Absent(s0, id) ==> s == s0
    requires repaired && HeapOrdered(key, s0) ==> HeapOrdered(key, s)
    requires DeletedOnce(key, s0, s, id, repaired, i)
    ensures var t := DeleteAt(key, s, id, repaired, i);
      && |t| <= |s0| && multiset(t) <= multiset(s0)
      && (Absent(s0, id) ==> t == s0)
      && (repaired && HeapOrdered(key, s0) ==> HeapOrdered(key, t))
      && DeletedOnce(key, s0, t, id, repaired, i + 1)
  {
    DeletedOnceStep(key, s0, s, id, repaired, i);
    if Absent(s0, id) {
      DeleteAtMiss(key, s, id, repaired, i);
    }
  }

  /** When the deletion scan has passed the end, an id held once is removed exactly as `RemoveBy` removes it. */
  lemma DeleteScanDone(key: Key, s0: Sector, s: Sector, id: int, repaired: bool, i: nat)
    requires |s| < i && |s| <= |s0|
    requires DeletedOnce(key, s0, s, id, repaired, i)
    ensures forall m: nat :: UniqueAt(s0, id, m) ==>
      |s| == |s0| - 1 && multiset(s) == multiset(s0) - multiset{s0[m]} && s == RemoveBy(key, s0, m + 1, repaired)
  {
    forall m: nat | UniqueAt(s0, id, m)
      ensures |s| == |s0| - 1 && multiset(s) == multiset(s0) - multiset{s0[m]} && s == RemoveBy(key, s0, m + 1, repaired)
    {
      assert i > m + 1;
    }
  }

  /** Sinking a product whose key went up, in a heap, gives a heap again. */
  lemma RaisedKeepsHeap(key: Key, s: Sector, i: nat, b: Product)
    requires 1 <= i <= |s|
    requires HeapOrdered(key, s) && key(s[i - 1]) <= key(b)
    ensures HeapOrdered(key, Sink(key, s[i - 1 := b], i))
  {
    var t := s[i - 1 := b];
    forall j | 0 < j < |t| && (j - 1) / 2 != i - 1
      ensures PairOk(key, t, j)
    {
      assert PairOk(key, s, j);
    }
    if i > 1 {
      forall j | 0 < j < |t| && (j - 1) / 2 == i - 1
        ensures key(t[i / 2 - 1]) <= key(t[j])
      {
        assert PairOk(key, s, i - 1);
        assert PairOk(key, s, j);
      }
    }
    assert SinkReady(key, t, i);
    SinkRestoresHeap(key, t, i);
  }

  /** No product of the sector was last purchased after `day`. */
  predicate PurchasedBy(s: Sector, day: int)
  {
    forall x :: x in s ==> x.lastPurchaseDay <= day
  }

  /** Every product of a sector has non-negative stock. */
  predicate StocksNonNegative(s: Sector)
  {
    forall x :: x in s ==> x.stock >= 0
  }

  /** Purchase `amount` of the product at position `i`, then sink it (warehouse.java's purchase step). */
  function PurchaseAt(key: Key, s: Sector, day: int, amount: int, i: nat): (r: Sector)
    requires 1 <= i <= |s|
    ensures |r| == |s|
    ensures multiset(r) == multiset(s[i - 1 := Bought(s[i - 1], day, amount)])
    ensures HeapOrdered(key, s) && key(s[i - 1]) <= key(Bought(s[i - 1], day, amount)) ==> HeapOrdered(key, r)
  {
    var b := Bought(s[i - 1], day, amount);
    assert HeapOrdered(key, s) && key(s[i - 1]) <= key(b) ==> HeapOrdered(key, Sink(key, s[i - 1 := b], i)) by {
      if HeapOrdered(key, s) && key(s[i - 1]) <= key(b) {
        RaisedKeepsHeap(key, s, i, b);
      }
    }
    Sink(key, s[i - 1 := b], i)
  }

  /** The products of a sector after a purchase step: those before, with the one at `i` bought. */
  lemma PurchaseAtMembers(key: Key, s: Sector, day: int, amount: int, i: nat, x: Product)
    requires 1 <= i <= |s|
    requires x in PurchaseAt(key, s, day, amount, i)
    ensures x in s || x == Bought(s[i - 1], day, amount)
  {
    var u := s[i - 1 := Bought(s[i - 1], day, amount)];
    assert x in multiset(u);
    var j :| 0 <= j < |u| && u[j] == x;
    if j != i - 1 {
      assert x == s[j];
    }
  }

  /** A purchase step on a slot with the id and enough stock only buys that product and keeps stocks non-negative. */
  lemma PurchaseStep(key: Key, s: Sector, id: int, day: int, amount: int, i: nat)
    requires 1 <= i <= |s| && s[i - 1].id == id && amount <= s[i - 1].stock
    ensures forall x :: x in PurchaseAt(key, s, day, amount, i) ==> x in s || (x.id == id && x.lastPurchaseDay == day)
    ensures StocksNonNegative(s) ==> StocksNonNegative(PurchaseAt(key, s, day, amount, i))
    ensures PurchasedBy(s, day) ==> PurchasedBy(PurchaseAt(key, s, day, amount, i), day)
    ensures HeapOrdered(key, s) && PurchasedBy(s, day) && PurchaseRaisesKey(key, day, amount) ==>
      HeapOrdered(key, PurchaseAt(key, s, day, amount, i))
  {
    forall x | x in PurchaseAt(key, s, day, amount, i)
      ensures (x in s || (x.id == id && x.lastPurchaseDay == day)) && (StocksNonNegative(s) ==> x.stock >= 0)
      ensures PurchasedBy(s, day) ==> x.lastPurchaseDay <= day
    {
      PurchaseAtMembers(key, s, day, amount, i, x);
    }
    assert s[i - 1] in s;
  }

  /**
   The scan of `purchaseProduct` from position `i` on, as the warehouse performs
   it: stop at the first slot with less stock than `amount`; at each slot holding
   the id, buy and sink, then go on with the next position.
   */
  function PurchaseScan(key: Key, s: Sector, id: int, day: int, amount: int, i: nat): (r: Sector)
    requires 1 <= i
    ensures |r| == |s|
    ensures forall x :: x in r ==> x in s || (x.id == id && x.lastPurchaseDay == day)
    ensures StocksNonNegative(s) ==> StocksNonNegative(r)
    ensures PurchasedBy(s, day) ==> PurchasedBy(r, day)
    ensures HeapOrdered(key, s) && PurchasedBy(s, day) && PurchaseRaisesKey(key, day, amount) ==> HeapOrdered(key, r)
    decreases |s| + 1 - i
  {
    if i > |s| then s
    else if amount > s[i - 1].stock then s
    else if s[i - 1].id == id then
      var t := PurchaseAt(key, s, day, amount, i);
      PurchaseStep(key, s, id, day, amount, i);
      PurchaseScan(key, t, id, day, amount, i + 1)
    else
      PurchaseScan(key, s, id, day, amount, i + 1)
  }

  /**
   The stock guard: a slot with less stock than `amount`, reached before any slot
   holding the id, stops the scan with the sector unchanged.
   */
  lemma {:induction false} PurchaseBlocked(key: Key, s: Sector, id: int, day: int, amount: int, i: nat, j: nat)
    requires 1 <= i && i - 1 <= j < |s|
    requires s[j].stock < amount
    requires forall q :: i - 1 <= q < j ==> s[q].id != id
    ensures PurchaseScan(key, s, id, day, amount, i) == s
    decreases j - i + 1
  {
    if amount > s[i - 1].stock {
    } else {
      PurchaseBlocked(key, s, id, day, amount, i + 1, j);
    }
  }

  /** A scan over slots none of which holds the id changes nothing. */
  lemma {:induction false} PurchaseAbsent(key: Key, s: Sector, id: int, day: int, amount: int, i: nat)
    requires 1 <= i
    requires Absent(s, id)
    ensures PurchaseScan(key, s, id, day, amount, i) == s
    decreases |s| + 1 - i
  {
    if i <= |s| && amount <= s[i - 1].stock {
      PurchaseAbsent(key, s, id, day, amount, i + 1);
    }
  }

  /**
   The scan buys the first product with the id: when every slot from `i` up to
   that product passes the stock guard, the scan from `i` is the purchase and
   sink at that product followed by the scan from the next position.
   */
  lemma PurchaseReachesFirst(key: Key, s: Sector, id: int, day: int, amount: int, i: nat, m: nat)
    requires 1 <= i <= m + 1 && FirstWithId(s, id, m)
    requires forall q :: i - 1 <= q <= m ==> s[q].stock >= amount
    ensures PurchaseScan(key, s, id, day, amount, i) ==
      PurchaseScan(key, PurchaseAt(key, s, day, amount, m + 1), id, day, amount, m + 2)
  {
    ScanSkipsTo(key, s, id, day, amount, i, m);
    ScanBuys(key, s, id, day, amount, m + 1);
  }

  /** Slots without the id and with enough stock are passed over one by one. */
  lemma ScanSkipsTo(key: Key, s: Sector, id: int, day: int, amount: int, i: nat, m: nat)
    requires 1 <= i <= m + 1 <= |s|
    requires forall q :: i - 1 <= q < m ==> s[q].id != id && s[q].stock >= amount
    ensures PurchaseScan(key, s, id, day, amount, i) == PurchaseScan(key, s, id, day, amount, m + 1)
  {
    var j := i;
    while j < m + 1
      invariant i <= j <= m + 1
      invariant PurchaseScan(key, s, id, day, amount, i) == PurchaseScan(key, s, id, day, amount, j)
    {
      ScanPasses(key, s, id, day, amount, j);
      j := j + 1;
    }
  }

  /** A slot with enough stock and another id is passed over. */
  lemma ScanPasses(key: Key, s: Sector, id: int, day: int, amount: int, i: nat)
    requires 1 <= i <= |s| && s[i - 1].id != id && s[i - 1].stock >= amount
    ensures PurchaseScan(key, s, id, day, amount, i) == PurchaseScan(key, s, id, day, amount, i + 1)
  {
  }

  /** A slot with enough stock and the id is bought, and the scan goes on from the next position. */
  lemma ScanBuys(key: Key, s: Sector, id: int, day: int, amount: int, i: nat)
    requires 1 <= i <= |s| && s[i - 1].id == id && s[i - 1].stock >= amount
    ensures PurchaseScan(key, s, id, day, amount, i) == PurchaseScan(key, PurchaseAt(key, s, day, amount, i), id, day, amount, i + 1)
  {
  }

  /**
   `purchaseProduct`: the scan of `PurchaseScan` over the id's sector, as a loop
   that returns at the first slot with too little stock. Only that sector
   changes, into what `PurchaseScan` gives (so every changed product carries the
   id and the purchase day, and no stock goes negative); a guard slot reached
   first or an absent id leaves it as it was.
   */
  method PurchaseProduct(key: Key, w: Warehouse, id: int, day: int, amount: int) returns (r: Warehouse)
    requires w.Valid() && id >= 0
    ensures r.Valid() && OnlyChanged(w, r, SectorOf(id))
    ensures r.sectors[SectorOf(id)] == PurchaseScan(key, w.sectors[SectorOf(id)], id, day, amount, 1)
    ensures var s := w.sectors[SectorOf(id)];
      forall j :: 0 <= j < |s| && s[j].stock < amount && (forall q :: 0 <= q < j ==> s[q].id != id) ==> r == w
    ensures Absent(w.sectors[SectorOf(id)], id) ==> r == w
    ensures var s := w.sectors[SectorOf(id)];
      forall m: nat :: FirstWithId(s, id, m) && (forall q :: 0 <= q <= m ==> s[q].stock >= amount) ==>
        r.sectors[SectorOf(id)] == PurchaseScan(key, PurchaseAt(key, s, day, amount, m + 1), id, day, amount, m + 2)
    ensures Routed(w) ==> Routed(r)
  {
    var k := SectorOf(id);
    var t := PurchaseLoop(key, w.sectors[k], id, day, amount);
    r := Replace(w, k, t);
    PurchaseFacts(key, w, id, day, amount);
    forall m: nat | FirstWithId(w.sectors[k], id, m) && (forall q :: 0 <= q <= m ==> w.sectors[k][q].stock >= amount)
      ensures t == PurchaseScan(key, PurchaseAt(key, w.sectors[k], day, amount, m + 1), id, day, amount, m + 2)
    {
      PurchaseReachesFirst(key, w.sectors[k], id, day, amount, 1, m);
    }
  }

  /** The loop of `purchaseProduct` over one sector, with its early return. */
  method PurchaseLoop(key: Key, s0: Sector, id: int, day: int, amount: int) returns (s: Sector)
    ensures s == PurchaseScan(key, s0, id, day, amount, 1)
  {
    s := s0;
    var i := 1;
    while i <= |s|
      invariant 1 <= i
      invariant PurchaseScan(key, s, id, day, amount, i) == PurchaseScan(key, s0, id, day, amount, 1)
      decreases |s| + 1 - i
    {
      match Get(s, i) {
        case Some(p) =>
          if amount > p.stock {
            return;
          }
          if p.id == id {
            s := s[i - 1 := Bought(p, day, amount)];
            s := Sink(key, s, i);
          }
        case None =>
      }
      i := i + 1;
    }
  }

  /** The properties of the purchase scan over the id's sector that `PurchaseProduct` reports. */
  lemma PurchaseFacts(key: Key, w: Warehouse, id: int, day: int, amount: int)
    requires w.Valid() && id >= 0
    ensures var s := w.sectors[SectorOf(id)]; var t := PurchaseScan(key, s, id, day, amount, 1);
      && (forall j :: 0 <= j < |s| && s[j].stock < amount && (forall q :: 0 <= q < j ==> s[q].id != id) ==> t == s)
      && (Absent(s, id) ==> t == s)
      && (Routed(w) ==> Routed(Replace(w, SectorOf(id), t)))
  {
    var k := SectorOf(id);
    var s := w.sectors[k];
    var t := PurchaseScan(key, s, id, day, amount, 1);
    forall j | 0 <= j < |s| && s[j].stock < amount && (forall q :: 0 <= q < j ==> s[q].id != id)
      ensures t == s
    {
      PurchaseBlocked(key, s, id, day, amount, 1, j);
    }
    if Absent(s, id) {
      PurchaseAbsent(key, s, id, day, amount, 1);
    }
    if Routed(w) {
      var r := Replace(w, k, t);
      forall x | x in t
        ensures x.id % SectorCount == k
      {
        if x in s {
          RoutedMember(w, k, x);
        }
      }
      RoutedAfterChange(w, r, k);
    }
  }

  /** Index `m` holds the first product with the id. */
  predicate FirstWithId(s: Sector, id: int, m: nat)
  {
    m < |s| && s[m].id == id && forall q :: 0 <= q < m ==> s[q].id != id
  }

  /**
   The purchase loop that stops after its one purchase: the same stock guard,
   and the first product with the id is bought exactly once, then sunk.
   */
  method PurchaseOnceLoop(key: Key, s0: Sector, id: int, day: int, amount: int) returns (s: Sector)
    ensures |s| == |s0|
    ensures forall j :: 0 <= j < |s0| && s0[j].stock < amount && (forall q :: 0 <= q < j ==> s0[q].id != id) ==> s == s0
    ensures Absent(s0, id) ==> s == s0
    ensures forall m: nat :: FirstWithId(s0, id, m) && (forall q :: 0 <= q <= m ==> s0[q].stock >= amount) ==>
      s == PurchaseAt(key, s0, day, amount, m + 1) &&
      multiset(s) == multiset(s0[m := Bought(s0[m], day, amount)])
  {
    s := s0;
    var i := 1;
    while i <= |s|
      invariant 1 <= i <= |s0| + 1
      invariant s == s0
      invariant forall q :: 0 <= q < i - 1 ==> s0[q].stock >= amount && s0[q].id != id
    {
      match Get(s, i) {
        case Some(p) =>
          if amount > p.stock {
            OnceBlocked(s0, id, amount, i - 1);
            return;
          }
          if p.id == id {
            OnceBought(s0, id, amount, i - 1);
            s := PurchaseAt(key, s, day, amount, i);
            return;
          }
        case None =>
      }
      i := i + 1;
    }
  }

  /** The guard at `g` fires before any product with the id: no purchase is due. */
  lemma OnceBlocked(s: Sector, id: int, amount: int, g: nat)
    requires g < |s| && s[g].stock < amount
    requires forall q :: 0 <= q < g ==> s[q].stock >= amount && s[q].id != id
    ensures forall m: nat :: FirstWithId(s, id, m) ==> exists q :: 0 <= q <= m && s[q].stock < amount
  {
  }

  /** The first product with the id is at `m` and every slot up to it passes the guard: no guard fires, and `m` is the only first index. */
  lemma OnceBought(s: Sector, id: int, amount: int, m: nat)
    requires FirstWithId(s, id, m)
    requires forall q :: 0 <= q <= m ==> s[q].stock >= amount
    ensures forall j :: 0 <= j < |s| && s[j].stock < amount ==> exists q :: 0 <= q < j && s[q].id == id
    ensures !Absent(s, id)
    ensures forall n: nat :: FirstWithId(s, id, n) ==> n == m
  {
  }

  /**
   `purchaseProduct` with a single purchase: only the id's sector changes; the
   stock guard and an absent id leave it as it was; otherwise its first product
   with the id loses `amount` stock, gains `amount` demand and the purchase day,
   once, and is sunk, which keeps a heap a heap when the purchase raised its key.
   */
  method PurchaseOnce(key: Key, w: Warehouse, id: int, day: int, amount: int) returns (r: Warehouse)
    requires w.Valid() && id >= 0
    ensures r.Valid() && OnlyChanged(w, r, SectorOf(id))
    ensures var s := w.sectors[SectorOf(id)];
      forall j :: 0 <= j < |s| && s[j].stock < amount && (forall q :: 0 <= q < j ==> s[q].id != id) ==> r == w
    ensures Absent(w.sectors[SectorOf(id)], id) ==> r == w
    ensures var s, t := w.sectors[SectorOf(id)], r.sectors[SectorOf(id)];
      forall m: nat :: FirstWithId(s, id, m) && (forall q :: 0 <= q <= m ==> s[q].stock >= amount) ==>
        && multiset(t) == multiset(s[m := Bought(s[m], day, amount)])
        && (HeapOrdered(key, s) && key(s[m]) <= key(Bought(s[m], day, amount)) ==> HeapOrdered(key, t))
  {
    var k := SectorOf(id);
    var t := PurchaseOnceLoop(key, w.sectors[k], id, day, amount);
    r := Replace(w, k, t);
    if t == w.sectors[k] {
      assert r.sectors == w.sectors;
    }
  }

  /** Changing one sector changes the product count by the change in that sector's size. */
  lemma TotalOnlyChanged(w: Warehouse, r: Warehouse, k: nat)
    requires OnlyChanged(w, r, k) && k < |w.sectors|
    ensures Total(r.sectors) + |w.sectors[k]| == Total(w.sectors) + |r.sectors[k]|
  {
    assert r.sectors == w.sectors[k := r.sectors[k]];
    TotalUpdate(w.sectors, k, r.sectors[k]);
  }

  /** `addProduct` adds one product to the warehouse unless the id's sector was full, in which case the count stays. */
  lemma AddProductTotal(key: Key, w: Warehouse, id: int, name: string, stock: int, day: int, demand: int)
    requires w.Valid() && id >= 0
    ensures Total(AddProduct(key, w, id, name, stock, day, demand).sectors) ==
      Total(w.sectors) + (if |w.sectors[SectorOf(id)]| < Capacity then 1 else 0)
  {
    TotalOnlyChanged(w, AddProduct(key, w, id, name, stock, day, demand), SectorOf(id));
  }

  /** Every sector is at capacity. */
  predicate AllFull(w: Warehouse)
  {
    forall j :: 0 <= j < |w.sectors| ==> |w.sectors[j]| == Capacity
  }

  /** The sectors 1, ..., `d - 1` steps after sector `k` are all full. */
  predicate FullBetween(w: Warehouse, k: nat, d: nat)
    requires w.Valid()
  {
    forall e :: 1 <= e < d ==> |w.sectors[Next(k, e)]| == Capacity
  }

  /**
   The spill-over search of `betterAddProduct`: starting after sector `k`, step
   circularly past full sectors until back at `k` or at a sector with room. `c`
   is the sector reached, `d` the number of steps taken.
   */
  method FindRoom(w: Warehouse, k: nat) returns (c: nat, d: nat)
    requires w.Valid() && k < SectorCount
    ensures 1 <= d <= SectorCount && c == Next(k, d) && FullBetween(w, k, d)
    ensures d < SectorCount <==> c != k
    ensures d < SectorCount ==> |w.sectors[c]| < Capacity
  {
    c := if k == SectorCount - 1 then 0 else k + 1;
    d := 1;
    while c != k && Get(w.sectors[c], Capacity).Some?
      invariant 1 <= d <= SectorCount && c == Next(k, d) && FullBetween(w, k, d)
      decreases SectorCount - d
    {
      FullIffLastSlotPresent(w.sectors[c]);
      NextStep(k, d);
      NextReturns(k, d);
      c := if c == SectorCount - 1 then 0 else c + 1;
      d := d + 1;
    }
    NextReturns(k, d);
    FullIffLastSlotPresent(w.sectors[c]);
  }

  /** One more step around the circle moves to the following sector, wrapping after the last. */
  lemma NextStep(k: nat, d: nat)
    requires k < SectorCount
    ensures Next(k, d + 1) == if Next(k, d) == SectorCount - 1 then 0 else Next(k, d) + 1
  {
  }

  /** Walking around the circle from `k` comes back to `k` only after a full turn. */
  lemma NextReturns(k: nat, d: nat)
    requires k < SectorCount && 1 <= d <= SectorCount
    ensures Next(k, d) == k <==> d == SectorCount
  {
  }

  /** A full sector `k` and full sectors at every step around the circle: the whole warehouse is full. */
  lemma FullAround(w: Warehouse, k: nat)
    requires w.Valid() && k < SectorCount
    requires |w.sectors[k]| == Capacity && FullBetween(w, k, SectorCount)
    ensures AllFull(w)
  {
    forall j | 0 <= j < SectorCount
      ensures |w.sectors[j]| == Capacity
    {
      if j != k {
        var e := (j - k + SectorCount) % SectorCount;
        assert 1 <= e < SectorCount && Next(k, e) == j;
      }
    }
  }

  /**
   The outcome of spilling `p` from the full sector `k` into sector `c` the way
   `betterAddProduct` does it: `p` is appended to `c` without any reordering,
   sector `k` is rebuilt into a heap of its own products (a heap stays as it
   was), and no other sector changes.
   */
  ghost predicate SpilledAsWritten(key: Key, w: Warehouse, r: Warehouse, k: nat, c: nat, p: Product)
    requires w.Valid() && r.Valid() && k < SectorCount && c < SectorCount
  {
    && r.sectors[c] == w.sectors[c] + [p]
    && multiset(r.sectors[k]) == multiset(w.sectors[k]) && HeapOrdered(key, r.sectors[k])
    && (HeapOrdered(key, w.sectors[k]) ==> r.sectors[k] == w.sectors[k])
    && forall j :: 0 <= j < SectorCount && j != k && j != c ==> r.sectors[j] == w.sectors[j]
  }

  /**
   `betterAddProduct`: a sector with room takes the product through `addProduct`;
   from a full sector the product spills into the first sector with room after
   it, circularly, and only when every sector is full does `addProduct` evict.
   No product is lost while the warehouse has room.
   */
  method BetterAddProduct(key: Key, w: Warehouse, id: int, name: string, stock: int, day: int, demand: int)
    returns (r: Warehouse)
    requires w.Valid() && id >= 0
    ensures r.Valid()
    ensures |w.sectors[SectorOf(id)]| < Capacity ==> r == AddProduct(key, w, id, name, stock, day, demand)
    ensures AllFull(w) ==> r == AddProduct(key, w, id, name, stock, day, demand)
    ensures forall d :: (1 <= d < SectorCount && |w.sectors[SectorOf(id)]| == Capacity && FullBetween(w, SectorOf(id), d) &&
      |w.sectors[Next(SectorOf(id), d)]| < Capacity) ==>
      SpilledAsWritten(key, w, r, SectorOf(id), Next(SectorOf(id), d), Admitted(id, name, stock, day, demand))
    ensures Total(r.sectors) == Total(w.sectors) + (if AllFull(w) then 0 else 1)
  {
    var k := SectorOf(id);
    var p := Admitted(id, name, stock, day, demand);
    FullIffLastSlotPresent(w.sectors[k]);
    AddProductTotal(key, w, id, name, stock, day, demand);
    if Get(w.sectors[k], Capacity).None? {
      r := AddProduct(key, w, id, name, stock, day, demand);
      return;
    }
    var c, d := FindRoom(w, k);
    r := w;
    if c == k {
      r := AddProduct(key, w, id, name, stock, day, demand);
      FullAround(w, k);
    }
    FullIffLastSlotPresent(r.sectors[c]);
    if Get(r.sectors[c], Capacity).None? {
      var w1 := Replace(r, c, Add(r.sectors[c], p));
      r := FixHeap(key, w1, id);
      SpillFacts(key, w, w1, r, k, c, d, p);
    }
  }

  /** The bookkeeping of a spill into sector `c`, found `d` steps after the full sector `k`. */
  lemma SpillFacts(key: Key, w: Warehouse, w1: Warehouse, r: Warehouse, k: nat, c: nat, d: nat, p: Product)
    requires w.Valid() && w1.Valid() && r.Valid() && k < SectorCount && c < SectorCount && c != k
    requires 1 <= d < SectorCount && c == Next(k, d) && FullBetween(w, k, d) && |w.sectors[k]| == Capacity
    requires OnlyChanged(w, w1, c) && w1.sectors[c] == w.sectors[c] + [p]
    requires OnlyChanged(w1, r, k) && multiset(r.sectors[k]) == multiset(w1.sectors[k]) && |r.sectors[k]| == |w1.sectors[k]|
    requires HeapOrdered(key, r.sectors[k]) && (HeapOrdered(key, w1.sectors[k]) ==> r.sectors[k] == w1.sectors[k])
    ensures forall e :: 1 <= e < SectorCount && FullBetween(w, k, e) && |w.sectors[Next(k, e)]| < Capacity ==>
      SpilledAsWritten(key, w, r, k, Next(k, e), p)
    ensures !AllFull(w) && Total(r.sectors) == Total(w.sectors) + 1
  {
    forall e | 1 <= e < SectorCount && FullBetween(w, k, e) && |w.sectors[Next(k, e)]| < Capacity
      ensures e == d
    {
    }
    TotalOnlyChanged(w, w1, c);
    TotalOnlyChanged(w1, r, k);
    assert |w.sectors[c]| < Capacity;
  }

  /** Every sector is a heap under `key`. */
  ghost predicate AllHeaps(key: Key, w: Warehouse)
  {
    forall j :: 0 <= j < |w.sectors| ==> HeapOrdered(key, w.sectors[j])
  }

  /** Changing one sector into a heap keeps a warehouse of heaps one. */
  lemma HeapsAfterChange(key: Key, w: Warehouse, r: Warehouse, k: nat)
    requires AllHeaps(key, w) && OnlyChanged(w, r, k) && k < |r.sectors|
    requires HeapOrdered(key, r.sectors[k])
    ensures AllHeaps(key, r)
  {
  }

  /**
   The outcome of spilling `p` into sector `c` with the heap of `c` rebuilt:
   sector `c` is a heap holding its products and `p`, and no other sector changes.
   */
  ghost predicate SpilledRepaired(key: Key, w: Warehouse, r: Warehouse, c: nat, p: Product)
    requires w.Valid() && r.Valid() && c < SectorCount
  {
    && multiset(r.sectors[c]) == multiset(w.sectors[c]) + multiset{p} && |r.sectors[c]| == |w.sectors[c]| + 1
    && HeapOrdered(key, r.sectors[c])
    && forall j :: 0 <= j < SectorCount && j != c ==> r.sectors[j] == w.sectors[j]
  }

  /**
   `betterAddProduct` with the heap repair applied to the sector the product was
   appended to rather than to the id's sector: the same choice of sector, and a
   warehouse of heaps stays one.
   */
  method BetterAddProductRepaired(key: Key, w: Warehouse, id: int, name: string, stock: int, day: int, demand: int)
    returns (r: Warehouse)
    requires w.Valid() && id >= 0
    ensures r.Valid()
    ensures |w.sectors[SectorOf(id)]| < Capacity ==> r == AddProduct(key, w, id, name, stock, day, demand)
    ensures AllFull(w) ==> r == AddProduct(key, w, id, name, stock, day, demand)
    ensures forall d :: (1 <= d < SectorCount && |w.sectors[SectorOf(id)]| == Capacity && FullBetween(w, SectorOf(id), d) &&
      |w.sectors[Next(SectorOf(id), d)]| < Capacity) ==>
      SpilledRepaired(key, w, r, Next(SectorOf(id), d), Admitted(id, name, stock, day, demand))
    ensures Total(r.sectors) == Total(w.sectors) + (if AllFull(w) then 0 else 1)
    ensures AllHeaps(key, w) ==> AllHeaps(key, r)
  {
    var k := SectorOf(id);
    var p := Admitted(id, name, stock, day, demand);
    FullIffLastSlotPresent(w.sectors[k]);
    AddProductTotal(key, w, id, name, stock, day, demand);
    if Get(w.sectors[k], Capacity).None? {
      r := AddProduct(key, w, id, name, stock, day, demand);
      if AllHeaps(key, w) {
        HeapsAfterChange(key, w, r, k);
      }
      return;
    }
    var c, d := FindRoom(w, k);
    r := w;
    if c == k {
      r := AddProduct(key, w, id, name, stock, day, demand);
      FullAround(w, k);
      if AllHeaps(key, w) {
        HeapsAfterChange(key, w, r, k);
      }
    }
    FullIffLastSlotPresent(r.sectors[c]);
    if Get(r.sectors[c], Capacity).None? {
      var w1 := Replace(r, c, Add(r.sectors[c], p));
      r := FixSector(key, w1, c);
      RepairedSpillFacts(key, w, w1, r, k, c, d, p);
    }
  }

  /** The bookkeeping of a repaired spill into sector `c`, found `d` steps after the full sector `k`. */
  lemma RepairedSpillFacts(key: Key, w: Warehouse, w1: Warehouse, r: Warehouse, k: nat, c: nat, d: nat, p: Product)
    requires w.Valid() && w1.Valid() && r.Valid() && k < SectorCount && c < SectorCount && c != k
    requires 1 <= d < SectorCount && c == Next(k, d) && FullBetween(w, k, d) && |w.sectors[k]| == Capacity
    requires OnlyChanged(w, w1, c) && w1.sectors[c] == w.sectors[c] + [p]
    requires OnlyChanged(w1, r, c) && multiset(r.sectors[c]) == multiset(w1.sectors[c]) && |r.sectors[c]| == |w1.sectors[c]|
    requires HeapOrdered(key, r.sectors[c])
    ensures forall e :: 1 <= e < SectorCount && FullBetween(w, k, e) && |w.sectors[Next(k, e)]| < Capacity ==>
      SpilledRepaired(key, w, r, Next(k, e), p)
    ensures !AllFull(w) && Total(r.sectors) == Total(w.sectors) + 1
    ensures AllHeaps(key, w) ==> AllHeaps(key, r)
  {
    forall e | 1 <= e < SectorCount && FullBetween(w, k, e) && |w.sectors[Next(k, e)]| < Capacity
      ensures e == d
    {
    }
    assert multiset(w1.sectors[c]) == multiset(w.sectors[c]) + multiset{p};
    TotalOnlyChanged(w, w1, c);
    TotalOnlyChanged(w1, r, c);
    assert |w.sectors[c]| < Capacity;
    assert OnlyChanged(w, r, c);
    if AllHeaps(key, w) {
      HeapsAfterChange(key, w, r, c);
    }
  }
}
