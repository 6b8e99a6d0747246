/**
 Concrete inputs on which the warehouse's code as written departs from what it
 evidently intends. Each lemma evaluates the as-written operation on a small
 sector ranked by demand alone and states the outcome.
 */
module Findings {
  import opened Products
  import opened Heap
  import opened Sectors
  import opened Warehouses

  /** A key that ranks products by demand alone. */
  function DemandKey(p: Product): int
  {
    p.demand
  }

  /** A product of sector 1 that differs from the others only in its demand (ids 1, 11, 21, ...). */
  function Sample(demand: int): Product
  {
    Product(10 * demand - 9, "", 10, 0, demand)
  }

  /** The full sector of demands 1, 2, 3, 4, 5, in heap order. */
  function SampleSector(): Sector
  {
    [Sample(1), Sample(2), Sample(3), Sample(4), Sample(5)]
  }

  lemma SampleSectorIsHeap()
    ensures HeapOrdered(DemandKey, SampleSector())
  {
  }

  /**
   Removing position 2 the warehouse's way from a five-product sector whose root
   ranks below positions 3 and 5: the last product takes position 2, position 4
   keeps its product, and sinking the root moves nothing.
   */
  lemma RemoveSecondOfFive(key: Key, s: Sector)
    requires |s| == 5
    requires key(s[0]) < key(s[2]) && key(s[0]) < key(s[4])
    ensures var r := RemoveAsWritten(key, s, 2); |r| == 4 && r[1] == s[4] && r[3] == s[3]
  {
    var t := Unlink(s, 2);
    assert t[0] == s[0] && t[1] == s[4] && t[2] == s[2] && t[3] == s[3];
    forall j | 0 < j < |t| && (j - 1) / 2 == 0
      ensures key(t[0]) < key(t[j])
    {
      assert j == 1 || j == 2;
    }
    SinkStaysPut(key, t, 1);
  }

  /**
   The warehouse's removal can break the heap order: in the heap of demands
   1, 2, 3, 4, 5, removing position 2 moves demand 5 above demand 4, and sinking
   position 1 does not reach it.
   */
  lemma RemoveAsWrittenBreaksHeap()
    ensures HeapOrdered(DemandKey, SampleSector())
    ensures !HeapOrdered(DemandKey, RemoveAsWritten(DemandKey, SampleSector(), 2))
  {
    SampleSectorIsHeap();
    RemoveSecondOfFive(DemandKey, SampleSector());
    assert !PairOk(DemandKey, RemoveAsWritten(DemandKey, SampleSector(), 2), 3);
  }

  /** The products of the double-purchase example. */
  function ProductA(stock: int, day: int, demand: int): Product
  {
    Product(1, "", stock, day, demand)
  }

  function ProductB(): Product
  {
    Product(11, "", 20, 0, 5)
  }

  /** Purchasing the root of a two-product sector so that it outranks the other exchanges the two. */
  lemma PurchaseRootOfPair(key: Key, x: Product, y: Product, day: int, amount: int)
    requires key(y) < key(Bought(x, day, amount))
    ensures PurchaseAt(key, [x, y], day, amount, 1) == [y, Bought(x, day, amount)]
  {
    var b := Bought(x, day, amount);
    var t := [x, y][0 := b];
    assert t == [b, y];
    assert MinChild(key, t, 1) == 2;
    assert Swap(t, 1, 2) == [y, b];
    assert Sink(key, [y, b], 2) == [y, b];
    assert Sink(key, t, 1) == Sink(key, Swap(t, 1, 2), 2);
  }

  /** Purchasing position 2 of a two-product sector moves nothing. */
  lemma PurchaseLeafOfPair(key: Key, x: Product, y: Product, day: int, amount: int)
    ensures PurchaseAt(key, [x, y], day, amount, 2) == [x, Bought(y, day, amount)]
  {
  }

  /**
   The purchase scan can buy the same product twice: buying 6 units of product 1
   (stock 20, demand 0) ranks it above product 11 (demand 5), sink moves it to
   position 2, and the scan, moving on to position 2, buys it again, leaving
   stock 8 and demand 12.
   */
  lemma DoublePurchase()
    ensures PurchaseScan(DemandKey, [ProductA(20, 0, 0), ProductB()], 1, 7, 6, 1) == [ProductB(), ProductA(8, 7, 12)]
  {
    var a0, b := ProductA(20, 0, 0), ProductB();
    var a1 := Bought(a0, 7, 6);
    assert a1 == ProductA(14, 7, 6);
    PurchaseRootOfPair(DemandKey, a0, b, 7, 6);
    PurchaseLeafOfPair(DemandKey, b, a1, 7, 6);
    assert Bought(a1, 7, 6) == ProductA(8, 7, 12);
    var t1 := [ProductB(), ProductA(14, 7, 6)];
    var t2 := [ProductB(), ProductA(8, 7, 12)];
    assert PurchaseScan(DemandKey, t2, 1, 7, 6, 3) == t2;
    assert PurchaseScan(DemandKey, t1, 1, 7, 6, 2) == t2;
  }

  /** The one product of sector 2 in the spill example. */
  function Resident(): Product
  {
    Product(2, "", 10, 0, 5)
  }

  /**
   The spill-over admission can leave the receiving sector out of heap order:
   with sector 1 full (demands 1 to 5), sector 2 holding one product of demand 5
   and every other sector empty, every sector is a heap and every product sits
   in its own sector; admitting id 51 with demand 1 appends it to sector 2
   behind the demand-5 product, and the repair pass runs over sector 1 instead.
   */
  method SpillLeavesDisorder() returns (w: Warehouse, r: Warehouse)
    ensures w.Valid() && Routed(w) && AllHeaps(DemandKey, w)
    ensures |w.sectors[1]| == Capacity && |w.sectors[2]| < Capacity
    ensures r.Valid() && !HeapOrdered(DemandKey, r.sectors[2])
  {
    w := SpillInput();
    var p := Admitted(51, "", 10, 0, 1);
    r := BetterAddProduct(DemandKey, w, 51, "", 10, 0, 1);
    assert SectorOf(51) == 1 && Next(1, 1) == 2 && FullBetween(w, 1, 1);
    assert SpilledAsWritten(DemandKey, w, r, 1, 2, p);
    SpillBehindResident(w, r, p);
  }

  /** A spill of a demand-1 product behind the demand-5 resident of sector 2 puts a larger key above a smaller one. */
  lemma SpillBehindResident(w: Warehouse, r: Warehouse, p: Product)
    requires w.Valid() && r.Valid() && w.sectors[2] == [Resident()] && p.demand == 1
    requires SpilledAsWritten(DemandKey, w, r, 1, 2, p)
    ensures !HeapOrdered(DemandKey, r.sectors[2])
  {
    assert r.sectors[2] == [Resident(), p];
    assert !PairOk(DemandKey, r.sectors[2], 1);
  }

  /** Sector 1 holds demands 1 to 5, sector 2 one product of demand 5, the rest nothing; all routed. */
  function SpillInput(): (w: Warehouse)
    ensures w.Valid() && Routed(w) && AllHeaps(DemandKey, w)
    ensures w.sectors[1] == SampleSector() && w.sectors[2] == [Resident()]
  {
    var w0 := Init();
    InitHeaps(w0);
    var w1 := Replace(w0, 1, SampleSector());
    SampleSectorIsHeap();
    SampleSectorRouted();
    RoutedAfterChange(w0, w1, 1);
    HeapsAfterChange(DemandKey, w0, w1, 1);
    var w := Replace(w1, 2, [Resident()]);
    RoutedAfterChange(w1, w, 2);
    HeapsAfterChange(DemandKey, w1, w, 2);
    w
  }

  lemma InitHeaps(w: Warehouse)
    requires forall k :: 0 <= k < |w.sectors| ==> |w.sectors[k]| == 0
    ensures AllHeaps(DemandKey, w)
  {
  }

  lemma SampleSectorRouted()
    ensures forall x :: x in SampleSector() ==> x.id % SectorCount == 1
  {
    forall x | x in SampleSector()
      ensures x.id % SectorCount == 1
    {
      assert x == Sample(x.demand);
    }
  }
}
