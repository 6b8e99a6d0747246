# Warehouse: a table of bounded popularity heaps

A model of the `Warehouse` class of `warehouse.java`: a table of ten sectors. A
product with id `id` belongs to sector `id % 10`. Each sector is a 1-indexed
binary min-heap of at most five products, ordered by popularity, so the least
popular product sits at position 1. When a product must be admitted to a full
sector, that root is evicted first.

On top of this the warehouse offers these operations:

- restock
- purchase, a scan guarded by stock that updates stock, demand and last purchase day and then sinks the product
- deletion by id, which exchanges the product with the last position and drops it
- the swim-every-position pass `fixHeap`
- `betterAddProduct`, which spills a product from a full sector into the next sector with room, in circular order

The source does not show the `Sector` and `Product` classes. They are modelled here from the way the warehouse calls them:

- A product is an immutable record: id, name, stock, last purchase day and demand.
- A sector is a `seq<Product>`. Position `k` (1-based) is stored at index `k - 1`, and the parent of position `k` is position `k / 2`.
- `get(i)` is absent outside `1..size`.
- `sink` exchanges with the smaller child when that child is strictly smaller. On a tie it takes the left child.
- `swim` exchanges with the parent when the parent is strictly larger.

The popularity ranking is the parameter `key: Product -> int`. Every heap property is proved for any key.

Modules:

- `Products` (products.dfy): the product record, its mutators, and the key type.
- `Heap` (heap.dfy): the array heap and its operations swap, swim, sink and the swim-every-position pass.
- `Sectors` (sector.dfy): the sector accessors, and removal at an arbitrary position, both as the warehouse does it and repaired.
- `Warehouses` (warehouse.dfy): the warehouse and its operations.
- `Findings` (findings.dfy): concrete inputs on which the code as written departs from its evident intent.

State changes are modelled as functions from the old warehouse to the new one.
The scans of `restockProduct`, `deleteProduct`, `purchaseProduct` and
`betterAddProduct` are methods whose loops follow the Java loops, including
their early returns.

The stock guard of `purchaseProduct` returns from the middle of the scan. A
slot with too little stock therefore cancels the purchase only when no slot
holding the id comes before it. Purchases the scan has already made stay in
place. The model states exactly that (`PurchaseBlocked`), not an all-or-nothing
guard.

## Model

| member | source | states |
|---|---|---|
| Products.Bought | warehouse.java:151-154 | a purchase sets the last purchase day, takes `amount` off the stock, adds `amount` to the demand, and keeps the id and the name |
| Products.PurchaseRaisesPopularity | warehouse.java:151-154 | under the ranking by demand (weighted) then last purchase day, a purchase of a non-negative amount on a day no earlier than a product's last purchase never lowers that product's rank |
| Products.PopularityRaisesKey | warehouse.java:151-154 | that ranking never lowers the rank of any product last purchased no later than the purchase day, which is the condition the purchase scan's heap property needs |
| Heap.Swap | warehouse.java:84 | the two positions exchange their products; no other position changes; the products form the same multiset |
| Heap.Swim | warehouse.java:69 | swim permutes the sector and never touches positions after its start |
| Heap.Sink | warehouse.java:86 | sink permutes the sector and keeps its size |
| Heap.MinChild | warehouse.java:86 | the child sink compares against has a key no larger than any child of the position |
| Heap.SwimRestoresHeap | warehouse.java:69 | swimming the one out-of-place element of a prefix makes that prefix a heap |
| Heap.SinkRestoresHeap | warehouse.java:86 | sinking the one out-of-place element makes the sequence a heap |
| Heap.SwimOnHeap | warehouse.java:69 | on a heap, swim changes nothing |
| Heap.SinkOnHeap | warehouse.java:86 | on a heap, sink changes nothing |
| Heap.RootIsMinimum | warehouse.java:83-87 | the root of a heap has the least key, which is why evicting it evicts the least popular product |
| Heap.FixFrom | warehouse.java:68-70 | swimming positions 2..size turns any sequence into a heap of the same products, and leaves a heap unchanged |
| Sectors.Get | warehouse.java:174 | `get(i)` is present exactly for `1 <= i <= size`, and then yields the product at `i` |
| Sectors.Add | warehouse.java:56 | `add` appends at position size + 1 and keeps the earlier positions |
| Sectors.DeleteLast | warehouse.java:85 | `deleteLast` drops exactly the product at the last position; every other product keeps its position |
| Sectors.FullIffLastSlotPresent | warehouse.java:174 | `get(5)` is present if and only if the sector is full |
| Sectors.Unlink | warehouse.java:125-126 | exchanging with the last position and dropping it removes the one product and moves the former last product into the gap |
| Sectors.RemoveAsWritten | warehouse.java:125-127 | the deletion step removes exactly the product at `i`; the rest is a permutation |
| Sectors.RemoveAt | warehouse.java:112-114 | removal with the vacated position repaired removes exactly that product and keeps a heap a heap, as the method comment promises |
| Sectors.RepairAfterUnlink | warehouse.java:112-114 | sinking and then swimming the vacated position restores the heap order |
| Sectors.RemoveRootKeepsHeap | warehouse.java:83-87 | removing the root through the last position and sinking position 1 keeps a heap a heap |
| Warehouses.SectorOf | warehouse.java:52 | an id is routed to one of the ten sectors |
| Warehouses.Init | warehouse.java:17-23 | the constructor gives ten empty sectors, routed and holding no product |
| Warehouses.TotalEmpty | warehouse.java:17-23 | sectors that are all empty hold no product in total |
| Warehouses.Admitted | warehouse.java:50-54 | the admitted record carries the given id, stock and demand, and its last purchase day is the admission day |
| Warehouses.EvictIfNeeded | warehouse.java:78-89 | a non-full sector is untouched; a full one loses exactly its root and keeps size 4; a full heap loses a least product and stays a heap; other sectors are untouched |
| Warehouses.EvictRoot | warehouse.java:83-87 | evicting the root of a full sector leaves the other four products; a heap loses a least product and stays a heap |
| Warehouses.AddToEnd | warehouse.java:48-57 | the admitted record is appended to the id's sector and nothing else changes |
| Warehouses.FixHeap | warehouse.java:64-71 | the id's sector becomes a heap of the same products whatever its order was, a heap is left as it is, and other sectors are untouched |
| Warehouses.AddProduct | warehouse.java:33-37 | only the id's sector changes; its size becomes min(old + 1, 5); it holds the new record and is a heap; it holds the old products plus the new one, less the former root when it was full; routing is kept |
| Warehouses.AdmitCounts | warehouse.java:33-37 | the size and multiset bookkeeping of evicting and then appending |
| Warehouses.AddProductTotal | warehouse.java:33-37 | `addProduct` adds one product to the warehouse, or none when the id's sector was full |
| Warehouses.RestockProduct | warehouse.java:98-110 | every product with the id in its sector gains `amount` stock; positions, sizes, other fields and other sectors are unchanged; an absent id changes nothing; routing is kept; a heap under a key that ignores stock stays a heap |
| Warehouses.RestockKeepsHeap | warehouse.java:98-110 | changing stock alone keeps a heap under a stock-blind key |
| Warehouses.DeleteProduct | warehouse.java:118-131 | only the id's sector changes and it only loses products; an absent id changes nothing; an id held once is removed exactly, by the code's own removal; routing is kept |
| Warehouses.DeleteScan | warehouse.java:122-130 | the scan loses only products of the sector; an absent id leaves it as it was; an id held once loses exactly that product |
| Warehouses.RemovedIdGone | warehouse.java:122-130 | removing the only product with the id leaves none with it |
| Warehouses.DeleteProductRepaired | warehouse.java:112-131 | deletion with the repaired removal: the same removals, and a heap stays a heap |
| Warehouses.PurchaseAt | warehouse.java:151-155 | one purchase step changes only the product at `i`, and keeps a heap a heap when the purchase does not lower that product's key |
| Warehouses.PurchaseScan | warehouse.java:145-158 | the scan keeps the size; every product it changes carries the id and the purchase day; no stock goes negative; no product ends with a last purchase after `day` if none started so; a heap stays a heap when, in addition, purchases on `day` never lower the key of such a product |
| Warehouses.PurchaseReachesFirst | warehouse.java:145-156 | when every slot up to the first product with the id passes the stock guard, the scan buys that product (purchase and sink at its position) and goes on from the next position |
| Warehouses.PurchaseBlocked | warehouse.java:148-150 | a slot with too little stock, reached before any slot holding the id, aborts the scan with no effect |
| Warehouses.PurchaseAbsent | warehouse.java:145-158 | an id absent from the sector leaves it unchanged |
| Warehouses.PurchaseProduct | warehouse.java:141-160 | only the id's sector changes, into exactly what `PurchaseScan` gives, which carries its membership, stock and heap facts; when the guard lets the scan reach the first product with the id, that product is bought and the scan goes on after it; the guard and an absent id leave the warehouse unchanged; routing is kept |
| Warehouses.PurchaseLoop | warehouse.java:145-158 | the loop with its early return computes the recursive scan |
| Warehouses.PurchaseOnceLoop | warehouse.java:145-158 | the loop that stops after its purchase buys the first product with the id exactly once, or nothing when the guard fires or the id is absent |
| Warehouses.PurchaseOnce | warehouse.java:141-160 | a purchase applied once to the first product with the id: the guard and an absent id change nothing, and otherwise the sector holds the same products with that one bought, and keeps heap order when the purchase does not lower that product's key |
| Warehouses.TotalOnlyChanged | warehouse.java:170-198 | changing one sector changes the product count by the change in that sector's size |
| Warehouses.FindRoom | warehouse.java:177-187 | the circular search stops at the first sector with room after the id's sector, or back at it when every other sector is full |
| Warehouses.FullAround | warehouse.java:181-189 | a search that returns to the id's sector means every sector is full |
| Warehouses.BetterAddProduct | warehouse.java:170-198 | a sector with room gives exactly `addProduct`; an all-full warehouse gives exactly `addProduct`, eviction included; otherwise the product is appended to the first sector with room in circular order, the id's sector keeps its products (and a heap is kept as it was), no other sector changes, and the product count rises by one |
| Warehouses.SpillFacts | warehouse.java:191-196 | the spill is into the unique first sector with room, and adds one product |
| Warehouses.BetterAddProductRepaired | warehouse.java:170-198 | the same choice of sector, with the heap rebuilt where the product went: a warehouse of heaps stays one and the product count rises by one unless all sectors are full |
| Warehouses.HeapsAfterChange | warehouse.java:191-196 | rebuilding one sector as a heap keeps a warehouse of heaps one |
| Findings.RemoveAsWrittenBreaksHeap | warehouse.java:125-127 | removing position 2 from the heap of demands 1..5 the code's way gives a sector that is not a heap |
| Findings.DoublePurchase | warehouse.java:145-156 | the scan buys product 1 twice after sink moves it to a later position |
| Findings.SpillLeavesDisorder | warehouse.java:191-195 | a spill into a sector holding one more popular product leaves that sector out of heap order |

## Left out

- `toString` (warehouse.java:203-211): it only renders text.
- `getSectors` (warehouse.java:216-218): a plain accessor; `w.sectors` is the same view.
- solarSystem/main.js: a browser scene with floating point, timers and a graphics library, unrelated to the warehouse.
- The concrete popularity comparator: the `Sector` class holding it is not part of this model. All heap properties hold for any integer `key`. `Products.Popularity` encodes a (demand, last purchase day) ranking as one integer; it orders the pairs lexicographically only while days stay below its weight.
- The tie rule: `sink` prefers the left child on equal keys, and both `sink` and `swim` exchange only on strict improvement.
- Negative ids: Java's `%` would give a negative sector index and throw. Every operation requires `id >= 0`.
- Product names are carried along and never inspected.
- Integer width: stock, demand and day are unbounded integers, so Java's 32-bit overflow on very large values is not modelled.
- Warehouses.PurchaseAt: heap order is proved only when the purchase does not lower the bought product's key. The code sinks regardless, and sinking cannot repair a key that went down.
- Warehouses.PurchaseScan: heap order is proved only when no product of the sector was last purchased after `day` and a purchase on `day` never lowers the key of such a product (`PurchaseRaisesKey`). `Products.PopularityRaisesKey` shows the demand-then-day ranking meets this for non-negative amounts.
- Warehouses.PurchaseOnce: heap order is proved only when the purchase does not lower the bought product's key, as for `PurchaseAt`.
- Warehouses.RestockProduct: heap order is proved only for keys that ignore stock (`StockBlind`). The code never reorders after a restock.
- Warehouses.DeleteProduct: the exact outcome is stated for an id held at most once. With duplicate ids the code's scan skips the product moved into a vacated position, and only the multiset bound is stated.

## Findings

| source | as written | input that shows it | evidently intended | confidence | as-written member | corrected member |
|---|---|---|---|---|---|---|
| warehouse.java:125-127 | after exchanging position `i` with the last and dropping it, only position 1 is sunk | heap of demands 1, 2, 3, 4, 5, delete the product at position 2: the sector becomes 1, 5, 3, 4 and 5 sits above 4 | restore heap order at the vacated position (sink it, then swim it), as the comment "while maintaining the heap structure" says | not executed | Sectors.RemoveAsWritten (shown by Findings.RemoveAsWrittenBreaksHeap) | Warehouses.DeleteProductRepaired (via Sectors.RemoveAt) |
| warehouse.java:145-156 | after buying and sinking position `i` the scan goes on to `i + 1`, where the bought product may now sit | product 1 (stock 20, demand 0) at position 1 and product 11 (stock 20, demand 5) at position 2, ranked by demand; buy 6 of id 1: product 1 ends at stock 8 and demand 12 | one purchase of `amount` for the product | not executed | Warehouses.PurchaseScan (shown by Findings.DoublePurchase) | Warehouses.PurchaseOnce |
| warehouse.java:194-195 | the spilled product is appended to `sectors[counter]` but `fixHeap(id)` rebuilds sector `id % 10` | sector 1 full with demands 1 to 5 (ids 1, 11, 21, 31, 41), sector 2 holding product 2 with demand 5, the rest empty, every product in its own sector; admit id 51 with demand 1: sector 2 becomes demands 5, 1 | rebuild the heap of the sector that received the product | not executed | Warehouses.BetterAddProduct (shown by Findings.SpillLeavesDisorder) | Warehouses.BetterAddProductRepaired |
