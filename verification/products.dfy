/**
 The item record a sector stores. Only the accessors and mutators the warehouse
 calls are modelled; each mutator returns the updated record, since the warehouse
 always writes the updated record back into the slot it read it from.
 */
module Products {

  /** An item: its id, a name nothing inspects, current stock, the day of its last purchase and its accumulated demand. */
  datatype Product = Product(id: int, name: string, stock: int, lastPurchaseDay: int, demand: int)

  /** The popularity ranking of products: the least popular product has the smallest key. */
  type Key = Product -> int

  /** `updateStock(delta)`: add `delta` to the stock. */
  function UpdateStock(p: Product, delta: int): Product
  {
    p.(stock := p.stock + delta)
  }

  /** `setStock(n)`. */
  function SetStock(p: Product, n: int): Product
  {
    p.(stock := n)
  }

  /** `updateDemand(amount)`: add `amount` to the demand. */
  function UpdateDemand(p: Product, amount: int): Product
  {
    p.(demand := p.demand + amount)
  }

  /** `setLastPurchaseDay(day)`. */
  function SetLastPurchaseDay(p: Product, day: int): Product
  {
    p.(lastPurchaseDay := day)
  }

  /** The record after one applied purchase of `amount` units on `day`, in the order the warehouse applies the three updates. */
  function Bought(p: Product, day: int, amount: int): (b: Product)
    ensures b.id == p.id && b.name == p.name
    ensures b.lastPurchaseDay == day
    ensures b.stock == p.stock - amount && b.demand == p.demand + amount
  {
    UpdateDemand(SetStock(SetLastPurchaseDay(p, day), p.stock - amount), amount)
  }

  /** A key that does not look at the stock: restocking cannot change a product's rank. */
  ghost predicate StockBlind(key: Key)
  {
    forall p: Product, n: int :: key(UpdateStock(p, n)) == key(p)
  }

  /**
   A key under which a purchase of `amount` on `day` never makes a product less
   popular, for every product whose last purchase is no later than `day`.
   */
  ghost predicate PurchaseRaisesKey(key: Key, day: int, amount: int)
  {
    forall p: Product :: p.lastPurchaseDay <= day ==> key(p) <= key(Bought(p, day, amount))
  }

  /**
   The (demand, last purchase day) ranking as one integer: demand weighted by
   `weight`, then the day. It orders lexicographically while days stay in
   `0..weight - 1`.
   */
  function Popularity(weight: nat, p: Product): int
  {
    p.demand * weight + p.lastPurchaseDay
  }

  /** A purchase of a non-negative amount on a day no earlier than the last one never lowers the popularity. */
  lemma PurchaseRaisesPopularity(weight: nat, p: Product, day: int, amount: int)
    requires amount >= 0 && p.lastPurchaseDay <= day
    ensures Popularity(weight, p) <= Popularity(weight, Bought(p, day, amount))
  {
    var b := Bought(p, day, amount);
    assert b.demand * weight == p.demand * weight + amount * weight;
    assert amount * weight >= 0;
  }

  /** The popularity ranking meets `PurchaseRaisesKey` for every non-negative amount. */
  lemma PopularityRaisesKey(weight: nat, day: int, amount: int)
    requires amount >= 0
    ensures PurchaseRaisesKey(p => Popularity(weight, p), day, amount)
  {
    forall p: Product | p.lastPurchaseDay <= day
      ensures Popularity(weight, p) <= Popularity(weight, Bought(p, day, amount))
    {
      PurchaseRaisesPopularity(weight, p, day, amount);
    }
  }
}
