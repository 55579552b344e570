/** The price-priority key of a book side (src/lib/include/price_level.h). */
module PriceLevels {
  import opened SideEnum

  datatype PriceLevel = PriceLevel(price: nat, side: SideEnum.Type)

  /**
   * `operator<`: "sorts before". Keys of one side only are compared; for Buy the higher
   * price comes first, for every other side the lower price comes first. Keys at the same
   * price are never ordered, so the multimap keeps them in insertion order.
   */
  predicate Less(lhs: PriceLevel, rhs: PriceLevel)
    requires lhs.side == rhs.side
    ensures lhs.price == rhs.price ==> !Less(lhs, rhs)
  {
    if lhs.side == Buy then lhs.price > rhs.price else lhs.price < rhs.price
  }

  /** For Buy keys the best (first) key is the highest price. */
  lemma {:induction false} BuyKeysDescend(a: PriceLevel, b: PriceLevel)
    requires a.side == Buy && b.side == Buy
    ensures Less(a, b) <==> a.price > b.price
  {
  }

  /** For non-Buy keys the best (first) key is the lowest price. */
  lemma {:induction false} OtherKeysAscend(a: PriceLevel, b: PriceLevel)
    requires a.side == b.side && a.side != Buy
    ensures Less(a, b) <==> a.price < b.price
  {
  }

  /** Within one side the relation is a strict weak order whose equivalence is equal price. */
  lemma {:induction false} LessIsStrictWeakOrder(a: PriceLevel, b: PriceLevel, c: PriceLevel)
    requires a.side == b.side == c.side
    ensures !Less(a, a)
    ensures Less(a, b) ==> !Less(b, a)
    ensures Less(a, b) && Less(b, c) ==> Less(a, c)
    ensures (!Less(a, b) && !Less(b, a)) <==> a.price == b.price
  {
  }
}
