/** The order book of one instrument (src/lib/include/order_book.h, src/lib/order_book.cpp).
    Each side keeps a primary index ordered by price level, FIFO among equal levels, that owns
    the orders, and a secondary index from sequence number to the same order. */
module OrderBooks {
  import opened SideEnum
  import opened Messages
  import opened PriceLevels
  import opened Orders
  import opened Matching
  import KeyOrder

  /** The values of a sequence of orders, in the same order. */
  ghost function ValuesOf(s: seq<Order>): (vs: seq<OrderValue>)
    reads s
    ensures |vs| == |s|
    ensures forall i :: 0 <= i < |s| ==> vs[i] == s[i].Value()
  {
    if s == [] then [] else [s[0].Value()] + ValuesOf(s[1..])
  }

  /** The position at which `std::multimap::insert` places `o`: after every order whose
      price level is not worse. This is `Matching.InsertPosition` read off the orders' fixed
      fields, so that the insertion needs no ghost state; `UpperBoundIsPosition` proves the two
      agree. */
  function UpperBound(s: seq<Order>, o: Order): (k: nat)
    requires forall i :: 0 <= i < |s| ==> s[i].side == o.side
    ensures k <= |s|
  {
    if s == [] || Less(PriceLevel(o.price, o.side), PriceLevel(s[0].price, s[0].side)) then 0
    else 1 + UpperBound(s[1..], o)
  }

  /** The upper bound over the orders is the insertion position over their values. */
  lemma {:induction false} UpperBoundIsPosition(s: seq<Order>, o: Order)
    requires forall i :: 0 <= i < |s| ==> s[i].side == o.side
    ensures UpperBound(s, o) == InsertPosition(ValuesOf(s), o.Value())
    decreases |s|
  {
    if s != [] && !Less(PriceLevel(o.price, o.side), PriceLevel(s[0].price, s[0].side)) {
      UpperBoundIsPosition(s[1..], o);
      assert ValuesOf(s)[1..] == ValuesOf(s[1..]);
    }
  }

  /** Splicing an order in at its upper bound is `Matching.Insert` on the values. */
  lemma {:induction false} UpperBoundIsInsert(s: seq<Order>, o: Order)
    requires forall i :: 0 <= i < |s| ==> s[i].side == o.side
    ensures var k := UpperBound(s, o);
      ValuesOf(s[..k] + [o] + s[k..]) == Insert(ValuesOf(s), o.Value())
  {
    var k := UpperBound(s, o);
    var vs := ValuesOf(s);
    UpperBoundIsPosition(s, o);
    InsertSplices(vs, o.Value());
    ValuesOfSplice(s, k, o);
  }

  lemma {:induction false} ValuesOfSplice(s: seq<Order>, k: nat, o: Order)
    requires k <= |s|
    ensures ValuesOf(s[..k] + [o] + s[k..]) == ValuesOf(s)[..k] + [o.Value()] + ValuesOf(s)[k..]
  {
    var t := s[..k] + [o] + s[k..];
    var vs := ValuesOf(s);
    var ws := vs[..k] + [o.Value()] + vs[k..];
    forall i | 0 <= i < |t| ensures t[i].Value() == ws[i] {
      if i < k {
        assert t[i] == s[i] && ws[i] == vs[i];
      } else if i == k {
        assert t[i] == o && ws[i] == o.Value();
      } else {
        assert t[i] == s[i - 1] && ws[i] == vs[i - 1];
      }
    }
    ValuesOfPointwise(t, ws);
  }

  /** Orders whose fields did not change still have the same values. */
  twostate lemma {:induction false} ValuesOfUnchanged(s: seq<Order>)
    requires forall i :: 0 <= i < |s| ==> unchanged(s[i])
    ensures ValuesOf(s) == old(ValuesOf(s))
  {
    ValuesOfPointwise(s, old(ValuesOf(s)));
  }

  /** Two value sequences agree when they agree at every position. */
  lemma {:induction false} ValuesOfPointwise(s: seq<Order>, vs: seq<OrderValue>)
    requires |s| == |vs| && forall i :: 0 <= i < |s| ==> s[i].Value() == vs[i]
    ensures ValuesOf(s) == vs
  {
    var ws := ValuesOf(s);
    assert forall i :: 0 <= i < |s| ==> ws[i] == vs[i];
  }


  /** `o` carries the fixed fields of `v`: everything but the remaining quantity. */
  predicate Identifies(o: Order, v: OrderValue) {
    o.sequenceNumber == v.sequenceNumber && o.orderId == v.orderId && o.symbol == v.symbol
    && o.side == v.side && o.price == v.price
  }

  lemma {:induction false} SplitAt(vs: seq<OrderValue>, k: nat)
    requires k < |vs|
    ensures vs[k..] == [vs[k].(quantity := vs[k].quantity)] + vs[k + 1..]
  {
  }

  /** The orders left after the scan, read back as values, are what the scan says is left. */
  lemma {:induction false} RestValues(orders: seq<Order>, contra0: seq<OrderValue>, k: nat, rest: seq<OrderValue>)
    requires |orders| == |contra0| && k <= |orders|
    requires forall j :: 0 <= j < |orders| ==> Identifies(orders[j], contra0[j])
    requires forall j :: k < j < |orders| ==> orders[j].quantity == contra0[j].quantity
    requires rest == if k < |orders| then [contra0[k].(quantity := orders[k].quantity)] + contra0[k + 1..] else []
    ensures ValuesOf(orders[k..]) == rest
  {
    var vs := ValuesOf(orders[k..]);
    forall j | 0 <= j < |vs| ensures vs[j] == rest[j] {
      if j > 0 {
        assert rest[j] == contra0[k + j];
      }
    }
  }

  /** `Matching.Scan` in the shape of the scanning loop, with the trades already made carried
      along in `done`; `ScanFromIsScan` proves it is `Scan` with `done` in front. */
  ghost function ScanFrom(symbol: string, done: seq<Trade>, inbound: OrderValue, contra: seq<OrderValue>): ScanResult
    decreases |contra|
  {
    if contra == [] || !OrdersMatch(inbound, contra[0]) then
      ScanResult(done, inbound.quantity, contra)
    else
      var resting := contra[0];
      var q := Min(inbound.quantity, resting.quantity);
      var trade := MakeTrade(symbol, inbound.orderId, resting.orderId, q, resting.price);
      var resting' := resting.(quantity := resting.quantity - q);
      if inbound.quantity - q == 0 then
        ScanResult(done + [trade], 0, (if resting'.quantity == 0 then [] else [resting']) + contra[1..])
      else
        ScanFrom(symbol, done + [trade], inbound.(quantity := inbound.quantity - q), contra[1..])
  }

  lemma {:induction false} ScanFromIsScan(symbol: string, done: seq<Trade>, inbound: OrderValue, contra: seq<OrderValue>)
    ensures var r := Scan(symbol, inbound, contra);
      ScanFrom(symbol, done, inbound, contra) == ScanResult(done + r.trades, r.remaining, r.rest)
    decreases |contra|
  {
    if contra == [] || !OrdersMatch(inbound, contra[0]) {
      assert done + [] == done;
    } else {
      var q := Min(inbound.quantity, contra[0].quantity);
      var t := MakeTrade(symbol, inbound.orderId, contra[0].orderId, q, contra[0].price);
      if inbound.quantity - q != 0 {
        var inbound' := inbound.(quantity := inbound.quantity - q);
        ScanFromIsScan(symbol, done + [t], inbound', contra[1..]);
        var r := Scan(symbol, inbound', contra[1..]);
        assert done + ([t] + r.trades) == (done + [t]) + r.trades;
      }
    }
  }

  /** `Matching.OrdersMatch` read off the fixed fields of two orders, for the loop guard,
      which cannot use ghost values; `CrossesIsOrdersMatch` proves the two agree. */
  predicate Crosses(inbound: Order, resting: Order)
  {
    if inbound.side == Buy then resting.price <= inbound.price else inbound.price <= resting.price
  }

  lemma {:induction false} CrossesIsOrdersMatch(inbound: Order, resting: Order)
    ensures Crosses(inbound, resting) <==> OrdersMatch(inbound.Value(), resting.Value())
  {
  }

  /** One trade of the scan: the smaller of the two remaining quantities, at the resting
      order's price, taken off both orders. */
  method Fill(symbol: string, inboundOrder: Order, resting: Order,
               ghost result: ScanResult, ghost trades: seq<Trade>, ghost inbound: OrderValue, ghost contra: seq<OrderValue>)
    returns (trade: Trade)
    requires inboundOrder != resting
    requires Identifies(inboundOrder, inbound) && inboundOrder.quantity == inbound.quantity
    requires contra != [] && Identifies(resting, contra[0]) && resting.quantity == contra[0].quantity
    requires Crosses(inboundOrder, resting)
    requires result == ScanFrom(symbol, trades, inbound, contra)
    modifies inboundOrder, resting
    ensures var q := Min(old(inboundOrder.quantity), old(resting.quantity));
      && trade == MakeTrade(symbol, inboundOrder.orderId, resting.orderId, q, resting.price)
      && inboundOrder.quantity == old(inboundOrder.quantity) - q
      && resting.quantity == old(resting.quantity) - q
    ensures inboundOrder.quantity > 0 ==>
      resting.quantity == 0 && result == ScanFrom(symbol, trades + [trade], inbound.(quantity := inboundOrder.quantity), contra[1..])
    ensures inboundOrder.quantity == 0 ==>
      && result.trades == trades + [trade] && result.remaining == 0
      && result.rest == (if resting.quantity == 0 then [] else [contra[0].(quantity := resting.quantity)]) + contra[1..]
  {
    var tradeQuantity := Min(inboundOrder.quantity, resting.quantity);
    trade := MakeTrade(symbol, inboundOrder.orderId, resting.orderId, tradeQuantity, resting.price);
    inboundOrder.DecreaseQuantity(tradeQuantity);
    resting.DecreaseQuantity(tradeQuantity);
  }

  /** The state of the scanning loop before its `i`-th pass. */
  ghost predicate Scanning(symbol: string, inboundOrder: Order, orders: seq<Order>, inbound0: OrderValue,
                           contra0: seq<OrderValue>, result: ScanResult, trades: seq<Trade>, filled: seq<Order>, i: int)
    reads inboundOrder, orders
  {
    && 0 <= i <= |orders| == |contra0|
    && (forall j :: i <= j < |orders| ==> orders[j].quantity == contra0[j].quantity)
    && filled == orders[..i]
    && result == ScanFrom(symbol, trades, inbound0.(quantity := inboundOrder.quantity), contra0[i..])
  }

  /** The state of the scanning loop once it is over. */
  ghost predicate Scanned(inboundOrder: Order, orders: seq<Order>, contra0: seq<OrderValue>, result: ScanResult,
                          trades: seq<Trade>, filled: seq<Order>)
    reads inboundOrder, orders
  {
    && trades == result.trades
    && inboundOrder.quantity == result.remaining
    && |filled| <= |orders| == |contra0|
    && filled == orders[..|filled|]
    && (forall j :: |filled| < j < |orders| ==> orders[j].quantity == contra0[j].quantity)
    && var k := |filled|;
       result.rest == if k < |orders| then [contra0[k].(quantity := orders[k].quantity)] + contra0[k + 1..] else []
  }

  /** The scanning loop stops without using up the inbound order once the orders run out or
      the next one does not cross: the scan is then over, with everything from `i` on left. */
  lemma {:induction false} ScanningStops(symbol: string, inboundOrder: Order, orders: seq<Order>, inbound0: OrderValue,
                                         contra0: seq<OrderValue>, result: ScanResult, trades: seq<Trade>,
                                         filled: seq<Order>, i: int)
    requires Scanning(symbol, inboundOrder, orders, inbound0, contra0, result, trades, filled, i)
    requires forall j :: 0 <= j < |orders| ==> Identifies(orders[j], contra0[j])
    requires Identifies(inboundOrder, inbound0)
    requires i == |orders| || !Crosses(inboundOrder, orders[i])
    ensures Scanned(inboundOrder, orders, contra0, result, trades, filled)
  {
    if i < |orders| {
      SplitAt(contra0, i);
    }
  }

  /** What the scanning loop leaves behind, read as its postcondition. */
  lemma {:induction false} ScannedMeans(inboundOrder: Order, orders: seq<Order>, contra0: seq<OrderValue>,
                                        result: ScanResult, trades: seq<Trade>, filled: seq<Order>)
    requires Scanned(inboundOrder, orders, contra0, result, trades, filled)
    requires forall j :: 0 <= j < |orders| ==> Identifies(orders[j], contra0[j])
    ensures trades == result.trades && inboundOrder.quantity == result.remaining
    ensures |filled| <= |orders| && filled == orders[..|filled|]
    ensures ValuesOf(orders[|filled|..]) == result.rest
  {
    RestValues(orders, contra0, |filled|, result.rest);
  }

  /** One pass of the scanning loop over the `i`-th resting order. */
  method ScanStep(symbol: string, inboundOrder: Order, orders: seq<Order>, i: nat,
                  trades: seq<Trade>, filledRestingOrders: seq<Order>,
                  ghost inbound0: OrderValue, ghost contra0: seq<OrderValue>, ghost result: ScanResult)
    returns (trades': seq<Trade>, filledRestingOrders': seq<Order>)
    requires Scanning(symbol, inboundOrder, orders, inbound0, contra0, result, trades, filledRestingOrders, i)
    requires Distinct(orders)
    requires inboundOrder !in orders
    requires forall j :: 0 <= j < |orders| ==> Identifies(orders[j], contra0[j])
    requires Identifies(inboundOrder, inbound0)
    requires i < |orders| && Crosses(inboundOrder, orders[i])
    modifies inboundOrder, orders[i]
    ensures inboundOrder.quantity > 0 ==>
      Scanning(symbol, inboundOrder, orders, inbound0, contra0, result, trades', filledRestingOrders', i + 1)
    ensures inboundOrder.quantity == 0 ==>
      Scanned(inboundOrder, orders, contra0, result, trades', filledRestingOrders')
  {
    var resting := orders[i];
    ghost var c := contra0[i..];
    assert c[0] == contra0[i] && c[1..] == contra0[i + 1..];
    var trade := Fill(symbol, inboundOrder, resting, result, trades, inbound0.(quantity := inboundOrder.quantity), c);
    trades' := trades + [trade];
    filledRestingOrders' := filledRestingOrders;
    if resting.quantity == 0 {
      filledRestingOrders' := filledRestingOrders + [resting];
    }
    if inboundOrder.quantity == 0 && resting.quantity == 0 && i + 1 < |orders| {
      SplitAt(contra0, i + 1);
    }
  }

  /**
   * The scanning loop of `GenerateTrades`: walks `orders` from the front while the resting
   * order crosses, trading and decreasing both orders, and stops once the inbound order has
   * nothing left. It returns the trades and the filled resting orders, which form a prefix.
   */
  method ScanContraSide(symbol: string, inboundOrder: Order, orders: seq<Order>,
                        ghost inbound0: OrderValue, ghost contra0: seq<OrderValue>, ghost result: ScanResult)
    returns (trades: seq<Trade>, filledRestingOrders: seq<Order>)
    requires Distinct(orders)
    requires inboundOrder !in orders
    requires |contra0| == |orders|
    requires forall j :: 0 <= j < |orders| ==> Identifies(orders[j], contra0[j])
    requires forall j :: 0 <= j < |orders| ==> orders[j].quantity == contra0[j].quantity
    requires Identifies(inboundOrder, inbound0) && inboundOrder.quantity == inbound0.quantity
    requires result == ScanFrom(symbol, [], inbound0, contra0)
    modifies inboundOrder, orders
    ensures trades == result.trades && inboundOrder.quantity == result.remaining
    ensures |filledRestingOrders| <= |orders| && filledRestingOrders == orders[..|filledRestingOrders|]
    ensures ValuesOf(orders[|filledRestingOrders|..]) == result.rest
  {
    trades := [];
    filledRestingOrders := [];
    var i := 0;
    assert contra0[0..] == contra0;
    while i < |orders| && Crosses(inboundOrder, orders[i])
      invariant Scanning(symbol, inboundOrder, orders, inbound0, contra0, result, trades, filledRestingOrders, i)
    {
      trades, filledRestingOrders := ScanStep(symbol, inboundOrder, orders, i, trades, filledRestingOrders,
                                              inbound0, contra0, result);
      if inboundOrder.quantity == 0 {
        ScannedMeans(inboundOrder, orders, contra0, result, trades, filledRestingOrders);
        return;
      }
      i := i + 1;
    }
    ScanningStops(symbol, inboundOrder, orders, inbound0, contra0, result, trades, filledRestingOrders, i);
    ScannedMeans(inboundOrder, orders, contra0, result, trades, filledRestingOrders);
  }

  /** The two indexes of one side of the book (the `Indexes` pair of the source). */
  class BookSide {
    const side: SideEnum.Type
    /** Primary index: owns the orders, best price level first, FIFO within a level. */
    var byPriceLevel: seq<Order>
    /** Secondary index: sequence number to the order held by the primary index. */
    var bySequenceNumber: map<nat, Order>
    /** This side and the orders it holds. */
    ghost var Repr: set<object>

    /** The secondary index files exactly the orders of the primary one. */
    ghost predicate Indexed()
      reads this
    {
      IndexedBy(byPriceLevel, bySequenceNumber)
    }

    ghost predicate Valid()
      reads this
    {
      && this in Repr
      && (forall i :: 0 <= i < |byPriceLevel| ==> byPriceLevel[i] in Repr)
      && (side == Buy || side == Sell)
      && Distinct(byPriceLevel)
      && Indexed()
    }

    constructor (side: SideEnum.Type)
      requires side == Buy || side == Sell
      ensures this.side == side && byPriceLevel == [] && bySequenceNumber == map[]
      ensures Valid() && fresh(Repr)
    {
      this.side := side;
      byPriceLevel := [];
      bySequenceNumber := map[];
      Repr := {this};
    }

    /** The work `GenerateTrades` does on the contra side: the scanning loop, then the erase
        loop. Trades, the inbound remainder and what stays on this side are `Matching.Scan`. */
    method TradeAgainst(symbol: string, inboundOrder: Order) returns (trades: seq<Trade>)
      requires Valid()
      requires inboundOrder !in Repr
      modifies Repr, inboundOrder
      ensures Valid() && Repr == old(Repr)
      ensures var r := Scan(symbol, old(inboundOrder.Value()), old(ValuesOf(byPriceLevel)));
        && trades == r.trades
        && inboundOrder.quantity == r.remaining
        && ValuesOf(byPriceLevel) == r.rest
    {
      var orders := byPriceLevel;
      ghost var contra0 := ValuesOf(orders);
      ghost var inbound0 := inboundOrder.Value();
      ghost var result := Scan(symbol, inbound0, contra0);
      assert result == ScanFrom(symbol, [], inbound0, contra0) by {
        ScanFromIsScan(symbol, [], inbound0, contra0);
        assert [] + result.trades == result.trades;
      }
      var filledRestingOrders: seq<Order>;
      trades, filledRestingOrders := ScanContraSide(symbol, inboundOrder, orders, inbound0, contra0, result);
      assert unchanged(this);
      EraseFilled(filledRestingOrders, result.rest);
    }

    /** The erase loop of `GenerateTrades`: each filled order, which is always at the front of
        the primary index, leaves the secondary index and then the primary one. */
    method EraseFilled(filledRestingOrders: seq<Order>, ghost rest: seq<OrderValue>)
      requires Distinct(byPriceLevel) && Indexed()
      requires |filledRestingOrders| <= |byPriceLevel| && filledRestingOrders == byPriceLevel[..|filledRestingOrders|]
      requires ValuesOf(byPriceLevel[|filledRestingOrders|..]) == rest
      modifies this`byPriceLevel, this`bySequenceNumber
      ensures Distinct(byPriceLevel) && Indexed()
      ensures byPriceLevel == old(byPriceLevel)[|filledRestingOrders|..]
      ensures ValuesOf(byPriceLevel) == rest
    {
      ghost var orders := byPriceLevel;
      var k := 0;
      while k < |filledRestingOrders|
        invariant 0 <= k <= |filledRestingOrders|
        invariant byPriceLevel == orders[k..]
        invariant Distinct(byPriceLevel) && Indexed()
      {
        assert filledRestingOrders[k] == orders[k] == byPriceLevel[0];
        EraseFront(filledRestingOrders[k]);
        k := k + 1;
      }
      ValuesOfUnchanged(byPriceLevel);
    }

    /** One pass of the erase loop: the filled order, at the front of the primary index, leaves
        the secondary index and then the primary one. */
    method EraseFront(filled: Order)
      requires Distinct(byPriceLevel) && Indexed()
      requires byPriceLevel != [] && byPriceLevel[0] == filled
      modifies this`byPriceLevel, this`bySequenceNumber
      ensures Distinct(byPriceLevel) && Indexed()
      ensures byPriceLevel == old(byPriceLevel)[1..]
      ensures bySequenceNumber == old(bySequenceNumber) - {filled.sequenceNumber}
    {
      EraseFrontKeepsIndexed(byPriceLevel, bySequenceNumber);
      bySequenceNumber := bySequenceNumber - {filled.sequenceNumber};
      byPriceLevel := byPriceLevel[1..];
    }

    /** The resting half of `AddOrder` on the order's own side: the order goes into the primary
        index at its upper bound (after every order of a price level that is not worse) and
        into the secondary index under its sequence number, which no resting order has. */
    method RestOrder(order: Order)
      requires Valid()
      requires order !in Repr && order.side == side
      requires forall i :: 0 <= i < |byPriceLevel| ==> byPriceLevel[i].side == side
      requires forall i :: 0 <= i < |byPriceLevel| ==> byPriceLevel[i].sequenceNumber < order.sequenceNumber
      modifies this`byPriceLevel, this`bySequenceNumber, this`Repr
      ensures Valid() && Repr == old(Repr) + {order}
      ensures ValuesOf(byPriceLevel) == Insert(old(ValuesOf(byPriceLevel)), order.Value())
      ensures bySequenceNumber == old(bySequenceNumber)[order.sequenceNumber := order]
      ensures unchanged(order)
    {
      ghost var k := UpperBound(byPriceLevel, order);
      ghost var spliced := byPriceLevel[..k] + [order] + byPriceLevel[k..];
      ghost var filed := bySequenceNumber[order.sequenceNumber := order];
      assert (forall i :: 0 <= i < |spliced| ==> spliced[i] in Repr + {order})
        && Distinct(spliced) && IndexedBy(spliced, filed) by {
        SpliceKeepsIndexed(byPriceLevel, bySequenceNumber, k, order);
      }
      InsertIntoIndexes(order);
    }

    /** The two insertions themselves: `std::multimap::insert` into the primary index, which
        places `order` after every order whose price level is not worse, and the insertion into
        the secondary index under the order's sequence number. */
    method InsertIntoIndexes(order: Order)
      requires forall i :: 0 <= i < |byPriceLevel| ==> byPriceLevel[i].side == order.side
      modifies this`byPriceLevel, this`bySequenceNumber, this`Repr
      ensures var k := UpperBound(old(byPriceLevel), order);
        byPriceLevel == old(byPriceLevel)[..k] + [order] + old(byPriceLevel)[k..]
      ensures bySequenceNumber == old(bySequenceNumber)[order.sequenceNumber := order]
      ensures Repr == old(Repr) + {order}
      ensures ValuesOf(byPriceLevel) == Insert(old(ValuesOf(byPriceLevel)), order.Value())
    {
      var k := UpperBound(byPriceLevel, order);
      UpperBoundIsInsert(byPriceLevel, order);
      byPriceLevel, bySequenceNumber, Repr :=
        byPriceLevel[..k] + [order] + byPriceLevel[k..], bySequenceNumber[order.sequenceNumber := order], Repr + {order};
    }
  }

  /** `OrderBook::Dump` walks a secondary index: entries keyed by sequence number. On values,
      the index of a side is the map from each order's sequence number to the order. */
  function SequenceIndex(s: seq<OrderValue>): (m: map<nat, OrderValue>)
    requires DistinctArrivals(s)
    ensures forall n :: n in m <==> exists i :: 0 <= i < |s| && s[i].sequenceNumber == n
    ensures forall i :: 0 <= i < |s| ==> m[s[i].sequenceNumber] == s[i]
    ensures forall n :: n in m ==> m[n].sequenceNumber == n
  {
    map i | 0 <= i < |s| :: s[i].sequenceNumber := s[i]
  }

  /** The values a secondary index of order objects files, under the same keys. */
  function IndexValues(m: map<nat, Order>): (vm: map<nat, OrderValue>)
    reads m.Values
    ensures vm.Keys == m.Keys && forall n :: n in m ==> vm[n] == m[n].Value()
  {
    map n | n in m :: m[n].Value()
  }

  /** Orders filed under their own sequence numbers in a map carry distinct numbers. */
  lemma {:induction false} IndexedArrivalsDistinct(s: seq<Order>, m: map<nat, Order>)
    requires Distinct(s) && IndexedBy(s, m)
    ensures DistinctArrivals(ValuesOf(s))
  {
    var vs := ValuesOf(s);
    forall i, j | 0 <= i < j < |vs| ensures vs[i].sequenceNumber != vs[j].sequenceNumber {
      assert m[s[i].sequenceNumber] == s[i] != s[j] == m[s[j].sequenceNumber];
    }
  }

  /** A map that files every order of `vs` under its sequence number, and nothing else, is
      the sequence index of `vs`. */
  lemma {:induction false} SequenceIndexUnique(vs: seq<OrderValue>, vm: map<nat, OrderValue>)
    requires DistinctArrivals(vs)
    requires forall i :: 0 <= i < |vs| ==> vs[i].sequenceNumber in vm && vm[vs[i].sequenceNumber] == vs[i]
    requires forall n :: n in vm ==> exists i :: 0 <= i < |vs| && vs[i].sequenceNumber == n
    ensures vm == SequenceIndex(vs)
  {
    var sm := SequenceIndex(vs);
    forall n | n in vm ensures n in sm && sm[n] == vm[n] {
      var i :| 0 <= i < |vs| && vs[i].sequenceNumber == n;
    }
    assert vm.Keys == sm.Keys;
  }

  /** A secondary index that files exactly the orders of a primary one holds, as values, the
      sequence index of the primary one; and no two of those orders share a sequence number. */
  lemma {:induction false} IndexValuesOfIndexed(s: seq<Order>, m: map<nat, Order>)
    requires Distinct(s) && IndexedBy(s, m)
    ensures DistinctArrivals(ValuesOf(s)) && IndexValues(m) == SequenceIndex(ValuesOf(s))
  {
    IndexedArrivalsDistinct(s, m);
    var vs, vm := ValuesOf(s), IndexValues(m);
    forall n | n in vm ensures exists i :: 0 <= i < |vs| && vs[i].sequenceNumber == n {
      var i :| 0 <= i < |s| && s[i] == m[n];
      assert vs[i].sequenceNumber == n;
    }
    SequenceIndexUnique(vs, vm);
  }

  /** The orders a sequence-number map files, by ascending key: the order in which a walk
      over the `std::map` visits them. */
  ghost function InKeyOrder(m: map<nat, OrderValue>): (os: seq<OrderValue>)
    ensures var ks := KeyOrder.Ascending(m.Keys);
      |os| == |ks| && forall i :: 0 <= i < |ks| ==> ks[i] in m && os[i] == m[ks[i]]
  {
    var ks := KeyOrder.Ascending(m.Keys);
    seq(|ks|, i requires 0 <= i < |ks| => m[ks[i]])
  }

  /** The walk over a side's sequence index visits each of the side's orders once, by
      ascending sequence number, which is arrival order. */
  lemma {:induction false} InKeyOrderLists(s: seq<OrderValue>)
    requires DistinctArrivals(s)
    ensures var os := InKeyOrder(SequenceIndex(s));
      && (forall i :: 0 <= i < |os| ==> os[i] in s)
      && (forall i :: 0 <= i < |s| ==> s[i] in os)
      && (forall i, j :: 0 <= i < j < |os| ==> os[i].sequenceNumber < os[j].sequenceNumber)
  {
    var m := SequenceIndex(s);
    var ks := KeyOrder.Ascending(m.Keys);
    var os := InKeyOrder(m);
    KeyOrder.AscendingIncreases(m.Keys);
    forall i | 0 <= i < |os| ensures os[i] in s && os[i].sequenceNumber == ks[i] {
      var k :| 0 <= k < |s| && s[k].sequenceNumber == ks[i];
    }
    forall i | 0 <= i < |s| ensures s[i] in os {
      assert s[i].sequenceNumber in ks;
      var k :| 0 <= k < |ks| && ks[k] == s[i].sequenceNumber;
      assert os[k] == s[i];
    }
  }

  /** The descriptors of the orders a sequence-number map files, by ascending key. */
  ghost function ListInKeyOrder(m: map<nat, OrderValue>): seq<OrderDescriptor> {
    var os := InKeyOrder(m);
    seq(|os|, i requires 0 <= i < |os| => Describe(os[i]))
  }

  /** The `t`-th descriptor of the listing describes the order filed under the `t`-th key. */
  lemma {:induction false} ListInKeyOrderAt(m: map<nat, OrderValue>, t: nat)
    requires t < |KeyOrder.Ascending(m.Keys)|
    ensures |ListInKeyOrder(m)| == |KeyOrder.Ascending(m.Keys)|
    ensures ListInKeyOrder(m)[t] == Describe(m[KeyOrder.Ascending(m.Keys)[t]])
  {
  }

  /** The loop of `Dump` over one secondary index: walks the map from its smallest sequence
      number up, describing each order it files. */
  method DescribeInKeyOrder(m: map<nat, OrderValue>) returns (ds: seq<OrderDescriptor>)
    ensures ds == ListInKeyOrder(m)
  {
    ghost var ks := KeyOrder.Ascending(m.Keys);
    ghost var listed := ListInKeyOrder(m);
    ghost var t := 0;
    var remaining := m.Keys;
    ds := [];
    while remaining != {}
      invariant remaining <= m.Keys
      invariant t <= |ks| && KeyOrder.Ascending(remaining) == ks[t..]
      invariant |listed| == |ks| && ds == listed[..t]
      decreases |remaining|
    {
      KeyOrder.HasLeast(remaining);
      var n :| n in remaining && forall k :: k in remaining ==> n <= k;
      KeyOrder.AscendingWalk(ks, remaining, t, n);
      ListInKeyOrderAt(m, t);
      PrefixGrows(listed, t);
      ds := ds + [Describe(m[n])];
      t := t + 1;
      remaining := remaining - {n};
    }
  }

  /** What `OrderBook::Dump` lists for a book: the asks, then the bids, each by ascending
      sequence number. */
  ghost function BookListing(b: BookState): seq<OrderDescriptor>
    requires BookArrivalsDistinct(b)
  {
    ListInKeyOrder(SequenceIndex(b.asks)) + ListInKeyOrder(SequenceIndex(b.bids))
  }

  /** `OrderBook::Dump` on the value of a book. */
  method DescribeBook(b: BookState) returns (ds: seq<OrderDescriptor>)
    requires BookArrivalsDistinct(b)
    ensures ds == BookListing(b)
  {
    var askOrders := DescribeInKeyOrder(SequenceIndex(b.asks));
    var bidOrders := DescribeInKeyOrder(SequenceIndex(b.bids));
    ds := askOrders + bidOrders;
  }

  /** A prefix one longer is the prefix followed by the next element. */
  lemma PrefixGrows<T>(s: seq<T>, t: nat)
    requires t < |s|
    ensures s[..t + 1] == s[..t] + [s[t]]
  {
  }

  /** No order appears twice. */
  ghost predicate Distinct(s: seq<Order>) {
    forall i, j :: 0 <= i < j < |s| ==> s[i] != s[j]
  }

  /** Dual-index consistency: every entry of the secondary index `m` is an order of the primary
      index `s` filed under its own sequence number, and every order of `s` is filed there. */
  ghost predicate IndexedBy(s: seq<Order>, m: map<nat, Order>) {
    && (forall n :: n in m ==> m[n] in s && m[n].sequenceNumber == n)
    && (forall i :: 0 <= i < |s| ==> s[i].sequenceNumber in m && m[s[i].sequenceNumber] == s[i])
  }

  /** Taking the front order out of both indexes keeps them consistent. */
  lemma {:induction false} EraseFrontKeepsIndexed(s: seq<Order>, m: map<nat, Order>)
    requires s != [] && Distinct(s) && IndexedBy(s, m)
    ensures Distinct(s[1..]) && IndexedBy(s[1..], m - {s[0].sequenceNumber})
  {
    var t, m' := s[1..], m - {s[0].sequenceNumber};
    forall i | 0 <= i < |t| ensures t[i].sequenceNumber != s[0].sequenceNumber {
      assert t[i] == s[i + 1] != s[0];
    }
    forall n | n in m' ensures m'[n] in t {
      var i :| 0 <= i < |s| && s[i] == m[n];
      assert i != 0;
      assert t[i - 1] == m[n];
    }
  }

  /** Splicing a new order into the primary index and filing it under its sequence number,
      which no resting order has, keeps the two indexes consistent. */
  lemma {:induction false} SpliceKeepsIndexed(s: seq<Order>, m: map<nat, Order>, k: nat, o: Order)
    requires k <= |s| && o !in s && Distinct(s) && IndexedBy(s, m)
    requires forall i :: 0 <= i < |s| ==> s[i].sequenceNumber < o.sequenceNumber
    ensures var t := s[..k] + [o] + s[k..];
      && (forall x :: x in t <==> x == o || x in s)
      && Distinct(t) && IndexedBy(t, m[o.sequenceNumber := o])
  {
    var t := s[..k] + [o] + s[k..];
    assert o.sequenceNumber !in m by {
      forall n | n in m ensures n < o.sequenceNumber {
        var i :| 0 <= i < |s| && s[i] == m[n];
      }
    }
    assert forall x :: x in t <==> x == o || x in s by {
      SpliceMembers(s, k, o);
    }
    assert Distinct(t) by {
      forall i, j | 0 <= i < j < |t| ensures t[i] != t[j] {
        SpliceAt(s, k, o, i);
        SpliceAt(s, k, o, j);
      }
    }
    forall i | 0 <= i < |t| ensures t[i].sequenceNumber in m[o.sequenceNumber := o] {
      SpliceAt(s, k, o, i);
    }
  }

  /** Where each order of a splice came from. */
  lemma {:induction false} SpliceAt(s: seq<Order>, k: nat, o: Order, i: nat)
    requires k <= |s| && i <= |s|
    ensures var t := s[..k] + [o] + s[k..];
      t[i] == if i < k then s[i] else if i == k then o else s[i - 1]
  {
  }

  /** A splice holds the inserted order and the orders it was spliced into. */
  lemma {:induction false} SpliceMembers(s: seq<Order>, k: nat, o: Order)
    requires k <= |s|
    ensures var t := s[..k] + [o] + s[k..]; forall x :: x in t <==> x == o || x in s
  {
    var t := s[..k] + [o] + s[k..];
    forall x | x in s ensures x in t {
      var i :| 0 <= i < |s| && s[i] == x;
      SpliceAt(s, k, o, if i < k then i else i + 1);
    }
    forall x | x in t ensures x == o || x in s {
      var i :| 0 <= i < |t| && t[i] == x;
      SpliceAt(s, k, o, i);
    }
  }

  class OrderBook {
    const symbol: string
    const bids: BookSide
    const asks: BookSide

    /** The book, its two sides and the orders they hold. */
    ghost function Repr(): set<object>
      reads bids, asks
    {
      {this} + bids.Repr + asks.Repr
    }

    ghost predicate Valid()
      reads bids, asks, bids.Repr, asks.Repr
    {
      && bids in bids.Repr && asks in asks.Repr
      && this !in bids.Repr && this !in asks.Repr && bids.Repr !! asks.Repr
      && bids.side == Buy && asks.side == Sell
      && bids.Valid() && asks.Valid()
      && WellFormedSide(ValuesOf(bids.byPriceLevel), Buy)
      && WellFormedSide(ValuesOf(asks.byPriceLevel), Sell)
    }

    /** Both sides as their primary indexes order them. */
    ghost function State(): BookState
      requires Valid()
      reads bids, asks, bids.Repr, asks.Repr
    {
      BookState(ValuesOf(bids.byPriceLevel), ValuesOf(asks.byPriceLevel))
    }

    /** What `Dump` lists: asks by ascending sequence number, then bids likewise. */
    ghost function Listing(): seq<OrderDescriptor>
      requires Valid()
      reads bids, asks, bids.Repr, asks.Repr
    {
      assert forall o :: o in asks.bySequenceNumber.Values ==> o in asks.Repr;
      assert forall o :: o in bids.bySequenceNumber.Values ==> o in bids.Repr;
      ListInKeyOrder(IndexValues(asks.bySequenceNumber)) + ListInKeyOrder(IndexValues(bids.bySequenceNumber))
    }

    constructor (symbol: string)
      ensures Valid() && fresh(Repr())
      ensures this.symbol == symbol && State() == BookState([], [])
    {
      this.symbol := symbol;
      bids := new BookSide(Buy);
      asks := new BookSide(Sell);
      new;
    }

    /** `Dump`: the asks, then the bids, each by ascending sequence number. */
    method Dump() returns (result: seq<OrderDescriptor>)
      requires Valid()
      ensures result == Listing()
    {
      var askIndex, bidIndex := IndexValues(asks.bySequenceNumber), IndexValues(bids.bySequenceNumber);
      var askOrders := DescribeInKeyOrder(askIndex);
      var bidOrders := DescribeInKeyOrder(bidIndex);
      result := askOrders + bidOrders;
    }

    /** What a valid book dumps is the listing of its value: the secondary indexes agree with
        the primary ones, which is all the engine keeps of a book. */
    lemma ListingIsBookListing()
      requires Valid()
      ensures BookArrivalsDistinct(State()) && Listing() == BookListing(State())
    {
      IndexValuesOfIndexed(asks.byPriceLevel, asks.bySequenceNumber);
      IndexValuesOfIndexed(bids.byPriceLevel, bids.bySequenceNumber);
    }

    /** `GetIndexesForSide`: the bids for Buy, the asks for every other side. */
    function IndexesForSide(side: SideEnum.Type): BookSide {
      if side == Buy then bids else asks
    }

    /** For a Buy or Sell order, the indexes of its own side hold that side's orders, and
        those of its contra side are the book's other side. */
    lemma OwnAndContraSides(side: SideEnum.Type)
      requires Valid() && (side == Buy || side == Sell)
      ensures IndexesForSide(side).side == side
      ensures IndexesForSide(ContraSide(side)).side == ContraSide(side)
      ensures IndexesForSide(side) != IndexesForSide(ContraSide(side))
    {
    }

    /**
     * `GenerateTrades`: scans the contra side from its best end, trading while the resting
     * order crosses, and afterwards erases the fully filled resting orders from both indexes.
     * The trades, what is left of the inbound order and the new contra side are exactly
     * `Matching.Scan`; the order's own side is untouched.
     */
    method GenerateTrades(inboundOrder: Order) returns (trades: seq<Trade>)
      requires Valid()
      requires inboundOrder !in Repr()
      requires inboundOrder.side == Buy || inboundOrder.side == Sell
      modifies Repr(), inboundOrder
      ensures Valid() && Repr() == old(Repr())
      ensures var r := Scan(symbol, old(inboundOrder.Value()),
                            old(if inboundOrder.side == Buy then State().asks else State().bids));
        && trades == r.trades
        && inboundOrder.quantity == r.remaining
        && State() == if inboundOrder.side == Buy then old(State()).(asks := r.rest)
                      else old(State()).(bids := r.rest)
    {
      var contraSide := if inboundOrder.side == Buy then Sell else Buy;
      var contra := IndexesForSide(contraSide);
      ghost var own := IndexesForSide(inboundOrder.side);
      ghost var contraValues := ValuesOf(contra.byPriceLevel);
      trades := contra.TradeAgainst(symbol, inboundOrder);
      ScanKeepsSideWellFormed(symbol, old(inboundOrder.Value()), contraValues, contraSide);
      ValuesOfUnchanged(own.byPriceLevel);
    }

    /**
     * `AddOrder`: trade the order against the contra side, then rest whatever is left of it on
     * its own side. The trades and the new book are `Matching.Admit`. The order must be newer
     * than every resting order, as the engine's sequence counter guarantees, so that FIFO
     * within a price level is arrival order.
     */
    method AddOrder(order: Order) returns (trades: seq<Trade>)
      requires Valid()
      requires order !in Repr()
      requires order.side == Buy || order.side == Sell
      requires BookArrivedBefore(State(), order.sequenceNumber)
      modifies Repr(), order
      ensures Valid()
      ensures Repr() == old(Repr()) + (if order.quantity > 0 then {order} else {})
      ensures AddResult(trades, State()) == Admit(symbol, old(State()), old(order.Value()))
    {
      trades := GenerateTrades(order);
      if order.quantity > 0 {
        RestRemainder(order);
      }
    }

    /** The resting half of `AddOrder`: what is left of the order joins its own side. */
    method RestRemainder(order: Order)
      requires Valid()
      requires order !in Repr() && order.quantity > 0
      requires order.side == Buy || order.side == Sell
      requires ArrivedBefore(if order.side == Buy then State().bids else State().asks, order.sequenceNumber)
      modifies bids`byPriceLevel, bids`bySequenceNumber, bids`Repr, asks`byPriceLevel, asks`bySequenceNumber, asks`Repr
      ensures Valid() && Repr() == old(Repr()) + {order} && unchanged(order)
      ensures State() == if order.side == Buy then old(State()).(bids := Insert(old(State()).bids, order.Value()))
                         else old(State()).(asks := Insert(old(State()).asks, order.Value()))
    {
      var own := IndexesForSide(order.side);
      ghost var v := order.Value();
      InsertKeepsSideWellFormed(ValuesOf(own.byPriceLevel), v);
      own.RestOrder(order);
      RestKeepsValid(order);
    }

    /** After the side that `order` is on took it in, the book is still valid and its other
        side reads as before. */
    twostate lemma {:induction false} RestKeepsValid(order: Order)
      requires old(Valid()) && old(order !in Repr()) && (order.side == Buy || order.side == Sell)
      requires var other := IndexesForSide(ContraSide(order.side));
        unchanged(other) && unchanged(other.Repr)
      requires var own := IndexesForSide(order.side);
        own.Valid() && own.Repr == old(own.Repr) + {order} && WellFormedSide(ValuesOf(own.byPriceLevel), own.side)
      ensures Valid() && Repr() == old(Repr()) + {order}
      ensures var other := IndexesForSide(ContraSide(order.side));
        ValuesOf(other.byPriceLevel) == old(ValuesOf(other.byPriceLevel))
    {
      ValuesOfUnchanged(IndexesForSide(ContraSide(order.side)).byPriceLevel);
    }
  }
}
