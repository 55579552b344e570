/** The matching rules of an order book, stated on order values: which resting orders an
    inbound order trades with, what each trade is, and what the book holds afterwards
    (src/lib/order_book.cpp). The class `OrderBooks.OrderBook` is proved against these. */
module Matching {
  import opened SideEnum
  import opened Messages
  import opened PriceLevels
  import opened Orders

  function Min(a: nat, b: nat): nat {
    if a <= b then a else b
  }

  /** The primary-index key of an order. */
  function Key(o: OrderValue): PriceLevel {
    PriceLevel(o.price, o.side)
  }

  /** Price-time priority on one side: a better price key, or the same price and earlier arrival. */
  predicate Before(a: OrderValue, b: OrderValue)
    requires a.side == b.side
  {
    Less(Key(a), Key(b)) || (a.price == b.price && a.sequenceNumber < b.sequenceNumber)
  }

  /** One side of a book as the primary index holds it: all of the side's orders, each with
      quantity left, best price first and earliest arrival first within a price. */
  ghost predicate WellFormedSide(s: seq<OrderValue>, side: SideEnum.Type) {
    && (forall i :: 0 <= i < |s| ==> s[i].side == side && s[i].quantity > 0)
    && (forall i, j :: 0 <= i < j < |s| ==> Before(s[i], s[j]))
  }

  /** `OrderBook::OrdersMatch`: whether the inbound order crosses a resting one. Read as
      price levels of the contra side, the resting order crosses exactly when the inbound
      order's limit does not sort before it, i.e. the resting price is at least as good. */
  predicate OrdersMatch(inbound: OrderValue, resting: OrderValue)
    ensures var side := ContraSide(inbound.side);
      OrdersMatch(inbound, resting) <==> !Less(PriceLevel(inbound.price, side), PriceLevel(resting.price, side))
  {
    if inbound.side == Buy then resting.price <= inbound.price else inbound.price <= resting.price
  }

  /** Total traded quantity of a list of trades. */
  function TradedQuantity(ts: seq<Trade>): nat {
    if ts == [] then 0 else ts[0].quantity + TradedQuantity(ts[1..])
  }

  /** Total remaining quantity of a list of orders. */
  function Volume(s: seq<OrderValue>): nat {
    if s == [] then 0 else s[0].quantity + Volume(s[1..])
  }

  /** The outcome of scanning the contra side: the trades in emission order, what is left of
      the inbound order, and the contra side after fully filled orders are erased. */
  datatype ScanResult = ScanResult(trades: seq<Trade>, remaining: nat, rest: seq<OrderValue>)

  /**
   * `GenerateTrades`: walk the contra side from its best end while the resting order crosses;
   * trade the smaller of the two quantities at the resting price; stop once the inbound order
   * has nothing left. A resting order brought to zero is erased, a partly filled one stays.
   */
  function Scan(symbol: string, inbound: OrderValue, contra: seq<OrderValue>): (r: ScanResult)
    ensures |r.trades| <= |contra| && |r.rest| <= |contra| && r.remaining <= inbound.quantity
    decreases |contra|
  {
    if contra == [] || !OrdersMatch(inbound, contra[0]) then
      ScanResult([], inbound.quantity, contra)
    else
      var resting := contra[0];
      var q := Min(inbound.quantity, resting.quantity);
      var trade := MakeTrade(symbol, inbound.orderId, resting.orderId, q, resting.price);
      var inbound' := inbound.(quantity := inbound.quantity - q);
      var resting' := resting.(quantity := resting.quantity - q);
      if inbound'.quantity == 0 then
        ScanResult([trade], 0, (if resting'.quantity == 0 then [] else [resting']) + contra[1..])
      else
        // the inbound order still has quantity, so this resting order was filled and is erased
        var r := Scan(symbol, inbound', contra[1..]);
        ScanResult([trade] + r.trades, r.remaining, r.rest)
  }

  /** Every trade carries the book's symbol, the inbound id, the k-th resting order's id and
      that order's price, and the k-th resting order crossed the inbound one. */
  lemma {:induction false} ScanTradesAreAtRestingPrice(symbol: string, inbound: OrderValue, contra: seq<OrderValue>)
    ensures var r := Scan(symbol, inbound, contra);
      && |r.trades| <= |contra|
      && forall k :: 0 <= k < |r.trades| ==>
           && r.trades[k] == MakeTrade(symbol, inbound.orderId, contra[k].orderId, r.trades[k].quantity, contra[k].price)
           && OrdersMatch(inbound, contra[k])
    decreases |contra|
  {
    if contra != [] && OrdersMatch(inbound, contra[0]) {
      var q := Min(inbound.quantity, contra[0].quantity);
      var inbound' := inbound.(quantity := inbound.quantity - q);
      if inbound'.quantity != 0 {
        ScanTradesAreAtRestingPrice(symbol, inbound', contra[1..]);
      }
    }
  }

  /** A scan makes a second trade only after filling the first resting order, and then goes on
      with the inbound order reduced by that order's quantity. */
  lemma ScanPastFirst(symbol: string, inbound: OrderValue, contra: seq<OrderValue>)
    requires 1 < |Scan(symbol, inbound, contra).trades|
    ensures && contra != []
            && OrdersMatch(inbound, contra[0])
            && contra[0].quantity < inbound.quantity
    ensures var r := Scan(symbol, inbound, contra);
      var r' := Scan(symbol, inbound.(quantity := inbound.quantity - contra[0].quantity), contra[1..]);
      && r.trades[0].quantity == contra[0].quantity
      && r.trades[1..] == r'.trades
  {
    var r := Scan(symbol, inbound, contra);
    var q := Min(inbound.quantity, contra[0].quantity);
    var inbound' := inbound.(quantity := inbound.quantity - q);
    assert inbound'.quantity != 0;
    var r' := Scan(symbol, inbound', contra[1..]);
    assert r.trades == [r.trades[0]] + r'.trades;
  }

  /** The k-th trade's quantity is the smaller of what the inbound order still had after the
      trades before it and what the k-th resting order had. */
  lemma {:induction false} ScanTradeQuantity(symbol: string, inbound: OrderValue, contra: seq<OrderValue>, k: nat)
    requires k < |Scan(symbol, inbound, contra).trades|
    ensures var r := Scan(symbol, inbound, contra);
      && k < |contra|
      && TradedQuantity(r.trades[..k]) <= inbound.quantity
      && r.trades[k].quantity == Min(inbound.quantity - TradedQuantity(r.trades[..k]), contra[k].quantity)
    decreases |contra|
  {
    var r := Scan(symbol, inbound, contra);
    if k == 0 {
      assert r.trades[..0] == [];
      assert r.trades[0].quantity == Min(inbound.quantity, contra[0].quantity);
    } else {
      ScanPastFirst(symbol, inbound, contra);
      var inbound' := inbound.(quantity := inbound.quantity - contra[0].quantity);
      var r' := Scan(symbol, inbound', contra[1..]);
      ScanTradeQuantity(symbol, inbound', contra[1..], k - 1);
      var before' := TradedQuantity(r'.trades[..k - 1]);
      assert r.trades[..k][1..] == r'.trades[..k - 1];
      assert TradedQuantity(r.trades[..k]) == contra[0].quantity + before';
      assert r.trades[k] == r'.trades[k - 1] && contra[1..][k - 1] == contra[k];
    }
  }

  /** Quantity conservation: the trades add up to what the inbound order lost. */
  lemma {:induction false} ScanConservesInbound(symbol: string, inbound: OrderValue, contra: seq<OrderValue>)
    ensures var r := Scan(symbol, inbound, contra);
      TradedQuantity(r.trades) + r.remaining == inbound.quantity
    decreases |contra|
  {
    if contra != [] && OrdersMatch(inbound, contra[0]) {
      var q := Min(inbound.quantity, contra[0].quantity);
      var inbound' := inbound.(quantity := inbound.quantity - q);
      if inbound'.quantity != 0 {
        ScanConservesInbound(symbol, inbound', contra[1..]);
        var r' := Scan(symbol, inbound', contra[1..]);
        assert ([MakeTrade(symbol, inbound.orderId, contra[0].orderId, q, contra[0].price)] + r'.trades)[1..] == r'.trades;
      }
    }
  }

  /** Quantity conservation on the resting side: the contra side loses exactly what was traded. */
  lemma {:induction false} ScanConservesContra(symbol: string, inbound: OrderValue, contra: seq<OrderValue>)
    ensures var r := Scan(symbol, inbound, contra);
      Volume(r.rest) + TradedQuantity(r.trades) == Volume(contra)
    decreases |contra|
  {
    if contra != [] && OrdersMatch(inbound, contra[0]) {
      var q := Min(inbound.quantity, contra[0].quantity);
      var inbound' := inbound.(quantity := inbound.quantity - q);
      var resting' := contra[0].(quantity := contra[0].quantity - q);
      var trade := MakeTrade(symbol, inbound.orderId, contra[0].orderId, q, contra[0].price);
      if inbound'.quantity == 0 {
        assert [trade][1..] == [];
        if resting'.quantity != 0 {
          assert ([resting'] + contra[1..])[1..] == contra[1..];
        } else {
          assert [] + contra[1..] == contra[1..];
        }
      } else {
        ScanConservesContra(symbol, inbound', contra[1..]);
        var r' := Scan(symbol, inbound', contra[1..]);
        assert ([MakeTrade(symbol, inbound.orderId, contra[0].orderId, q, contra[0].price)] + r'.trades)[1..] == r'.trades;
      }
    }
  }

  /** The scan stops at the first resting order that does not cross, and never trades once
      the inbound order is used up. */
  lemma {:induction false} ScanStops(symbol: string, inbound: OrderValue, contra: seq<OrderValue>)
    ensures var r := Scan(symbol, inbound, contra);
      var n := |r.trades|;
      && n <= |contra|
      && (r.remaining > 0 ==> n == |contra| || !OrdersMatch(inbound, contra[n]))
    decreases |contra|
  {
    if contra != [] && OrdersMatch(inbound, contra[0]) {
      var q := Min(inbound.quantity, contra[0].quantity);
      var inbound' := inbound.(quantity := inbound.quantity - q);
      if inbound'.quantity != 0 {
        ScanStops(symbol, inbound', contra[1..]);
      }
    }
  }

  /** No over-matching: the scan stops as soon as the inbound order is used up, so before
      every trade but the first some of its quantity was still left. */
  lemma {:induction false} ScanStopsWhenFilled(symbol: string, inbound: OrderValue, contra: seq<OrderValue>)
    ensures var r := Scan(symbol, inbound, contra);
      forall k :: 0 < k < |r.trades| ==> TradedQuantity(r.trades[..k]) < inbound.quantity
    decreases |contra|
  {
    var r := Scan(symbol, inbound, contra);
    if 1 < |r.trades| {
      ScanPastFirst(symbol, inbound, contra);
      var inbound' := inbound.(quantity := inbound.quantity - contra[0].quantity);
      var r' := Scan(symbol, inbound', contra[1..]);
      ScanStopsWhenFilled(symbol, inbound', contra[1..]);
      assert forall k :: 0 < k < |r'.trades| ==> TradedQuantity(r'.trades[..k]) < inbound'.quantity;
      forall k | 0 < k < |r.trades| ensures TradedQuantity(r.trades[..k]) < inbound.quantity {
        assert r.trades[..k][1..] == r'.trades[..k - 1];
        assert TradedQuantity(r.trades[..k]) == contra[0].quantity + TradedQuantity(r'.trades[..k - 1]);
        if k == 1 {
          assert r'.trades[..0] == [];
        }
      }
    }
  }

  /** Every scanned resting order but the last was filled completely. */
  lemma {:induction false} ScanFillsAllButLast(symbol: string, inbound: OrderValue, contra: seq<OrderValue>)
    ensures var r := Scan(symbol, inbound, contra);
      var n := |r.trades|;
      && n <= |contra|
      && forall k :: 0 <= k < n - 1 ==> r.trades[k].quantity == contra[k].quantity
    decreases |contra|
  {
    if contra != [] && OrdersMatch(inbound, contra[0]) {
      var q := Min(inbound.quantity, contra[0].quantity);
      var inbound' := inbound.(quantity := inbound.quantity - q);
      if inbound'.quantity != 0 {
        ScanFillsAllButLast(symbol, inbound', contra[1..]);
      }
    }
  }

  /** What the scan leaves when the last scanned order was filled, or nothing traded: only
      the unscanned orders. The last trade never takes more than its resting order had. */
  lemma {:induction false} ScanErasesFilled(symbol: string, inbound: OrderValue, contra: seq<OrderValue>)
    ensures var r := Scan(symbol, inbound, contra);
      var n := |r.trades|;
      && (0 < n ==> r.trades[n - 1].quantity <= contra[n - 1].quantity)
      && ((n == 0 || r.trades[n - 1].quantity == contra[n - 1].quantity) ==> r.rest == contra[n..])
    decreases |contra|
  {
    var r := Scan(symbol, inbound, contra);
    if contra != [] && OrdersMatch(inbound, contra[0]) {
      var q := Min(inbound.quantity, contra[0].quantity);
      var inbound' := inbound.(quantity := inbound.quantity - q);
      if inbound'.quantity != 0 {
        ScanErasesFilled(symbol, inbound', contra[1..]);
        var r' := Scan(symbol, inbound', contra[1..]);
        var n' := |r'.trades|;
        assert r.trades == [r.trades[0]] + r'.trades && r.rest == r'.rest;
        assert contra[1..][n'..] == contra[n' + 1..];
        if 0 < n' {
          assert r.trades[n'] == r'.trades[n' - 1] && contra[1..][n' - 1] == contra[n'];
        } else {
          assert r.trades[0].quantity == contra[0].quantity && r.rest == contra[1..];
        }
      } else if contra[0].quantity == q {
        assert r.rest == [] + contra[1..];
      }
    } else {
      assert contra[0..] == contra;
    }
  }

  /** What the scan leaves when the last scanned order was partly filled, which happens only
      once the inbound order is used up: that order with its reduced quantity ahead of the
      unscanned ones. */
  lemma {:induction false} ScanErasesPartly(symbol: string, inbound: OrderValue, contra: seq<OrderValue>)
    ensures var r := Scan(symbol, inbound, contra);
      var n := |r.trades|;
      (0 < n && r.trades[n - 1].quantity < contra[n - 1].quantity) ==>
        && r.remaining == 0
        && r.rest == [contra[n - 1].(quantity := contra[n - 1].quantity - r.trades[n - 1].quantity)] + contra[n..]
    decreases |contra|
  {
    var r := Scan(symbol, inbound, contra);
    if contra != [] && OrdersMatch(inbound, contra[0]) {
      var q := Min(inbound.quantity, contra[0].quantity);
      var inbound' := inbound.(quantity := inbound.quantity - q);
      if inbound'.quantity != 0 {
        ScanErasesPartly(symbol, inbound', contra[1..]);
        var r' := Scan(symbol, inbound', contra[1..]);
        var n' := |r'.trades|;
        assert r.trades == [r.trades[0]] + r'.trades && r.rest == r'.rest && r.remaining == r'.remaining;
        if 0 < n' {
          assert r.trades[n'] == r'.trades[n' - 1] && contra[1..][n' - 1] == contra[n'];
          assert contra[1..][n'..] == contra[n' + 1..];
        } else {
          assert r.trades[0].quantity == contra[0].quantity;
        }
      } else if q < contra[0].quantity {
        assert r.trades[0].quantity == q && |r.trades| == 1;
      }
    }
  }

  /** What the scan leaves: when the last scanned order was filled (or nothing traded), only
      the unscanned orders; when it was partly filled, which happens only once the inbound
      order is used up, that order with its reduced quantity ahead of the unscanned ones. */
  lemma ScanErases(symbol: string, inbound: OrderValue, contra: seq<OrderValue>)
    ensures var r := Scan(symbol, inbound, contra);
      var n := |r.trades|;
      && n <= |contra|
      && (0 < n ==> r.trades[n - 1].quantity <= contra[n - 1].quantity)
      && ((n == 0 || r.trades[n - 1].quantity == contra[n - 1].quantity) ==> r.rest == contra[n..])
      && ((0 < n && r.trades[n - 1].quantity < contra[n - 1].quantity) ==>
            && r.remaining == 0
            && r.rest == [contra[n - 1].(quantity := contra[n - 1].quantity - r.trades[n - 1].quantity)] + contra[n..])
  {
    ScanErasesFilled(symbol, inbound, contra);
    ScanErasesPartly(symbol, inbound, contra);
  }

  /** An inbound order with quantity 0 that crosses the best resting order emits one trade of
      quantity 0 and leaves the contra side as it was. */
  lemma {:induction false} ZeroQuantityInbound(symbol: string, inbound: OrderValue, contra: seq<OrderValue>)
    requires inbound.quantity == 0 && contra != [] && OrdersMatch(inbound, contra[0])
    requires contra[0].quantity > 0
    ensures var r := Scan(symbol, inbound, contra);
      && r.trades == [MakeTrade(symbol, inbound.orderId, contra[0].orderId, 0, contra[0].price)]
      && r.remaining == 0 && r.rest == contra
  {
    assert [contra[0]] + contra[1..] == contra;
  }

  /** Price priority is why stopping is right: on a well-formed contra side, once one resting
      order fails to cross, no deeper one crosses either. */
  lemma {:induction false} NoDeeperMatch(inbound: OrderValue, contra: seq<OrderValue>, k: nat)
    requires inbound.side == Buy || inbound.side == Sell
    requires WellFormedSide(contra, ContraSide(inbound.side))
    requires k < |contra| && !OrdersMatch(inbound, contra[k])
    ensures forall j :: k <= j < |contra| ==> !OrdersMatch(inbound, contra[j])
  {
    forall j | k < j < |contra| ensures !OrdersMatch(inbound, contra[j]) {
      assert Before(contra[k], contra[j]);
    }
  }

  /** Dropping the front of a well-formed side leaves it well formed. */
  lemma SuffixWellFormed(s: seq<OrderValue>, side: SideEnum.Type, n: nat)
    requires WellFormedSide(s, side) && n <= |s|
    ensures WellFormedSide(s[n..], side)
  {
    forall i, j | 0 <= i < j < |s[n..]| ensures Before(s[n..][i], s[n..][j]) {
      assert s[n..][i] == s[n + i] && s[n..][j] == s[n + j];
    }
  }

  /** A partly filled head keeps its price and arrival, so the side stays well formed. */
  lemma ReducedHeadWellFormed(s: seq<OrderValue>, side: SideEnum.Type, q: nat)
    requires WellFormedSide(s, side) && s != [] && q < s[0].quantity
    ensures WellFormedSide([s[0].(quantity := s[0].quantity - q)] + s[1..], side)
  {
    var t := [s[0].(quantity := s[0].quantity - q)] + s[1..];
    forall i, j | 0 <= i < j < |t| ensures Before(t[i], t[j]) {
      assert Before(s[i], s[j]);
    }
  }

  /** Scanning keeps a contra side well formed. */
  lemma ScanKeepsSideWellFormed(symbol: string, inbound: OrderValue, contra: seq<OrderValue>, side: SideEnum.Type)
    requires WellFormedSide(contra, side)
    ensures WellFormedSide(Scan(symbol, inbound, contra).rest, side)
  {
    var r := Scan(symbol, inbound, contra);
    var n := |r.trades|;
    ScanErases(symbol, inbound, contra);
    if 0 < n && r.trades[n - 1].quantity < contra[n - 1].quantity {
      SuffixWellFormed(contra, side, n - 1);
      var tail := contra[n - 1..];
      assert tail[0] == contra[n - 1] && tail[1..] == contra[n..];
      ReducedHeadWellFormed(tail, side, r.trades[n - 1].quantity);
      assert r.rest == [tail[0].(quantity := tail[0].quantity - r.trades[n - 1].quantity)] + tail[1..];
    } else {
      SuffixWellFormed(contra, side, n);
      assert r.rest == contra[n..];
    }
  }

  /** `std::multimap::insert`: after every entry whose key is not greater (upper bound). The
      side grows by one order. */
  function Insert(s: seq<OrderValue>, o: OrderValue): (r: seq<OrderValue>)
    requires forall i :: 0 <= i < |s| ==> s[i].side == o.side
    ensures |r| == |s| + 1
    decreases |s|
  {
    if s == [] || Less(Key(o), Key(s[0])) then [o] + s
    else [s[0]] + Insert(s[1..], o)
  }

  /** Where `Insert` places `o`: past the leading orders whose price level is not worse. */
  function InsertPosition(s: seq<OrderValue>, o: OrderValue): (k: nat)
    requires forall i :: 0 <= i < |s| ==> s[i].side == o.side
    ensures k <= |s|
  {
    if s == [] || Less(Key(o), Key(s[0])) then 0 else 1 + InsertPosition(s[1..], o)
  }

  /** `Insert` splices `o` in at its position, leaving every other order where it was. */
  lemma {:induction false} InsertSplices(s: seq<OrderValue>, o: OrderValue)
    requires forall i :: 0 <= i < |s| ==> s[i].side == o.side
    ensures var k := InsertPosition(s, o); Insert(s, o) == s[..k] + [o] + s[k..]
    decreases |s|
  {
    var k := InsertPosition(s, o);
    if s == [] || Less(Key(o), Key(s[0])) {
      assert s[..k] == [] && s[k..] == s;
    } else {
      InsertSplices(s[1..], o);
      assert s[..k] == [s[0]] + s[1..][..k - 1];
      assert s[k..] == s[1..][k - 1..];
    }
  }

  /** Inserting adds exactly the order and nothing else. */
  lemma {:induction false} InsertAddsOrder(s: seq<OrderValue>, o: OrderValue)
    requires forall i :: 0 <= i < |s| ==> s[i].side == o.side
    ensures multiset(Insert(s, o)) == multiset(s) + multiset{o}
    decreases |s|
  {
    if !(s == [] || Less(Key(o), Key(s[0]))) {
      InsertAddsOrder(s[1..], o);
      assert s == [s[0]] + s[1..];
    }
  }

  /** Inserting an order newer than every resting one keeps a side well formed. */
  lemma {:induction false} InsertKeepsSideWellFormed(s: seq<OrderValue>, o: OrderValue)
    requires WellFormedSide(s, o.side) && o.quantity > 0
    requires forall i :: 0 <= i < |s| ==> s[i].sequenceNumber < o.sequenceNumber
    ensures WellFormedSide(Insert(s, o), o.side)
    decreases |s|
  {
    if s == [] || Less(Key(o), Key(s[0])) {
      forall j | 0 <= j < |s| ensures Before(o, s[j]) {
        if j > 0 { assert Before(s[0], s[j]); }
      }
    } else {
      InsertKeepsSideWellFormed(s[1..], o);
      InsertAddsOrder(s[1..], o);
      var t := Insert(s[1..], o);
      forall j | 0 <= j < |t| ensures Before(s[0], t[j]) {
        assert t[j] in multiset(t);
        if t[j] != o {
          assert t[j] in multiset(s[1..]);
          var i :| 0 <= i < |s[1..]| && s[1..][i] == t[j];
          assert Before(s[0], s[i + 1]);
        }
      }
    }
  }

  /** The two sides of a book, each as its primary index orders it. */
  datatype BookState = BookState(bids: seq<OrderValue>, asks: seq<OrderValue>)

  ghost predicate WellFormedBook(b: BookState) {
    WellFormedSide(b.bids, Buy) && WellFormedSide(b.asks, Sell)
  }

  /** The trades `AddOrder` emits, in order, and the book it leaves behind. */
  datatype AddResult = AddResult(trades: seq<Trade>, book: BookState)

  /**
   * `OrderBook::AddOrder`: a Buy scans the asks, anything else scans the bids; any remainder
   * rests on the order's own side (bids for Buy, asks otherwise). At most one trade is made
   * per resting order of the contra side, the contra side never gains an order, and the own
   * side keeps its orders and gains at most the remainder.
   */
  function Admit(symbol: string, book: BookState, order: OrderValue): (a: AddResult)
    requires forall i :: 0 <= i < |book.bids| ==> book.bids[i].side == Buy
    requires forall i :: 0 <= i < |book.asks| ==> book.asks[i].side == Sell
    requires order.side == Buy || order.side == Sell
    ensures |a.trades| <= if order.side == Buy then |book.asks| else |book.bids|
    ensures order.side == Buy ==>
      |a.book.asks| <= |book.asks| && |book.bids| <= |a.book.bids| <= |book.bids| + 1
    ensures order.side == Sell ==>
      |a.book.bids| <= |book.bids| && |book.asks| <= |a.book.asks| <= |book.asks| + 1
  {
    var r := Scan(symbol, order, if order.side == Buy then book.asks else book.bids);
    var matched := if order.side == Buy then book.(asks := r.rest) else book.(bids := r.rest);
    if r.remaining > 0 then
      var rest := order.(quantity := r.remaining);
      if order.side == Buy then AddResult(r.trades, matched.(bids := Insert(matched.bids, rest)))
      else AddResult(r.trades, matched.(asks := Insert(matched.asks, rest)))
    else
      AddResult(r.trades, matched)
  }

  /** Every order of `s` arrived before sequence number `n`. */
  ghost predicate ArrivedBefore(s: seq<OrderValue>, n: nat) {
    forall i :: 0 <= i < |s| ==> s[i].sequenceNumber < n
  }

  ghost predicate BookArrivedBefore(b: BookState, n: nat) {
    ArrivedBefore(b.bids, n) && ArrivedBefore(b.asks, n)
  }

  /** No bid is priced at or above any ask: whatever could trade has traded. */
  ghost predicate Uncrossed(b: BookState) {
    forall i, j :: 0 <= i < |b.bids| && 0 <= j < |b.asks| ==> b.bids[i].price < b.asks[j].price
  }

  /** Total remaining quantity on both sides. */
  function BookVolume(b: BookState): nat {
    Volume(b.bids) + Volume(b.asks)
  }

  /** What the scan leaves is a suffix of the contra side, its first order possibly with a
      reduced quantity; when the inbound order is not used up, it is the unscanned suffix,
      whose first order does not cross. */
  lemma {:induction false} ScanRestIsSuffix(symbol: string, inbound: OrderValue, contra: seq<OrderValue>) returns (m: nat)
    ensures var r := Scan(symbol, inbound, contra);
      && m <= |contra| && |r.rest| == |contra| - m
      && (r.rest != [] ==>
            && r.rest[0] == contra[m].(quantity := r.rest[0].quantity)
            && r.rest[0].quantity <= contra[m].quantity
            && r.rest[1..] == contra[m + 1..])
      && (r.remaining > 0 ==> r.rest == contra[m..] && (m == |contra| || !OrdersMatch(inbound, contra[m])))
  {
    ScanStops(symbol, inbound, contra);
    ScanErases(symbol, inbound, contra);
    var r := Scan(symbol, inbound, contra);
    var n := |r.trades|;
    if r.rest == contra[n..] {
      m := n;
      if r.rest != [] {
        assert r.rest[1..] == contra[m + 1..];
      }
    } else {
      m := n - 1;
    }
  }

  /** An order of a scan's remainder has the price and arrival of its original. */
  lemma {:induction false} SuffixAt(rest: seq<OrderValue>, contra: seq<OrderValue>, m: nat, i: nat)
    requires m <= |contra| && |rest| == |contra| - m && i < |rest|
    requires rest[0] == contra[m].(quantity := rest[0].quantity) && rest[1..] == contra[m + 1..]
    ensures rest[i].price == contra[m + i].price && rest[i].sequenceNumber == contra[m + i].sequenceNumber
  {
    if i > 0 {
      assert rest[i] == rest[1..][i - 1];
    }
  }

  /** Inserting adds exactly the inserted order's quantity. */
  lemma {:induction false} InsertVolume(s: seq<OrderValue>, o: OrderValue)
    requires forall i :: 0 <= i < |s| ==> s[i].side == o.side
    ensures Volume(Insert(s, o)) == Volume(s) + o.quantity
    decreases |s|
  {
    if !(s == [] || Less(Key(o), Key(s[0]))) {
      InsertVolume(s[1..], o);
      assert Insert(s, o)[1..] == Insert(s[1..], o);
    } else {
      assert ([o] + s)[1..] == s;
    }
  }

  /** `Insert` holds the resting orders and the new one, and nothing else. */
  lemma {:induction false} InsertMembers(s: seq<OrderValue>, o: OrderValue)
    requires forall i :: 0 <= i < |s| ==> s[i].side == o.side
    ensures forall x :: x in Insert(s, o) <==> x == o || x in s
  {
    InsertAddsOrder(s, o);
    assert forall x :: x in Insert(s, o) <==> x in multiset(Insert(s, o));
    assert forall x :: x in s <==> x in multiset(s);
  }

  /** `AddOrder` keeps both sides well formed, and every resting order then arrived no later
      than the new one. */
  lemma {:induction false} AdmitKeepsBookWellFormed(symbol: string, book: BookState, order: OrderValue)
    requires WellFormedBook(book) && (order.side == Buy || order.side == Sell)
    requires BookArrivedBefore(book, order.sequenceNumber)
    ensures WellFormedBook(Admit(symbol, book, order).book)
    ensures BookArrivedBefore(Admit(symbol, book, order).book, order.sequenceNumber + 1)
  {
    var contra := if order.side == Buy then book.asks else book.bids;
    var own := if order.side == Buy then book.bids else book.asks;
    var r := Scan(symbol, order, contra);
    ScanKeepsSideWellFormed(symbol, order, contra, ContraSide(order.side));
    var m := ScanRestIsSuffix(symbol, order, contra);
    assert ArrivedBefore(r.rest, order.sequenceNumber + 1) by {
      forall i | 0 <= i < |r.rest| ensures r.rest[i].sequenceNumber < order.sequenceNumber + 1 {
        SuffixAt(r.rest, contra, m, i);
      }
    }
    if r.remaining > 0 {
      var rest := order.(quantity := r.remaining);
      InsertKeepsSideWellFormed(own, rest);
      InsertMembers(own, rest);
      var t := Insert(own, rest);
      forall i | 0 <= i < |t| ensures t[i].sequenceNumber < order.sequenceNumber + 1 {
        assert t[i] in t;
      }
    }
  }

  /** Quantity conservation for `AddOrder`: every unit traded leaves both the inbound order
      and the contra side, and whatever the inbound order has left rests. */
  lemma {:induction false} AdmitConservesQuantity(symbol: string, book: BookState, order: OrderValue)
    requires WellFormedBook(book) && (order.side == Buy || order.side == Sell)
    ensures var a := Admit(symbol, book, order);
      BookVolume(a.book) + 2 * TradedQuantity(a.trades) == BookVolume(book) + order.quantity
  {
    var contra := if order.side == Buy then book.asks else book.bids;
    var own := if order.side == Buy then book.bids else book.asks;
    var r := Scan(symbol, order, contra);
    ScanConservesInbound(symbol, order, contra);
    ScanConservesContra(symbol, order, contra);
    if r.remaining > 0 {
      InsertVolume(own, order.(quantity := r.remaining));
    }
  }

  /** Scanning only removes contra orders or lowers their quantities, so an uncrossed book
      stays uncrossed before anything rests. */
  lemma {:induction false} ScanKeepsUncrossed(symbol: string, book: BookState, order: OrderValue)
    requires Uncrossed(book) && (order.side == Buy || order.side == Sell)
    ensures var r := Scan(symbol, order, if order.side == Buy then book.asks else book.bids);
      Uncrossed(if order.side == Buy then book.(asks := r.rest) else book.(bids := r.rest))
  {
    var contra := if order.side == Buy then book.asks else book.bids;
    var r := Scan(symbol, order, contra);
    var m := ScanRestIsSuffix(symbol, order, contra);
    var matched := if order.side == Buy then book.(asks := r.rest) else book.(bids := r.rest);
    forall i, j | 0 <= i < |matched.bids| && 0 <= j < |matched.asks|
      ensures matched.bids[i].price < matched.asks[j].price
    {
      if order.side == Buy {
        SuffixAt(r.rest, contra, m, j);
      } else {
        SuffixAt(r.rest, contra, m, i);
      }
    }
  }

  /** `AddOrder` never leaves the book crossed: an order keeps trading while the best contra
      order crosses, so whatever of it rests is priced strictly inside the contra side. */
  lemma {:induction false} AdmitKeepsBookUncrossed(symbol: string, book: BookState, order: OrderValue)
    requires WellFormedBook(book) && Uncrossed(book) && (order.side == Buy || order.side == Sell)
    ensures Uncrossed(Admit(symbol, book, order).book)
  {
    var contra := if order.side == Buy then book.asks else book.bids;
    var own := if order.side == Buy then book.bids else book.asks;
    var r := Scan(symbol, order, contra);
    ScanKeepsUncrossed(symbol, book, order);
    if r.remaining > 0 {
      var m := ScanRestIsSuffix(symbol, order, contra);
      var matched := if order.side == Buy then book.(asks := r.rest) else book.(bids := r.rest);
      var rest := order.(quantity := r.remaining);
      InsertMembers(own, rest);
      if m < |contra| {
        NoDeeperMatch(order, contra, m);
      }
      var b' := Admit(symbol, book, order).book;
      forall i, j | 0 <= i < |b'.bids| && 0 <= j < |b'.asks| ensures b'.bids[i].price < b'.asks[j].price {
        if order.side == Buy {
          assert b'.bids[i] in Insert(own, rest);
          if b'.bids[i] == rest {
            assert b'.asks[j] == contra[m + j];
          } else {
            var i' :| 0 <= i' < |own| && own[i'] == b'.bids[i];
            assert matched.bids[i'] == b'.bids[i];
          }
        } else {
          assert b'.asks[j] in Insert(own, rest);
          if b'.asks[j] == rest {
            assert b'.bids[i] == contra[m + i];
          } else {
            var j' :| 0 <= j' < |own| && own[j'] == b'.asks[j];
            assert matched.asks[j'] == b'.asks[j];
          }
        }
      }
    }
  }

  /** No two orders of `s` share a sequence number: the engine hands out each number once. */
  ghost predicate DistinctArrivals(s: seq<OrderValue>) {
    forall i, j :: 0 <= i < j < |s| ==> s[i].sequenceNumber != s[j].sequenceNumber
  }

  ghost predicate BookArrivalsDistinct(b: BookState) {
    DistinctArrivals(b.bids) && DistinctArrivals(b.asks)
  }

  /** Inserting an order newer than every resting one keeps the sequence numbers distinct. */
  lemma {:induction false} InsertKeepsArrivalsDistinct(s: seq<OrderValue>, o: OrderValue)
    requires forall i :: 0 <= i < |s| ==> s[i].side == o.side
    requires DistinctArrivals(s) && ArrivedBefore(s, o.sequenceNumber)
    ensures DistinctArrivals(Insert(s, o))
  {
    InsertSplices(s, o);
    SpliceArrivalsDistinct(s, InsertPosition(s, o), o);
  }

  lemma {:induction false} SpliceArrivalsDistinct(s: seq<OrderValue>, k: nat, o: OrderValue)
    requires k <= |s| && DistinctArrivals(s) && ArrivedBefore(s, o.sequenceNumber)
    ensures DistinctArrivals(s[..k] + [o] + s[k..])
  {
    var t := s[..k] + [o] + s[k..];
    assert forall x :: 0 <= x < |t| ==> t[x] == if x < k then s[x] else if x == k then o else s[x - 1];
  }

  /** `AddOrder` of an order newer than every resting one keeps the sequence numbers of each
      side distinct. */
  lemma {:induction false} AdmitKeepsArrivalsDistinct(symbol: string, book: BookState, order: OrderValue)
    requires WellFormedBook(book) && BookArrivalsDistinct(book) && (order.side == Buy || order.side == Sell)
    requires BookArrivedBefore(book, order.sequenceNumber)
    ensures BookArrivalsDistinct(Admit(symbol, book, order).book)
  {
    var contra := if order.side == Buy then book.asks else book.bids;
    var own := if order.side == Buy then book.bids else book.asks;
    var r := Scan(symbol, order, contra);
    var m := ScanRestIsSuffix(symbol, order, contra);
    forall i, j | 0 <= i < j < |r.rest| ensures r.rest[i].sequenceNumber != r.rest[j].sequenceNumber {
      SuffixAt(r.rest, contra, m, i);
      SuffixAt(r.rest, contra, m, j);
    }
    if r.remaining > 0 {
      InsertKeepsArrivalsDistinct(own, order.(quantity := r.remaining));
    }
  }
}
