/**
 * The matching engine (src/lib/matching_engine.cpp): one arrival counter shared by every
 * symbol, and one order book per symbol, created the first time the symbol is seen.
 */
module Engine {
  import opened SideEnum
  import MessageTypeEnum
  import opened Messages
  import opened Orders
  import opened Matching
  import opened OrderBooks
  import KeyOrder

  // ---- The engine on values ----

  /** Every book of the engine is well formed, and within each side no two orders share a
      sequence number. */
  ghost predicate WellFormedBooks(books: map<string, BookState>) {
    forall s :: s in books ==> WellFormedBook(books[s]) && BookArrivalsDistinct(books[s])
  }

  /** Every order resting in any book arrived before sequence number `n`. */
  ghost predicate BooksArrivedBefore(books: map<string, BookState>, n: nat) {
    forall s :: s in books ==> BookArrivedBefore(books[s], n)
  }

  /** The book an engine holds for `symbol`; a symbol never seen has an empty one. */
  function BookFor(books: map<string, BookState>, symbol: string): BookState {
    if symbol in books then books[symbol] else BookState([], [])
  }

  /** What handling one request does: the trades it causes and the books afterwards. */
  datatype Outcome = Outcome(trades: seq<Trade>, books: map<string, BookState>)

  /**
   * `OnNewOrder` on values: the request becomes an order stamped with sequence number `n`,
   * and the book of its symbol (created empty if need be) takes it in. Orders of different
   * symbols never meet: that book is the only one that changes.
   */
  ghost function Route(books: map<string, BookState>, n: nat, msg: NewOrder): (r: Outcome)
    requires WellFormedBooks(books) && (msg.side == Buy || msg.side == Sell)
    ensures msg.symbol in r.books && r.books == books[msg.symbol := r.books[msg.symbol]]
  {
    var a := Admit(msg.symbol, BookFor(books, msg.symbol), ValueFromRequest(n, msg));
    Outcome(a.trades, books[msg.symbol := a.book])
  }

  /** Every trade a request causes is on its symbol and names it as the aggressing order. */
  lemma {:induction false} RouteIsolatesSymbols(books: map<string, BookState>, n: nat, msg: NewOrder)
    requires WellFormedBooks(books) && (msg.side == Buy || msg.side == Sell)
    ensures var r := Route(books, n, msg);
      forall k :: 0 <= k < |r.trades| ==> r.trades[k].symbol == msg.symbol && r.trades[k].orderId == msg.orderId
  {
    var order := ValueFromRequest(n, msg);
    var book := BookFor(books, msg.symbol);
    ScanTradesAreAtRestingPrice(msg.symbol, order, if order.side == Buy then book.asks else book.bids);
  }

  /** Handling a request stamped `n` keeps every book well formed, and afterwards every
      resting order arrived no later than `n`. */
  lemma {:induction false} RouteKeepsBooksWellFormed(books: map<string, BookState>, n: nat, msg: NewOrder)
    requires WellFormedBooks(books) && BooksArrivedBefore(books, n) && (msg.side == Buy || msg.side == Sell)
    ensures WellFormedBooks(Route(books, n, msg).books)
    ensures BooksArrivedBefore(Route(books, n, msg).books, n + 1)
  {
    var order := ValueFromRequest(n, msg);
    AdmitKeepsBookWellFormed(msg.symbol, BookFor(books, msg.symbol), order);
    AdmitKeepsArrivalsDistinct(msg.symbol, BookFor(books, msg.symbol), order);
    var r := Route(books, n, msg);
    forall s | s in r.books ensures BookArrivedBefore(r.books[s], n + 1) {
      if s != msg.symbol {
        assert BookArrivedBefore(books[s], n);
      }
    }
  }

  /** Handling a request keeps every uncrossed book uncrossed. */
  lemma {:induction false} RouteKeepsBooksUncrossed(books: map<string, BookState>, n: nat, msg: NewOrder)
    requires WellFormedBooks(books) && (msg.side == Buy || msg.side == Sell)
    requires forall s :: s in books ==> Uncrossed(books[s])
    ensures var r := Route(books, n, msg); forall s :: s in r.books ==> Uncrossed(r.books[s])
  {
    AdmitKeepsBookUncrossed(msg.symbol, BookFor(books, msg.symbol), ValueFromRequest(n, msg));
  }

  // ---- The engine ----

  /** Every book can be listed: within each side no two orders share a sequence number. */
  ghost predicate ListableBooks(books: map<string, BookState>) {
    forall s :: s in books ==> BookArrivalsDistinct(books[s])
  }

  /** The listing of every book, by symbol. */
  ghost function Listings(books: map<string, BookState>): (listings: map<string, seq<OrderDescriptor>>)
    requires ListableBooks(books)
    ensures listings.Keys == books.Keys
  {
    map s | s in books :: BookListing(books[s])
  }

  /** The listings filed under `syms`, one after the other. */
  ghost function Concat(listings: map<string, seq<OrderDescriptor>>, syms: seq<string>): seq<OrderDescriptor>
    decreases |syms|
  {
    if syms == [] then []
    else (if syms[0] in listings then listings[syms[0]] else []) + Concat(listings, syms[1..])
  }

  /** What `Dump` lists: every book's listing, by ascending symbol. */
  ghost function ListAll(books: map<string, BookState>): seq<OrderDescriptor>
    requires ListableBooks(books)
  {
    Concat(Listings(books), KeyOrder.LexAscending(books.Keys))
  }

  /** Listing `remaining` in symbol order starts with the least symbol's listing. */
  lemma ConcatStep(listings: map<string, seq<OrderDescriptor>>, remaining: set<string>)
    requires remaining != {} && remaining <= listings.Keys
    ensures var m := KeyOrder.LexLeast(remaining);
      Concat(listings, KeyOrder.LexAscending(remaining))
      == listings[m] + Concat(listings, KeyOrder.LexAscending(remaining - {m}))
  {
    assert KeyOrder.LexAscending(remaining)[1..] == KeyOrder.LexAscending(remaining - {KeyOrder.LexLeast(remaining)});
  }

  /** One step of the walk: appending the least remaining symbol's listing to what has been
      listed leaves the listing of the other remaining symbols to go. */
  lemma DescribeStep(books: map<string, BookState>, remaining: set<string>, listed: seq<OrderDescriptor>)
    requires ListableBooks(books) && remaining != {} && remaining <= books.Keys
    requires listed + Concat(Listings(books), KeyOrder.LexAscending(remaining)) == ListAll(books)
    ensures var m := KeyOrder.LexLeast(remaining);
      (listed + BookListing(books[m])) + Concat(Listings(books), KeyOrder.LexAscending(remaining - {m})) == ListAll(books)
  {
    var listings, m := Listings(books), KeyOrder.LexLeast(remaining);
    ConcatStep(listings, remaining);
    var later := Concat(listings, KeyOrder.LexAscending(remaining - {m}));
    Associates(listed, listings[m], later);
  }

  lemma Associates<T>(a: seq<T>, b: seq<T>, c: seq<T>)
    ensures (a + b) + c == a + (b + c)
  {
  }

  /** The loop of `Dump`: walks the books in symbol order, appending each book's dump. */
  method DescribeBooks(books: map<string, BookState>) returns (result: seq<OrderDescriptor>)
    requires ListableBooks(books)
    ensures result == ListAll(books)
  {
    ghost var listings, whole := Listings(books), ListAll(books);
    var remaining := books.Keys;
    result := [];
    while remaining != {}
      invariant remaining <= books.Keys
      invariant result + Concat(listings, KeyOrder.LexAscending(remaining)) == whole
      decreases |remaining|
    {
      var symbol := KeyOrder.PickLexLeast(remaining);
      DescribeStep(books, remaining, result);
      var orders := DescribeBook(books[symbol]);
      result := result + orders;
      remaining := remaining - {symbol};
    }
  }

  class MatchingEngine {
    /** Incremented on receipt of every message; the last number handed out. */
    var sequenceNumber: nat
    /** One book per symbol, each held by value as `std::map` holds it. */
    var orderBooks: map<string, BookState>

    /** Every book is well formed, and every resting order carries a number already handed
        out, so the next order is newer than all of them. */
    ghost predicate Valid()
      reads this
    {
      WellFormedBooks(orderBooks) && BooksArrivedBefore(orderBooks, sequenceNumber + 1)
    }

    /** What `Dump` lists. */
    ghost function Listing(): seq<OrderDescriptor>
      requires Valid()
      reads this
    {
      assert ListableBooks(orderBooks);
      ListAll(orderBooks)
    }

    constructor ()
      ensures Valid() && sequenceNumber == 0 && orderBooks == map[] && Listing() == []
    {
      sequenceNumber := 0;
      orderBooks := map[];
    }

    /**
     * `FindOrCreateSymbolOrderBook` (`std::map::try_emplace`): the book already filed under
     * `symbol` if there is one, which stays as it is; otherwise a new empty book for `symbol`.
     */
    method FindOrCreateSymbolOrderBook(symbol: string) returns (book: BookState)
      modifies this`orderBooks
      ensures symbol in orderBooks && book == orderBooks[symbol]
      ensures orderBooks == old(orderBooks)[symbol := BookFor(old(orderBooks), symbol)]
    {
      if symbol !in orderBooks {
        orderBooks := orderBooks[symbol := BookState([], [])];
      }
      book := orderBooks[symbol];
    }

    /**
     * `OnNewOrder`: stamps the request with the current sequence number and hands the order
     * to the book of its symbol (`OrderBook::AddOrder`, which is `Admit`). The trades and the
     * new books are `Route`.
     */
    method OnNewOrder(msg: NewOrder) returns (trades: seq<Trade>)
      requires WellFormedBooks(orderBooks) && BooksArrivedBefore(orderBooks, sequenceNumber)
      requires msg.side == Buy || msg.side == Sell
      modifies this`orderBooks
      ensures Valid()
      ensures Outcome(trades, orderBooks) == Route(old(orderBooks), sequenceNumber, msg)
    {
      ghost var books := orderBooks;
      var order := ValueFromRequest(sequenceNumber, msg);
      var book := FindOrCreateSymbolOrderBook(order.symbol);
      assert order.symbol == msg.symbol && book == BookFor(books, msg.symbol);
      var added := Admit(order.symbol, book, order);
      orderBooks := orderBooks[order.symbol := added.book];
      trades := added.trades;
      assert orderBooks == books[msg.symbol := added.book];
      RouteKeepsBooksWellFormed(books, sequenceNumber, msg);
    }

    /**
     * `OnMessage`: every message takes the next sequence number, so the n-th message is
     * stamped n; a NewOrder is then handled by `OnNewOrder`.
     */
    method OnMessage(msg: NewOrder) returns (trades: seq<Trade>)
      requires Valid()
      requires msg.messageType == MessageTypeEnum.NewOrder && (msg.side == Buy || msg.side == Sell)
      modifies this
      ensures Valid() && sequenceNumber == old(sequenceNumber) + 1
      ensures Outcome(trades, orderBooks) == Route(old(orderBooks), sequenceNumber, msg)
    {
      sequenceNumber := sequenceNumber + 1;
      trades := OnNewOrder(msg);
    }

    /** `Dump`: every book's dump, by ascending symbol. */
    method Dump() returns (result: seq<OrderDescriptor>)
      requires Valid()
      ensures result == Listing()
    {
      result := DescribeBooks(orderBooks);
    }
  }
}
