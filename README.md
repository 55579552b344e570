# Gemini matching engine — a verified model

The system is a continuous limit-order matching engine. Each text line the front end reads holds five fields: order id, side, symbol, quantity and price. The line becomes a `NewOrder` request. The engine stamps each request with a global sequence number and routes it to the order book of its symbol. It creates that book on first use.

A book keeps two sides, bids and asks. Each side has two indexes:

- a primary index ordered by price level, best price first and earliest arrival first within a price;
- a secondary index from sequence number to the order.

An inbound order scans the opposite side from its best end. It trades with every resting order that crosses, at the resting order's price, until it is used up or the next resting order does not cross. Fully filled resting orders leave both indexes. Any remainder of the inbound order then rests on its own side. `Dump` lists the resting orders: book by book in symbol order, and within a book the asks and then the bids, each in arrival order.

The model is split into one module per source file, plus two modules of its own:

- `SideEnum`, `MessageTypeEnum`/`Messages` and `PriceLevels` are pure: datatypes and functions.
- `Orders` models the `Order` class. Its only mutable field is the remaining quantity. Its abstract value is the datatype `OrderValue`.
- `Matching` states the matching rules on values. `Scan` is `GenerateTrades` and `Admit` is `AddOrder`. It proves what they promise: trade prices and quantities, quantity conservation, that the scan stops once the inbound order is used up or the next order does not cross, which orders are erased, and that a book stays well formed and uncrossed.
- `OrderBooks` is the imperative book.
  - Each side is a class `BookSide` with a `seq<Order>` primary index and a `map<nat, Order>` secondary index. The map holds references to the same `Order` objects.
  - `GenerateTrades` is a loop over the primary index. It mutates both orders and defers erasure of filled orders.
  - `AddOrder` is proved to implement `Matching.Admit`, and `Dump` to list the book in sequence-number order.
- `KeyOrder` gives the iteration order of `std::map` over numbers and over strings.
- `Engine` is the matching engine. It keeps the sequence counter and the books keyed by symbol. The function `Route` specifies what one request does. `OnMessage`/`OnNewOrder` are proved against `Route`, and `Dump` against a listing in lexicographic symbol order.
- `App` is the front end's line handling: the whitespace tokenizer `ParseLine` and `ConstructNewOrderFromFields`.

## Model

| member | source | states |
|---|---|---|
| SideEnum.ToString | src/lib/include/fields.h:15-27 | "BUY" exactly for Buy, "SELL" exactly for Sell, "<UNKNOWN>" exactly for Unknown |
| SideEnum.FromString | src/lib/include/fields.h:29-36 | exact, case-sensitive decoding: Buy iff "BUY", Sell iff "SELL", Unknown for every other string |
| SideEnum.ContraSide | src/lib/include/fields.h:38-43 | Sell iff the side is Buy, Buy for every other side |
| SideEnum.FromStringToString | src/lib/include/fields.h:15-36 | decoding a side's label gives the side back, Unknown included |
| SideEnum.ToStringFromString | src/lib/include/fields.h:15-36 | a string that decodes to Buy or Sell is that side's label |
| SideEnum.ContraSideInvolution | src/lib/include/fields.h:38-43 | on Buy and Sell, the contra side of the contra side is the side itself |
| MessageTypeEnum.ToString | src/lib/include/messages.h:16-27 | "NewOrder" iff NewOrder, "Trade" iff Trade, "<UNKNOWN>" iff Unknown |
| MessageTypeEnum.FromString | src/lib/include/messages.h:29-36 | NewOrder iff "NewOrder", Trade iff "Trade", Unknown for any other string |
| MessageTypeEnum.FromStringToString | src/lib/include/messages.h:16-36 | the string round trip holds for all three message types |
| Messages.DefaultHeader | src/lib/include/messages.h:39-41 | a default header has message type Unknown |
| Messages.DefaultNewOrder | src/lib/include/messages.h:43-51 | a default `NewOrder` has message type NewOrder and empty order id and symbol |
| Messages.MakeTrade | src/lib/include/messages.h:53-60 | a trade record has message type Trade and carries exactly the given symbol, ids, quantity and price |
| Messages.TradeEquals | src/lib/include/messages.h:62-65 | two trades are equal iff they agree on every field except the message type |
| Messages.TradeEqualsIsEquivalence | src/lib/include/messages.h:62-65 | trade equality is reflexive, symmetric and transitive |
| PriceLevels.BuyKeysDescend | src/lib/include/price_level.h:17-18 | for Buy keys, a sorts before b iff a's price is higher |
| PriceLevels.OtherKeysAscend | src/lib/include/price_level.h:19-21 | for keys of any other side, a sorts before b iff a's price is lower |
| PriceLevels.Less | src/lib/include/price_level.h:14-22 | two keys at the same price are never ordered either way, so equal keys stay in insertion order |
| PriceLevels.LessIsStrictWeakOrder | src/lib/include/price_level.h:14-22 | within one side the order is irreflexive, asymmetric and transitive, and two keys are equivalent iff their prices are equal |
| Orders.ValueFromRequest | src/lib/order.cpp:4-7 | an order takes its sequence number from the argument and id, symbol, side, price and quantity from the request |
| Orders.Describe | src/lib/order.cpp:27-37 | the rendered fields are, in order, the order id, the side label, the symbol, the remaining quantity and the price |
| Orders.Order.constructor | src/lib/order.cpp:4-7 | a new order's value is the value built from the request and the sequence number |
| Orders.Order.Value | src/lib/order.cpp:9-21 | the accessors return the stored fields unchanged |
| Orders.Order.DecreaseQuantity | src/lib/order.cpp:23-25 | given a value at most the quantity, the quantity drops by exactly that value and no other field changes |
| Orders.Order.ToString | src/lib/order.cpp:27-37 | an order renders as the description of its current value |
| Matching.OrdersMatch | src/lib/order_book.cpp:55-62 | the resting order crosses iff, read as contra-side price levels, the inbound limit does not sort before the resting price |
| Matching.Scan | src/lib/order_book.cpp:64-117 | the scan emits at most one trade per resting order, never lengthens the contra side, and never increases what is left of the inbound order |
| Matching.ScanTradesAreAtRestingPrice | src/lib/order_book.cpp:74-90 | the k-th trade is with the k-th resting order from the best end, which crosses; it carries the book's symbol, the inbound id, the resting id and the resting price |
| Matching.ScanTradeQuantity | src/lib/order_book.cpp:78-79 | each trade's quantity is the smaller of what is left of the inbound order and the resting order's quantity |
| Matching.ScanConservesInbound | src/lib/order_book.cpp:93-104 | traded quantity plus what is left of the inbound order equals its initial quantity |
| Matching.ScanConservesContra | src/lib/order_book.cpp:92-99 | the contra side loses exactly the traded quantity |
| Matching.ScanPastFirst | src/lib/order_book.cpp:97-106 | the scan goes on to a second resting order only after filling the first, with the inbound order reduced by that order's quantity |
| Matching.ScanStopsWhenFilled | src/lib/order_book.cpp:101-104 | the scan stops as soon as the inbound order is used up: before every trade but the first, the trades so far add up to less than its quantity |
| Matching.ScanStops | src/lib/order_book.cpp:74-76 | if the inbound order is not used up, the scan covered the whole side or stopped at a resting order that does not cross |
| Matching.ScanFillsAllButLast | src/lib/order_book.cpp:97-106 | every trade but the last fills its resting order completely |
| Matching.ScanErases | src/lib/order_book.cpp:97-114 | the last trade takes at most its resting order's quantity; if it took all of it (or nothing traded), the side left is the unscanned orders; if it took less, the inbound order is used up and that order stays, reduced, ahead of the unscanned ones |
| Matching.ScanErasesFilled | src/lib/order_book.cpp:97-114 | when the last scanned order was filled, or nothing traded, the side left is exactly the unscanned orders |
| Matching.ScanErasesPartly | src/lib/order_book.cpp:97-114 | when the last scanned order was partly filled, the inbound order is used up and that order stays at the front with its reduced quantity |
| Matching.ZeroQuantityInbound | src/lib/order_book.cpp:75-104 | an inbound order of quantity 0 that crosses emits one trade of quantity 0 and leaves the contra side as it was |
| Matching.NoDeeperMatch | src/lib/order_book.cpp:55-62 | on a well-formed side, once a resting order does not cross, no order behind it crosses either |
| Matching.ScanKeepsSideWellFormed | src/lib/order_book.cpp:109-114 | after the scan the contra side is still sorted by price-time priority, with positive quantities |
| Matching.Insert | src/lib/order_book.cpp:25 | resting an order grows its side by exactly one order |
| Matching.InsertSplices | src/lib/include/order_book.h:33-38 | resting an order splices it in at its multimap position and leaves the other orders in place |
| Matching.InsertAddsOrder | src/lib/order_book.cpp:23-25 | resting adds exactly the new order to the side |
| Matching.InsertKeepsSideWellFormed | src/lib/include/order_book.h:33-38 | a later arrival inserted after equal keys keeps the side in price-then-time order |
| Matching.InsertVolume | src/lib/order_book.cpp:20-25 | resting adds the order's quantity to the side |
| Matching.InsertMembers | src/lib/order_book.cpp:23-25 | after resting, the side holds the new order and the old ones, nothing else |
| Matching.Admit | src/lib/order_book.cpp:10-32 | at most one trade per contra order; the contra side never grows and the own side grows by at most the one order that rests |
| Matching.AdmitKeepsBookWellFormed | src/lib/order_book.cpp:10-32 | adding an order keeps both sides well formed and every resting order's arrival before the next sequence number |
| Matching.AdmitConservesQuantity | src/lib/order_book.cpp:10-32 | the book's volume plus twice the traded quantity equals the old volume plus the inbound quantity |
| Matching.AdmitKeepsBookUncrossed | src/lib/order_book.cpp:10-32 | a book with no bid at or above an ask keeps that property after an order is added |
| Matching.AdmitKeepsArrivalsDistinct | src/lib/include/order_book.h:41 | sequence numbers stay unique within each side after an order is added |
| OrderBooks.UpperBoundIsInsert | src/lib/order_book.cpp:25 | the multimap insert position on objects gives the value-level insertion |
| OrderBooks.CrossesIsOrdersMatch | src/lib/order_book.cpp:55-62 | the loop guard on order objects is `OrdersMatch` on their values |
| OrderBooks.Fill | src/lib/order_book.cpp:78-104 | one trade at the resting price for the smaller quantity, both orders reduced by it, one scan step taken |
| OrderBooks.ScanContraSide | src/lib/order_book.cpp:64-107 | the loop's trades and the inbound order's remainder are those of `Scan`; the orders to erase are a prefix of the side, and what follows them is the side `Scan` leaves |
| OrderBooks.BookSide.constructor | src/lib/include/order_book.h:53-59 | a side starts with both indexes empty |
| OrderBooks.BookSide.TradeAgainst | src/lib/order_book.cpp:64-117 | scanning a side and erasing filled orders yields `Scan`'s trades, remainder and remaining side, and keeps the two indexes consistent |
| OrderBooks.BookSide.EraseFilled | src/lib/order_book.cpp:109-114 | the filled orders leave the primary index and the sequence-number index together |
| OrderBooks.BookSide.EraseFront | src/lib/order_book.cpp:111-113 | one filled order leaves both indexes |
| OrderBooks.BookSide.RestOrder | src/lib/order_book.cpp:20-31 | the order enters the primary index at its multimap position and the secondary index under its sequence number |
| OrderBooks.BookSide.InsertIntoIndexes | src/lib/order_book.cpp:23-30 | the order is spliced into the primary index at its upper bound and added to the secondary index |
| OrderBooks.SequenceIndex | src/lib/include/order_book.h:41 | the secondary index of a side has one key per order, its sequence number, mapping to that order |
| OrderBooks.IndexValuesOfIndexed | src/lib/include/order_book.h:41 | the secondary index of a consistent side is the sequence index of its primary index |
| OrderBooks.InKeyOrderLists | src/lib/order_book.cpp:38-43 | the sequence-number walk lists every order of the side once, in strictly ascending sequence number |
| OrderBooks.DescribeInKeyOrder | src/lib/order_book.cpp:38-40 | walking the sequence-number index renders each order in key order |
| OrderBooks.DescribeBook | src/lib/order_book.cpp:34-46 | a book's listing is its asks and then its bids, each in sequence-number order |
| OrderBooks.EraseFrontKeepsIndexed | src/lib/order_book.cpp:109-114 | erasing the best order from both indexes keeps them consistent |
| OrderBooks.SpliceKeepsIndexed | src/lib/order_book.cpp:23-30 | inserting a new arrival into both indexes keeps them consistent |
| OrderBooks.OrderBook.constructor | src/lib/order_book.cpp:7-8 | a new book is empty on both sides |
| OrderBooks.OrderBook.Dump | src/lib/order_book.cpp:34-46 | the dump is the asks and then the bids, each in sequence-number order |
| OrderBooks.OrderBook.ListingIsBookListing | src/lib/order_book.cpp:34-46 | the object book's listing is the listing of its value |
| OrderBooks.OrderBook.OwnAndContraSides | src/lib/order_book.cpp:48-53 | `IndexesForSide` gives a Buy or Sell order its own side's indexes, and its contra side's indexes are the other side of the book |
| OrderBooks.OrderBook.GenerateTrades | src/lib/order_book.cpp:64-117 | a Buy scans only the asks, any other side only the bids; trades, remainder and the scanned side are those of `Scan` |
| OrderBooks.OrderBook.AddOrder | src/lib/order_book.cpp:10-32 | the trades and the new book are those of `Admit` on the old book |
| OrderBooks.OrderBook.RestRemainder | src/lib/order_book.cpp:19-31 | the remainder rests on its own side only: bids for Buy, asks for Sell |
| KeyOrder.AscendingIncreases | src/lib/include/order_book.h:41 | a walk over the sequence-number map visits keys in strictly increasing order |
| KeyOrder.PickLexLeast | src/lib/matching_engine.cpp:32 | a walk over the symbol map visits the lexicographically least remaining symbol next |
| Engine.Route | src/lib/matching_engine.cpp:22-27 | a request leaves a book for its symbol, creating it if need be, and every other symbol's book unchanged |
| Engine.RouteIsolatesSymbols | src/lib/matching_engine.cpp:22-27 | every trade a request causes carries its symbol and its order id |
| Engine.RouteKeepsBooksWellFormed | src/lib/matching_engine.cpp:22-27 | every book stays well formed, with unique sequence numbers, and all arrivals before the next sequence number |
| Engine.RouteKeepsBooksUncrossed | src/lib/matching_engine.cpp:22-27 | if no book is crossed before a request, none is after it |
| Engine.DescribeBooks | src/lib/matching_engine.cpp:29-38 | the engine's listing is the concatenation of the book listings in lexicographic symbol order |
| Engine.MatchingEngine.constructor | src/lib/matching_engine.cpp:7-8 | the counter starts at 0, there are no books, and the dump is empty |
| Engine.MatchingEngine.FindOrCreateSymbolOrderBook | src/lib/matching_engine.cpp:40-46 | returns the symbol's existing book, or creates an empty one only when absent; no other book changes |
| Engine.MatchingEngine.OnNewOrder | src/lib/matching_engine.cpp:22-27 | the request, stamped with the current counter, is routed as `Route` says, and the books stay valid |
| Engine.MatchingEngine.OnMessage | src/lib/matching_engine.cpp:10-20 | the counter goes up by one before dispatch, so the n-th message gets sequence number n, and the request is routed |
| Engine.MatchingEngine.Dump | src/lib/matching_engine.cpp:29-38 | the dump is the book dumps concatenated in symbol order |
| App.ParseLine | src/app/main.cpp:20-41 | the loop's output is the field list `Fields` of the line |
| App.Tokens | src/app/main.cpp:24-38 | starting from a buffer without whitespace, every field pushed is non-empty and holds no whitespace |
| App.FieldsShape | src/app/main.cpp:24-38 | no field is empty or holds whitespace, and the fields glued together are the line without its whitespace |
| App.FieldsEmpty | src/app/main.cpp:25-38 | a line has no fields iff it is empty or all whitespace |
| App.FieldsOfLayout | src/app/main.cpp:20-41 | words separated by any non-empty runs of whitespace, with optional whitespace before and after, split back into the same words |
| App.JoinThenParse | src/app/main.cpp:24-38 | words joined by single spaces split back into the same words |
| App.DecimalRoundTrip | src/app/main.cpp:54-55 | reading back the decimal numeral of n gives n |
| App.ConstructNewOrderFromFields | src/app/main.cpp:44-58 | with five fields, id, side, symbol, quantity and price come from fields 0 to 4; otherwise the default request |
| App.RequestRoundTrip | src/app/main.cpp:11-58 | a request written as a line, split and rebuilt, is the same request |

## Left out

- The trade callbacks (`std::function` sinks of the book and the engine) are not modelled as calls: each operation returns the trades it emits as a `seq<Trade>`, in emission order.
- `Order::ToString` formats with `snprintf` into a 64-byte buffer that keeps its NUL padding and truncates long fields. The model renders an order as an `OrderDescriptor` record holding the five fields in their printed order. Character-level formatting, padding and truncation are not modelled.
- Integers are unbounded. `unsigned long` wrap-around is not modelled, and neither are `std::stoul`'s exceptions, its leading-whitespace and sign handling, or its prefix parsing. `ConstructNewOrderFromFields` requires quantity and price to be digit-only fields.
- An order with side Unknown is excluded by precondition from `AddOrder`, `OnNewOrder` and `OnMessage`. Comparing its price key with a Sell key trips the `PriceLevel` assert. `SideEnum`, `ContraSide` and `OrdersMatch` still model the Unknown branches.
- A message type other than NewOrder trips an assert in `OnMessage`. It is a precondition in the model, and `OnMessage` takes a `NewOrder` directly instead of downcasting a header.
- The side, quantity and price of a default `NewOrder` are left uninitialised by the source. `Messages.DefaultNewOrder` fixes them to Unknown and 0, and its contract states only the initialised fields.
- `Engine.MatchingEngine` holds each book as its value (`Matching.BookState`) and applies `Matching.Admit`, which `OrderBooks.OrderBook.AddOrder` is proved to implement. It does not hold `OrderBook` objects. The aliasing between the engine's map and the books it owns is not modelled.
- The `main` loop that reads stdin, the banner on stderr, `PrintTrade`, and the final printing of the dump are I/O and are not modelled.
- `std::multimap` iterator stability is represented by references to `Order` objects shared between the two indexes.
