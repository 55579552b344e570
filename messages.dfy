/** The message type enumeration and its text form (src/lib/include/messages.h). */
module MessageTypeEnum {

  datatype Type = Unknown | NewOrder | Trade

  function ToString(t: Type): (r: string)
    ensures r == "NewOrder" <==> t == NewOrder
    ensures r == "Trade" <==> t == Trade
    ensures r == "<UNKNOWN>" <==> t == Unknown
  {
    match t
    case NewOrder => "NewOrder"
    case Trade => "Trade"
    case Unknown => "<UNKNOWN>"
  }

  function FromString(str: string): (r: Type)
    ensures r == NewOrder <==> str == "NewOrder"
    ensures r == Trade <==> str == "Trade"
    ensures r == Unknown <==> str != "NewOrder" && str != "Trade"
  {
    if str == "NewOrder" then NewOrder
    else if str == "Trade" then Trade
    else Unknown
  }

  /** The text round trip holds for all three message types. */
  lemma {:induction false} FromStringToString(t: Type)
    ensures FromString(ToString(t)) == t
  {
  }
}

/** The message records exchanged with the engine (src/lib/include/messages.h). */
module Messages {
  import SideEnum
  import MessageTypeEnum

  /** A bare message header; a default header has type Unknown. */
  datatype MessageHeader = MessageHeader(messageType: MessageTypeEnum.Type)

  /** An order request as decoded by the front end. */
  datatype NewOrder = NewOrder(
    messageType: MessageTypeEnum.Type,
    orderId: string,
    symbol: string,
    side: SideEnum.Type,
    quantity: nat,
    price: nat)

  /** A trade event: the aggressing order, the resting one, and what was traded. */
  datatype Trade = Trade(
    messageType: MessageTypeEnum.Type,
    symbol: string,
    orderId: string,
    contraOrderId: string,
    quantity: nat,
    price: nat)

  /** The default-constructed header. */
  function DefaultHeader(): (h: MessageHeader)
    ensures h.messageType == MessageTypeEnum.Unknown
  {
    MessageHeader(MessageTypeEnum.Unknown)
  }

  /**
   * The default-constructed `NewOrder`: its type is NewOrder and its strings are empty.
   * Side, quantity and price are left uninitialised by the constructor; this model
   * gives them Unknown and 0, and promises nothing about them.
   */
  function DefaultNewOrder(): (n: NewOrder)
    ensures n.messageType == MessageTypeEnum.NewOrder
    ensures n.orderId == [] && n.symbol == []
  {
    NewOrder(MessageTypeEnum.NewOrder, "", "", SideEnum.Unknown, 0, 0)
  }

  /** A trade built field by field; the constructor stamps the Trade message type. */
  function MakeTrade(symbol: string, orderId: string, contraOrderId: string, quantity: nat, price: nat): (t: Trade)
    ensures t.messageType == MessageTypeEnum.Trade
    ensures t.symbol == symbol && t.orderId == orderId && t.contraOrderId == contraOrderId
    ensures t.quantity == quantity && t.price == price
  {
    Trade(MessageTypeEnum.Trade, symbol, orderId, contraOrderId, quantity, price)
  }

  /** `Trade::operator==`: the five payload fields, not the message type. It is structural
      equality once the message type is ignored. */
  predicate TradeEquals(a: Trade, b: Trade)
    ensures TradeEquals(a, b) <==> a.(messageType := MessageTypeEnum.Trade) == b.(messageType := MessageTypeEnum.Trade)
  {
    a.symbol == b.symbol && a.orderId == b.orderId && a.contraOrderId == b.contraOrderId &&
    a.quantity == b.quantity && a.price == b.price
  }

  /** Trade equality is reflexive, symmetric and transitive. */
  lemma {:induction false} TradeEqualsIsEquivalence(a: Trade, b: Trade, c: Trade)
    ensures TradeEquals(a, a)
    ensures TradeEquals(a, b) ==> TradeEquals(b, a)
    ensures TradeEquals(a, b) && TradeEquals(b, c) ==> TradeEquals(a, c)
  {
  }
}
