/** One order: identity, side, price and a remaining quantity that only ever decreases
    (src/lib/include/order.h, src/lib/order.cpp). */
module Orders {
  import SideEnum
  import opened Messages

  /** The value of an order at one moment: its fields, with the current quantity. */
  datatype OrderValue = OrderValue(
    sequenceNumber: nat,
    orderId: string,
    symbol: string,
    side: SideEnum.Type,
    price: nat,
    quantity: nat)

  /** What `Order::ToString` renders, field by field and in its order:
      order id, side label, symbol, remaining quantity, price. */
  datatype OrderDescriptor = OrderDescriptor(
    orderId: string,
    sideLabel: string,
    symbol: string,
    quantity: nat,
    price: nat)

  /** The value an order takes when built from request `n` with arrival number `sequenceNumber`. */
  function ValueFromRequest(sequenceNumber: nat, n: NewOrder): (v: OrderValue)
    ensures v.sequenceNumber == sequenceNumber && v.orderId == n.orderId && v.symbol == n.symbol
    ensures v.side == n.side && v.price == n.price && v.quantity == n.quantity
  {
    OrderValue(sequenceNumber, n.orderId, n.symbol, n.side, n.price, n.quantity)
  }

  /** The descriptor of an order value. */
  function Describe(v: OrderValue): (d: OrderDescriptor)
    ensures d.orderId == v.orderId && d.symbol == v.symbol
    ensures d.sideLabel == SideEnum.ToString(v.side)
    ensures d.quantity == v.quantity && d.price == v.price
  {
    OrderDescriptor(v.orderId, SideEnum.ToString(v.side), v.symbol, v.quantity, v.price)
  }

  /** An order. Every field but the remaining quantity is fixed at construction. */
  class Order {
    const sequenceNumber: nat
    const orderId: string
    const symbol: string
    const side: SideEnum.Type
    const price: nat
    var quantity: nat

    /** Takes the arrival number from the argument and everything else from the request. */
    constructor (sequenceNumber: nat, newOrder: NewOrder)
      ensures Value() == ValueFromRequest(sequenceNumber, newOrder)
    {
      this.sequenceNumber := sequenceNumber;
      this.orderId := newOrder.orderId;
      this.symbol := newOrder.symbol;
      this.side := newOrder.side;
      this.price := newOrder.price;
      this.quantity := newOrder.quantity;
    }

    /** The current value of the order. */
    function Value(): (v: OrderValue)
      reads this
      ensures v.sequenceNumber == sequenceNumber && v.orderId == orderId && v.symbol == symbol
      ensures v.side == side && v.price == price && v.quantity == quantity
    {
      OrderValue(sequenceNumber, orderId, symbol, side, price, quantity)
    }

    /** Lowers the remaining quantity by exactly `value`; the subtraction is unsigned in the
        source, so the caller must not ask for more than remains. */
    method DecreaseQuantity(value: nat)
      requires value <= quantity
      modifies this
      ensures quantity == old(quantity) - value
      ensures Value() == old(Value()).(quantity := old(quantity) - value)
    {
      quantity := quantity - value;
    }

    /** `Order::ToString`, as a record rather than formatted text. */
    function ToString(): (d: OrderDescriptor)
      reads this
      ensures d == Describe(Value())
    {
      OrderDescriptor(orderId, SideEnum.ToString(side), symbol, quantity, price)
    }
  }
}
