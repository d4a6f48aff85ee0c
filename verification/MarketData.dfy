/** The record that travels from the decoder through the queues into the books. */
module MarketData {
  datatype Side = BUY | SELL | INVALID

  datatype MarketUpdate = MarketUpdate(
    instrumentId: int, side: Side, price: int, quantity: int,
    priceExp: int, qtyExp: int, timestamp: int, recvTsc: int)
}
