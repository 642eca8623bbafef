/** The `trade_updates` events: what the stream delivers and what counts as a fill. */
module FillEvents {
  import opened Outcomes

  datatype Side = Buy | Sell

  /**
   One event payload as it matters here: its fields as parsed numbers and lower-cased text,
   empty or None where the payload has none.
   */
  datatype Payload = Payload(
    event: string, executionId: string, symbol: string, side: string, orderId: string,
    qty: Option<real>, price: Option<real>, brokerAtMs: Option<int>)

  datatype FillEvent = FillEvent(
    receiptAtMs: int, executionId: string, eventType: string, symbol: string, side: Side,
    qty: real, price: real, orderId: string, brokerAtMs: Option<int>)
  {
    function Notional(): real {
      qty * price
    }
  }

  /** A payload and the wall clock when its frame finished arriving. */
  datatype Raw = Raw(data: Payload, receiptAtMs: int)

  /** None for anything but a fill with a known side, a positive size and price, and an order to attribute it to. */
  function ParseFillEvent(raw: Raw): (r: Option<FillEvent>)
    ensures r.Some? <==>
      && raw.data.event in {"fill", "partial_fill"} && raw.data.side in {"buy", "sell"} && raw.data.orderId != ""
      && raw.data.qty.Some? && raw.data.qty.value > 0.0 && raw.data.price.Some? && raw.data.price.value > 0.0
    ensures r.Some? ==>
      && r.value.Notional() == raw.data.qty.value * raw.data.price.value > 0.0
      && (r.value.side == Buy <==> raw.data.side == "buy")
      && r.value.orderId == raw.data.orderId && r.value.receiptAtMs == raw.receiptAtMs
      && r.value.brokerAtMs == raw.data.brokerAtMs
      && (r.value.qty, r.value.price) == (raw.data.qty.value, raw.data.price.value)
      && (r.value.executionId, r.value.eventType, r.value.symbol) == (raw.data.executionId, raw.data.event, raw.data.symbol)
  {
    var d := raw.data;
    if d.event != "fill" && d.event != "partial_fill" then None
    else if d.qty.None? || d.price.None? || d.qty.value <= 0.0 || d.price.value <= 0.0 || d.orderId == "" then None
    else if d.side != "buy" && d.side != "sell" then None
    else Some(FillEvent(raw.receiptAtMs, d.executionId, d.event, d.symbol, if d.side == "buy" then Buy else Sell,
                        d.qty.value, d.price.value, d.orderId, d.brokerAtMs))
  }

  predicate IsFillOf(raw: Raw, orderId: string): (r: bool)
    ensures r <==> ParseFillEvent(raw).Some? && raw.data.orderId == orderId
  {
    var parsed := ParseFillEvent(raw);
    parsed.Some? && parsed.value.orderId == orderId
  }
}
