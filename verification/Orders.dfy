/** Orders, requests and the messages the engine sends back. */
module Orders {

  /** A resting or incoming limit order; prices and volumes are unsigned 64-bit numbers in the
      source, and the engine never adds to either, so natural numbers are exact. */
  datatype Order = Order(account: string, price: nat, volume: nat, isBuy: bool, id: string, clientId: string)

  datatype AmendData = AmendData(price: nat, newPrice: nat, newVolume: nat, isBuy: bool, id: string, clientId: string)

  datatype CancelData = CancelData(price: nat, isBuy: bool, id: string, clientId: string)

  datatype Request =
    | Insert(order: Order)
    | Amend(amend: AmendData)
    | Cancel(cancel: CancelData)

  datatype Trade = Trade(account: string, price: nat, volume: nat, id: string, clientId: string)

  datatype Message =
    | OrderReply(id: string, clientId: string)
    | ErrorReply(clientId: string, text: string)
    | TradeReport(trade: Trade)

  /** The comparator of a book: bids are kept in descending, asks in ascending price order. */
  predicate Better(bid: bool, p: nat, q: nat) {
    if bid then p > q else p < q
  }

  /** An order of side `bid` at price `p` can trade with an opposite order at price `q`. */
  predicate Crosses(bid: bool, p: nat, q: nat) {
    if bid then p >= q else q >= p
  }

  function Min(a: nat, b: nat): nat {
    if a <= b then a else b
  }

  function TradeOf(o: Order, volume: nat): Trade {
    Trade(o.account, o.price, volume, o.id, o.clientId)
  }

  /** Index of the first order carrying `id`, or the length of the queue. */
  function IndexOf(q: seq<Order>, id: string): (i: nat)
    ensures i <= |q|
    ensures i < |q| ==> q[i].id == id
    ensures forall j :: 0 <= j < i ==> q[j].id != id
  {
    if q == [] then 0 else if q[0].id == id then 0 else 1 + IndexOf(q[1..], id)
  }

  function RemoveAt<T>(s: seq<T>, i: nat): seq<T>
    requires i < |s|
  {
    s[..i] + s[i + 1..]
  }
}
