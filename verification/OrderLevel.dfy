/** The queue of orders at one price, in order of arrival. */
module OrderLevels {
  import opened Orders
  import opened Wrappers
  import F = FlatBook

  class OrderLevel {
    var timeQueue: seq<Order>

    constructor (o: Order)
      ensures timeQueue == [o]
    {
      timeQueue := [o];
    }

    predicate IsEmpty()
      reads `timeQueue
    {
      timeQueue == []
    }

    function GetTopLevel(): Option<Order>
      reads `timeQueue
    {
      if timeQueue == [] then None else Some(timeQueue[0])
    }

    /** Take up to `volume` from the first order, report the trade, and drop the order once nothing
        is left of it. */
    method TradeTopLevel(volume: nat) returns (traded: nat, trade: Option<Trade>)
      modifies `timeQueue
      ensures old(timeQueue) == [] ==> timeQueue == [] && traded == 0 && trade == None
      ensures old(timeQueue) != [] ==>
        && traded == Min(volume, old(timeQueue)[0].volume)
        && trade == Some(TradeOf(old(timeQueue)[0], traded))
        && trade.value.account == old(timeQueue)[0].account && trade.value.price == old(timeQueue)[0].price
        && trade.value.id == old(timeQueue)[0].id && trade.value.clientId == old(timeQueue)[0].clientId
        && trade.value.volume == traded
        && timeQueue == F.Consume(old(timeQueue), traded)
    {
      traded, trade := 0, None;
      if timeQueue != [] {
        var top := timeQueue[0];
        if top.volume >= volume {
          timeQueue := timeQueue[0 := top.(volume := top.volume - volume)];
          traded := volume;
        } else {
          traded := top.volume;
          timeQueue := timeQueue[0 := top.(volume := 0)];
        }
        trade := Some(TradeOf(timeQueue[0], traded));
        if timeQueue[0].volume == 0 {
          timeQueue := timeQueue[1..];
        }
      }
    }

    method Insert(o: Order) returns (inserted: Option<Order>)
      modifies `timeQueue
      ensures timeQueue == old(timeQueue) + [o]
      ensures inserted == Some(o)
    {
      timeQueue := timeQueue + [o];
      inserted := Some(timeQueue[|timeQueue| - 1]);
    }

    function GetLastOrder(): Option<Order>
      reads `timeQueue
    {
      if timeQueue == [] then None else Some(timeQueue[|timeQueue| - 1])
    }

    /** Search the queue for the first order carrying `id`. */
    method Find(id: string) returns (i: nat)
      ensures i == IndexOf(timeQueue, id)
    {
      i := 0;
      while i < |timeQueue| && timeQueue[i].id != id
        invariant i <= |timeQueue|
        invariant forall j :: 0 <= j < i ==> timeQueue[j].id != id
      {
        i := i + 1;
      }
      ghost var k := IndexOf(timeQueue, id);
      assert !(k < i) && !(i < k);
    }

    method Erase(i: nat)
      requires i < |timeQueue|
      modifies `timeQueue
      ensures timeQueue == RemoveAt(old(timeQueue), i)
    {
      timeQueue := timeQueue[..i] + timeQueue[i + 1..];
    }

    method CancelOrder(id: string) returns (ok: bool)
      modifies `timeQueue
      ensures var i := IndexOf(old(timeQueue), id);
        && ok == (i < |old(timeQueue)|)
        && timeQueue == if ok then RemoveAt(old(timeQueue), i) else old(timeQueue)
    {
      var i := Find(id);
      ok := i < |timeQueue|;
      if ok {
        Erase(i);
      }
    }

    method ChangeOrderVolume(id: string, newVolume: nat) returns (ok: bool)
      modifies `timeQueue
      ensures var q := old(timeQueue); var i := IndexOf(q, id);
        && ok == (i < |q|)
        && timeQueue == if ok then q[i := q[i].(volume := newVolume)] else q
    {
      var i := Find(id);
      ok := i < |timeQueue|;
      if ok {
        timeQueue := timeQueue[i := timeQueue[i].(volume := newVolume)];
      }
    }
  }
}
