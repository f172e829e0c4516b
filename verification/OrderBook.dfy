/** One side of the market: an ordered map from price to level, updated in place. */
module OrderBooks {
  import opened Orders
  import opened Wrappers
  import opened OrderLevels
  import B = PriceBook
  import F = FlatBook
  import M = MatchingModel

  lemma AmendPriceResult(v: B.Book, a: AmendData, v': B.Book)
    requires a.price in v && a.newVolume > 0 && a.price != a.newPrice
    requires var i := IndexOf(v[a.price], a.id);
      i < |v[a.price]| &&
      v' == if a.newPrice in v then v
            else v[a.newPrice := [v[a.price][i].(price := a.newPrice, volume := a.newVolume)]]
    ensures B.Amend(v, a) == B.Result(B.TakeOut(v', a.price, IndexOf(v[a.price], a.id)), true)
  {
  }

  predicate IsFirst(keys: set<nat>, bid: bool, b: nat) {
    b in keys && forall p :: p in keys && p != b ==> Better(bid, b, p)
  }

  lemma FirstIsBest(v: B.Book, keys: set<nat>, bid: bool)
    requires keys == v.Keys && keys != {}
    ensures v != map[] && IsFirst(keys, bid, B.Best(v, bid))
    ensures forall b :: IsFirst(keys, bid, b) ==> b == B.Best(v, bid)
  {
  }

  lemma ReplaceThenRemove(v: B.Book, p: nat, q: seq<Order>)
    ensures v[p := q] - {p} == v - {p}
  {
  }

  class OrderBook {
    const isBid: bool
    var levels: map<nat, OrderLevel>
    /** The queues of the levels by price. */
    ghost var view: B.Book
    /** The levels this book may change. */
    ghost var repr: set<OrderLevel>

    constructor (isBid: bool)
      ensures this.isBid == isBid && levels == map[]
      ensures Valid() && view == map[] && repr == {}
    {
      this.isBid := isBid;
      levels := map[];
      view := map[];
      repr := {};
    }

    /** Every level belongs to one price only, and the view shows its queue. */
    ghost predicate Valid()
      reads this, repr`timeQueue
    {
      && (forall p, q :: p in levels && q in levels && p != q ==> levels[p] != levels[q])
      && view.Keys == levels.Keys
      && forall p :: p in levels ==> levels[p] in repr && levels[p].timeQueue == view[p]
    }

    /** The key of the first entry of the ordered map. */
    function Begin(): (b: nat)
      requires Valid() && levels != map[]
      reads this, repr`timeQueue
      ensures b in levels && view != map[] && b == B.Best(view, isBid)
    {
      FirstIsBest(view, levels.Keys, isBid);
      var b :| b in levels && IsFirst(levels.Keys, isBid, b);
      b
    }

    /** The first order of the first level, unless there is no level or the first one is empty. */
    function BestOrder(): (best: Option<Order>)
      requires Valid()
      reads this, repr`timeQueue
      ensures best == if M.Ready(view, isBid) then Some(M.Top(view, isBid)) else None
    {
      if levels == map[] then None else levels[Begin()].GetTopLevel()
    }

    /** Trade up to `volume` with the first order of the first level, and remove the level once it
        is empty. The level to remove is looked up at the order's own price. */
    method TradeTop(volume: nat) returns (traded: nat, trade: Trade)
      requires Valid() && M.Ready(view, isBid) && B.WellFormed(view, isBid)
      modifies this, repr`timeQueue
      ensures Valid() && repr == old(repr)
      ensures traded == Min(volume, M.Top(old(view), isBid).volume)
      ensures trade == TradeOf(M.Top(old(view), isBid), traded)
      ensures view == B.TradeTop(old(view), isBid, traded)
    {
      var price := Begin();
      var level := levels[price];
      var top := level.GetTopLevel();
      var report;
      traded, report := level.TradeTopLevel(volume);
      trade := report.value;
      view := view[price := F.Consume(view[price], traded)];
      assert top.value.price == price;
      if level.IsEmpty() {
        RemoveLevelAtPrice(top.value.price);
        ReplaceThenRemove(old(view), price, []);
      }
    }

    method RemoveLevelAtPrice(price: nat)
      requires Valid()
      modifies this
      ensures Valid() && levels == old(levels) - {price} && view == old(view) - {price}
      ensures repr == old(repr)
    {
      if price in levels {
        levels := levels - {price};
      }
      view := view - {price};
    }

    /** Put a new level holding `o` at `price`, unless there is a level already. */
    method Emplace(price: nat, o: Order) returns (placed: bool)
      requires Valid()
      modifies this
      ensures Valid() && placed == (price !in old(levels)) && price in levels
      ensures fresh(repr - old(repr)) && old(repr) <= repr
      ensures old(levels).Keys <= levels.Keys && forall p :: p in old(levels) ==> levels[p] == old(levels)[p]
      ensures view == if placed then old(view)[price := [o]] else old(view)
    {
      placed := price !in levels;
      if placed {
        var level := new OrderLevel(o);
        levels := levels[price := level];
        view := view[price := [o]];
        repr := repr + {level};
      }
    }

    method Insert(o: Order) returns (inserted: Option<Order>)
      requires Valid()
      modifies this, repr`timeQueue
      ensures Valid() && fresh(repr - old(repr))
      ensures view == B.Insert(old(view), o)
      ensures inserted == Some(o)
    {
      if o.price in levels {
        inserted := levels[o.price].Insert(o);
        view := view[o.price := view[o.price] + [o]];
      } else {
        assert [] + [o] == [o];
        inserted := None;
        var placed := Emplace(o.price, o);
        if placed {
          inserted := levels[o.price].GetLastOrder();
        }
      }
    }

    /** A cancel never removes a level. */
    method Cancel(c: CancelData) returns (ok: bool)
      requires Valid()
      modifies `view, repr`timeQueue
      ensures Valid()
      ensures B.Result(view, ok) == B.Cancel(old(view), c.price, c.id)
    {
      ok := false;
      if c.price in levels {
        ok := levels[c.price].CancelOrder(c.id);
        view := B.Cancel(view, c.price, c.id).book;
      }
    }

    method Amend(a: AmendData) returns (ok: bool)
      requires Valid()
      modifies this, repr`timeQueue
      ensures Valid() && fresh(repr - old(repr))
      ensures B.Result(view, ok) == B.Amend(old(view), a)
    {
      if a.price !in levels {
        return false;
      }
      if a.newVolume == 0 {
        ok := AmendToNothing(a);
      } else if a.price == a.newPrice {
        ok := levels[a.price].ChangeOrderVolume(a.id, a.newVolume);
        view := B.Amend(view, a).book;
      } else {
        ok := AmendPrice(a);
      }
    }

    /** A new volume of zero cancels the order, and its level once it is empty. */
    method AmendToNothing(a: AmendData) returns (ok: bool)
      requires Valid() && a.price in levels && a.newVolume == 0
      modifies this, repr`timeQueue
      ensures Valid() && repr == old(repr)
      ensures B.Result(view, ok) == B.Amend(old(view), a)
    {
      var level := levels[a.price];
      ok := level.CancelOrder(a.id);
      if ok {
        view := view[a.price := level.timeQueue];
        if level.IsEmpty() {
          RemoveLevelAtPrice(a.price);
          ReplaceThenRemove(old(view), a.price, []);
        }
      }
    }

    /** A new price places the order in a level of its own, if that price has none, and takes it
        out of the old level in any case. */
    method AmendPrice(a: AmendData) returns (ok: bool)
      requires Valid() && a.price in levels && a.newVolume > 0 && a.price != a.newPrice
      modifies this, repr`timeQueue
      ensures Valid() && fresh(repr - old(repr))
      ensures B.Result(view, ok) == B.Amend(old(view), a)
    {
      var level := levels[a.price];
      var i := level.Find(a.id);
      if i == |level.timeQueue| {
        return false;
      }
      var moved := level.timeQueue[i].(price := a.newPrice, volume := a.newVolume);
      var placed := Emplace(a.newPrice, moved);
      AmendPriceResult(old(view), a, view);
      EraseAndPrune(a.price, i);
      return true;
    }

    method EraseAndPrune(price: nat, i: nat)
      requires Valid() && price in levels && i < |levels[price].timeQueue|
      modifies this, repr`timeQueue
      ensures Valid() && repr == old(repr)
      ensures view == B.TakeOut(old(view), price, i)
    {
      var level := levels[price];
      level.Erase(i);
      view := view[price := level.timeQueue];
      if level.IsEmpty() {
        RemoveLevelAtPrice(price);
        ReplaceThenRemove(old(view), price, []);
      }
    }
  }
}
