/** When the resting orders of the two sides overlap, and what an incoming order takes. */
module Uncrossed {
  import opened Orders
  import opened MatchingModel
  import F = FlatBook
  import B = PriceBook

  /** Every resting bid is priced below every resting ask. */
  ghost predicate IsUncrossed(s: Books) {
    F.NoCross(true, s.Flat(true), s.Flat(false))
  }

  lemma UncrossedEitherWay(s: Books, bid: bool)
    ensures IsUncrossed(s) <==> F.NoCross(bid, s.Flat(bid), s.Flat(!bid))
  {
  }

  /** A level of the incoming order's own side stands ahead of its price. */
  ghost predicate Blocked(my: B.Book, bid: bool, p: nat) {
    exists q :: q in my && Better(bid, q, p)
  }

  /** What the order can take from the reachable opposite orders. */
  ghost function Taken(opp: B.Book, my: B.Book, o: Order): nat {
    if Blocked(my, o.isBuy, o.price) then 0
    else Min(o.volume, F.CrossVolume(o.isBuy, o.price, B.Visible(opp, !o.isBuy)))
  }

  /** What the incoming order leaves to rest. */
  function Residue(o: Order, taken: nat, l: seq<Order>): seq<Order> {
    if taken < o.volume then F.Insert(o.isBuy, l, o.(volume := o.volume - taken)) else l
  }

  /** The whole effect of placing an order on one side and matching. */
  ghost predicate PlacedExactly(opp: B.Book, my: B.Book, o: Order, r: Matched) {
    var bid, t := o.isBuy, Taken(opp, my, o);
    && B.Flat(r.opp, !bid) == F.DropVolume(B.Visible(opp, !bid), t) + B.Hidden(opp, !bid)
    && B.Flat(r.my, bid) == Residue(o, t, B.Flat(my, bid))
    && r.matches == F.Fills(B.Visible(opp, !bid), o, t)
    && F.InNameOf(o, t, F.SideTrades(true, r.matches))
  }

  /** What an incoming order meets: books in order, positive volumes, nothing overlapping. */
  ghost predicate Meets(opp: B.Book, my: B.Book, o: Order) {
    && B.WellFormed(opp, !o.isBuy) && B.WellFormed(my, o.isBuy)
    && o.volume > 0 && F.Positive(B.Flat(opp, !o.isBuy))
    && F.NoCross(o.isBuy, B.Flat(my, o.isBuy), B.Flat(opp, !o.isBuy))
  }

  lemma VisiblePlain(m: B.Book, bid: bool)
    requires B.WellFormed(m, bid)
    ensures F.Sorted(bid, B.Visible(m, bid))
    ensures F.Positive(B.Flat(m, bid)) ==> F.Positive(B.Visible(m, bid))
    ensures F.OnSide(bid, B.Flat(m, bid))
  {
    B.VisibleHidden(m, bid);
    B.FlatWellFormed(m, bid);
    var l, v := B.Flat(m, bid), B.Visible(m, bid);
    forall i | 0 <= i < |v| ensures v[i] == l[i] {
    }
    forall i | 0 <= i < |l| ensures l[i].isBuy == bid {
      assert l[i] in l;
    }
  }

  /** No two orders that matching can reach overlap. */
  ghost predicate ReachUncrossed(s: Books) {
    F.NoCross(true, B.Visible(s.bids, true), B.Visible(s.asks, false))
  }

  /** That is the loop condition of matching: there is nothing for it to do, on behalf of either
      side. */
  lemma ReachUncrossedExactly(s: Books, bid: bool)
    requires s.Valid()
    ensures ReachUncrossed(s) <==> !CanMatch(s.Side(!bid), s.Side(bid), bid)
  {
    var my, opp := B.Visible(s.Side(bid), bid), B.Visible(s.Side(!bid), !bid);
    VisiblePlain(s.Side(bid), bid);
    VisiblePlain(s.Side(!bid), !bid);
    NotReady(s.Side(bid), bid);
    NotReady(s.Side(!bid), !bid);
    assert ReachUncrossed(s) <==> F.NoCross(bid, my, opp);
  }

  lemma NoCrossPart(bid: bool, my: seq<Order>, v: seq<Order>, h: seq<Order>)
    requires F.NoCross(bid, my, v + h)
    ensures F.NoCross(bid, my, v)
  {
    forall j | 0 <= j < |v| ensures (v + h)[j] == v[j] {
    }
  }

  lemma NoCrossSplit(bid: bool, a: seq<Order>, b: seq<Order>, opp: seq<Order>)
    requires F.NoCross(bid, a + b, opp)
    ensures F.NoCross(bid, a, opp)
  {
    forall j | 0 <= j < |a| ensures (a + b)[j] == a[j] {
    }
  }

  /** With no level ahead of a price, the list is the queue at that price and what is behind. */
  lemma Unblocked(my: B.Book, o: Order)
    requires B.WellFormed(my, o.isBuy) && !Blocked(my, o.isBuy, o.price) && B.At(my, o.price) == []
    ensures var bid := o.isBuy; var m' := B.Insert(my, o); var rest := m' - {o.price};
      && m' != map[] && B.Best(m', bid) == o.price && m'[o.price] == [o]
      && B.Flat(my, bid) == B.Flat(rest, bid)
      && (B.Flat(my, bid) != [] ==> Better(bid, o.price, B.Flat(my, bid)[0].price))
  {
    var bid, p := o.isBuy, o.price;
    var m' := B.Insert(my, o);
    B.BestIs(m', bid, p);
    assert B.Ahead(my, bid, p) == map[];
    assert B.Behind(my, bid, p) == m' - {p};
    var a, q, c := B.Parts(my, bid, p);
    assert [] + [o] == [o];
    assert a + q + c == c;
  }

  /** An unblocked order faces the reachable opposite orders, its own side's lining up behind it. */
  lemma PlaceFaces(opp: B.Book, my: B.Book, o: Order) returns (x: seq<Order>, h: seq<Order>)
    requires Meets(opp, my, o)
    requires !Blocked(my, o.isBuy, o.price) && B.At(my, o.price) == []
    ensures x + h == B.Flat(my, o.isBuy)
    ensures var bid := o.isBuy; var r := MatchBooks(opp, B.Insert(my, o), bid);
      var e := F.Execute(B.Visible(opp, !bid), [o] + x);
      && B.Flat(r.opp, !bid) == e.opp + B.Hidden(opp, !bid)
      && B.Flat(r.my, bid) == e.my + h
      && r.matches == e.matches
  {
    var bid, m' := o.isBuy, B.Insert(my, o);
    var rest := m' - {o.price};
    Unblocked(my, o);
    x, h := B.Visible(rest, bid), B.Hidden(rest, bid);
    var r := MatchBooks(opp, m', bid);
    MatchBooksRefines(opp, m', bid);
    B.VisibleHidden(r.opp, !bid);
    B.VisibleHidden(r.my, bid);
    B.VisibleHidden(rest, bid);
  }

  lemma PrefixOnSide(bid: bool, x: seq<Order>, h: seq<Order>)
    requires F.OnSide(bid, x + h)
    ensures F.OnSide(bid, x)
  {
    forall i | 0 <= i < |x| ensures x[i] == (x + h)[i] {
    }
  }

  /** The order reaches the top of its side: it takes what it can. */
  lemma PlaceTaking(opp: B.Book, my: B.Book, o: Order)
    requires Meets(opp, my, o)
    requires !Blocked(my, o.isBuy, o.price) && B.At(my, o.price) == []
    ensures PlacedExactly(opp, my, o, MatchBooks(opp, B.Insert(my, o), o.isBuy))
  {
    var bid := o.isBuy;
    var x, h := PlaceFaces(opp, my, o);
    var v, l := B.Visible(opp, !bid), B.Flat(my, bid);
    B.VisibleHidden(opp, !bid);
    VisiblePlain(opp, !bid);
    VisiblePlain(my, bid);
    NoCrossPart(bid, l, v, B.Hidden(opp, !bid));
    NoCrossSplit(bid, x, h, v);
    PrefixOnSide(bid, x, h);
    F.Aggressor(bid, v, o, x);
    ResidueInFront(my, o, Taken(opp, my, o), x, h);
  }

  lemma ResidueInFront(my: B.Book, o: Order, t: nat, x: seq<Order>, h: seq<Order>)
    requires B.WellFormed(my, o.isBuy) && !Blocked(my, o.isBuy, o.price) && B.At(my, o.price) == []
    requires t <= o.volume && x + h == B.Flat(my, o.isBuy)
    ensures (F.Leftover(o, t) + x) + h == Residue(o, t, B.Flat(my, o.isBuy))
  {
    Unblocked(my, o);
    if t < o.volume {
      var o' := o.(volume := o.volume - t);
      assert [o'] + x + h == [o'] + (x + h);
    } else {
      assert [] + x == x;
    }
  }

  /** Otherwise the order meets nothing it can trade with and simply queues. */
  lemma PlaceQueueing(opp: B.Book, my: B.Book, o: Order)
    requires Meets(opp, my, o)
    requires Blocked(my, o.isBuy, o.price) || B.At(my, o.price) != []
    ensures PlacedExactly(opp, my, o, MatchBooks(opp, B.Insert(my, o), o.isBuy))
  {
    var bid, m' := o.isBuy, B.Insert(my, o);
    var v, u := B.Visible(opp, !bid), B.Visible(m', bid);
    B.VisibleHidden(opp, !bid);
    VisiblePlain(opp, !bid);
    if B.At(my, o.price) != [] {
      QueueNoCross(opp, my, bid, o.price);
      F.NoCrossVolume(bid, o.price, v);
    }
    assert Taken(opp, my, o) == 0;
    F.DropNothing(v);
    assert o.(volume := o.volume - 0) == o;
    B.InsertFlat(my, bid, o);
    NotReady(m', bid);
    if CanMatch(opp, m', bid) {
      var b := B.Best(m', bid);
      NotReady(opp, !bid);
      B.InsertKeepsWellFormed(my, bid, o);
      if Blocked(my, bid, o.price) {
        var q :| q in my && Better(bid, q, o.price);
        assert q in m' && b != o.price;
      }
      QueueNoCross(opp, my, bid, b);
      assert false;
    }
  }

  /** A price at which the own side has a live order does not cross the opposite list. */
  lemma QueueNoCross(opp: B.Book, my: B.Book, bid: bool, p: nat)
    requires B.WellFormed(my, bid) && B.At(my, p) != []
    requires F.NoCross(bid, B.Flat(my, bid), B.Flat(opp, !bid))
    ensures !F.CrossesAny(bid, p, B.Flat(opp, !bid))
    ensures !F.CrossesAny(bid, p, B.Visible(opp, !bid))
  {
    var l, o := B.Flat(my, bid), B.Flat(opp, !bid);
    B.FlatHas(my, bid, p, my[p][0]);
    var i :| 0 <= i < |l| && l[i] == my[p][0];
    B.VisibleHidden(opp, !bid);
    var v := B.Visible(opp, !bid);
    forall j | 0 <= j < |v| ensures v[j] == o[j] {
    }
  }

  /** For every pair of books in which nothing overlaps, empty levels or not: an incoming order
      trades exactly what it can reach, from the front and in its own name, and rests the residue. */
  lemma PlaceExactly(opp: B.Book, my: B.Book, o: Order)
    requires Meets(opp, my, o)
    ensures PlacedExactly(opp, my, o, MatchBooks(opp, B.Insert(my, o), o.isBuy))
  {
    if Blocked(my, o.isBuy, o.price) || B.At(my, o.price) != [] {
      PlaceQueueing(opp, my, o);
    } else {
      PlaceTaking(opp, my, o);
    }
  }

  /** The order does not cross, or nothing stands ahead of it and it is either used up on the
      reachable orders or crosses none of the unreachable ones. */
  ghost predicate Guard(opp: B.Book, my: B.Book, o: Order) {
    var bid, p := o.isBuy, o.price;
    || !F.CrossesAny(bid, p, B.Flat(opp, !bid))
    || (&& !Blocked(my, bid, p)
        && (|| o.volume <= F.CrossVolume(bid, p, B.Visible(opp, !bid))
            || !F.CrossesAny(bid, p, B.Hidden(opp, !bid))))
  }

  lemma CrossesConcat(bid: bool, p: nat, a: seq<Order>, b: seq<Order>)
    ensures F.CrossesAny(bid, p, a + b) <==> F.CrossesAny(bid, p, a) || F.CrossesAny(bid, p, b)
  {
    forall j | 0 <= j < |a| ensures (a + b)[j] == a[j] {
    }
    forall j | 0 <= j < |b| ensures (a + b)[|a| + j] == b[j] {
    }
  }

  lemma ResidueNoCross(o: Order, taken: nat, l: seq<Order>, opp: seq<Order>)
    requires F.NoCross(o.isBuy, l, opp)
    ensures F.NoCross(o.isBuy, Residue(o, taken, l), opp)
      <==> taken >= o.volume || !F.CrossesAny(o.isBuy, o.price, opp)
  {
    if taken < o.volume {
      var o' := o.(volume := o.volume - taken);
      var k := F.InsertPosition(o.isBuy, l, o');
      var l' := F.Insert(o.isBuy, l, o');
      assert l'[k] == o';
      forall i | 0 <= i < |l'| && i != k ensures l'[i] == l[if i < k then i else i - 1] {
      }
    }
  }

  lemma DropUncrossed(o: Order, t: nat, l: seq<Order>, v: seq<Order>, h: seq<Order>)
    requires F.NoCross(o.isBuy, l, v + h)
    ensures F.NoCross(o.isBuy, Residue(o, t, l), F.DropVolume(v, t) + h)
      <==> t >= o.volume
           || (!F.CrossesAny(o.isBuy, o.price, F.DropVolume(v, t)) && !F.CrossesAny(o.isBuy, o.price, h))
  {
    var d := F.DropVolume(v, t);
    F.DropIsTail(v, t);
    F.TailConcat(d, v, h);
    F.TailNoCross(o.isBuy, l, d + h, v + h);
    ResidueNoCross(o, t, l, d + h);
    CrossesConcat(o.isBuy, o.price, d, h);
  }

  /** The incoming order leaves the books uncrossed if and only if the guard holds. */
  lemma PlaceUncrossed(opp: B.Book, my: B.Book, o: Order)
    requires Meets(opp, my, o)
    ensures var r := MatchBooks(opp, B.Insert(my, o), o.isBuy);
      F.NoCross(o.isBuy, B.Flat(r.my, o.isBuy), B.Flat(r.opp, !o.isBuy)) <==> Guard(opp, my, o)
  {
    var bid, p := o.isBuy, o.price;
    var v, h, l := B.Visible(opp, !bid), B.Hidden(opp, !bid), B.Flat(my, bid);
    PlaceExactly(opp, my, o);
    B.VisibleHidden(opp, !bid);
    VisiblePlain(opp, !bid);
    DropUncrossed(o, Taken(opp, my, o), l, v, h);
    CrossesConcat(bid, p, v, h);
    F.DropNothing(v);
    F.DropCrossing(bid, p, v);
    if !F.CrossesAny(bid, p, v) {
      F.NoCrossVolume(bid, p, v);
    }
  }
}
