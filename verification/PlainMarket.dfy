/** Requests and runs in plain terms: which book a request reaches and what it answers, and prices
    compared as numbers. */
module PlainMarket {
  import opened Orders
  import opened Wrappers
  import opened MatchingModel
  import opened Uncrossed
  import opened MarketRuns
  import F = FlatBook
  import B = PriceBook

  // ---- which book a request reaches, and what it answers ----

  /** An order of that price and id is in the list. */
  ghost predicate Rests(l: seq<Order>, p: nat, id: string) {
    exists o :: o in l && o.price == p && o.id == id
  }

  lemma RestsIffFound(l: seq<Order>, p: nat, id: string)
    ensures Rests(l, p, id) <==> F.Find(l, p, id) < |l|
  {
  }

  /** A cancel takes the order out of the list of its own side, leaves the other side alone, and is
      confirmed exactly when such an order rests on its own side. */
  lemma CancelReaches(s: Books, c: CancelData)
    requires s.Valid()
    ensures var bids, asks := B.Flat(s.bids, true), B.Flat(s.asks, false);
      var out := Step(s, Cancel(c));
      && B.Flat(out.books.bids, true) == (if c.isBuy then F.Cancel(bids, c.price, c.id) else bids)
      && B.Flat(out.books.asks, false) == (if c.isBuy then asks else F.Cancel(asks, c.price, c.id))
      && out.matches == []
      && out.reply == if Rests(if c.isBuy then bids else asks, c.price, c.id)
                      then OrderReply(c.id, c.clientId)
                      else ErrorReply(c.clientId, "Failed to cancel order")
  {
    var m := if c.isBuy then s.bids else s.asks;
    B.CancelFlat(m, c.isBuy, c.price, c.id);
    RestsIffFound(B.Flat(m, c.isBuy), c.price, c.id);
  }

  /** The outcome is that of matching the two books, bids given first, on behalf of side `bid`. */
  ghost predicate MatchedFrom(bids: B.Book, asks: B.Book, bid: bool, out: Outcome) {
    var v, w := B.Visible(bids, true), B.Visible(asks, false);
    var e := if bid then F.Execute(w, v) else F.Execute(v, w);
    && B.Flat(out.books.bids, true) == (if bid then e.my else e.opp) + B.Hidden(bids, true)
    && B.Flat(out.books.asks, false) == (if bid then e.opp else e.my) + B.Hidden(asks, false)
    && out.matches == e.matches
  }

  lemma MatchFromIs(s: Books, bid: bool, reply: Message)
    ensures MatchedFrom(s.bids, s.asks, bid, MatchFrom(s, bid, reply))
  {
    var m := MatchBooks(s.Side(!bid), s.Side(bid), bid);
    MatchBooksRefines(s.Side(!bid), s.Side(bid), bid);
    B.VisibleHidden(m.my, bid);
    B.VisibleHidden(m.opp, !bid);
  }

  /** An insert queues the order on its own side and matches on behalf of that side. */
  lemma InsertReaches(s: Books, o: Order) returns (bids: B.Book, asks: B.Book)
    requires s.Valid()
    ensures B.Flat(bids, true) == (if o.isBuy then F.Insert(true, B.Flat(s.bids, true), o)
                                   else B.Flat(s.bids, true))
    ensures B.Flat(asks, false) == (if o.isBuy then B.Flat(s.asks, false)
                                    else F.Insert(false, B.Flat(s.asks, false), o))
    ensures MatchedFrom(bids, asks, o.isBuy, Step(s, Insert(o)))
    ensures Step(s, Insert(o)).reply == OrderReply(o.id, o.clientId)
  {
    bids := if o.isBuy then B.Insert(s.bids, o) else s.bids;
    asks := if o.isBuy then s.asks else B.Insert(s.asks, o);
    B.InsertFlat(if o.isBuy then s.bids else s.asks, o.isBuy, o);
    MatchFromIs(Books(bids, asks), o.isBuy, OrderReply(o.id, o.clientId));
  }

  /** An amend edits the list of its own side and matches on behalf of that side, or is refused and
      changes nothing: the latter exactly when no such order rests on its own side. */
  lemma AmendReaches(s: Books, a: AmendData) returns (bids: B.Book, asks: B.Book)
    requires s.Valid()
    ensures B.Flat(bids, true) == (if a.isBuy then F.Amend(true, B.Flat(s.bids, true), a, a.newPrice in s.bids)
                                   else B.Flat(s.bids, true))
    ensures B.Flat(asks, false) == (if a.isBuy then B.Flat(s.asks, false)
                                    else F.Amend(false, B.Flat(s.asks, false), a, a.newPrice in s.asks))
    ensures var out := Step(s, Amend(a));
      if Rests(if a.isBuy then B.Flat(s.bids, true) else B.Flat(s.asks, false), a.price, a.id)
      then MatchedFrom(bids, asks, a.isBuy, out) && out.reply == OrderReply(a.id, a.clientId)
      else out == Outcome(s, ErrorReply(a.clientId, "Failed to amend order"), [])
  {
    var m := if a.isBuy then s.bids else s.asks;
    bids := if a.isBuy then B.Amend(s.bids, a).book else s.bids;
    asks := if a.isBuy then s.asks else B.Amend(s.asks, a).book;
    B.AmendFlat(m, a.isBuy, a);
    RestsIffFound(B.Flat(m, a.isBuy), a.price, a.id);
    MatchFromIs(Books(bids, asks), a.isBuy, OrderReply(a.id, a.clientId));
  }

  // ---- prices ----

  /** Bids are listed from the highest price down, asks from the lowest price up. */
  lemma ListedByPrice(s: Books)
    requires s.Valid()
    ensures forall i, j :: 0 <= i < j < |s.Flat(true)| ==> s.Flat(true)[j].price <= s.Flat(true)[i].price
    ensures forall i, j :: 0 <= i < j < |s.Flat(false)| ==> s.Flat(false)[i].price <= s.Flat(false)[j].price
  {
    B.FlatWellFormed(s.bids, true);
    B.FlatWellFormed(s.asks, false);
  }

  /** Books are uncrossed if and only if every resting bid is priced below every resting ask. */
  lemma UncrossedMeans(s: Books)
    ensures IsUncrossed(s) <==>
      forall b, a :: b in s.Flat(true) && a in s.Flat(false) ==> b.price < a.price
  {
  }

  /** Over any run whatever: if the highest bid level and the lowest ask level both hold an order,
      the bid is priced below the ask. */
  lemma RunBestApart(s: Books, rs: seq<Request>, b: nat, a: nat)
    requires s.Valid() && ReachUncrossed(s)
    requires var s' := Run(s, rs);
      && b in s'.bids && s'.bids[b] != [] && (forall p :: p in s'.bids ==> p <= b)
      && a in s'.asks && s'.asks[a] != [] && (forall p :: p in s'.asks ==> a <= p)
    ensures b < a
  {
    var s' := Run(s, rs);
    RunReach(s, rs);
    RunValid(s, rs);
    B.BestIs(s'.bids, true, b);
    B.BestIs(s'.asks, false, a);
    assert !CanMatch(s'.Side(false), s'.Side(true), true);
  }

  /** Over a run of validated requests that cancels no last order of a level, every resting bid is
      priced below every resting ask. */
  lemma {:induction false} RunApart(s: Books, rs: seq<Request>)
    requires Healthy(s) && RunValidated(rs) && RunKeepsLevels(s, rs)
    ensures var s' := Run(s, rs);
      forall b, a :: b in s'.Flat(true) && a in s'.Flat(false) ==> b.price < a.price
    decreases |rs|
  {
    if rs == [] {
      UncrossedMeans(s);
    } else {
      StepHealthy(s, rs[0]);
      RunApart(Step(s, rs[0]).books, rs[1..]);
    }
  }

  /** The orders of a list that an order of side `bid` at price `p` can trade with: for a bid those
      at its price or below, for an ask those at its price or above. */
  function Crossing(bid: bool, p: nat, l: seq<Order>): (r: seq<Order>)
    ensures forall o: Order :: var crosses := if bid then o.price <= p else p <= o.price;
                               multiset(r)[o] == (if crosses then multiset(l)[o] else 0)
  {
    if l == [] then []
    else
      var x, rest := l[0], Crossing(bid, p, l[1..]);
      assert l == [x] + l[1..];
      if (if bid then x.price <= p else p <= x.price) then [x] + rest else rest
  }

  lemma {:induction false} CrossVolumeIs(bid: bool, p: nat, l: seq<Order>)
    ensures F.CrossVolume(bid, p, l) == F.Volume(Crossing(bid, p, l))
  {
    if l != [] {
      CrossVolumeIs(bid, p, l[1..]);
      F.VolumeConcat([l[0]], Crossing(bid, p, l[1..]));
    }
  }

  /** The `k`-th match is between the `k`-th order of the list and `o`, whose prices cross, and takes
      all of that order unless it is the last. */
  ghost predicate FilledInTurn(l: seq<Order>, o: Order, ms: seq<F.Match>) {
    && |ms| <= |l|
    && forall k :: 0 <= k < |ms| ==>
         && (if o.isBuy then l[k].price <= o.price else o.price <= l[k].price)
         && F.TradeBy(l[k], ms[k].opposite) && F.TradeBy(o, ms[k].own)
         && ms[k].own.volume == ms[k].opposite.volume <= l[k].volume
         && (k + 1 < |ms| ==> ms[k].own.volume == l[k].volume)
  }

  lemma FillsByPrice(l: seq<Order>, o: Order, t: nat)
    requires F.Positive(l) && F.Sorted(!o.isBuy, l) && t == Min(o.volume, F.CrossVolume(o.isBuy, o.price, l))
    ensures FilledInTurn(l, o, F.Fills(l, o, t))
    ensures t < o.volume ==> forall x :: x in F.DropVolume(l, t) ==>
      if o.isBuy then o.price < x.price else x.price < o.price
  {
    F.FillsEach(l, o, t);
    F.FillsCross(o.isBuy, l, o, t);
    F.DropCrossing(o.isBuy, o.price, l);
    var l' := F.DropVolume(l, t);
    forall x | x in l' && !F.CrossesAny(o.isBuy, o.price, l') ensures !Crosses(o.isBuy, o.price, x.price) {
      var j :| 0 <= j < |l'| && l'[j] == x;
    }
  }

  /** On healthy books a request that places a bid trades the smaller of its volume and what the
      asks at its price or below hold, with those and no others, in the order they are listed, each
      but the last in full; no such ask is left unless the bid is used up. Asks likewise. */
  lemma PlacementByPrice(s: Books, r: Request)
    requires Healthy(s) && Validated(r) && Newcomer(s.Side(SideOf(r)), r).Some?
    ensures var (o, _) := Newcomer(s.Side(SideOf(r)), r).value; var out := Step(s, r);
      var l := s.Flat(!o.isBuy); var t := Min(o.volume, F.Volume(Crossing(o.isBuy, o.price, l)));
      && F.TradedVolume(Trades(s, r, o.isBuy)) == t
      && FilledInTurn(l, o, out.matches)
      && (t < o.volume ==> forall x :: x in out.books.Flat(!o.isBuy) ==>
            if o.isBuy then o.price < x.price else x.price < o.price)
  {
    var bid := SideOf(r);
    var (o, _) := Newcomer(s.Side(bid), r).value;
    var l := s.Flat(!bid);
    PlacementRefines(s, r);
    CrossVolumeIs(bid, o.price, l);
    B.FlatWellFormed(s.Side(!bid), !bid);
    FillsByPrice(l, o, Min(o.volume, F.CrossVolume(bid, o.price, l)));
  }
}
