/** The engine: two books, the matching loop and the three order requests. */
module MatchingEngines {
  import opened Orders
  import opened Wrappers
  import opened OrderBooks
  import opened MatchingModel
  import F = FlatBook
  import B = PriceBook

  /** The pair of trades the two best orders make, if their prices overlap. */
  ghost function TopPair(opp: B.Book, my: B.Book, bid: bool): (r: Option<F.Match>)
    ensures r.Some? <==> CanMatch(opp, my, bid)
    ensures r.Some? ==>
      && r.value.own.volume == r.value.opposite.volume
      && r.value.own.volume <= Top(opp, !bid).volume && r.value.own.volume <= Top(my, bid).volume
  {
    if CanMatch(opp, my, bid) then
      var o, m := Top(opp, !bid), Top(my, bid);
      var v := Min(o.volume, m.volume);
      Some(F.Match(TradeOf(o, v), TradeOf(m, v)))
    else None
  }

  /** `done` has been sent; matching the books as they are gives the rest of the result. */
  ghost predicate Pending(result: Matched, done: seq<F.Match>, opp: B.Book, my: B.Book, bid: bool) {
    var r := MatchBooks(opp, my, bid);
    r.opp == result.opp && r.my == result.my && done + r.matches == result.matches
  }

  lemma {:induction false} PendingStep(result: Matched, done: seq<F.Match>, opp: B.Book, my: B.Book, bid: bool)
    requires B.WellFormed(opp, !bid) && B.WellFormed(my, bid)
    requires CanMatch(opp, my, bid) && Pending(result, done, opp, my, bid)
    ensures var x := TopPair(opp, my, bid).value;
      var opp', my' := B.TradeTop(opp, !bid, x.opposite.volume), B.TradeTop(my, bid, x.own.volume);
      && Pending(result, done + [x], opp', my', bid)
      && B.WellFormed(opp', !bid) && B.WellFormed(my', bid)
      && |B.Flat(opp', !bid)| + |B.Flat(my', bid)| < |B.Flat(opp, !bid)| + |B.Flat(my, bid)|
      && Reports(done + [x]) == Reports(done) + [TradeReport(x.opposite), TradeReport(x.own)]
  {
    var x := TopPair(opp, my, bid).value;
    var v := x.own.volume;
    assert v == Min(Top(opp, !bid).volume, Top(my, bid).volume);
    var opp', my' := B.TradeTop(opp, !bid, v), B.TradeTop(my, bid, v);
    TradeTopShrinks(opp, !bid, v);
    TradeTopShrinks(my, bid, v);
    B.TradeTopKeepsWellFormed(opp, !bid, v);
    B.TradeTopKeepsWellFormed(my, bid, v);
    var rest := MatchBooks(opp', my', bid);
    assert MatchBooks(opp, my, bid) == rest.(matches := [x] + rest.matches);
    assert done + ([x] + rest.matches) == (done + [x]) + rest.matches;
    ReportsAppend(done, x);
  }

  lemma {:induction false} ReportsAppend(ms: seq<F.Match>, x: F.Match)
    ensures Reports(ms + [x]) == Reports(ms) + [TradeReport(x.opposite), TradeReport(x.own)]
  {
    if ms == [] {
      assert [] + [x] == [x];
      assert Reports([x]) == [TradeReport(x.opposite), TradeReport(x.own)] + Reports([x][1..]);
    } else {
      assert (ms + [x])[1..] == ms[1..] + [x];
      ReportsAppend(ms[1..], x);
    }
  }

  /** The two books can be changed one without the other. */
  ghost predicate Apart(opposite: OrderBook, mySide: OrderBook)
    reads opposite, mySide, opposite.repr`timeQueue, mySide.repr`timeQueue
  {
    && opposite != mySide && opposite.isBid == !mySide.isBid && opposite.repr !! mySide.repr
    && opposite.Valid() && mySide.Valid()
    && B.WellFormed(opposite.view, opposite.isBid) && B.WellFormed(mySide.view, mySide.isBid)
  }

  /** One iteration of matching: the trades of the two best orders, if their prices overlap. */
  method CrossBest(opposite: OrderBook, mySide: OrderBook) returns (pair: Option<F.Match>)
    requires Apart(opposite, mySide)
    modifies opposite, mySide, opposite.repr`timeQueue, mySide.repr`timeQueue
    ensures opposite.Valid() && opposite.repr == old(opposite.repr)
    ensures mySide.Valid() && mySide.repr == old(mySide.repr)
    ensures pair == TopPair(old(opposite.view), old(mySide.view), mySide.isBid)
    ensures pair == None ==> opposite.view == old(opposite.view) && mySide.view == old(mySide.view)
    ensures pair.Some? ==>
      && opposite.view == B.TradeTop(old(opposite.view), opposite.isBid, pair.value.opposite.volume)
      && mySide.view == B.TradeTop(old(mySide.view), mySide.isBid, pair.value.own.volume)
  {
    var my := mySide.BestOrder();
    if my == None {
      return None;
    }
    var opp := opposite.BestOrder();
    if opp == None {
      return None;
    }
    if !Crosses(my.value.isBuy, my.value.price, opp.value.price) {
      return None;
    }
    var tradedVolume, oppTrade := opposite.TradeTop(my.value.volume);
    var _, myTrade := mySide.TradeTop(tradedVolume);
    return Some(F.Match(oppTrade, myTrade));
  }

  /** Cross the two best orders as long as their prices overlap; `sent` are the trades reported. */
  method ExecuteOrder(opposite: OrderBook, mySide: OrderBook) returns (sent: seq<Message>)
    requires Apart(opposite, mySide)
    modifies opposite, mySide, opposite.repr`timeQueue, mySide.repr`timeQueue
    ensures opposite.Valid() && opposite.repr == old(opposite.repr)
    ensures mySide.Valid() && mySide.repr == old(mySide.repr)
    ensures var r := MatchBooks(old(opposite.view), old(mySide.view), mySide.isBid);
      opposite.view == r.opp && mySide.view == r.my && sent == Reports(r.matches)
  {
    ghost var bid := mySide.isBid;
    ghost var result := MatchBooks(opposite.view, mySide.view, bid);
    ghost var done: seq<F.Match> := [];
    sent := [];
    assert done + result.matches == result.matches;
    while true
      invariant Apart(opposite, mySide) && mySide.isBid == bid
      invariant opposite.repr == old(opposite.repr) && mySide.repr == old(mySide.repr)
      invariant Pending(result, done, opposite.view, mySide.view, bid)
      invariant sent == Reports(done)
      decreases |B.Flat(opposite.view, !bid)| + |B.Flat(mySide.view, bid)|
    {
      ghost var o, m := opposite.view, mySide.view;
      var pair := CrossBest(opposite, mySide);
      if pair == None {
        assert done == result.matches;
        return;
      }
      PendingStep(result, done, o, m, bid);
      done := done + [pair.value];
      sent := sent + [TradeReport(pair.value.opposite), TradeReport(pair.value.own)];
    }
  }

  /** An insert on the book of its side, with the matching it sets off. */
  method InsertAndMatch(o: Order, opposite: OrderBook, mySide: OrderBook) returns (sent: seq<Message>)
    requires Apart(opposite, mySide) && o.isBuy == mySide.isBid
    modifies opposite, mySide, opposite.repr`timeQueue, mySide.repr`timeQueue
    ensures Apart(opposite, mySide)
    ensures opposite.repr == old(opposite.repr) && fresh(mySide.repr - old(mySide.repr))
    ensures var r := MatchBooks(old(opposite.view), B.Insert(old(mySide.view), o), mySide.isBid);
      && opposite.view == r.opp && mySide.view == r.my
      && sent == [OrderReply(o.id, o.clientId)] + Reports(r.matches)
  {
    B.InsertKeepsWellFormed(mySide.view, mySide.isBid, o);
    MatchBooksWellFormed(opposite.view, B.Insert(mySide.view, o), mySide.isBid);
    var inserted := mySide.Insert(o);
    if inserted.Some? {
      sent := ExecuteOrder(opposite, mySide);
      sent := [OrderReply(inserted.value.id, inserted.value.clientId)] + sent;
    } else {
      sent := [ErrorReply(o.clientId, "Failed to insert order")];
    }
  }

  /** An amend of the book of its side, with the matching it sets off when it succeeds. */
  method AmendAndMatch(a: AmendData, opposite: OrderBook, mySide: OrderBook) returns (sent: seq<Message>)
    requires Apart(opposite, mySide) && a.isBuy == mySide.isBid
    modifies opposite, mySide, opposite.repr`timeQueue, mySide.repr`timeQueue
    ensures Apart(opposite, mySide)
    ensures opposite.repr == old(opposite.repr) && fresh(mySide.repr - old(mySide.repr))
    ensures var e := B.Amend(old(mySide.view), a);
      var r := if e.ok then MatchBooks(old(opposite.view), e.book, mySide.isBid)
               else Matched(old(opposite.view), old(mySide.view), []);
      && opposite.view == r.opp && mySide.view == r.my
      && sent == [if e.ok then OrderReply(a.id, a.clientId)
                  else ErrorReply(a.clientId, "Failed to amend order")] + Reports(r.matches)
  {
    B.AmendKeepsWellFormed(mySide.view, mySide.isBid, a);
    MatchBooksWellFormed(opposite.view, B.Amend(mySide.view, a).book, mySide.isBid);
    var ok := mySide.Amend(a);
    if ok {
      sent := ExecuteOrder(opposite, mySide);
      sent := [OrderReply(a.id, a.clientId)] + sent;
    } else {
      sent := [ErrorReply(a.clientId, "Failed to amend order")];
    }
  }

  /** A cancel edits the book of its side and sets off no matching. */
  method CancelOnly(c: CancelData, opposite: OrderBook, mySide: OrderBook) returns (sent: seq<Message>)
    requires Apart(opposite, mySide) && c.isBuy == mySide.isBid
    modifies mySide`view, mySide.repr`timeQueue
    ensures Apart(opposite, mySide)
    ensures var e := B.Cancel(old(mySide.view), c.price, c.id);
      && mySide.view == e.book
      && sent == [if e.ok then OrderReply(c.id, c.clientId)
                  else ErrorReply(c.clientId, "Failed to cancel order")]
  {
    B.CancelKeepsWellFormed(mySide.view, mySide.isBid, c.price, c.id);
    var ok := mySide.Cancel(c);
    if ok {
      sent := [OrderReply(c.id, c.clientId)];
    } else {
      sent := [ErrorReply(c.clientId, "Failed to cancel order")];
    }
  }

  class MatchingEngine {
    const bids: OrderBook
    const asks: OrderBook
    /** The messages sent so far. */
    var log: seq<Message>

    constructor ()
      ensures Valid() && State() == NO_BOOKS && log == []
    {
      bids := new OrderBook(true);
      asks := new OrderBook(false);
      log := [];
    }

    ghost predicate Valid()
      reads bids, asks, bids.repr`timeQueue, asks.repr`timeQueue
    {
      bids.isBid && Apart(asks, bids)
    }

    ghost function State(): Books
      reads bids`view, asks`view
    {
      Books(bids.view, asks.view)
    }

    method OrderInsert(o: Order)
      requires Valid()
      modifies `log, bids, asks, bids.repr`timeQueue, asks.repr`timeQueue
      ensures Valid() && fresh(bids.repr - old(bids.repr)) && fresh(asks.repr - old(asks.repr))
      ensures State() == Step(old(State()), Insert(o)).books
      ensures var out := Step(old(State()), Insert(o)); log == old(log) + ([out.reply] + Reports(out.matches))
    {
      var sent;
      if o.isBuy {
        sent := InsertAndMatch(o, asks, bids);
      } else {
        sent := InsertAndMatch(o, bids, asks);
      }
      log := log + sent;
    }

    method OrderAmend(a: AmendData)
      requires Valid()
      modifies `log, bids, asks, bids.repr`timeQueue, asks.repr`timeQueue
      ensures Valid() && fresh(bids.repr - old(bids.repr)) && fresh(asks.repr - old(asks.repr))
      ensures State() == Step(old(State()), Amend(a)).books
      ensures var out := Step(old(State()), Amend(a)); log == old(log) + ([out.reply] + Reports(out.matches))
    {
      var sent;
      if a.isBuy {
        sent := AmendAndMatch(a, asks, bids);
      } else {
        sent := AmendAndMatch(a, bids, asks);
      }
      log := log + sent;
    }

    method OrderCancel(c: CancelData)
      requires Valid()
      modifies `log, bids`view, asks`view, bids.repr`timeQueue, asks.repr`timeQueue
      ensures Valid()
      ensures State() == Step(old(State()), Cancel(c)).books
      ensures var out := Step(old(State()), Cancel(c)); log == old(log) + ([out.reply] + Reports(out.matches))
    {
      var sent;
      if c.isBuy {
        sent := CancelOnly(c, asks, bids);
      } else {
        sent := CancelOnly(c, bids, asks);
      }
      log := log + sent;
    }
  }
}
