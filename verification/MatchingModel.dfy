/** The matching engine as a function on its two books: what one request does and what a run of
    requests does. The engine class is proved to compute exactly this. */
module MatchingModel {
  import opened Orders
  import opened Wrappers
  import F = FlatBook
  import B = PriceBook

  datatype Matched = Matched(opp: B.Book, my: B.Book, matches: seq<F.Match>)

  ghost predicate Ready(m: B.Book, bid: bool) {
    m != map[] && m[B.Best(m, bid)] != []
  }

  /** First order of the best level. */
  ghost function Top(m: B.Book, bid: bool): Order
    requires Ready(m, bid)
  {
    m[B.Best(m, bid)][0]
  }

  ghost predicate CanMatch(opp: B.Book, my: B.Book, bid: bool) {
    Ready(my, bid) && Ready(opp, !bid) && Crosses(Top(my, bid).isBuy, Top(my, bid).price, Top(opp, !bid).price)
  }

  lemma TradeTopShrinks(m: B.Book, bid: bool, v: nat)
    requires Ready(m, bid) && v <= Top(m, bid).volume
    ensures |B.Flat(B.TradeTop(m, bid, v), bid)| ==
            |B.Flat(m, bid)| - (if v == Top(m, bid).volume then 1 else 0)
  {
    B.TradeTopFlat(m, bid, v);
    B.VisibleHidden(m, bid);
    B.VisibleHidden(B.TradeTop(m, bid, v), bid);
    F.ConsumeVolume(B.Visible(m, bid), v);
  }

  /** The matching loop: cross the two best orders until that is no longer possible. */
  ghost function MatchBooks(opp: B.Book, my: B.Book, bid: bool): Matched
    decreases |B.Flat(opp, !bid)| + |B.Flat(my, bid)|
  {
    if CanMatch(opp, my, bid) then
      var o, m := Top(opp, !bid), Top(my, bid);
      var v := Min(o.volume, m.volume);
      TradeTopShrinks(opp, !bid, v);
      TradeTopShrinks(my, bid, v);
      var rest := MatchBooks(B.TradeTop(opp, !bid, v), B.TradeTop(my, bid, v), bid);
      rest.(matches := [F.Match(TradeOf(o, v), TradeOf(m, v))] + rest.matches)
    else Matched(opp, my, [])
  }

  /** For all books, whatever levels are empty: matching the books is matching the two lists of
      reachable orders, and the orders behind an empty level are left alone. */
  lemma {:induction false} MatchBooksRefines(opp: B.Book, my: B.Book, bid: bool)
    ensures var r := MatchBooks(opp, my, bid);
      var e := F.Execute(B.Visible(opp, !bid), B.Visible(my, bid));
      && B.Visible(r.opp, !bid) == e.opp && B.Hidden(r.opp, !bid) == B.Hidden(opp, !bid)
      && B.Visible(r.my, bid) == e.my && B.Hidden(r.my, bid) == B.Hidden(my, bid)
      && r.matches == e.matches
    decreases |B.Flat(opp, !bid)| + |B.Flat(my, bid)|
  {
    if CanMatch(opp, my, bid) {
      var v := Min(Top(opp, !bid).volume, Top(my, bid).volume);
      TradeTopShrinks(opp, !bid, v);
      TradeTopShrinks(my, bid, v);
      MatchBooksRefines(B.TradeTop(opp, !bid, v), B.TradeTop(my, bid, v), bid);
      B.TradeTopFlat(opp, !bid, v);
      B.TradeTopFlat(my, bid, v);
      F.ExecuteUnfold(B.Visible(opp, !bid), B.Visible(my, bid));
    } else {
      NotReady(opp, !bid);
      NotReady(my, bid);
    }
  }

  lemma NotReady(m: B.Book, bid: bool)
    ensures !Ready(m, bid) ==> B.Visible(m, bid) == []
    ensures Ready(m, bid) ==> B.Visible(m, bid) != [] && B.Visible(m, bid)[0] == Top(m, bid)
  {
  }

  lemma {:induction false} MatchBooksWellFormed(opp: B.Book, my: B.Book, bid: bool)
    requires B.WellFormed(opp, !bid) && B.WellFormed(my, bid)
    ensures var r := MatchBooks(opp, my, bid);
      B.WellFormed(r.opp, !bid) && B.WellFormed(r.my, bid)
    decreases |B.Flat(opp, !bid)| + |B.Flat(my, bid)|
  {
    if CanMatch(opp, my, bid) {
      var v := Min(Top(opp, !bid).volume, Top(my, bid).volume);
      TradeTopShrinks(opp, !bid, v);
      TradeTopShrinks(my, bid, v);
      B.TradeTopKeepsWellFormed(opp, !bid, v);
      B.TradeTopKeepsWellFormed(my, bid, v);
      MatchBooksWellFormed(B.TradeTop(opp, !bid, v), B.TradeTop(my, bid, v), bid);
    }
  }

  /** Every empty level of `m'` was an empty level of `m`. */
  ghost predicate EmptiesNone(m: B.Book, m': B.Book) {
    forall p :: p in m' && m'[p] == [] ==> p in m && m[p] == []
  }

  /** For all books: a level matching leaves empty was empty before. */
  lemma {:induction false} MatchBooksEmptiesNoLevel(opp: B.Book, my: B.Book, bid: bool)
    ensures var r := MatchBooks(opp, my, bid); EmptiesNone(opp, r.opp) && EmptiesNone(my, r.my)
    decreases |B.Flat(opp, !bid)| + |B.Flat(my, bid)|
  {
    if CanMatch(opp, my, bid) {
      var v := Min(Top(opp, !bid).volume, Top(my, bid).volume);
      TradeTopShrinks(opp, !bid, v);
      TradeTopShrinks(my, bid, v);
      MatchBooksEmptiesNoLevel(B.TradeTop(opp, !bid, v), B.TradeTop(my, bid, v), bid);
    }
  }

  /** The loop stops exactly because a side is empty, a best level is empty, or the best prices
      do not overlap; and it takes no more iterations than there were reachable orders. */
  lemma MatchBooksStops(opp: B.Book, my: B.Book, bid: bool)
    ensures var r := MatchBooks(opp, my, bid);
      && !CanMatch(r.opp, r.my, bid)
      && (Ready(r.opp, !bid) && Ready(r.my, bid) ==>
            var o, m := Top(r.opp, !bid), Top(r.my, bid);
            if m.isBuy then m.price < o.price else o.price < m.price)
      && |r.matches| <= |B.Visible(opp, !bid)| + |B.Visible(my, bid)|
  {
    var r := MatchBooks(opp, my, bid);
    MatchBooksRefines(opp, my, bid);
    F.ExecuteStops(B.Visible(opp, !bid), B.Visible(my, bid));
    F.ExecuteBound(B.Visible(opp, !bid), B.Visible(my, bid));
    NotReady(r.opp, !bid);
    NotReady(r.my, bid);
  }

  // ---- requests ----

  datatype Books = Books(bids: B.Book, asks: B.Book) {
    function Side(bid: bool): B.Book {
      if bid then bids else asks
    }

    function With(bid: bool, m: B.Book): Books {
      if bid then Books(m, asks) else Books(bids, m)
    }

    ghost function Flat(bid: bool): seq<Order> {
      B.Flat(Side(bid), bid)
    }

    ghost predicate Valid() {
      B.WellFormed(bids, true) && B.WellFormed(asks, false)
    }
  }

  /** What a request leaves behind: the books, the reply and then the trades that were sent. */
  datatype Outcome = Outcome(books: Books, reply: Message, matches: seq<F.Match>)

  const NO_BOOKS := Books(map[], map[])

  function Reports(ms: seq<F.Match>): seq<Message> {
    if ms == [] then []
    else [TradeReport(ms[0].opposite), TradeReport(ms[0].own)] + Reports(ms[1..])
  }

  /** Two messages a match, in the order of the matches, the resting side first. */
  lemma {:induction false} ReportsEach(ms: seq<F.Match>)
    ensures |Reports(ms)| == 2 * |ms|
    ensures forall k :: 0 <= k < |ms| ==>
      Reports(ms)[2 * k] == TradeReport(ms[k].opposite) && Reports(ms)[2 * k + 1] == TradeReport(ms[k].own)
  {
    if ms != [] {
      ReportsEach(ms[1..]);
      forall k | 0 < k < |ms|
        ensures Reports(ms)[2 * k] == TradeReport(ms[k].opposite)
        ensures Reports(ms)[2 * k + 1] == TradeReport(ms[k].own)
      {
        assert ms[1..][k - 1] == ms[k];
        assert Reports(ms)[2 * k] == Reports(ms[1..])[2 * (k - 1)];
        assert Reports(ms)[2 * k + 1] == Reports(ms[1..])[2 * (k - 1) + 1];
      }
    }
  }

  ghost function MatchFrom(s: Books, bid: bool, reply: Message): Outcome {
    var r := MatchBooks(s.Side(!bid), s.Side(bid), bid);
    Outcome(s.With(!bid, r.opp).With(bid, r.my), reply, r.matches)
  }

  function SideOf(r: Request): bool {
    match r
    case Insert(o) => o.isBuy
    case Amend(a) => a.isBuy
    case Cancel(c) => c.isBuy
  }

  /** The edit a request makes to the book of its side, before any matching. */
  function Edit(m: B.Book, r: Request): B.Result {
    match r
    case Insert(o) => B.Result(B.Insert(m, o), true)
    case Amend(a) => B.Amend(m, a)
    case Cancel(c) => B.Cancel(m, c.price, c.id)
  }

  /** The order a request places as a new arrival, with the book it arrives in: an insert places
      its order; a price amend to a free price places the amended order once it has been taken out. */
  function Newcomer(m: B.Book, r: Request): Option<(Order, B.Book)> {
    match r
    case Insert(o) => Some((o, m))
    case Cancel(_) => None
    case Amend(a) =>
      var q := B.At(m, a.price);
      var i := IndexOf(q, a.id);
      if i < |q| && a.newVolume > 0 && a.newPrice != a.price && a.newPrice !in m then
        Some((q[i].(price := a.newPrice, volume := a.newVolume), B.TakeOut(m, a.price, i)))
      else None
  }

  ghost function Step(s: Books, r: Request): Outcome {
    var bid := SideOf(r);
    var edit := Edit(s.Side(bid), r);
    var s' := s.With(bid, edit.book);
    match r
    case Insert(o) => MatchFrom(s', bid, OrderReply(o.id, o.clientId))
    case Amend(a) =>
      if edit.ok then MatchFrom(s', bid, OrderReply(a.id, a.clientId))
      else Outcome(s, ErrorReply(a.clientId, "Failed to amend order"), [])
    case Cancel(c) =>
      if edit.ok then Outcome(s', OrderReply(c.id, c.clientId), [])
      else Outcome(s, ErrorReply(c.clientId, "Failed to cancel order"), [])
  }

  ghost function Run(s: Books, rs: seq<Request>): Books
    decreases |rs|
  {
    if rs == [] then s else Run(Step(s, rs[0]).books, rs[1..])
  }

  /** The trades a request, or a run of requests, makes for one side. */
  ghost function Trades(s: Books, r: Request, bid: bool): seq<Trade> {
    F.SideTrades(SideOf(r) == bid, Step(s, r).matches)
  }

  ghost function RunTrades(s: Books, rs: seq<Request>, bid: bool): seq<Trade>
    decreases |rs|
  {
    if rs == [] then [] else Trades(s, rs[0], bid) + RunTrades(Step(s, rs[0]).books, rs[1..], bid)
  }

  /** A run is its requests one after the other. */
  lemma {:induction false} RunAppend(s: Books, x: seq<Request>, y: seq<Request>, bid: bool)
    ensures Run(s, x + y) == Run(Run(s, x), y)
    ensures RunTrades(s, x + y, bid) == RunTrades(s, x, bid) + RunTrades(Run(s, x), y, bid)
    ensures |x| == 1 ==> Run(s, x) == Step(s, x[0]).books && RunTrades(s, x, bid) == Trades(s, x[0], bid)
    decreases |x|
  {
    if x == [] {
      assert x + y == y;
    } else {
      assert (x + y)[0] == x[0] && (x + y)[1..] == x[1..] + y;
      RunAppend(Step(s, x[0]).books, x[1..], y, bid);
    }
  }

  // ---- the structural invariant over every run ----

  lemma EditKeepsWellFormed(m: B.Book, r: Request)
    requires B.WellFormed(m, SideOf(r))
    ensures B.WellFormed(Edit(m, r).book, SideOf(r))
  {
    match r
    case Insert(o) => B.InsertKeepsWellFormed(m, o.isBuy, o);
    case Amend(a) => B.AmendKeepsWellFormed(m, a.isBuy, a);
    case Cancel(c) => B.CancelKeepsWellFormed(m, c.isBuy, c.price, c.id);
  }

  lemma StepValid(s: Books, r: Request)
    requires s.Valid()
    ensures Step(s, r).books.Valid()
  {
    var bid := SideOf(r);
    EditKeepsWellFormed(s.Side(bid), r);
    MatchBooksWellFormed(s.Side(!bid), Edit(s.Side(bid), r).book, bid);
  }

  lemma {:induction false} RunValid(s: Books, rs: seq<Request>)
    requires s.Valid()
    ensures Run(s, rs).Valid()
    decreases |rs|
  {
    if rs != [] {
      StepValid(s, rs[0]);
      RunValid(Step(s, rs[0]).books, rs[1..]);
    }
  }

  // ---- one request seen on the flat lists ----

  /** The edit of a request on the flat list of its side. */
  ghost function FlatEdit(m: B.Book, r: Request): seq<Order> {
    var bid := SideOf(r);
    var l := B.Flat(m, bid);
    match r
    case Insert(o) => F.Insert(bid, l, o)
    case Amend(a) => F.Amend(bid, l, a, a.newPrice in m)
    case Cancel(c) => F.Cancel(l, c.price, c.id)
  }

  lemma EditFlat(m: B.Book, r: Request)
    requires B.WellFormed(m, SideOf(r))
    ensures B.Flat(Edit(m, r).book, SideOf(r)) == FlatEdit(m, r)
    ensures !Edit(m, r).ok ==> FlatEdit(m, r) == B.Flat(m, SideOf(r))
  {
    match r
    case Insert(o) => B.InsertFlat(m, o.isBuy, o);
    case Amend(a) => B.AmendFlat(m, a.isBuy, a);
    case Cancel(c) => B.CancelFlat(m, c.isBuy, c.price, c.id);
  }

  predicate Matching(s: Books, r: Request) {
    !r.Cancel? && Edit(s.Side(SideOf(r)), r).ok
  }

  /** The lists of the two sides once the request's edit has been made, split into what matching
      can reach and what it cannot. */
  ghost function Reach(s: Books, r: Request, bid: bool): seq<Order> {
    B.Visible(if bid == SideOf(r) then Edit(s.Side(bid), r).book else s.Side(bid), bid)
  }

  ghost function Beyond(s: Books, r: Request, bid: bool): seq<Order> {
    B.Hidden(if bid == SideOf(r) then Edit(s.Side(bid), r).book else s.Side(bid), bid)
  }

  /** A request is its edit on the flat list followed by flat matching of the reachable orders. */
  lemma StepFlat(s: Books, r: Request)
    requires s.Valid()
    ensures var bid := SideOf(r); var out := Step(s, r);
      var e := if Matching(s, r) then F.Execute(Reach(s, r, !bid), Reach(s, r, bid))
               else F.Execution(Reach(s, r, !bid), Reach(s, r, bid), []);
      && s.Flat(!bid) == Reach(s, r, !bid) + Beyond(s, r, !bid)
      && FlatEdit(s.Side(bid), r) == Reach(s, r, bid) + Beyond(s, r, bid)
      && out.books.Flat(!bid) == e.opp + Beyond(s, r, !bid)
      && out.books.Flat(bid) == e.my + Beyond(s, r, bid)
      && out.matches == e.matches
  {
    var bid := SideOf(r);
    var my, opp := Edit(s.Side(bid), r).book, s.Side(!bid);
    EditFlat(s.Side(bid), r);
    B.VisibleHidden(my, bid);
    B.VisibleHidden(opp, !bid);
    var m := MatchBooks(opp, my, bid);
    MatchBooksRefines(opp, my, bid);
    B.VisibleHidden(m.my, bid);
    B.VisibleHidden(m.opp, !bid);
  }
}
