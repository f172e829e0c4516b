/** Requests and runs of requests on the two books together: when they stay uncrossed, what an
    incoming order trades, and how a cancel can stop the books from matching. */
module MarketRuns {
  import opened Orders
  import opened Wrappers
  import opened MatchingModel
  import opened Uncrossed
  import F = FlatBook
  import B = PriceBook

  ghost predicate AllPositive(s: Books) {
    F.Positive(s.Flat(true)) && F.Positive(s.Flat(false))
  }

  /** Validated inserts carry volume. */
  predicate Validated(r: Request) {
    r.Insert? ==> r.order.volume > 0
  }

  ghost predicate HasPrice(l: seq<Order>, p: nat) {
    exists j :: 0 <= j < |l| && l[j].price == p
  }

  /** Every price of one list occurs in the other. */
  ghost predicate PricesWithin(l': seq<Order>, l: seq<Order>) {
    forall i :: 0 <= i < |l'| ==> HasPrice(l, l'[i].price)
  }

  lemma RemovePrices(l: seq<Order>, i: nat)
    requires i < |l|
    ensures PricesWithin(RemoveAt(l, i), l)
  {
  }

  lemma SelfPrices(l: seq<Order>)
    ensures PricesWithin(l, l)
  {
  }

  lemma PricesNoCross(bid: bool, l': seq<Order>, l: seq<Order>, opp: seq<Order>)
    requires PricesWithin(l', l) && F.NoCross(bid, l, opp)
    ensures F.NoCross(bid, l', opp)
  {
  }

  /** The newcomer arrives in a book whose live prices were all there before. */
  lemma NewcomerArrives(m: B.Book, r: Request)
    requires B.WellFormed(m, SideOf(r)) && Newcomer(m, r).Some?
    ensures var (o, base) := Newcomer(m, r).value; var bid := SideOf(r);
      && Edit(m, r) == B.Result(B.Insert(base, o), true)
      && o.isBuy == bid && B.WellFormed(base, bid)
      && PricesWithin(B.Flat(base, bid), B.Flat(m, bid))
  {
    var bid := SideOf(r);
    if r.Amend? {
      var a := r.amend;
      var i := IndexOf(m[a.price], a.id);
      var base := B.TakeOut(m, a.price, i);
      B.MoveIsTakeOutInsert(m, a);
      B.TakeOutKeepsWellFormed(m, bid, a.price, i);
      B.WellFormedSide(m, bid, a.price, i);
      B.FoundRemoved(m, bid, a.price, a.id, base);
      RemovePrices(B.Flat(m, bid), F.Find(B.Flat(m, bid), a.price, a.id));
    } else {
      SelfPrices(B.Flat(m, bid));
    }
  }

  /** Every other request leaves only prices that were there before. */
  lemma NobodyArrives(m: B.Book, r: Request)
    requires B.WellFormed(m, SideOf(r)) && Newcomer(m, r).None?
    ensures PricesWithin(FlatEdit(m, r), B.Flat(m, SideOf(r)))
  {
    var l := B.Flat(m, SideOf(r));
    SelfPrices(l);
    match r
    case Cancel(c) =>
      var i := F.Find(l, c.price, c.id);
      if i < |l| {
        RemovePrices(l, i);
      }
    case Amend(a) =>
      B.FindFlat(m, a.isBuy, a.price, a.id);
      AmendPrices(a.isBuy, l, a, a.newPrice in m);
  }

  lemma AmendPrices(bid: bool, l: seq<Order>, a: AmendData, occupied: bool)
    requires F.Find(l, a.price, a.id) < |l| ==> a.newVolume == 0 || a.newPrice == a.price || occupied
    ensures PricesWithin(F.Amend(bid, l, a, occupied), l)
  {
    SelfPrices(l);
    var i := F.Find(l, a.price, a.id);
    if i < |l| {
      RemovePrices(l, i);
    }
  }

  /** A request that places nobody trades nothing and leaves uncrossed books uncrossed. */
  lemma QuietStep(s: Books, r: Request)
    requires s.Valid() && IsUncrossed(s)
    requires Newcomer(s.Side(SideOf(r)), r).None?
    ensures Step(s, r).matches == [] && IsUncrossed(Step(s, r).books)
  {
    var bid := SideOf(r);
    var m := s.Side(bid);
    var l, opp := FlatEdit(m, r), s.Flat(!bid);
    NobodyArrives(m, r);
    UncrossedEitherWay(s, SideOf(r));
    PricesNoCross(bid, l, s.Flat(bid), opp);
    StepFlat(s, r);
    EditKeepsWellFormed(m, r);
    VisiblePlain(Edit(m, r).book, bid);
    EditFlat(m, r);
    NoCrossPart(bid, l, Reach(s, r, !bid), Beyond(s, r, !bid));
    NoCrossSplit(bid, Reach(s, r, bid), Beyond(s, r, bid), Reach(s, r, !bid));
    PrefixOnSide(bid, Reach(s, r, bid), Beyond(s, r, bid));
    F.Stuck(bid, Reach(s, r, !bid), Reach(s, r, bid));
    UncrossedEitherWay(Step(s, r).books, bid);
  }

  /** The step of a newcomer is its placement. */
  lemma PlacingStep(s: Books, r: Request)
    requires s.Valid() && IsUncrossed(s) && AllPositive(s) && Validated(r)
    requires Newcomer(s.Side(SideOf(r)), r).Some?
    ensures var (o, base) := Newcomer(s.Side(SideOf(r)), r).value; var bid := SideOf(r);
      var m := MatchBooks(s.Side(!bid), B.Insert(base, o), bid); var out := Step(s, r);
      && o.isBuy == bid && Meets(s.Side(!bid), base, o)
      && out.matches == m.matches
      && out.books.Flat(bid) == B.Flat(m.my, bid) && out.books.Flat(!bid) == B.Flat(m.opp, !bid)
  {
    var bid := SideOf(r);
    NewcomerArrives(s.Side(bid), r);
    UncrossedEitherWay(s, SideOf(r));
    var (o, base) := Newcomer(s.Side(bid), r).value;
    PricesNoCross(bid, B.Flat(base, bid), s.Flat(bid), s.Flat(!bid));
  }

  /** The request places nobody, or the guard of the order it places holds beforehand. */
  ghost predicate Guarded(s: Books, r: Request) {
    var bid := SideOf(r);
    match Newcomer(s.Side(bid), r)
    case None => true
    case Some((o, base)) => Guard(s.Side(!bid), base, o)
  }

  /** From uncrossed books, any request leaves them uncrossed if and only if it places nobody or
      the guard of the order it places holds. The guard looks only at the books before the call. */
  lemma StepUncrossed(s: Books, r: Request)
    requires s.Valid() && IsUncrossed(s) && AllPositive(s) && Validated(r)
    ensures IsUncrossed(Step(s, r).books) <==> Guarded(s, r)
  {
    var bid := SideOf(r);
    if Newcomer(s.Side(bid), r).None? {
      QuietStep(s, r);
    } else {
      var (o, base) := Newcomer(s.Side(bid), r).value;
      PlacingStep(s, r);
      PlaceUncrossed(s.Side(!bid), base, o);
      UncrossedEitherWay(Step(s, r).books, bid);
    }
  }

  /** From uncrossed books every trade of the requesting side belongs to the order being placed. */
  lemma SingleAggressor(s: Books, r: Request)
    requires s.Valid() && IsUncrossed(s) && AllPositive(s) && Validated(r)
    ensures forall t :: t in Trades(s, r, SideOf(r)) ==>
      && Newcomer(s.Side(SideOf(r)), r).Some?
      && F.TradeBy(Newcomer(s.Side(SideOf(r)), r).value.0, t)
  {
    var bid := SideOf(r);
    if Newcomer(s.Side(bid), r).None? {
      QuietStep(s, r);
    } else {
      var (o, base) := Newcomer(s.Side(bid), r).value;
      PlacingStep(s, r);
      PlaceExactly(s.Side(!bid), base, o);
    }
  }

  // ---- positive volumes and well-formed matches over every run ----

  lemma EditPositive(m: B.Book, r: Request)
    requires Validated(r) && F.Positive(B.Flat(m, SideOf(r)))
    ensures F.Positive(FlatEdit(m, r))
  {
    var bid := SideOf(r);
    var l := B.Flat(m, bid);
    match r
    case Insert(o) => InsertPositive(bid, l, o);
    case Cancel(c) =>
      var i := F.Find(l, c.price, c.id);
      if i < |l| {
        RemovePositive(l, i);
      }
    case Amend(a) => AmendPositive(bid, l, a, a.newPrice in m);
  }

  lemma AmendPositive(bid: bool, l: seq<Order>, a: AmendData, occupied: bool)
    requires F.Positive(l)
    ensures F.Positive(F.Amend(bid, l, a, occupied))
  {
    var i := F.Find(l, a.price, a.id);
    if i < |l| {
      RemovePositive(l, i);
      if a.newVolume > 0 {
        InsertPositive(bid, RemoveAt(l, i), l[i].(price := a.newPrice, volume := a.newVolume));
      }
    }
  }

  lemma InsertPositive(bid: bool, l: seq<Order>, o: Order)
    requires F.Positive(l) && o.volume > 0
    ensures F.Positive(F.Insert(bid, l, o))
  {
  }

  lemma RemovePositive(l: seq<Order>, i: nat)
    requires i < |l| && F.Positive(l)
    ensures F.Positive(RemoveAt(l, i))
  {
  }

  lemma PositiveConcat(a: seq<Order>, b: seq<Order>)
    ensures F.Positive(a + b) <==> F.Positive(a) && F.Positive(b)
  {
    forall i | 0 <= i < |b| ensures b[i] == (a + b)[|a| + i] {
    }
    forall i | 0 <= i < |a| ensures a[i] == (a + b)[i] {
    }
  }

  /** Every match a request sends is a pair of trades of equal volume, the resting side first, each
      in the name of an order of its side and at its limit price, the ask priced no higher than the
      bid. With validated requests the volumes traded and resting are positive. */
  lemma StepMatches(s: Books, r: Request)
    requires s.Valid()
    ensures forall k :: 0 <= k < |Step(s, r).matches| ==>
      F.GoodMatch(SideOf(r), s.Flat(!SideOf(r)), FlatEdit(s.Side(SideOf(r)), r), Step(s, r).matches[k])
    ensures AllPositive(s) && Validated(r) ==>
      && AllPositive(Step(s, r).books)
      && forall k :: 0 <= k < |Step(s, r).matches| ==> Step(s, r).matches[k].own.volume > 0
  {
    var bid := SideOf(r);
    var m := s.Side(bid);
    StepFlat(s, r);
    if Validated(r) && AllPositive(s) {
      EditPositive(m, r);
    }
    var opp, my := Reach(s, r, !bid), Reach(s, r, bid);
    var ho, hm := Beyond(s, r, !bid), Beyond(s, r, bid);
    PositiveConcat(opp, ho);
    PositiveConcat(my, hm);
    EditKeepsWellFormed(m, r);
    EditFlat(m, r);
    VisiblePlain(Edit(m, r).book, bid);
    PrefixOnSide(bid, my, hm);
    F.ExecutePairs(bid, opp, my);
    var e := F.Execute(opp, my);
    PositiveConcat(e.opp, ho);
    PositiveConcat(e.my, hm);
    forall k | 0 <= k < |Step(s, r).matches|
      ensures F.GoodMatch(bid, opp + ho, my + hm, Step(s, r).matches[k])
    {
      TradeFromPrefix(opp, ho, e.matches[k].opposite);
      TradeFromPrefix(my, hm, e.matches[k].own);
    }
  }

  lemma TradeFromPrefix(l: seq<Order>, h: seq<Order>, t: Trade)
    requires F.TradeFrom(l, t)
    ensures F.TradeFrom(l + h, t)
  {
    var i :| 0 <= i < |l| && F.TradeBy(l[i], t) && t.volume <= l[i].volume;
    assert (l + h)[i] == l[i];
  }

  // ---- any run ----

  ghost predicate RunValidated(rs: seq<Request>) {
    forall i :: 0 <= i < |rs| ==> Validated(rs[i])
  }

  /** Validated requests never leave an order without volume. */
  lemma {:induction false} RunPositive(s: Books, rs: seq<Request>)
    requires s.Valid() && AllPositive(s) && RunValidated(rs)
    ensures AllPositive(Run(s, rs))
    decreases |rs|
  {
    if rs != [] {
      StepMatches(s, rs[0]);
      StepValid(s, rs[0]);
      RunPositive(Step(s, rs[0]).books, rs[1..]);
    }
  }

  ghost predicate RunGuarded(s: Books, rs: seq<Request>)
    decreases |rs|
  {
    rs != [] ==> Guarded(s, rs[0]) && RunGuarded(Step(s, rs[0]).books, rs[1..])
  }

  /** The books are uncrossed before and after every request of the run. */
  ghost predicate AlwaysUncrossed(s: Books, rs: seq<Request>)
    decreases |rs|
  {
    IsUncrossed(s) && (rs != [] ==> AlwaysUncrossed(Step(s, rs[0]).books, rs[1..]))
  }

  /** A run stays uncrossed throughout if and only if every request of it is guarded. */
  lemma {:induction false} RunUncrossed(s: Books, rs: seq<Request>)
    requires s.Valid() && IsUncrossed(s) && AllPositive(s) && RunValidated(rs)
    ensures AlwaysUncrossed(s, rs) <==> RunGuarded(s, rs)
    decreases |rs|
  {
    if rs != [] {
      var s' := Step(s, rs[0]).books;
      StepUncrossed(s, rs[0]);
      StepMatches(s, rs[0]);
      StepValid(s, rs[0]);
      if IsUncrossed(s') {
        RunUncrossed(s', rs[1..]);
      }
    }
  }

  // ---- what matching can reach, over any run ----

  /** After every request, valid or not, nothing that matching can reach overlaps. */
  lemma StepReach(s: Books, r: Request)
    requires s.Valid() && ReachUncrossed(s)
    ensures ReachUncrossed(Step(s, r).books)
  {
    var bid := SideOf(r);
    var m, opp := s.Side(bid), s.Side(!bid);
    StepValid(s, r);
    ReachUncrossedExactly(Step(s, r).books, bid);
    if Matching(s, r) {
      MatchBooksStops(opp, Edit(m, r).book, bid);
    } else if r.Cancel? && Edit(m, r).ok {
      B.RemoveVisible(m, bid, r.cancel.price, IndexOf(m[r.cancel.price], r.cancel.id));
      WithinNoCross(bid, B.Visible(Edit(m, r).book, bid), B.Visible(m, bid), B.Visible(opp, !bid));
    }
  }

  lemma WithinNoCross(bid: bool, l': seq<Order>, l: seq<Order>, opp: seq<Order>)
    requires F.NoCross(bid, l, opp) && forall x :: x in l' ==> x in l
    ensures F.NoCross(bid, l', opp)
  {
    forall i | 0 <= i < |l'| ensures exists j :: 0 <= j < |l| && l[j] == l'[i] {
      assert l'[i] in l';
    }
  }

  /** Over any run whatever, cancelled levels and orders without volume included, nothing that
      matching can reach ever overlaps: the loop condition of matching is false between requests. */
  lemma {:induction false} RunReach(s: Books, rs: seq<Request>)
    requires s.Valid() && ReachUncrossed(s)
    ensures var s' := Run(s, rs);
      && ReachUncrossed(s')
      && forall bid :: !CanMatch(s'.Side(!bid), s'.Side(bid), bid)
    decreases |rs|
  {
    if rs == [] {
      ReachUncrossedExactly(s, true);
      ReachUncrossedExactly(s, false);
    } else {
      StepReach(s, rs[0]);
      StepValid(s, rs[0]);
      RunReach(Step(s, rs[0]).books, rs[1..]);
    }
  }

  // ---- runs without emptied levels ----

  /** The request does not cancel the last order of a level. */
  predicate KeepsLevel(s: Books, r: Request) {
    var m := s.Side(SideOf(r));
    r.Cancel? && B.Cancel(m, r.cancel.price, r.cancel.id).ok ==> |m[r.cancel.price]| > 1
  }

  ghost predicate RunKeepsLevels(s: Books, rs: seq<Request>)
    decreases |rs|
  {
    rs != [] ==> KeepsLevel(s, rs[0]) && RunKeepsLevels(Step(s, rs[0]).books, rs[1..])
  }

  ghost predicate NoEmptyLevels(s: Books) {
    B.NoEmptyLevel(s.bids) && B.NoEmptyLevel(s.asks)
  }

  /** No level is empty before and after every request of the run. */
  ghost predicate NeverEmptyLevels(s: Books, rs: seq<Request>)
    decreases |rs|
  {
    NoEmptyLevels(s) && (rs != [] ==> NeverEmptyLevels(Step(s, rs[0]).books, rs[1..]))
  }

  /** A request empties a level if and only if it cancels the last order of one. */
  lemma StepEmptiesLevel(s: Books, r: Request)
    requires NoEmptyLevels(s)
    ensures NoEmptyLevels(Step(s, r).books) <==> KeepsLevel(s, r)
  {
    var bid := SideOf(r);
    if KeepsLevel(s, r) {
      EditNoEmptyLevel(s.Side(bid), r);
      MatchBooksEmptiesNoLevel(s.Side(!bid), Edit(s.Side(bid), r).book, bid);
    } else {
      assert Step(s, r).books.Side(bid)[r.cancel.price] == [];
    }
  }

  /** A run stays free of empty levels throughout if and only if no request of it cancels the last
      order of a level. */
  lemma {:induction false} RunEmptiesLevel(s: Books, rs: seq<Request>)
    requires NoEmptyLevels(s)
    ensures NeverEmptyLevels(s, rs) <==> RunKeepsLevels(s, rs)
    decreases |rs|
  {
    if rs != [] {
      StepEmptiesLevel(s, rs[0]);
      if KeepsLevel(s, rs[0]) {
        RunEmptiesLevel(Step(s, rs[0]).books, rs[1..]);
      }
    }
  }

  /** What the engine keeps as long as no cancel empties a level. */
  ghost predicate Healthy(s: Books) {
    s.Valid() && AllPositive(s) && IsUncrossed(s) && NoEmptyLevels(s)
  }

  lemma EditNoEmptyLevel(m: B.Book, r: Request)
    requires B.NoEmptyLevel(m)
    requires r.Cancel? && B.Cancel(m, r.cancel.price, r.cancel.id).ok ==> |m[r.cancel.price]| > 1
    ensures B.NoEmptyLevel(Edit(m, r).book)
    ensures Newcomer(m, r).Some? ==> B.NoEmptyLevel(Newcomer(m, r).value.1)
  {
  }

  /** Without empty levels the guard always holds. */
  lemma GuardHolds(opp: B.Book, my: B.Book, o: Order)
    requires Meets(opp, my, o) && B.NoEmptyLevel(opp) && B.NoEmptyLevel(my)
    ensures Guard(opp, my, o)
    ensures F.CrossesAny(o.isBuy, o.price, B.Flat(opp, !o.isBuy)) ==> !Blocked(my, o.isBuy, o.price)
  {
    var bid := o.isBuy;
    B.NothingHidden(opp, !bid);
    if Blocked(my, bid, o.price) {
      var q :| q in my && Better(bid, q, o.price);
      QueueNoCross(opp, my, bid, q);
      assert forall p :: Crosses(bid, o.price, p) ==> Crosses(bid, q, p);
    }
  }

  lemma StepHealthy(s: Books, r: Request)
    requires Healthy(s) && Validated(r)
    ensures Healthy(Step(s, r).books) <==> KeepsLevel(s, r)
  {
    var bid := SideOf(r);
    StepEmptiesLevel(s, r);
    if KeepsLevel(s, r) {
      StepValid(s, r);
      StepMatches(s, r);
      StepUncrossed(s, r);
      EditNoEmptyLevel(s.Side(bid), r);
      if Newcomer(s.Side(bid), r).Some? {
        var (o, base) := Newcomer(s.Side(bid), r).value;
        PlacingStep(s, r);
        GuardHolds(s.Side(!bid), base, o);
      }
    }
  }

  /** The books are healthy before and after every request of the run. */
  ghost predicate AlwaysHealthy(s: Books, rs: seq<Request>)
    decreases |rs|
  {
    Healthy(s) && (rs != [] ==> AlwaysHealthy(Step(s, rs[0]).books, rs[1..]))
  }

  /** Healthy books stay uncrossed and free of empty levels throughout a run of validated requests
      if and only if no cancel of the run takes the last order of a level. */
  lemma {:induction false} RunHealthy(s: Books, rs: seq<Request>)
    requires Healthy(s) && RunValidated(rs)
    ensures AlwaysHealthy(s, rs) <==> RunKeepsLevels(s, rs)
    decreases |rs|
  {
    if rs != [] {
      StepHealthy(s, rs[0]);
      if KeepsLevel(s, rs[0]) {
        RunHealthy(Step(s, rs[0]).books, rs[1..]);
      }
    }
  }

  /** The same for every run of a new engine. */
  lemma RunFromEmpty(rs: seq<Request>)
    requires RunValidated(rs)
    ensures AlwaysHealthy(NO_BOOKS, rs) <==> RunKeepsLevels(NO_BOOKS, rs)
  {
    assert Healthy(NO_BOOKS);
    RunHealthy(NO_BOOKS, rs);
  }

  /** On healthy books a request that places an order trades the smaller of its volume and all the
      volume its price crosses, takes it from the front of the opposite list one order after the
      other, and rests only what remains. */
  lemma PlacementRefines(s: Books, r: Request)
    requires Healthy(s) && Validated(r) && Newcomer(s.Side(SideOf(r)), r).Some?
    ensures var bid := SideOf(r); var (o, base) := Newcomer(s.Side(bid), r).value; var out := Step(s, r);
      var t := Min(o.volume, F.CrossVolume(bid, o.price, s.Flat(!bid)));
      && o.isBuy == bid
      && F.TradedVolume(Trades(s, r, bid)) == t
      && out.matches == F.Fills(s.Flat(!bid), o, t)
      && out.books.Flat(!bid) == F.DropVolume(s.Flat(!bid), t)
      && out.books.Flat(bid) == Residue(o, t, B.Flat(base, bid))
  {
    var bid := SideOf(r);
    var opp := s.Side(!bid);
    var (o, base) := Newcomer(s.Side(bid), r).value;
    PlacingStep(s, r);
    NewcomerNoEmptyLevel(s.Side(bid), r);
    PlaceExactly(opp, base, o);
    B.NothingHidden(opp, !bid);
    GuardHolds(opp, base, o);
    if !F.CrossesAny(bid, o.price, s.Flat(!bid)) {
      F.NoCrossVolume(bid, o.price, s.Flat(!bid));
    }
    assert forall l: seq<Order> :: l + [] == l;
  }

  lemma NewcomerNoEmptyLevel(m: B.Book, r: Request)
    requires B.NoEmptyLevel(m) && Newcomer(m, r).Some?
    ensures B.NoEmptyLevel(Newcomer(m, r).value.1)
  {
  }

  /** An insert on healthy books. */
  lemma InsertRefines(s: Books, o: Order)
    requires Healthy(s) && o.volume > 0
    ensures var bid := o.isBuy; var out := Step(s, Insert(o));
      var t := Min(o.volume, F.CrossVolume(bid, o.price, s.Flat(!bid)));
      && F.TradedVolume(Trades(s, Insert(o), bid)) == t
      && out.matches == F.Fills(s.Flat(!bid), o, t)
      && out.books.Flat(!bid) == F.DropVolume(s.Flat(!bid), t)
      && out.books.Flat(bid) == Residue(o, t, s.Flat(bid))
  {
    PlacementRefines(s, Insert(o));
  }

  /** A price amend to a free price on healthy books: the amended order is taken out of its list and
      trades and rests like a new arrival. */
  lemma MoveRefines(s: Books, a: AmendData)
    requires Healthy(s) && a.newVolume > 0 && a.newPrice != a.price && a.newPrice !in s.Side(a.isBuy)
    requires F.Find(s.Flat(a.isBuy), a.price, a.id) < |s.Flat(a.isBuy)|
    ensures var bid := a.isBuy; var out := Step(s, Amend(a));
      var k := F.Find(s.Flat(bid), a.price, a.id);
      var o := s.Flat(bid)[k].(price := a.newPrice, volume := a.newVolume);
      var t := Min(o.volume, F.CrossVolume(bid, o.price, s.Flat(!bid)));
      && F.TradedVolume(Trades(s, Amend(a), bid)) == t
      && out.matches == F.Fills(s.Flat(!bid), o, t)
      && out.books.Flat(!bid) == F.DropVolume(s.Flat(!bid), t)
      && out.books.Flat(bid) == Residue(o, t, RemoveAt(s.Flat(bid), k))
  {
    var m := s.Side(a.isBuy);
    B.FindFlat(m, a.isBuy, a.price, a.id);
    B.FoundRemoved(m, a.isBuy, a.price, a.id, B.TakeOut(m, a.price, IndexOf(m[a.price], a.id)));
    PlacementRefines(s, Amend(a));
  }

  // ---- a cancel that empties a level can leave the books crossed ----

  lemma NoMatch(s: Books, bid: bool, reply: Message)
    requires !CanMatch(s.Side(!bid), s.Side(bid), bid)
    ensures MatchFrom(s, bid, reply) == Outcome(s, reply, [])
  {
  }

  lemma OneOrder(o: Order)
    ensures B.Flat(map[o.price := [o]], o.isBuy) == [o]
  {
    var m := map[o.price := [o]];
    B.BestIs(m, o.isBuy, o.price);
    assert m - {o.price} == map[];
  }

  /** A bid is inserted and cancelled; its level stays. An ask and then a lower bid follow: the
      two overlap, and are left resting. */
  lemma CancelledLevelBlocks(b0: Order, a: Order, b: Order, c: CancelData)
    requires b0.isBuy && !a.isBuy && b.isBuy && b0.price > b.price >= a.price
    requires c == CancelData(b0.price, true, b0.id, b0.clientId)
    ensures var rs := [Insert(b0), Cancel(c), Insert(a), Insert(b)]; var s := Run(NO_BOOKS, rs);
      && s.Flat(true) == [b] && s.Flat(false) == [a] && !IsUncrossed(s)
      && RunTrades(NO_BOOKS, rs, true) == []
  {
    var rs := [Insert(b0), Cancel(c), Insert(a), Insert(b)];
    var s1 := Books(map[b0.price := [b0]], map[]);
    var s2 := Books(map[b0.price := []], map[]);
    var s3 := Books(map[b0.price := []], map[a.price := [a]]);
    var s4 := Books(map[b0.price := [], b.price := [b]], map[a.price := [a]]);
    assert Step(NO_BOOKS, rs[0]) == Outcome(s1, OrderReply(b0.id, b0.clientId), []) by {
      assert [] + [b0] == [b0];
      NoMatch(s1, true, OrderReply(b0.id, b0.clientId));
    }
    assert Step(s1, rs[1]) == Outcome(s2, OrderReply(c.id, c.clientId), []) by {
      assert IndexOf([b0], c.id) == 0;
      assert RemoveAt([b0], 0) == [];
    }
    assert Step(s2, rs[2]) == Outcome(s3, OrderReply(a.id, a.clientId), []) by {
      B.BestIs(s3.bids, true, b0.price);
      assert [] + [a] == [a];
      NoMatch(s3, false, OrderReply(a.id, a.clientId));
    }
    assert Step(s3, rs[3]) == Outcome(s4, OrderReply(b.id, b.clientId), []) by {
      B.BestIs(s4.bids, true, b0.price);
      assert [] + [b] == [b];
      NoMatch(s4, true, OrderReply(b.id, b.clientId));
    }
    BlockedRun(rs, s1, s2, s3, s4);
    BlockedBooks(b0, a, b);
  }

  lemma BlockedBooks(b0: Order, a: Order, b: Order)
    requires b0.isBuy && !a.isBuy && b.isBuy && b0.price > b.price >= a.price
    ensures var s := Books(map[b0.price := [], b.price := [b]], map[a.price := [a]]);
      s.Flat(true) == [b] && s.Flat(false) == [a] && !IsUncrossed(s)
  {
    var s := Books(map[b0.price := [], b.price := [b]], map[a.price := [a]]);
    B.BestIs(s.bids, true, b0.price);
    assert s.bids - {b0.price} == map[b.price := [b]];
    OneOrder(b);
    OneOrder(a);
    assert Crosses(true, s.Flat(true)[0].price, s.Flat(false)[0].price);
  }

  lemma BlockedRun(rs: seq<Request>, s1: Books, s2: Books, s3: Books, s4: Books)
    requires |rs| == 4
    requires Step(NO_BOOKS, rs[0]).books == s1 && Step(NO_BOOKS, rs[0]).matches == []
    requires Step(s1, rs[1]).books == s2 && Step(s1, rs[1]).matches == []
    requires Step(s2, rs[2]).books == s3 && Step(s2, rs[2]).matches == []
    requires Step(s3, rs[3]).books == s4 && Step(s3, rs[3]).matches == []
    ensures Run(NO_BOOKS, rs) == s4 && RunTrades(NO_BOOKS, rs, true) == []
  {
    var r1, r2, r3, r4 := rs[1..], rs[1..][1..], rs[1..][1..][1..], rs[1..][1..][1..][1..];
    assert r4 == [] && r1[0] == rs[1] && r2[0] == rs[2] && r3[0] == rs[3];
    assert Run(s3, r3) == Run(s4, r4) == s4;
    assert Run(s2, r2) == Run(s3, r3);
    assert Run(s1, r1) == Run(s2, r2);
    assert RunTrades(s4, r4, true) == [];
    assert RunTrades(s3, r3, true) == [];
    assert RunTrades(s2, r2, true) == [];
    assert RunTrades(s1, r1, true) == [];
  }

  // ---- an amend onto an existing level loses its order ----

  /** Two orders rest on one side at different prices; the first is amended to the price of the
      second. The amend is confirmed, and only the second order is left. */
  lemma AmendedOrderVanishes(a: Order, b: Order, m: AmendData)
    requires a.isBuy == b.isBuy == m.isBuy && a.price != b.price
    requires m.price == a.price && m.newPrice == b.price && m.id == a.id && m.newVolume > 0
    ensures var bid := a.isBuy; var s := Run(NO_BOOKS, [Insert(a), Insert(b)]);
      var out := Step(s, Amend(m));
      && s.Flat(bid) == (if Better(bid, a.price, b.price) then [a, b] else [b, a])
      && out.reply == OrderReply(a.id, m.clientId) && out.matches == []
      && out.books.Flat(bid) == [b] && out.books.Flat(!bid) == []
  {
    var bid := a.isBuy;
    var s1 := NO_BOOKS.With(bid, map[a.price := [a]]);
    var s2 := NO_BOOKS.With(bid, map[a.price := [a], b.price := [b]]);
    var s3 := NO_BOOKS.With(bid, map[b.price := [b]]);
    assert Step(NO_BOOKS, Insert(a)).books == s1 by {
      assert [] + [a] == [a];
      NoMatch(s1, bid, OrderReply(a.id, a.clientId));
    }
    assert Step(s1, Insert(b)).books == s2 by {
      assert [] + [b] == [b];
      NoMatch(s2, bid, OrderReply(b.id, b.clientId));
    }
    RunOfTwo(NO_BOOKS, Insert(a), Insert(b));
    assert Step(s2, Amend(m)) == Outcome(s3, OrderReply(m.id, m.clientId), []) by {
      assert IndexOf([a], m.id) == 0;
      assert s2.Side(bid) - {a.price} == s3.Side(bid);
      NoMatch(s3, bid, OrderReply(m.id, m.clientId));
    }
    OneOrder(b);
    TwoOrders(a, b);
  }

  lemma RunOfTwo(s: Books, a: Request, b: Request)
    ensures Run(s, [a, b]) == Step(Step(s, a).books, b).books
  {
    var s1 := Step(s, a).books;
    assert [a, b][1..] == [b] && [b][1..] == [];
    assert Run(s1, [b]) == Run(Step(s1, b).books, []);
  }

  lemma TwoOrders(a: Order, b: Order)
    requires a.isBuy == b.isBuy && a.price != b.price
    ensures B.Flat(map[a.price := [a], b.price := [b]], a.isBuy)
         == if Better(a.isBuy, a.price, b.price) then [a, b] else [b, a]
  {
    var bid, m := a.isBuy, map[a.price := [a], b.price := [b]];
    var (x, y) := if Better(bid, a.price, b.price) then (a, b) else (b, a);
    B.BestIs(m, bid, x.price);
    assert m - {x.price} == map[y.price := [y]];
    OneOrder(y);
    assert m[x.price] + [y] == [x, y];
  }
}
