/** Where the volume goes: conservation over whole runs of requests. */
module Ledger {
  import opened Orders
  import opened Wrappers
  import opened MatchingModel
  import F = FlatBook
  import B = PriceBook
  import R = MarketRuns

  /** Volume booked for one side. `dropped` is what price amends to an occupied level lose. */
  datatype Account = Account(inserted: nat, amended: int, traded: nat, cancelled: nat, dropped: nat) {
    function Plus(x: Account): Account {
      Account(inserted + x.inserted, amended + x.amended, traded + x.traded,
              cancelled + x.cancelled, dropped + x.dropped)
    }
  }

  const NO_VOLUME := Account(0, 0, 0, 0, 0)

  /** The resting order an amend or a cancel names, if there is one. */
  function Named(m: B.Book, r: Request): Option<Order> {
    var (p, id) := match r
      case Insert(o) => (o.price, o.id)
      case Amend(a) => (a.price, a.id)
      case Cancel(c) => (c.price, c.id);
    var q := B.At(m, p);
    var i := IndexOf(q, id);
    if r.Insert? || i == |q| then None else Some(q[i])
  }

  /** The price amend names a resting order and a price that already has a level. */
  predicate DropsOrder(m: B.Book, r: Request) {
    && r.Amend? && Named(m, r).Some?
    && r.amend.newVolume > 0 && r.amend.newPrice != r.amend.price && r.amend.newPrice in m
  }

  /** What the request's edit books for its own side. */
  function EditAccount(m: B.Book, r: Request): Account {
    match r
    case Insert(o) => NO_VOLUME.(inserted := o.volume)
    case Cancel(_) =>
      (match Named(m, r) case None => NO_VOLUME case Some(o) => NO_VOLUME.(cancelled := o.volume))
    case Amend(a) =>
      match Named(m, r)
      case None => NO_VOLUME
      case Some(o) =>
        if a.newVolume == 0 then NO_VOLUME.(cancelled := o.volume)
        else if DropsOrder(m, r) then NO_VOLUME.(dropped := o.volume)
        else NO_VOLUME.(amended := a.newVolume - o.volume)
  }

  ghost function StepAccount(s: Books, r: Request, bid: bool): Account {
    var own := if SideOf(r) == bid then EditAccount(s.Side(bid), r) else NO_VOLUME;
    own.(traded := F.TradedVolume(Trades(s, r, bid)))
  }

  ghost function RunAccount(s: Books, rs: seq<Request>, bid: bool): Account
    decreases |rs|
  {
    if rs == [] then NO_VOLUME
    else StepAccount(s, rs[0], bid).Plus(RunAccount(Step(s, rs[0]).books, rs[1..], bid))
  }

  lemma NamedIsFound(m: B.Book, r: Request)
    requires B.WellFormed(m, SideOf(r)) && !r.Insert?
    ensures var l := B.Flat(m, SideOf(r));
      var i := if r.Amend? then F.Find(l, r.amend.price, r.amend.id) else F.Find(l, r.cancel.price, r.cancel.id);
      match Named(m, r) case None => i == |l| case Some(o) => i < |l| && l[i] == o
  {
    var bid := SideOf(r);
    var (p, id) := if r.Amend? then (r.amend.price, r.amend.id) else (r.cancel.price, r.cancel.id);
    B.FindFlat(m, bid, p, id);
    var a, q, c := B.Parts(m, bid, p);
  }

  /** What a request books for either side, told from the list of that side: an insert its volume, a
      cancel or an amend to nothing the volume of the order it finds there, any other amend the
      change of volume, unless its new price has a level: then the order's volume is dropped. */
  lemma AccountMeans(s: Books, r: Request, bid: bool)
    requires s.Valid()
    ensures var x, l := StepAccount(s, r, bid), s.Flat(bid);
      && x.traded == F.TradedVolume(Trades(s, r, bid))
      && match r
         case Insert(o) =>
           x.inserted == (if o.isBuy == bid then o.volume else 0) && x.amended == x.cancelled == x.dropped == 0
         case Cancel(c) =>
           var i := F.Find(l, c.price, c.id);
           && x.cancelled == (if c.isBuy == bid && i < |l| then l[i].volume else 0)
           && x.inserted == x.amended == x.dropped == 0
         case Amend(a) =>
           var i := F.Find(l, a.price, a.id);
           x.inserted == 0
           && if a.isBuy != bid || i == |l| then x.amended == x.cancelled == x.dropped == 0
              else if a.newVolume == 0 then x.cancelled == l[i].volume && x.amended == x.dropped == 0
              else if a.newPrice != a.price && a.newPrice in s.Side(bid) then
                x.dropped == l[i].volume && x.amended == x.cancelled == 0
              else x.amended == a.newVolume - l[i].volume && x.cancelled == x.dropped == 0
  {
    if !r.Insert? && SideOf(r) == bid {
      NamedIsFound(s.Side(bid), r);
    }
  }

  lemma AmendVolume(bid: bool, l: seq<Order>, a: AmendData, occupied: bool)
    requires F.Find(l, a.price, a.id) < |l|
    ensures var o := l[F.Find(l, a.price, a.id)];
      F.Volume(F.Amend(bid, l, a, occupied)) == F.Volume(l) - o.volume
        + (if a.newPrice == a.price || !occupied then a.newVolume else 0)
  {
    var i := F.Find(l, a.price, a.id);
    if a.newVolume > 0 && a.price == a.newPrice {
      F.UpdateVolume(l, i, l[i].(volume := a.newVolume));
    } else {
      F.RemoveVolume(l, i);
      if a.newVolume > 0 && !occupied {
        F.InsertVolume(bid, RemoveAt(l, i), l[i].(price := a.newPrice, volume := a.newVolume));
      }
    }
  }

  lemma EditConserves(m: B.Book, r: Request)
    requires B.WellFormed(m, SideOf(r))
    ensures var x := EditAccount(m, r);
      F.Volume(FlatEdit(m, r)) + x.cancelled + x.dropped == F.Volume(B.Flat(m, SideOf(r))) + x.inserted + x.amended
  {
    var bid := SideOf(r);
    var l := B.Flat(m, bid);
    match r
    case Insert(o) => F.InsertVolume(bid, l, o);
    case Cancel(c) =>
      NamedIsFound(m, r);
      var i := F.Find(l, c.price, c.id);
      if i < |l| {
        F.RemoveVolume(l, i);
      }
    case Amend(a) =>
      NamedIsFound(m, r);
      if F.Find(l, a.price, a.id) < |l| {
        AmendVolume(bid, l, a, a.newPrice in m);
      }
  }

  /** One request conserves the volume of either side, and both sides trade the same volume. */
  lemma StepConserves(s: Books, r: Request, bid: bool)
    requires s.Valid()
    ensures var x := StepAccount(s, r, bid);
      F.Volume(Step(s, r).books.Flat(bid)) + x.traded + x.cancelled + x.dropped
        == F.Volume(s.Flat(bid)) + x.inserted + x.amended
    ensures StepAccount(s, r, bid).traded == StepAccount(s, r, !bid).traded
  {
    var side := SideOf(r);
    EditConserves(s.Side(side), r);
    MatchingConserves(s, r, bid);
  }

  /** Matching takes from either list, as the edit left it, what it reports as traded. */
  lemma MatchingConserves(s: Books, r: Request, bid: bool)
    requires s.Valid()
    ensures F.Volume(Step(s, r).books.Flat(bid)) + F.TradedVolume(Trades(s, r, bid))
         == F.Volume(if bid == SideOf(r) then FlatEdit(s.Side(bid), r) else s.Flat(bid))
    ensures F.TradedVolume(Trades(s, r, bid)) == F.TradedVolume(Trades(s, r, !bid))
  {
    StepFlat(s, r);
    var side := SideOf(r);
    var opp, my, h := Reach(s, r, !side), Reach(s, r, side), Beyond(s, r, bid);
    var e := F.Execute(opp, my);
    F.ExecuteConserves(opp, my);
    F.VolumeConcat(Reach(s, r, bid), h);
    F.VolumeConcat(if bid == side then e.my else e.opp, h);
  }

  /** Over any run and for either side: what rests, traded, was cancelled or was dropped is what
      rested before plus what was inserted and amended; and the two sides trade the same volume. */
  lemma {:induction false} RunConserves(s: Books, rs: seq<Request>, bid: bool)
    requires s.Valid()
    ensures var x := RunAccount(s, rs, bid);
      F.Volume(Run(s, rs).Flat(bid)) + x.traded + x.cancelled + x.dropped
        == F.Volume(s.Flat(bid)) + x.inserted + x.amended
    ensures RunAccount(s, rs, bid).traded == RunAccount(s, rs, !bid).traded
    decreases |rs|
  {
    if rs != [] {
      StepConserves(s, rs[0], bid);
      StepValid(s, rs[0]);
      RunConserves(Step(s, rs[0]).books, rs[1..], bid);
    }
  }

  /** No price amend of the run moves a resting order to a price that already has a level. */
  ghost predicate RunDropsNothing(s: Books, rs: seq<Request>)
    decreases |rs|
  {
    rs != [] ==> !DropsOrder(s.Side(SideOf(rs[0])), rs[0]) && RunDropsNothing(Step(s, rs[0]).books, rs[1..])
  }

  lemma StepDrops(s: Books, r: Request, bid: bool)
    requires s.Valid() && R.AllPositive(s)
    ensures StepAccount(s, r, bid).dropped > 0 <==> SideOf(r) == bid && DropsOrder(s.Side(bid), r)
  {
    if !r.Insert? {
      NamedIsFound(s.Side(SideOf(r)), r);
    }
  }

  /** Over a run of validated requests volume is dropped if and only if some price amend of it names
      a resting order and a price that already has a level. */
  lemma {:induction false} DroppedExactly(s: Books, rs: seq<Request>)
    requires s.Valid() && R.AllPositive(s) && R.RunValidated(rs)
    ensures RunAccount(s, rs, true).dropped + RunAccount(s, rs, false).dropped == 0 <==> RunDropsNothing(s, rs)
    decreases |rs|
  {
    if rs != [] {
      StepDrops(s, rs[0], true);
      StepDrops(s, rs[0], false);
      R.StepMatches(s, rs[0]);
      StepValid(s, rs[0]);
      DroppedExactly(Step(s, rs[0]).books, rs[1..]);
    }
  }

  /** What rests, traded or was cancelled is exactly what rested before plus what was inserted and
      amended. */
  ghost predicate Balanced(s: Books, rs: seq<Request>, bid: bool) {
    var x := RunAccount(s, rs, bid);
    F.Volume(Run(s, rs).Flat(bid)) + x.traded + x.cancelled
      == F.Volume(s.Flat(bid)) + x.inserted + x.amended
  }

  /** The volumes of both sides balance over a run of validated requests if and only if no price
      amend of it moves a resting order onto a price that already has a level. */
  lemma BalancedExactly(s: Books, rs: seq<Request>)
    requires s.Valid() && R.AllPositive(s) && R.RunValidated(rs)
    ensures Balanced(s, rs, true) && Balanced(s, rs, false) <==> RunDropsNothing(s, rs)
  {
    RunConserves(s, rs, true);
    RunConserves(s, rs, false);
    DroppedExactly(s, rs);
  }

  lemma RemoveIds(l: seq<Order>, i: nat)
    requires i < |l|
    ensures multiset(F.Ids(l)) == multiset(F.Ids(RemoveAt(l, i))) + multiset{l[i].id}
  {
    assert F.Ids(l) == F.Ids(l)[..i] + [l[i].id] + F.Ids(l)[i + 1..];
    assert F.Ids(RemoveAt(l, i)) == F.Ids(l)[..i] + F.Ids(l)[i + 1..];
  }

  /** A successful amend keeps every order in the book. */
  predicate KeepsOrder(m: B.Book, a: AmendData) {
    a.newVolume > 0 && (a.newPrice == a.price || a.newPrice !in m)
  }

  lemma {:induction false} AmendIds(bid: bool, l: seq<Order>, a: AmendData, occupied: bool)
    requires F.Find(l, a.price, a.id) < |l|
    ensures var ids := multiset(F.Ids(F.Amend(bid, l, a, occupied)));
      var keeps := a.newVolume > 0 && (a.newPrice == a.price || !occupied);
      && (keeps ==> multiset(F.Ids(l)) == ids)
      && (!keeps ==> multiset(F.Ids(l)) == ids + multiset{a.id})
  {
    var i := F.Find(l, a.price, a.id);
    if a.newVolume > 0 && a.price == a.newPrice {
      ResizeIds(l, i, a.newVolume);
    } else {
      RemoveIds(l, i);
      if a.newVolume > 0 && !occupied {
        MoveIds(bid, l, i, l[i].(price := a.newPrice, volume := a.newVolume));
      }
    }
  }

  lemma MoveIds(bid: bool, l: seq<Order>, i: nat, o: Order)
    requires i < |l| && o.id == l[i].id
    ensures multiset(F.Ids(F.Insert(bid, RemoveAt(l, i), o))) == multiset(F.Ids(l))
  {
    RemoveIds(l, i);
    F.InsertIds(bid, RemoveAt(l, i), o);
  }

  lemma ResizeIds(l: seq<Order>, i: nat, v: nat)
    requires i < |l|
    ensures F.Ids(l[i := l[i].(volume := v)]) == F.Ids(l)
  {
  }

  /** An amend that succeeds keeps the orders of its book exactly when it is not a cancel and does
      not move the order onto an existing level: otherwise precisely the amended order is gone. */
  lemma AmendKeepsOrders(m: B.Book, a: AmendData)
    requires B.WellFormed(m, a.isBuy) && B.Amend(m, a).ok
    ensures var ids, ids' := F.Ids(B.Flat(m, a.isBuy)), F.Ids(B.Flat(B.Amend(m, a).book, a.isBuy));
      && (multiset(ids') == multiset(ids) <==> KeepsOrder(m, a))
      && (!KeepsOrder(m, a) ==> multiset(ids) == multiset(ids') + multiset{a.id})
  {
    B.AmendFlat(m, a.isBuy, a);
    AmendIds(a.isBuy, B.Flat(m, a.isBuy), a, a.newPrice in m);
    var ids' := multiset(F.Ids(B.Flat(B.Amend(m, a).book, a.isBuy)));
    assert (ids' + multiset{a.id})[a.id] == ids'[a.id] + 1;
  }
}
