/** Price-time priority over whole runs of requests. */
module Priority {
  import opened Orders
  import opened Wrappers
  import opened MatchingModel
  import F = FlatBook
  import B = PriceBook

  /** The request does not place an order called `a` or `b` as a new arrival on side `bid`. */
  predicate LeavesPlace(s: Books, r: Request, bid: bool, a: string, b: string) {
    SideOf(r) == bid ==>
      match Newcomer(s.Side(bid), r)
      case None => true
      case Some((o, _)) => o.id != a && o.id != b
  }

  lemma RemoveAhead(l: seq<Order>, i: nat, a: string, b: string)
    requires i < |l| && F.AheadOf(l, a, b)
    ensures F.AheadOf(RemoveAt(l, i), a, b)
    ensures F.HasId(RemoveAt(l, i), a) ==> F.HasId(l, a)
  {
  }

  lemma ResizeAhead(l: seq<Order>, i: nat, v: nat, a: string, b: string)
    requires i < |l| && F.AheadOf(l, a, b)
    ensures var l' := l[i := l[i].(volume := v)]; F.AheadOf(l', a, b) && (F.HasId(l', a) ==> F.HasId(l, a))
  {
  }

  lemma InsertAhead(bid: bool, l: seq<Order>, o: Order, a: string, b: string)
    requires o.id != a && o.id != b && F.AheadOf(l, a, b)
    ensures F.AheadOf(F.Insert(bid, l, o), a, b)
    ensures F.HasId(F.Insert(bid, l, o), a) ==> F.HasId(l, a)
  {
    var k := F.InsertPosition(bid, l, o);
    var l' := F.Insert(bid, l, o);
    forall j | 0 <= j < |l'| && j != k ensures l'[j] == l[if j < k then j else j - 1] {
    }
  }

  /** An amend reverses nobody unless it moves one of the two to a free price. */
  lemma AmendAhead(bid: bool, l: seq<Order>, m: AmendData, occupied: bool, a: string, b: string)
    requires F.AheadOf(l, a, b)
    requires F.Find(l, m.price, m.id) < |l| && m.newVolume > 0 && m.price != m.newPrice && !occupied ==>
      m.id != a && m.id != b
    ensures var l' := F.Amend(bid, l, m, occupied); F.AheadOf(l', a, b) && (F.HasId(l', a) ==> F.HasId(l, a))
  {
    var i := F.Find(l, m.price, m.id);
    if i < |l| {
      if m.newVolume > 0 && m.price == m.newPrice {
        ResizeAhead(l, i, m.newVolume, a, b);
      } else {
        RemoveAhead(l, i, a, b);
        if m.newVolume > 0 && !occupied {
          InsertAhead(bid, RemoveAt(l, i), l[i].(price := m.newPrice, volume := m.newVolume), a, b);
        }
      }
    }
  }

  /** No edit but a price amend changes who is ahead of whom. */
  lemma EditAhead(s: Books, r: Request, a: string, b: string)
    requires s.Valid() && LeavesPlace(s, r, SideOf(r), a, b)
    requires F.AheadOf(s.Flat(SideOf(r)), a, b)
    ensures var l := FlatEdit(s.Side(SideOf(r)), r);
      F.AheadOf(l, a, b) && (F.HasId(l, a) ==> F.HasId(s.Flat(SideOf(r)), a))
  {
    var bid := SideOf(r);
    var l := s.Flat(bid);
    match r
    case Insert(o) => InsertAhead(bid, l, o, a, b);
    case Cancel(c) =>
      var i := F.Find(l, c.price, c.id);
      if i < |l| {
        RemoveAhead(l, i, a, b);
      }
    case Amend(m) =>
      B.FindFlat(s.Side(bid), bid, m.price, m.id);
      AmendAhead(bid, l, m, m.newPrice in s.Side(bid), a, b);
  }

  /** One request: the order of `a` and `b` stands, and `b` trades nothing while `a` is left. */
  lemma StepPriority(s: Books, r: Request, bid: bool, a: string, b: string)
    requires s.Valid() && a != b && LeavesPlace(s, r, bid, a, b)
    requires F.AheadOf(s.Flat(bid), a, b)
    ensures F.AheadOf(Step(s, r).books.Flat(bid), a, b)
    ensures F.HasId(Step(s, r).books.Flat(bid), a) ==>
      F.HasId(s.Flat(bid), a) && forall t :: t in Trades(s, r, bid) ==> t.id != b
  {
    StepFlat(s, r);
    var own := SideOf(r) == bid;
    if own {
      EditAhead(s, r, a, b);
    }
    var v, h := Reach(s, r, bid), Beyond(s, r, bid);
    assert F.AheadOf(v + h, a, b);
    var opp, my := Reach(s, r, !SideOf(r)), Reach(s, r, SideOf(r));
    if Matching(s, r) {
      ReachPriority(opp, my, own, h, a, b);
    }
  }

  lemma ReachPriority(opp: seq<Order>, my: seq<Order>, own: bool, h: seq<Order>, a: string, b: string)
    requires a != b && F.AheadOf((if own then my else opp) + h, a, b)
    ensures var e := F.Execute(opp, my); var l' := (if own then e.my else e.opp) + h;
      && F.AheadOf(l', a, b)
      && (F.HasId(l', a) ==>
            && F.HasId((if own then my else opp) + h, a)
            && forall t :: t in F.SideTrades(own, e.matches) ==> t.id != b)
  {
    var e := F.Execute(opp, my);
    var v, x := if own then my else opp, if own then e.my else e.opp;
    F.ExecuteTails(opp, my);
    F.TailConcat(x, v, h);
    F.TailAheadOf(x + h, v + h, a, b);
    if F.HasId(x + h, a) {
      F.TailHasId(x + h, v + h, a);
      PrefixAhead(v, h, a, b);
      if F.HasId(x, a) {
        F.ExecutePriority(opp, my, own, a, b);
      } else {
        SuffixHasId(x, h, a);
        F.ExecuteTradeIds(opp, my, own);
      }
    }
  }

  lemma PrefixAhead(v: seq<Order>, h: seq<Order>, a: string, b: string)
    requires F.AheadOf(v + h, a, b)
    ensures F.AheadOf(v, a, b)
    ensures F.HasId(h, a) ==> !F.HasId(v, b)
  {
    forall i | 0 <= i < |v| ensures (v + h)[i] == v[i] {
    }
    forall i | 0 <= i < |h| ensures (v + h)[|v| + i] == h[i] {
    }
  }

  lemma SuffixHasId(x: seq<Order>, h: seq<Order>, a: string)
    requires F.HasId(x + h, a) && !F.HasId(x, a)
    ensures F.HasId(h, a)
  {
  }

  /** One request: all trades of `a` come before the first trade of `b`. */
  lemma StepInTurn(s: Books, r: Request, bid: bool, a: string, b: string)
    requires s.Valid() && LeavesPlace(s, r, bid, a, b)
    requires F.AheadOf(s.Flat(bid), a, b)
    ensures F.NeverAfter(Trades(s, r, bid), a, b)
  {
    StepFlat(s, r);
    var own := SideOf(r) == bid;
    if own {
      EditAhead(s, r, a, b);
    }
    PrefixAhead(Reach(s, r, bid), Beyond(s, r, bid), a, b);
    F.ExecuteInTurn(Reach(s, r, !SideOf(r)), Reach(s, r, SideOf(r)), own, a, b);
  }

  /** The requests of the run place no order called `a` or `b` as a new arrival on side `bid`. */
  ghost predicate RunLeavesPlace(s: Books, rs: seq<Request>, bid: bool, a: string, b: string)
    decreases |rs|
  {
    rs != [] ==> LeavesPlace(s, rs[0], bid, a, b) && RunLeavesPlace(Step(s, rs[0]).books, rs[1..], bid, a, b)
  }

  /** Over any run: whoever is ahead stays ahead, and as long as the order ahead has not left the
      book, the run has not traded a single unit of the order behind it. */
  lemma {:induction false} RunPriority(s: Books, rs: seq<Request>, bid: bool, a: string, b: string)
    requires s.Valid() && a != b && RunLeavesPlace(s, rs, bid, a, b)
    requires F.AheadOf(s.Flat(bid), a, b)
    ensures F.AheadOf(Run(s, rs).Flat(bid), a, b)
    ensures F.HasId(Run(s, rs).Flat(bid), a) ==>
      F.HasId(s.Flat(bid), a) && forall t :: t in RunTrades(s, rs, bid) ==> t.id != b
    decreases |rs|
  {
    if rs != [] {
      StepPriority(s, rs[0], bid, a, b);
      StepValid(s, rs[0]);
      RunPriority(Step(s, rs[0]).books, rs[1..], bid, a, b);
    }
  }

  /** Only orders that can be reached trade. */
  lemma TradesReach(s: Books, r: Request, bid: bool)
    requires s.Valid()
    ensures forall t :: t in Trades(s, r, bid) ==> F.HasId(Reach(s, r, bid), t.id)
  {
    StepFlat(s, r);
    F.ExecuteTradeIds(Reach(s, r, !SideOf(r)), Reach(s, r, SideOf(r)), SideOf(r) == bid);
  }

  lemma ReachHasId(s: Books, r: Request, bid: bool, a: string, b: string)
    requires s.Valid() && a != b && LeavesPlace(s, r, bid, a, b) && !F.HasId(s.Flat(bid), a)
    ensures !F.HasId(Reach(s, r, bid), a)
  {
    StepFlat(s, r);
    if SideOf(r) == bid {
      EditAhead(s, r, a, b);
    }
    var v, h := Reach(s, r, bid), Beyond(s, r, bid);
    forall i | 0 <= i < |v| ensures (v + h)[i] == v[i] {
    }
  }

  /** An order that neither rests nor is placed does not trade, and does not come back. */
  lemma GoneStep(s: Books, r: Request, bid: bool, a: string, b: string)
    requires s.Valid() && a != b && LeavesPlace(s, r, bid, a, b) && !F.HasId(s.Flat(bid), a)
    ensures !F.HasId(Step(s, r).books.Flat(bid), a)
    ensures forall t :: t in Trades(s, r, bid) ==> t.id != a
  {
    StepPriority(s, r, bid, a, b);
    ReachHasId(s, r, bid, a, b);
    TradesReach(s, r, bid);
  }

  lemma {:induction false} GoneRun(s: Books, rs: seq<Request>, bid: bool, a: string, b: string)
    requires s.Valid() && a != b && RunLeavesPlace(s, rs, bid, a, b) && !F.HasId(s.Flat(bid), a)
    ensures forall t :: t in RunTrades(s, rs, bid) ==> t.id != a
    decreases |rs|
  {
    if rs != [] {
      GoneStep(s, rs[0], bid, a, b);
      StepValid(s, rs[0]);
      GoneRun(Step(s, rs[0]).books, rs[1..], bid, a, b);
    }
  }

  lemma NeverAfterConcat(x: seq<Trade>, y: seq<Trade>, a: string, b: string)
    requires F.NeverAfter(x, a, b) && F.NeverAfter(y, a, b)
    requires (forall t :: t in x ==> t.id != b) || (forall t :: t in y ==> t.id != a)
    ensures F.NeverAfter(x + y, a, b)
  {
  }

  /** Over any run, fill by fill: once the order behind has traded, the order ahead trades no more;
      it had all its trades before, in whichever requests they were made. */
  lemma {:induction false} RunInTurn(s: Books, rs: seq<Request>, bid: bool, a: string, b: string)
    requires s.Valid() && a != b && RunLeavesPlace(s, rs, bid, a, b)
    requires F.AheadOf(s.Flat(bid), a, b)
    ensures F.NeverAfter(RunTrades(s, rs, bid), a, b)
    decreases |rs|
  {
    if rs != [] {
      var s' := Step(s, rs[0]).books;
      StepInTurn(s, rs[0], bid, a, b);
      StepPriority(s, rs[0], bid, a, b);
      StepValid(s, rs[0]);
      RunInTurn(s', rs[1..], bid, a, b);
      if !F.HasId(s'.Flat(bid), a) {
        GoneRun(s', rs[1..], bid, a, b);
      }
      NeverAfterConcat(Trades(s, rs[0], bid), RunTrades(s', rs[1..], bid), a, b);
    }
  }
}
