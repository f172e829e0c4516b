/** The reference picture of one side of the market: a single list of orders in priority
    order. Every book operation has a plain counterpart here. */
module FlatBook {
  import opened Orders

  /** One iteration of matching: a trade for the resting side, then one for the own side. */
  datatype Match = Match(opposite: Trade, own: Trade)

  datatype Execution = Execution(opp: seq<Order>, my: seq<Order>, matches: seq<Match>)

  ghost predicate Sorted(bid: bool, l: seq<Order>) {
    forall i, j :: 0 <= i < j < |l| ==> !Better(bid, l[j].price, l[i].price)
  }

  ghost predicate Positive(l: seq<Order>) {
    forall i :: 0 <= i < |l| ==> l[i].volume > 0
  }

  ghost predicate OnSide(bid: bool, l: seq<Order>) {
    forall i :: 0 <= i < |l| ==> l[i].isBuy == bid
  }

  /** Every bid is priced below every ask, `my` being the list of side `bid`. */
  ghost predicate NoCross(bid: bool, my: seq<Order>, opp: seq<Order>) {
    forall i, j :: 0 <= i < |my| && 0 <= j < |opp| ==>
      if bid then my[i].price < opp[j].price else opp[j].price < my[i].price
  }

  ghost predicate CrossesAny(bid: bool, p: nat, opp: seq<Order>) {
    exists j :: 0 <= j < |opp| && Crosses(bid, p, opp[j].price)
  }

  function Ids(l: seq<Order>): (r: seq<string>)
    ensures |r| == |l| && forall i :: 0 <= i < |l| ==> r[i] == l[i].id
  {
    seq(|l|, i requires 0 <= i < |l| => l[i].id)
  }

  function Volume(l: seq<Order>): nat {
    if l == [] then 0 else l[0].volume + Volume(l[1..])
  }

  /** Volume an order of side `bid` at price `p` could take from `opp`. */
  function CrossVolume(bid: bool, p: nat, opp: seq<Order>): nat {
    if opp == [] then 0
    else (if Crosses(bid, p, opp[0].price) then opp[0].volume else 0) + CrossVolume(bid, p, opp[1..])
  }

  /** Take volume `v` away from the front of the list. */
  function DropVolume(l: seq<Order>, v: nat): seq<Order> {
    if l == [] then []
    else if l[0].volume <= v then DropVolume(l[1..], v - l[0].volume)
    else [l[0].(volume := l[0].volume - v)] + l[1..]
  }

  /** Queue an order behind every order that is at least as well priced. */
  function Insert(bid: bool, l: seq<Order>, o: Order): seq<Order> {
    if l == [] || Better(bid, o.price, l[0].price) then [o] + l
    else [l[0]] + Insert(bid, l[1..], o)
  }

  /** Index of the first order at price `p` carrying `id`, or the length of the list. */
  function Find(l: seq<Order>, p: nat, id: string): (i: nat)
    ensures i <= |l|
    ensures i < |l| ==> l[i].id == id && l[i].price == p
    ensures forall j :: 0 <= j < i ==> !(l[j].id == id && l[j].price == p)
  {
    if l == [] then 0 else if l[0].id == id && l[0].price == p then 0 else 1 + Find(l[1..], p, id)
  }

  function Cancel(l: seq<Order>, p: nat, id: string): seq<Order> {
    var i := Find(l, p, id);
    if i < |l| then RemoveAt(l, i) else l
  }

  /** `occupied` tells whether the new price already has a level. */
  function Amend(bid: bool, l: seq<Order>, a: AmendData, occupied: bool): seq<Order> {
    var i := Find(l, a.price, a.id);
    if i == |l| then l
    else if a.newVolume == 0 then RemoveAt(l, i)
    else if a.price == a.newPrice then l[i := l[i].(volume := a.newVolume)]
    else if occupied then RemoveAt(l, i)
    else Insert(bid, RemoveAt(l, i), l[i].(price := a.newPrice, volume := a.newVolume))
  }

  /** The front order gives up `v`, and leaves when nothing is left of it. */
  function Consume(l: seq<Order>, v: nat): seq<Order>
    requires l != [] && v <= l[0].volume
  {
    if l[0].volume == v then l[1..] else [l[0].(volume := l[0].volume - v)] + l[1..]
  }

  predicate CanTrade(opp: seq<Order>, my: seq<Order>) {
    my != [] && opp != [] && Crosses(my[0].isBuy, my[0].price, opp[0].price)
  }

  /** Cross the two front orders until they no longer overlap. */
  function Execute(opp: seq<Order>, my: seq<Order>): Execution
    decreases |opp| + |my|
  {
    if CanTrade(opp, my) then
      var v := Min(opp[0].volume, my[0].volume);
      var rest := Execute(Consume(opp, v), Consume(my, v));
      rest.(matches := [Match(TradeOf(opp[0], v), TradeOf(my[0], v))] + rest.matches)
    else Execution(opp, my, [])
  }

  /** The trades of one side: of the incoming (`own`) or of the resting side. */
  function SideTrades(own: bool, ms: seq<Match>): seq<Trade> {
    if ms == [] then []
    else [if own then ms[0].own else ms[0].opposite] + SideTrades(own, ms[1..])
  }

  function TradedVolume(ts: seq<Trade>): nat {
    if ts == [] then 0 else ts[0].volume + TradedVolume(ts[1..])
  }

  ghost predicate HasId(l: seq<Order>, id: string) {
    exists i :: 0 <= i < |l| && l[i].id == id
  }

  /** Every order called `a` comes before every order called `b`. */
  ghost predicate AheadOf(l: seq<Order>, a: string, b: string) {
    forall i, j :: 0 <= i < |l| && 0 <= j < |l| && l[i].id == a && l[j].id == b ==> i < j
  }

  /** Once `b` has traded, `a` trades no more. */
  ghost predicate NeverAfter(ts: seq<Trade>, a: string, b: string) {
    forall i, j :: 0 <= i < j < |ts| && ts[i].id == b ==> ts[j].id != a
  }

  /** The trade names an order and is made at its limit price. */
  ghost predicate TradeBy(o: Order, t: Trade) {
    t.account == o.account && t.price == o.price && t.id == o.id && t.clientId == o.clientId
  }

  /** The trade is of an order of `l`, for no more than that order has. */
  ghost predicate TradeFrom(l: seq<Order>, t: Trade) {
    exists i :: 0 <= i < |l| && TradeBy(l[i], t) && t.volume <= l[i].volume
  }

  // ---- lists ----

  lemma {:induction false} VolumeConcat(a: seq<Order>, b: seq<Order>)
    ensures Volume(a + b) == Volume(a) + Volume(b)
    ensures |a| == 1 ==> Volume(a) == a[0].volume
  {
    if a == [] {
      assert a + b == b;
    } else {
      assert (a + b)[1..] == a[1..] + b;
      VolumeConcat(a[1..], b);
    }
  }

  lemma VolumeAround(l: seq<Order>, i: nat)
    requires i < |l|
    ensures Volume(l) == Volume(l[..i]) + l[i].volume + Volume(l[i + 1..])
  {
    assert l == l[..i] + ([l[i]] + l[i + 1..]);
    VolumeConcat(l[..i], [l[i]] + l[i + 1..]);
    VolumeConcat([l[i]], l[i + 1..]);
  }

  lemma RemoveVolume(l: seq<Order>, i: nat)
    requires i < |l|
    ensures Volume(RemoveAt(l, i)) == Volume(l) - l[i].volume
  {
    VolumeAround(l, i);
    VolumeConcat(l[..i], l[i + 1..]);
  }

  lemma UpdateVolume(l: seq<Order>, i: nat, o: Order)
    requires i < |l|
    ensures Volume(l[i := o]) == Volume(l) - l[i].volume + o.volume
  {
    VolumeAround(l, i);
    VolumeAround(l[i := o], i);
    assert l[i := o][..i] == l[..i] && l[i := o][i + 1..] == l[i + 1..];
  }

  /** Where `Insert` puts an order: after a prefix that is nowhere worse, before the strictly worse rest. */
  lemma {:induction false} InsertPosition(bid: bool, l: seq<Order>, o: Order) returns (k: nat)
    ensures k <= |l|
    ensures Insert(bid, l, o) == l[..k] + [o] + l[k..]
    ensures forall i :: 0 <= i < k ==> !Better(bid, o.price, l[i].price)
    ensures k < |l| ==> Better(bid, o.price, l[k].price)
  {
    if l == [] || Better(bid, o.price, l[0].price) {
      k := 0;
    } else {
      var k' := InsertPosition(bid, l[1..], o);
      k := k' + 1;
      assert l[..k] == [l[0]] + l[1..][..k'];
      assert l[k..] == l[1..][k'..];
    }
  }

  lemma {:induction false} InsertAfterPrefix(bid: bool, a: seq<Order>, c: seq<Order>, o: Order)
    requires forall i :: 0 <= i < |a| ==> !Better(bid, o.price, a[i].price)
    requires c != [] ==> Better(bid, o.price, c[0].price)
    ensures Insert(bid, a + c, o) == a + [o] + c
  {
    if a == [] {
      assert a + c == c;
    } else {
      assert (a + c)[1..] == a[1..] + c;
      InsertAfterPrefix(bid, a[1..], c, o);
    }
  }

  /** A new order joins the end of the orders at its price. */
  lemma InsertInMiddle(bid: bool, a: seq<Order>, q: seq<Order>, c: seq<Order>, o: Order,
                       l: seq<Order>, l': seq<Order>)
    requires l == a + q + c && l' == a + (q + [o]) + c
    requires forall i :: 0 <= i < |a| ==> Better(bid, a[i].price, o.price)
    requires forall i :: 0 <= i < |q| ==> q[i].price == o.price
    requires c != [] ==> Better(bid, o.price, c[0].price)
    ensures l' == Insert(bid, l, o)
  {
    InsertAfterPrefix(bid, a + q, c, o);
    assert l' == (a + q) + [o] + c;
  }

  lemma InsertVolume(bid: bool, l: seq<Order>, o: Order)
    ensures Volume(Insert(bid, l, o)) == Volume(l) + o.volume
  {
  }

  lemma IdsConcat(a: seq<Order>, b: seq<Order>)
    ensures Ids(a + b) == Ids(a) + Ids(b)
  {
  }

  lemma InsertIds(bid: bool, l: seq<Order>, o: Order)
    ensures multiset(Ids(Insert(bid, l, o))) == multiset(Ids(l)) + multiset{o.id}
  {
    var k := InsertPosition(bid, l, o);
    assert l == l[..k] + l[k..];
    IdsConcat(l[..k], l[k..]);
    IdsConcat(l[..k] + [o], l[k..]);
    IdsConcat(l[..k], [o]);
    assert Ids([o]) == [o.id];
  }

  lemma FindIs(l: seq<Order>, p: nat, id: string, k: nat)
    requires k <= |l|
    requires k < |l| ==> l[k].id == id && l[k].price == p
    requires forall j :: 0 <= j < k ==> !(l[j].id == id && l[j].price == p)
    ensures Find(l, p, id) == k
  {
  }

  lemma FindInMiddle(a: seq<Order>, q: seq<Order>, c: seq<Order>, p: nat, id: string)
    requires forall i :: 0 <= i < |a| ==> a[i].price != p
    requires forall i :: 0 <= i < |q| ==> q[i].price == p
    requires forall i :: 0 <= i < |c| ==> c[i].price != p
    ensures var l := a + q + c; var i := IndexOf(q, id);
      Find(l, p, id) == if i < |q| then |a| + i else |l|
  {
    var l := a + q + c;
    var i := IndexOf(q, id);
    FindIs(l, p, id, if i < |q| then |a| + i else |l|);
  }

  // ---- matching ----

  lemma ConsumeVolume(l: seq<Order>, v: nat)
    requires l != [] && v <= l[0].volume
    ensures Volume(Consume(l, v)) == Volume(l) - v
    ensures |Consume(l, v)| == if l[0].volume == v then |l| - 1 else |l|
  {
  }

  /** What matching leaves is stuck: a list ran out or the front prices do not overlap. */
  lemma {:induction false} ExecuteStops(opp: seq<Order>, my: seq<Order>)
    ensures var e := Execute(opp, my); !CanTrade(e.opp, e.my)
    decreases |opp| + |my|
  {
    if CanTrade(opp, my) {
      var v := Min(opp[0].volume, my[0].volume);
      ExecuteStops(Consume(opp, v), Consume(my, v));
    }
  }

  /** Every iteration retires an order: there are never more matches than orders retired. */
  lemma {:induction false} ExecuteBound(opp: seq<Order>, my: seq<Order>)
    ensures var e := Execute(opp, my);
      |e.matches| + |e.opp| + |e.my| <= |opp| + |my|
    decreases |opp| + |my|
  {
    if CanTrade(opp, my) {
      var v := Min(opp[0].volume, my[0].volume);
      ExecuteBound(Consume(opp, v), Consume(my, v));
    }
  }

  lemma ExecuteUnfold(opp: seq<Order>, my: seq<Order>)
    requires CanTrade(opp, my)
    ensures var v := Min(opp[0].volume, my[0].volume); var e := Execute(opp, my);
      var rest := Execute(Consume(opp, v), Consume(my, v));
      && e.opp == rest.opp && e.my == rest.my
      && e.matches == [Match(TradeOf(opp[0], v), TradeOf(my[0], v))] + rest.matches
      && e.matches[1..] == rest.matches
  {
  }

  /** Matching takes the same volume from both lists, and that is the volume it reports. */
  lemma {:induction false} ExecuteConserves(opp: seq<Order>, my: seq<Order>)
    ensures var e := Execute(opp, my);
      var o, m := TradedVolume(SideTrades(false, e.matches)), TradedVolume(SideTrades(true, e.matches));
      Volume(e.opp) + o == Volume(opp) && Volume(e.my) + m == Volume(my) && o == m
    decreases |opp| + |my|
  {
    if CanTrade(opp, my) {
      var v := Min(opp[0].volume, my[0].volume);
      ExecuteUnfold(opp, my);
      ExecuteConserves(Consume(opp, v), Consume(my, v));
      ConsumeVolume(opp, v);
      ConsumeVolume(my, v);
    }
  }

  /** What every single match looks like: the ask trades at no more than the bid. */
  ghost predicate GoodMatch(bid: bool, opp: seq<Order>, my: seq<Order>, t: Match) {
    && t.own.volume == t.opposite.volume
    && TradeFrom(opp, t.opposite) && TradeFrom(my, t.own)
    && if bid then t.opposite.price <= t.own.price else t.own.price <= t.opposite.price
  }

  lemma ConsumeTradeFrom(l: seq<Order>, v: nat, t: Trade)
    requires l != [] && v <= l[0].volume && TradeFrom(Consume(l, v), t)
    ensures TradeFrom(l, t)
  {
  }

  /** Both trades of a match carry the same volume, each in the name of an order of its list and at
      that order's limit price, and the buyer never pays less than the seller asks. No volume is
      zero unless some order had none. */
  lemma {:induction false} ExecutePairs(bid: bool, opp: seq<Order>, my: seq<Order>)
    requires OnSide(bid, my)
    ensures var e := Execute(opp, my);
      && (forall k :: 0 <= k < |e.matches| ==> GoodMatch(bid, opp, my, e.matches[k]))
      && (Positive(opp) && Positive(my) ==>
            && Positive(e.opp) && Positive(e.my)
            && forall k :: 0 <= k < |e.matches| ==> e.matches[k].own.volume > 0)
    decreases |opp| + |my|
  {
    if CanTrade(opp, my) {
      var v := Min(opp[0].volume, my[0].volume);
      var opp', my' := Consume(opp, v), Consume(my, v);
      ExecutePairs(bid, opp', my');
      ExecuteUnfold(opp, my);
      var e, rest := Execute(opp, my), Execute(opp', my');
      forall k | 0 <= k < |e.matches| ensures GoodMatch(bid, opp, my, e.matches[k]) {
        if k == 0 {
          assert TradeBy(opp[0], e.matches[0].opposite) && TradeBy(my[0], e.matches[0].own);
        } else {
          assert e.matches[k] == rest.matches[k - 1];
          ConsumeTradeFrom(opp, v, rest.matches[k - 1].opposite);
          ConsumeTradeFrom(my, v, rest.matches[k - 1].own);
        }
      }
    }
  }

  /** Matching only ever takes from the front: what is left is a tail of the list, its first
      order possibly smaller. */
  ghost predicate TailOf(l': seq<Order>, l: seq<Order>) {
    && |l'| <= |l|
    && (l' != [] ==>
          var k := |l| - |l'|;
          l' == [l[k].(volume := l'[0].volume)] + l[k + 1..])
  }

  lemma TailTrans(l'': seq<Order>, l': seq<Order>, l: seq<Order>)
    requires TailOf(l'', l') && TailOf(l', l)
    ensures TailOf(l'', l)
  {
  }

  lemma ConsumeTail(l: seq<Order>, v: nat)
    requires l != [] && v <= l[0].volume
    ensures TailOf(Consume(l, v), l)
  {
  }

  lemma {:induction false} ExecuteTails(opp: seq<Order>, my: seq<Order>)
    ensures var e := Execute(opp, my); TailOf(e.opp, opp) && TailOf(e.my, my)
    decreases |opp| + |my|
  {
    if CanTrade(opp, my) {
      var v := Min(opp[0].volume, my[0].volume);
      var opp', my' := Consume(opp, v), Consume(my, v);
      ExecuteTails(opp', my');
      ExecuteUnfold(opp, my);
      ConsumeTail(opp, v);
      ConsumeTail(my, v);
      TailTrans(Execute(opp', my').opp, opp', opp);
      TailTrans(Execute(opp', my').my, my', my);
    } else {
      TailSelf(opp);
      TailSelf(my);
    }
  }

  lemma TailSelf(l: seq<Order>)
    ensures TailOf(l, l)
  {
  }

  lemma TailHasId(l': seq<Order>, l: seq<Order>, id: string)
    requires TailOf(l', l) && HasId(l', id)
    ensures HasId(l, id)
  {
  }

  lemma TailAheadOf(l': seq<Order>, l: seq<Order>, a: string, b: string)
    requires TailOf(l', l) && AheadOf(l, a, b)
    ensures AheadOf(l', a, b)
  {
  }

  lemma TailConcat(l': seq<Order>, l: seq<Order>, h: seq<Order>)
    requires TailOf(l', l)
    ensures TailOf(l' + h, l + h)
  {
  }

  /** Only orders of a side trade for that side. */
  lemma {:induction false} ExecuteTradeIds(opp: seq<Order>, my: seq<Order>, own: bool)
    ensures forall t :: t in SideTrades(own, Execute(opp, my).matches) ==> HasId(if own then my else opp, t.id)
    decreases |opp| + |my|
  {
    if CanTrade(opp, my) {
      var v := Min(opp[0].volume, my[0].volume);
      var opp', my' := Consume(opp, v), Consume(my, v);
      ExecuteUnfold(opp, my);
      ExecuteTradeIds(opp', my', own);
      var l, l' := if own then my else opp, if own then my' else opp';
      assert HasId(l, l[0].id);
      ConsumeTail(l, v);
      forall t | t in SideTrades(own, Execute(opp', my').matches) ensures HasId(l, t.id) {
        TailHasId(l', l, t.id);
      }
    }
  }

  /** Price-time priority of one execution: as long as `a` is left, nothing behind it has traded. */
  lemma {:induction false} ExecutePriority(opp: seq<Order>, my: seq<Order>, own: bool, a: string, b: string)
    requires a != b
    requires AheadOf(if own then my else opp, a, b)
    requires HasId(if own then Execute(opp, my).my else Execute(opp, my).opp, a)
    ensures forall t :: t in SideTrades(own, Execute(opp, my).matches) ==> t.id != b
    decreases |opp| + |my|
  {
    if CanTrade(opp, my) {
      var v := Min(opp[0].volume, my[0].volume);
      var opp', my' := Consume(opp, v), Consume(my, v);
      ExecuteUnfold(opp, my);
      ConsumeTail(opp, v);
      ConsumeTail(my, v);
      ExecuteTails(opp, my);
      var l := if own then my else opp;
      TailAheadOf(if own then my' else opp', l, a, b);
      TailHasId(if own then Execute(opp, my).my else Execute(opp, my).opp, l, a);
      assert l[0].id != b;
      ExecutePriority(opp', my', own, a, b);
    }
  }

  /** Price-time priority, fill by fill: whoever is ahead has all its trades first. */
  lemma {:induction false} ExecuteInTurn(opp: seq<Order>, my: seq<Order>, own: bool, a: string, b: string)
    requires AheadOf(if own then my else opp, a, b)
    ensures NeverAfter(SideTrades(own, Execute(opp, my).matches), a, b)
    decreases |opp| + |my|
  {
    if CanTrade(opp, my) {
      var v := Min(opp[0].volume, my[0].volume);
      var opp', my' := Consume(opp, v), Consume(my, v);
      var l, l' := if own then my else opp, if own then my' else opp';
      ExecuteUnfold(opp, my);
      ConsumeTail(l, v);
      TailAheadOf(l', l, a, b);
      ExecuteInTurn(opp', my', own, a, b);
      ExecuteTradeIds(opp', my', own);
      if l[0].id == b {
        assert !HasId(l, a);
        assert HasId(l', a) ==> HasId(l, a) by {
          if HasId(l', a) {
            TailHasId(l', l, a);
          }
        }
      }
      var ts, ts' := SideTrades(own, Execute(opp, my).matches), SideTrades(own, Execute(opp', my').matches);
      assert ts[0].id == l[0].id && ts[1..] == ts';
      forall i, j | 0 <= i < j < |ts| && ts[i].id == b ensures ts[j].id != a {
        assert ts[j] == ts'[j - 1] && ts'[j - 1] in ts';
        assert i > 0 ==> ts[i] == ts'[i - 1];
      }
    }
  }

  // ---- one incoming order against an uncrossed book ----

  lemma {:induction false} NoCrossVolume(bid: bool, p: nat, l: seq<Order>)
    requires !CrossesAny(bid, p, l)
    ensures CrossVolume(bid, p, l) == 0
  {
    if l != [] {
      forall j | 0 <= j < |l[1..]| ensures !Crosses(bid, p, l[1..][j].price) {
        assert l[1..][j] == l[j + 1];
      }
      assert !CrossesAny(bid, p, l[1..]);
      NoCrossVolume(bid, p, l[1..]);
    }
  }

  lemma DropNothing(l: seq<Order>)
    requires Positive(l)
    ensures DropVolume(l, 0) == l
  {
  }

  lemma {:induction false} DropIsTail(l: seq<Order>, v: nat)
    ensures TailOf(DropVolume(l, v), l)
  {
    if l != [] && l[0].volume <= v {
      DropIsTail(l[1..], v - l[0].volume);
      ConsumeTail(l, l[0].volume);
      TailTrans(DropVolume(l, v), l[1..], l);
    }
  }

  /** Removing all the crossing volume of a sorted list removes every crossing order. */
  lemma {:induction false} DropCrossing(bid: bool, p: nat, l: seq<Order>)
    requires Positive(l) && Sorted(!bid, l)
    ensures !CrossesAny(bid, p, DropVolume(l, CrossVolume(bid, p, l)))
  {
    if l != [] {
      if Crosses(bid, p, l[0].price) {
        DropCrossing(bid, p, l[1..]);
      } else {
        SortedStopsCrossing(bid, p, l);
        NoCrossVolume(bid, p, l);
        DropNothing(l);
      }
    }
  }

  lemma SortedStopsCrossing(bid: bool, p: nat, l: seq<Order>)
    requires Sorted(!bid, l) && l != [] && !Crosses(bid, p, l[0].price)
    ensures !CrossesAny(bid, p, l)
  {
  }

  lemma TailNoCross(bid: bool, my: seq<Order>, opp': seq<Order>, opp: seq<Order>)
    requires NoCross(bid, my, opp) && TailOf(opp', opp)
    ensures NoCross(bid, my, opp')
  {
  }

  lemma ConsumePlain(bid: bool, p: nat, l: seq<Order>, v: nat)
    requires Positive(l) && Sorted(bid, l) && l != [] && v <= l[0].volume
    ensures Positive(Consume(l, v)) && Sorted(bid, Consume(l, v))
    ensures Crosses(!bid, p, l[0].price) ==>
      CrossVolume(!bid, p, Consume(l, v)) == CrossVolume(!bid, p, l) - v
  {
  }

  lemma Stuck(bid: bool, opp: seq<Order>, my: seq<Order>)
    requires OnSide(bid, my) && NoCross(bid, my, opp)
    ensures Execute(opp, my) == Execution(opp, my, [])
  {
  }

  /** What an incoming order does to the reachable opposite orders `opp`: it takes exactly the
      smaller of its volume and what crosses its price, from the front, in its own name. */
  ghost predicate TakesAll(bid: bool, opp: seq<Order>, o: Order, rest: seq<Order>, e: Execution) {
    var t := Min(o.volume, CrossVolume(bid, o.price, opp));
    && e.opp == DropVolume(opp, t)
    && e.my == Leftover(o, t) + rest
    && e.matches == Fills(opp, o, t)
    && InNameOf(o, t, SideTrades(true, e.matches))
  }

  /** The matches of order `o` taking volume `v` from the front of `l`, one per order reached. */
  function Fills(l: seq<Order>, o: Order, v: nat): seq<Match> {
    if l == [] || v == 0 then []
    else
      var x := Min(l[0].volume, v);
      [Match(TradeOf(l[0], x), TradeOf(o, x))] + Fills(l[1..], o, v - x)
  }

  /** The matches one by one: the `k`-th is between the `k`-th order of the list and `o`, each at its
      own price, and takes all of that order unless it is the last. */
  lemma {:induction false} FillsEach(l: seq<Order>, o: Order, v: nat)
    ensures var ms := Fills(l, o, v);
      |ms| <= |l| && forall k :: 0 <= k < |ms| ==>
        && TradeBy(l[k], ms[k].opposite) && TradeBy(o, ms[k].own)
        && ms[k].own.volume == ms[k].opposite.volume <= l[k].volume
        && (k + 1 < |ms| ==> ms[k].own.volume == l[k].volume)
    decreases |l|
  {
    if l != [] && v > 0 {
      FillsEach(l[1..], o, v - Min(l[0].volume, v));
    }
  }

  /** Taking no more than what crosses reaches crossing orders only. */
  lemma {:induction false} FillsCross(bid: bool, l: seq<Order>, o: Order, v: nat)
    requires Positive(l) && Sorted(!bid, l) && v <= CrossVolume(bid, o.price, l)
    ensures |Fills(l, o, v)| <= |l|
    ensures forall k :: 0 <= k < |Fills(l, o, v)| ==> Crosses(bid, o.price, l[k].price)
    decreases |l|
  {
    if l != [] && v > 0 {
      if !Crosses(bid, o.price, l[0].price) {
        SortedStopsCrossing(bid, o.price, l);
        NoCrossVolume(bid, o.price, l);
      }
      FillsCross(bid, l[1..], o, v - Min(l[0].volume, v));
    }
  }

  lemma {:induction false} FillsName(l: seq<Order>, o: Order, o': Order, v: nat)
    requires o' == o.(volume := o'.volume)
    ensures Fills(l, o', v) == Fills(l, o, v)
    decreases |l|
  {
    if l != [] && v > 0 {
      FillsName(l[1..], o, o', v - Min(l[0].volume, v));
    }
  }

  function Leftover(o: Order, taken: nat): seq<Order> {
    if taken < o.volume then [o.(volume := o.volume - taken)] else []
  }

  /** The trades are all of order `o` and add up to `t`. */
  ghost predicate InNameOf(o: Order, t: nat, trades: seq<Trade>) {
    TradedVolume(trades) == t && forall x :: x in trades ==> TradeBy(o, x)
  }

  lemma {:induction false} Aggressor(bid: bool, opp: seq<Order>, o: Order, rest: seq<Order>)
    requires o.isBuy == bid && o.volume > 0 && OnSide(bid, rest)
    requires Positive(opp) && Sorted(!bid, opp) && NoCross(bid, rest, opp)
    ensures TakesAll(bid, opp, o, rest, Execute(opp, [o] + rest))
    decreases |opp|
  {
    var my := [o] + rest;
    if !CanTrade(opp, my) {
      if opp != [] {
        SortedStopsCrossing(bid, o.price, opp);
        NoCrossVolume(bid, o.price, opp);
      }
      DropNothing(opp);
      assert o.(volume := o.volume - 0) == o;
    } else {
      var v := Min(opp[0].volume, o.volume);
      var opp' := Consume(opp, v);
      ConsumeTail(opp, v);
      TailNoCross(bid, rest, opp', opp);
      ConsumePlain(!bid, o.price, opp, v);
      if v < o.volume {
        Aggressor(bid, opp', o.(volume := o.volume - v), rest);
        AggressorGoesOn(bid, opp, o, rest);
      } else {
        AggressorIsSpent(bid, opp, o, rest);
      }
    }
  }

  lemma ConsumeOwn(o: Order, rest: seq<Order>, v: nat)
    requires v < o.volume
    ensures Consume([o] + rest, v) == [o.(volume := o.volume - v)] + rest
  {
  }

  lemma {:induction false} AggressorGoesOn(bid: bool, opp: seq<Order>, o: Order, rest: seq<Order>)
    requires opp != [] && o.isBuy == bid && Crosses(bid, o.price, opp[0].price) && 0 < opp[0].volume < o.volume
    requires var o' := o.(volume := o.volume - opp[0].volume);
      TakesAll(bid, opp[1..], o', rest, Execute(opp[1..], [o'] + rest))
    ensures TakesAll(bid, opp, o, rest, Execute(opp, [o] + rest))
  {
    var my := [o] + rest;
    var v := opp[0].volume;
    var o' := o.(volume := o.volume - v);
    ExecuteUnfold(opp, my);
    ConsumeOwn(o, rest, v);
    TakesMore(bid, opp, o, o', rest, Execute(opp, my), Execute(opp[1..], [o'] + rest));
  }

  lemma TakesMore(bid: bool, opp: seq<Order>, o: Order, o': Order, rest: seq<Order>,
                  e: Execution, e': Execution)
    requires opp != [] && Crosses(bid, o.price, opp[0].price) && 0 < opp[0].volume < o.volume
    requires o' == o.(volume := o.volume - opp[0].volume)
    requires e.opp == e'.opp && e.my == e'.my
    requires e.matches == [Match(TradeOf(opp[0], opp[0].volume), TradeOf(o, opp[0].volume))] + e'.matches
    requires TakesAll(bid, opp[1..], o', rest, e')
    ensures TakesAll(bid, opp, o, rest, e)
  {
    var v := opp[0].volume;
    var t' := Min(o'.volume, CrossVolume(bid, o'.price, opp[1..]));
    FillsName(opp[1..], o, o', t');
    assert e.matches[1..] == e'.matches;
    assert Fills(opp, o, v + t') == e.matches;
  }

  lemma AggressorIsSpent(bid: bool, opp: seq<Order>, o: Order, rest: seq<Order>)
    requires opp != [] && o.isBuy == bid && Crosses(bid, o.price, opp[0].price)
    requires 0 < o.volume <= opp[0].volume
    requires Positive(opp) && OnSide(bid, rest) && NoCross(bid, rest, opp)
    ensures TakesAll(bid, opp, o, rest, Execute(opp, [o] + rest))
  {
    var my := [o] + rest;
    var opp' := Consume(opp, o.volume);
    ExecuteUnfold(opp, my);
    assert Consume(my, o.volume) == rest;
    ConsumeTail(opp, o.volume);
    TailNoCross(bid, rest, opp', opp);
    Stuck(bid, opp', rest);
    var m := Match(TradeOf(opp[0], o.volume), TradeOf(o, o.volume));
    assert Execute(opp, my) == Execution(opp', rest, [m]);
    SpentTakesAll(bid, opp, o, rest);
  }

  /** A single match that uses the order up takes what it can. */
  lemma SpentTakesAll(bid: bool, opp: seq<Order>, o: Order, rest: seq<Order>)
    requires opp != [] && Crosses(bid, o.price, opp[0].price) && 0 < o.volume <= opp[0].volume
    requires Positive(opp)
    ensures var m := Match(TradeOf(opp[0], o.volume), TradeOf(o, o.volume));
      TakesAll(bid, opp, o, rest, Execution(Consume(opp, o.volume), rest, [m]))
  {
    var m := Match(TradeOf(opp[0], o.volume), TradeOf(o, o.volume));
    assert [m][1..] == [];
    assert SideTrades(true, [m]) == [m.own];
    assert Fills(opp[1..], o, 0) == [];
    if o.volume == opp[0].volume {
      DropNothing(opp[1..]);
    }
  }
}
