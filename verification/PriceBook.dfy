/** One side of the market as the source keeps it: a map from price to a first-in-first-out
    queue, ordered by the side's comparator. Levels can be empty. */
module PriceBook {
  import opened Orders
  import F = FlatBook

  type Book = map<nat, seq<Order>>

  ghost predicate IsBest(m: Book, bid: bool, b: nat) {
    b in m && forall p :: p in m && p != b ==> Better(bid, b, p)
  }

  lemma {:induction false} BestExists(m: Book, bid: bool)
    requires m != map[]
    ensures exists b :: IsBest(m, bid, b)
    decreases m.Keys
  {
    var p :| p in m;
    var m' := m - {p};
    if m' == map[] {
      assert forall q :: q in m ==> q == p || q in m';
      assert IsBest(m, bid, p);
    } else {
      BestExists(m', bid);
      var b :| IsBest(m', bid, b);
      assert forall q :: q in m ==> q == p || q in m';
      if Better(bid, p, b) {
        assert IsBest(m, bid, p);
      } else {
        assert IsBest(m, bid, b);
      }
    }
  }

  /** The key `std::begin` of the ordered map points at. */
  ghost function Best(m: Book, bid: bool): (b: nat)
    requires m != map[]
    ensures IsBest(m, bid, b)
  {
    BestExists(m, bid);
    var b :| IsBest(m, bid, b);
    b
  }

  lemma BestIs(m: Book, bid: bool, b: nat)
    requires IsBest(m, bid, b)
    ensures m != map[] && Best(m, bid) == b
  {
  }

  /** Every order of the book in the order the map and its queues give them. */
  ghost function Flat(m: Book, bid: bool): seq<Order>
    decreases m.Keys
  {
    if m == map[] then []
    else
      var b := Best(m, bid);
      m[b] + Flat(m - {b}, bid)
  }

  /** The orders of the levels that come before the first empty level: all that matching can reach. */
  ghost function Visible(m: Book, bid: bool): seq<Order>
    decreases m.Keys
  {
    if m == map[] then []
    else
      var b := Best(m, bid);
      if m[b] == [] then [] else m[b] + Visible(m - {b}, bid)
  }

  /** The orders that rest behind the first empty level. */
  ghost function Hidden(m: Book, bid: bool): seq<Order>
    decreases m.Keys
  {
    if m == map[] then []
    else
      var b := Best(m, bid);
      if m[b] == [] then Flat(m - {b}, bid) else Hidden(m - {b}, bid)
  }

  ghost predicate NoEmptyLevel(m: Book) {
    forall p :: p in m ==> m[p] != []
  }

  /** The structural invariant of a book: orders stand at their own price and on their own side. */
  ghost predicate WellFormed(m: Book, bid: bool) {
    forall p :: p in m ==> forall i :: 0 <= i < |m[p]| ==> m[p][i].price == p && m[p][i].isBuy == bid
  }

  function At(m: Book, p: nat): seq<Order> {
    if p in m then m[p] else []
  }

  ghost function Ahead(m: Book, bid: bool, p: nat): Book {
    map q | q in m && Better(bid, q, p) :: m[q]
  }

  ghost function Behind(m: Book, bid: bool, p: nat): Book {
    map q | q in m && Better(bid, p, q) :: m[q]
  }

  lemma {:induction false} VisibleHidden(m: Book, bid: bool)
    ensures Flat(m, bid) == Visible(m, bid) + Hidden(m, bid)
    decreases m.Keys
  {
    if m != map[] {
      var b := Best(m, bid);
      VisibleHidden(m - {b}, bid);
    }
  }

  /** Without empty levels matching can reach every order. */
  lemma {:induction false} NothingHidden(m: Book, bid: bool)
    requires NoEmptyLevel(m)
    ensures Visible(m, bid) == Flat(m, bid) && Hidden(m, bid) == []
    decreases m.Keys
  {
    if m != map[] {
      NothingHidden(m - {Best(m, bid)}, bid);
    }
  }

  /** The list is what stands ahead of `p`, at `p` and behind `p`. */
  ghost predicate Splits(m: Book, bid: bool, p: nat) {
    Flat(m, bid) == Flat(Ahead(m, bid, p), bid) + At(m, p) + Flat(Behind(m, bid, p), bid)
  }

  lemma SplitBehindBest(m: Book, bid: bool, p: nat)
    requires m != map[] && Better(bid, Best(m, bid), p) && Splits(m - {Best(m, bid)}, bid, p)
    ensures Splits(m, bid, p)
  {
    var b := Best(m, bid);
    var m' := m - {b};
    BestIs(Ahead(m, bid, p), bid, b);
    assert Ahead(m, bid, p) - {b} == Ahead(m', bid, p);
    assert Behind(m, bid, p) == Behind(m', bid, p);
    var a, q, c := Flat(Ahead(m', bid, p), bid), At(m, p), Flat(Behind(m', bid, p), bid);
    assert m[b] + (a + q + c) == (m[b] + a) + q + c;
  }

  /** The list splits around any price, whether or not that price has a level. */
  lemma {:induction false} FlatSplit(m: Book, bid: bool, p: nat)
    ensures Splits(m, bid, p)
    decreases m.Keys
  {
    if m == map[] {
      assert Ahead(m, bid, p) == map[] && Behind(m, bid, p) == map[];
    } else {
      var b := Best(m, bid);
      if b == p {
        assert Ahead(m, bid, p) == map[];
        assert Behind(m, bid, p) == m - {b};
      } else if Better(bid, p, b) {
        assert Ahead(m, bid, p) == map[];
        assert Behind(m, bid, p) == m;
      } else {
        FlatSplit(m - {b}, bid, p);
        SplitBehindBest(m, bid, p);
      }
    }
  }

  /** Every listed order stands in the level of its price, on the right side, in sorted place. */
  lemma {:induction false} FlatWellFormed(m: Book, bid: bool)
    requires WellFormed(m, bid)
    ensures forall x :: x in Flat(m, bid) ==> x.price in m && x in m[x.price] && x.isBuy == bid
    ensures F.Sorted(bid, Flat(m, bid))
    decreases m.Keys
  {
    if m != map[] {
      var b := Best(m, bid);
      FlatWellFormed(m - {b}, bid);
      var l, q, r := Flat(m, bid), m[b], Flat(m - {b}, bid);
      forall i, j | 0 <= i < j < |l| ensures !Better(bid, l[j].price, l[i].price) {
        if j >= |q| {
          assert l[j] == r[j - |q|] && r[j - |q|] in r;
        }
        if i >= |q| {
          assert l[i] == r[i - |q|];
        }
      }
    }
  }

  lemma FlatHas(m: Book, bid: bool, p: nat, x: Order)
    requires p in m && x in m[p]
    ensures x in Flat(m, bid)
  {
    FlatSplit(m, bid, p);
  }

  /** The three stretches of the list around price `p`, and the prices found in each. */
  lemma Parts(m: Book, bid: bool, p: nat) returns (a: seq<Order>, q: seq<Order>, c: seq<Order>)
    requires WellFormed(m, bid)
    ensures a == Flat(Ahead(m, bid, p), bid) && q == At(m, p) && c == Flat(Behind(m, bid, p), bid)
    ensures Flat(m, bid) == a + q + c
    ensures forall i :: 0 <= i < |a| ==> Better(bid, a[i].price, p)
    ensures forall i :: 0 <= i < |q| ==> q[i].price == p
    ensures forall i :: 0 <= i < |c| ==> Better(bid, p, c[i].price)
  {
    FlatSplit(m, bid, p);
    a, q, c := Flat(Ahead(m, bid, p), bid), At(m, p), Flat(Behind(m, bid, p), bid);
    forall i | 0 <= i < |a| ensures Better(bid, a[i].price, p) {
      FlatWellFormed(Ahead(m, bid, p), bid);
      assert a[i] in a;
    }
    forall i | 0 <= i < |c| ensures Better(bid, p, c[i].price) {
      FlatWellFormed(Behind(m, bid, p), bid);
      assert c[i] in c;
    }
  }

  // ---- the operations of a book ----

  datatype Result = Result(book: Book, ok: bool)

  function Insert(m: Book, o: Order): Book {
    m[o.price := At(m, o.price) + [o]]
  }

  function Cancel(m: Book, p: nat, id: string): Result {
    var i := IndexOf(At(m, p), id);
    if i < |At(m, p)| then Result(m[p := RemoveAt(m[p], i)], true) else Result(m, false)
  }

  /** Take an order out of its level and the level out of the book once it is empty. */
  function TakeOut(m: Book, p: nat, i: nat): Book
    requires p in m && i < |m[p]|
  {
    if |m[p]| == 1 then m - {p} else m[p := RemoveAt(m[p], i)]
  }

  function Amend(m: Book, a: AmendData): Result {
    var q := At(m, a.price);
    var i := IndexOf(q, a.id);
    if i == |q| then Result(m, false)
    else if a.newVolume == 0 then Result(TakeOut(m, a.price, i), true)
    else if a.price == a.newPrice then
      Result(m[a.price := q[i := q[i].(volume := a.newVolume)]], true)
    else if a.newPrice in m then Result(TakeOut(m, a.price, i), true)
    else Result(TakeOut(m[a.newPrice := [q[i].(price := a.newPrice, volume := a.newVolume)]], a.price, i), true)
  }

  /** Trade `v` of the best order and drop its level once it is empty. */
  ghost function TradeTop(m: Book, bid: bool, v: nat): Book
    requires m != map[] && m[Best(m, bid)] != [] && v <= m[Best(m, bid)][0].volume
  {
    var b := Best(m, bid);
    var q := F.Consume(m[b], v);
    if q == [] then m - {b} else m[b := q]
  }

  // ---- the structural invariant survives every operation ----

  lemma InsertKeepsWellFormed(m: Book, bid: bool, o: Order)
    requires WellFormed(m, bid) && o.isBuy == bid
    ensures WellFormed(Insert(m, o), bid)
  {
  }

  lemma TakeOutKeepsWellFormed(m: Book, bid: bool, p: nat, i: nat)
    requires WellFormed(m, bid) && p in m && i < |m[p]|
    ensures WellFormed(TakeOut(m, p, i), bid)
    ensures WellFormed(m[p := RemoveAt(m[p], i)], bid)
  {
  }

  lemma CancelKeepsWellFormed(m: Book, bid: bool, p: nat, id: string)
    requires WellFormed(m, bid)
    ensures WellFormed(Cancel(m, p, id).book, bid)
  {
  }

  lemma AmendKeepsWellFormed(m: Book, bid: bool, a: AmendData)
    requires WellFormed(m, bid)
    ensures WellFormed(Amend(m, a).book, bid)
  {
  }

  lemma TradeTopKeepsWellFormed(m: Book, bid: bool, v: nat)
    requires WellFormed(m, bid)
    requires m != map[] && m[Best(m, bid)] != [] && v <= m[Best(m, bid)][0].volume
    ensures WellFormed(TradeTop(m, bid, v), bid)
  {
  }

  // ---- every operation has the effect of its counterpart on the flat list ----

  lemma InsertFlat(m: Book, bid: bool, o: Order)
    requires WellFormed(m, bid) && o.isBuy == bid
    ensures Flat(Insert(m, o), bid) == F.Insert(bid, Flat(m, bid), o)
  {
    var a, q, c := Parts(m, bid, o.price);
    LevelFlat(m, bid, o.price, Insert(m, o));
    F.InsertInMiddle(bid, a, q, c, o, Flat(m, bid), Flat(Insert(m, o), bid));
  }

  /** Replacing the queue of one level replaces that stretch of the list. */
  lemma LevelFlat(m: Book, bid: bool, p: nat, m': Book)
    requires m' - {p} == m - {p}
    ensures Flat(m', bid) == Flat(Ahead(m, bid, p), bid) + At(m', p) + Flat(Behind(m, bid, p), bid)
  {
    forall q | q != p ensures (q in m <==> q in m') && (q in m ==> m[q] == m'[q]) {
      assert q in m - {p} <==> q in m' - {p};
      if q in m { assert (m - {p})[q] == (m' - {p})[q]; }
    }
    FlatSplit(m', bid, p);
    assert Ahead(m', bid, p) == Ahead(m, bid, p) && Behind(m', bid, p) == Behind(m, bid, p);
  }

  lemma FindFlat(m: Book, bid: bool, p: nat, id: string)
    requires WellFormed(m, bid)
    ensures var i := IndexOf(At(m, p), id); var l := Flat(m, bid);
      F.Find(l, p, id) == if i < |At(m, p)| then |Flat(Ahead(m, bid, p), bid)| + i else |l|
  {
    var a, q, c := Parts(m, bid, p);
    F.FindInMiddle(a, q, c, p, id);
  }

  lemma ChangeInMiddle(a: seq<Order>, q: seq<Order>, c: seq<Order>, i: nat, o: Order,
                       l: seq<Order>, l': seq<Order>)
    requires i < |q| && l == a + q + c && l' == a + q[i := o] + c
    ensures l' == l[|a| + i := o] && l[|a| + i] == q[i]
  {
  }

  lemma RemoveInMiddle(a: seq<Order>, q: seq<Order>, c: seq<Order>, i: nat, q': seq<Order>,
                       l: seq<Order>, l': seq<Order>)
    requires i < |q| && l == a + q + c && q' == RemoveAt(q, i) && l' == a + q' + c
    ensures l' == RemoveAt(l, |a| + i) && l[|a| + i] == q[i]
  {
  }

  /** What stands around a level whose queue is replaced, and where the found order stands. */
  lemma AroundFound(m: Book, bid: bool, p: nat, id: string, m': Book)
    returns (a: seq<Order>, c: seq<Order>)
    requires WellFormed(m, bid) && m' - {p} == m - {p}
    requires IndexOf(At(m, p), id) < |At(m, p)|
    ensures Flat(m, bid) == a + m[p] + c && Flat(m', bid) == a + At(m', p) + c
    ensures F.Find(Flat(m, bid), p, id) == |a| + IndexOf(m[p], id)
  {
    FindFlat(m, bid, p, id);
    LevelFlat(m, bid, p, m');
    var q;
    a, q, c := Parts(m, bid, p);
  }

  /** Removing the found order from its level removes the found order from the list. */
  lemma FoundRemoved(m: Book, bid: bool, p: nat, id: string, m': Book)
    requires WellFormed(m, bid)
    requires IndexOf(At(m, p), id) < |At(m, p)|
    requires m' - {p} == m - {p} && At(m', p) == RemoveAt(m[p], IndexOf(m[p], id))
    ensures var l := Flat(m, bid); var k := F.Find(l, p, id);
      k < |l| && l[k] == m[p][IndexOf(m[p], id)] && Flat(m', bid) == RemoveAt(l, k)
  {
    var a, c := AroundFound(m, bid, p, id, m');
    RemoveInMiddle(a, m[p], c, IndexOf(m[p], id), At(m', p), Flat(m, bid), Flat(m', bid));
  }

  lemma FoundChanged(m: Book, bid: bool, p: nat, id: string, o: Order)
    requires WellFormed(m, bid)
    requires IndexOf(At(m, p), id) < |At(m, p)|
    ensures var l := Flat(m, bid); var k := F.Find(l, p, id); var i := IndexOf(m[p], id);
      k < |l| && l[k] == m[p][i] && Flat(m[p := m[p][i := o]], bid) == l[k := o]
  {
    var i := IndexOf(m[p], id);
    var m' := m[p := m[p][i := o]];
    var a, c := AroundFound(m, bid, p, id, m');
    ChangeInMiddle(a, m[p], c, i, o, Flat(m, bid), Flat(m', bid));
  }

  lemma CancelFlat(m: Book, bid: bool, p: nat, id: string)
    requires WellFormed(m, bid)
    ensures Flat(Cancel(m, p, id).book, bid) == F.Cancel(Flat(m, bid), p, id)
    ensures Cancel(m, p, id).ok <==> F.Find(Flat(m, bid), p, id) < |Flat(m, bid)|
  {
    if Cancel(m, p, id).ok {
      FoundRemoved(m, bid, p, id, Cancel(m, p, id).book);
    } else {
      FindFlat(m, bid, p, id);
    }
  }

  /** A price amend to a free price is: take the order out, then insert it as a new arrival. */
  lemma MoveIsTakeOutInsert(m: Book, a: AmendData)
    requires IndexOf(At(m, a.price), a.id) < |At(m, a.price)|
    requires a.newVolume > 0 && a.price != a.newPrice && a.newPrice !in m
    ensures var i := IndexOf(m[a.price], a.id);
      Amend(m, a) == Result(Insert(TakeOut(m, a.price, i),
                                   m[a.price][i].(price := a.newPrice, volume := a.newVolume)), true)
  {
    var i := IndexOf(m[a.price], a.id);
    var o := m[a.price][i].(price := a.newPrice, volume := a.newVolume);
    assert Amend(m, a).book == TakeOut(m[a.newPrice := [o]], a.price, i);
    assert [] + [o] == [o];
    assert Insert(TakeOut(m, a.price, i), o) == TakeOut(m, a.price, i)[a.newPrice := [o]];
    if |m[a.price]| == 1 {
      assert (m - {a.price})[a.newPrice := [o]] == m[a.newPrice := [o]] - {a.price};
    } else {
      var q := RemoveAt(m[a.price], i);
      assert m[a.price := q][a.newPrice := [o]] == m[a.newPrice := [o]][a.price := q];
    }
  }

  lemma AmendFlat(m: Book, bid: bool, a: AmendData)
    requires WellFormed(m, bid)
    ensures Flat(Amend(m, a).book, bid) == F.Amend(bid, Flat(m, bid), a, a.newPrice in m)
    ensures Amend(m, a).ok <==> F.Find(Flat(m, bid), a.price, a.id) < |Flat(m, bid)|
  {
    var q := At(m, a.price);
    var i := IndexOf(q, a.id);
    if i == |q| {
      FindFlat(m, bid, a.price, a.id);
    } else if a.newVolume > 0 && a.price == a.newPrice {
      FoundChanged(m, bid, a.price, a.id, q[i].(volume := a.newVolume));
    } else {
      var m1 := TakeOut(m, a.price, i);
      FoundRemoved(m, bid, a.price, a.id, m1);
      if a.newVolume > 0 && a.newPrice !in m {
        MoveIsTakeOutInsert(m, a);
        TakeOutKeepsWellFormed(m, bid, a.price, i);
        WellFormedSide(m, bid, a.price, i);
        InsertFlat(m1, bid, q[i].(price := a.newPrice, volume := a.newVolume));
      }
    }
  }

  lemma WellFormedSide(m: Book, bid: bool, p: nat, i: nat)
    requires WellFormed(m, bid) && p in m && i < |m[p]|
    ensures m[p][i].price == p && m[p][i].isBuy == bid
  {
  }

  lemma ConsumeFront(q: seq<Order>, rest: seq<Order>, v: nat)
    requires q != [] && v <= q[0].volume
    ensures F.Consume(q + rest, v) == F.Consume(q, v) + rest
  {
  }

  /** Trading the best order consumes the front of the reachable list and touches nothing else. */
  lemma TradeTopFlat(m: Book, bid: bool, v: nat)
    requires m != map[] && m[Best(m, bid)] != [] && v <= m[Best(m, bid)][0].volume
    ensures Visible(m, bid) != [] && Visible(m, bid)[0] == m[Best(m, bid)][0]
    ensures Visible(TradeTop(m, bid, v), bid) == F.Consume(Visible(m, bid), v)
    ensures Hidden(TradeTop(m, bid, v), bid) == Hidden(m, bid)
  {
    var b := Best(m, bid);
    var q := F.Consume(m[b], v);
    ConsumeFront(m[b], Visible(m - {b}, bid), v);
    if q != [] {
      var m' := m[b := q];
      BestIs(m', bid, b);
      assert m' - {b} == m - {b};
    }
  }

  /** An order taken from its queue, emptying its level or not, brings no other order within reach. */
  lemma {:induction false} RemoveVisible(m: Book, bid: bool, p: nat, i: nat)
    requires p in m && i < |m[p]|
    ensures forall x :: x in Visible(m[p := RemoveAt(m[p], i)], bid) ==> x in Visible(m, bid)
    decreases m.Keys
  {
    var b, m' := Best(m, bid), m[p := RemoveAt(m[p], i)];
    BestIs(m', bid, b);
    if b == p {
      assert m' - {b} == m - {b};
    } else {
      assert m' - {b} == (m - {b})[p := RemoveAt(m[p], i)];
      RemoveVisible(m - {b}, bid, p, i);
    }
  }
}
