/** The volume-weighted average price over the latest trade ticks. */
module Vwap {
  import opened CircularBuffers

  datatype Tick = Tick(price: real, volume: real)

  /** Volume-weighted average, or what a tick gives instead: no update for a price that is not
      positive, and nothing defined when the window has no volume to divide by. */
  datatype Average = NoUpdate | Undefined | Value(vwap: real)

  const WINDOW: nat := 500

  function Priced(history: seq<Tick>): seq<Tick> {
    if history == [] then []
    else
      var last := history[|history| - 1];
      Priced(history[..|history| - 1]) + (if last.price > 0.0 then [last] else [])
  }

  function PriceVolume(w: seq<Tick>): real {
    if w == [] then 0.0 else w[0].price * w[0].volume + PriceVolume(w[1..])
  }

  function TotalVolume(w: seq<Tick>): real {
    if w == [] then 0.0 else w[0].volume + TotalVolume(w[1..])
  }

  /** The callback of the loop: add up price times volume, and volume. */
  function Accumulate(s: (real, real), t: Tick): ((real, real), bool) {
    ((s.0 + t.price * t.volume, s.1 + t.volume), true)
  }

  lemma {:induction false} AccumulateSums(s: (real, real), w: seq<Tick>)
    ensures FoldWhile(Accumulate, s, w) == (s.0 + PriceVolume(w), s.1 + TotalVolume(w))
    decreases |w|
  {
    if w != [] {
      AccumulateSums(Accumulate(s, w[0]).0, w[1..]);
    }
  }

  /** The window the average is taken over: the last 500 ticks of the history with a price. */
  function PricedWindow(history: seq<Tick>): seq<Tick> {
    Window(Priced(history), WINDOW)
  }

  function AverageOf(w: seq<Tick>): Average {
    if TotalVolume(w) == 0.0 then Undefined else Value(PriceVolume(w) / TotalVolume(w))
  }

  /** The sums add up what the ticks contribute one by one. */
  lemma {:induction false} SumsAdd(a: seq<Tick>, b: seq<Tick>)
    ensures TotalVolume(a + b) == TotalVolume(a) + TotalVolume(b)
    ensures PriceVolume(a + b) == PriceVolume(a) + PriceVolume(b)
    ensures |a| == 1 ==> TotalVolume(a) == a[0].volume && PriceVolume(a) == a[0].price * a[0].volume
  {
    if a == [] {
      assert a + b == b;
    } else {
      assert (a + b)[1..] == a[1..] + b;
      SumsAdd(a[1..], b);
    }
  }

  /** There is an average unless the volumes add up to zero, and times the volume of the window it is
      the sum of price times volume. */
  lemma AverageIs(w: seq<Tick>)
    ensures AverageOf(w) == Undefined <==> TotalVolume(w) == 0.0
    ensures TotalVolume(w) != 0.0 ==>
      AverageOf(w).Value? && AverageOf(w).vwap * TotalVolume(w) == PriceVolume(w)
  {
  }

  /** Exactly the ticks with a positive price are kept, each as often as it came. */
  lemma {:induction false} PricedTicks(h: seq<Tick>, t: Tick)
    ensures multiset(Priced(h))[t] == if t.price > 0.0 then multiset(h)[t] else 0
    decreases |h|
  {
    if h != [] {
      var h', last := h[..|h| - 1], h[|h| - 1];
      PricedTicks(h', t);
      assert h == h' + [last];
      assert multiset(Priced(h)) == multiset(Priced(h')) + multiset(if last.price > 0.0 then [last] else []);
    }
  }

  /** They are kept in their order: `at` tells where each of them stands in the history. */
  lemma {:induction false} PricedInOrder(h: seq<Tick>) returns (at: seq<nat>)
    ensures Stands(Priced(h), h, at)
    decreases |h|
  {
    if h == [] {
      at := [];
    } else {
      var n := |h| - 1;
      at := PricedInOrder(h[..n]);
      StandsOn(Priced(h[..n]), h[..n], at, h[n]);
      assert h == h[..n] + [h[n]];
      if h[n].price > 0.0 {
        at := at + [n];
      } else {
        assert Priced(h) == Priced(h[..n]);
      }
    }
  }

  /** The elements of `p` stand in `h` at the positions `at`, from left to right. */
  ghost predicate Stands(p: seq<Tick>, h: seq<Tick>, at: seq<nat>) {
    && |at| == |p|
    && (forall i :: 0 <= i < |at| ==> at[i] < |h| && h[at[i]] == p[i])
    && forall i, j :: 0 <= i < j < |at| ==> at[i] < at[j]
  }

  lemma StandsOn(p: seq<Tick>, h: seq<Tick>, at: seq<nat>, t: Tick)
    requires Stands(p, h, at)
    ensures Stands(p, h + [t], at) && Stands(p + [t], h + [t], at + [|h|])
  {
  }

  /** The window is made of the last 500 ticks with a positive price, or all of them while there are
      fewer; a tick without a positive price leaves it as it was. */
  lemma PricedWindowIs(h: seq<Tick>, t: Tick)
    ensures var p, w := Priced(h), PricedWindow(h);
      |w| == (if |p| <= 500 then |p| else 500) && w == p[|p| - |w|..]
    ensures Priced(h + [t]) == Priced(h) + if t.price > 0.0 then [t] else []
    ensures t.price <= 0.0 ==> PricedWindow(h + [t]) == PricedWindow(h)
  {
    assert (h + [t])[..|h|] == h;
  }

  class VwapCalculator {
    const tradeTicks: CircularBuffer<Tick>
    /** All ticks received so far. */
    ghost var history: seq<Tick>

    constructor ()
      ensures Valid() && history == [] && fresh(tradeTicks) && fresh(tradeTicks.ring)
    {
      tradeTicks := new CircularBuffer(WINDOW);
      history := [];
    }

    ghost predicate Valid()
      reads this, tradeTicks, tradeTicks.ring
    {
      tradeTicks.Valid() && tradeTicks.ring.Length == WINDOW && tradeTicks.added == Priced(history)
    }

    /** The average over the window as long as the buffer keeps it. The tick that makes the end
        index of the buffer wrap around finds nothing to average over. */
    method OnTradeTick(tick: Tick) returns (average: Average)
      requires Valid()
      modifies this, tradeTicks, tradeTicks.ring
      ensures Valid() && history == old(history) + [tick]
      ensures tick.price <= 0.0 ==> average == NoUpdate
      ensures tick.price > 0.0 && Kept(|Priced(history)|, WINDOW) ==>
        average == AverageOf(PricedWindow(history))
      ensures tick.price > 0.0 && |Priced(history)| == WRAP ==> average == Undefined
    {
      ghost var h := history + [tick];
      assert h[..|h| - 1] == history;
      if tick.price > 0.0 {
        var _ := tradeTicks.Add(tick);
        history := h;
        var totals := tradeTicks.Loop(Accumulate, (0.0, 0.0));
        ghost var shown := tradeTicks.Shown();
        AccumulateSums((0.0, 0.0), shown);
        var (totalVolPrice, totalVolume) := totals;
        if totalVolume == 0.0 {
          average := Undefined;
        } else {
          average := Value(totalVolPrice / totalVolume);
        }
        assert average == AverageOf(shown);
      } else {
        history := h;
        average := NoUpdate;
      }
    }
  }

  /** Volumes that are not negative keep the weighted sum between the bounds of the prices. */
  lemma {:induction false} PriceVolumeBounds(w: seq<Tick>, lo: real, hi: real)
    requires forall i :: 0 <= i < |w| ==> lo <= w[i].price <= hi && w[i].volume >= 0.0
    ensures lo * TotalVolume(w) <= PriceVolume(w) <= hi * TotalVolume(w)
  {
    if w != [] {
      PriceVolumeBounds(w[1..], lo, hi);
      var p, v := w[0].price, w[0].volume;
      assert (p - lo) * v >= 0.0 && (hi - p) * v >= 0.0;
    }
  }

  lemma Between(x: real, t: real, lo: real, hi: real)
    requires t > 0.0 && lo * t <= x <= hi * t
    ensures lo <= x / t <= hi
  {
  }

  /** With volumes that are not negative and some volume, there is an average, and it lies between
      any bounds of the prices in the window. */
  lemma AverageBetween(history: seq<Tick>, lo: real, hi: real)
    requires var w := PricedWindow(history);
      && TotalVolume(w) > 0.0
      && forall i :: 0 <= i < |w| ==> lo <= w[i].price <= hi && w[i].volume >= 0.0
    ensures var average := AverageOf(PricedWindow(history)); average.Value? && lo <= average.vwap <= hi
  {
    var w := PricedWindow(history);
    PriceVolumeBounds(w, lo, hi);
    Between(PriceVolume(w), TotalVolume(w), lo, hi);
  }
}
