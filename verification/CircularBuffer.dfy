/** The window over the latest values added: once full, each new value replaces the oldest. */
module CircularBuffers {
  import R = RingModel

  function Oldest(n: nat, m: nat): nat {
    if n <= m then 0 else n - m
  }

  /** The last `m` values, oldest first. */
  function Window<T>(added: seq<T>, m: nat): (w: seq<T>)
    ensures |w| == if |added| <= m then |added| else m
  {
    added[Oldest(|added|, m)..]
  }

  ghost predicate Distinct<T>(w: seq<T>) {
    forall i, j :: 0 <= i < j < |w| ==> w[i] != w[j]
  }

  /** Feed values to `fn` one after the other, until it says to stop. */
  function FoldWhile<S, T>(fn: (S, T) -> (S, bool), s: S, w: seq<T>): S {
    if w == [] then s
    else
      var (s', more) := fn(s, w[0]);
      if more then FoldWhile(fn, s', w[1..]) else s'
  }

  function Fold<S, T>(fn: (S, T) -> (S, bool), s: S, w: seq<T>): S {
    if w == [] then s else Fold(fn, fn(s, w[0]).0, w[1..])
  }

  /** `fn` asks for more after every value of `w`. */
  ghost predicate Continues<S, T>(fn: (S, T) -> (S, bool), s: S, w: seq<T>) {
    w != [] ==> fn(s, w[0]).1 && Continues(fn, fn(s, w[0]).0, w[1..])
  }

  /** The fold sees a prefix: all values if `fn` always asks for more, else those up to the first
      value after which it does not. */
  lemma {:induction false} FoldsPrefix<S, T>(fn: (S, T) -> (S, bool), s: S, w: seq<T>) returns (k: nat)
    ensures k <= |w| && FoldWhile(fn, s, w) == Fold(fn, s, w[..k])
    ensures Continues(fn, s, w) ==> k == |w|
    ensures !Continues(fn, s, w) ==>
      k > 0 && Continues(fn, s, w[..k - 1]) && !Continues(fn, s, w[..k])
  {
    if w == [] {
      k := 0;
    } else {
      var (s', more) := fn(s, w[0]);
      if more {
        var k' := FoldsPrefix(fn, s', w[1..]);
        k := k' + 1;
        assert w[..k][1..] == w[1..][..k'];
        if k' > 0 {
          assert w[..k - 1][1..] == w[1..][..k' - 1];
        }
      } else {
        k := 1;
        assert w[..1][1..] == [];
      }
    }
  }

  /** Indices are unsigned 64-bit numbers. */
  const WRAP: nat := 0x1_0000_0000_0000_0000

  /** The size, truncated to 64 bits. */
  function SizeOf(start: nat, end: nat, m: nat): nat {
    if end > m then m else (end - start) % WRAP
  }

  /** Where a loop ends: the start index plus the size, truncated to 64 bits. */
  function LoopEnd(start: nat, end: nat, m: nat): nat {
    (start + SizeOf(start, end, m)) % WRAP
  }

  /** The value that a counter stands for. */
  function ValueAt<T>(slots: seq<T>, i: nat): T
    requires slots != []
  {
    slots[i % |slots|]
  }

  /** What a loop visits. */
  function Visited<T>(slots: seq<T>, start: nat, end: nat): (v: seq<T>)
    requires slots != []
  {
    var last := LoopEnd(start, end, |slots|);
    seq(if start < last then last - start else 0, t requires 0 <= t => ValueAt(slots, start + t))
  }

  /** The values added since the end index last was zero. */
  function SinceWrap<T>(added: seq<T>): (w: seq<T>)
    ensures |w| == |added| % WRAP
  {
    added[|added| - |added| % WRAP..]
  }

  /** The slots hold the last values of `w`, each at its own position. */
  ghost predicate Holds<T>(slots: seq<T>, w: seq<T>) {
    slots != []
    && forall i :: Oldest(|w|, |slots|) <= i < |w| ==> slots[i % |slots|] == w[i]
  }

  /** The start index after `n` values. */
  function StartAfter(n: nat, m: nat): (start: nat)
    requires m > 0
    ensures start < m
  {
    if n == 0 then 0
    else if n % WRAP > m then (StartAfter(n - 1, m) + 1) % m
    else StartAfter(n - 1, m)
  }

  /** How far the end index's wrapping around has led the start index astray. */
  function Astray(n: nat): nat {
    (n / WRAP) * (WRAP - 1)
  }

  /** When the window is kept after `n` values: until the end index wraps around, and afterwards
      once it has reached the length again, if the start index is astray by a multiple of it. */
  predicate Kept(n: nat, m: nat)
    requires m > 0
  {
    n < WRAP || (n % WRAP >= m && Astray(n) % m == 0)
  }

  class CircularBuffer<T(0)> {
    const ring: array<T>
    var startIndex: nat
    var endIndex: nat
    /** Everything added so far. */
    ghost var added: seq<T>

    /** An array takes up at most half of the address space. */
    constructor (maxQueueSize: nat)
      requires 0 < maxQueueSize <= WRAP / 2
      ensures Valid() && fresh(ring) && ring.Length == maxQueueSize && added == []
    {
      ring := new T[maxQueueSize];
      startIndex, endIndex := 0, 0;
      added := [];
    }

    /** The indices follow from how much was added, and the array holds the last values added
        since the end index wrapped around. */
    ghost predicate Valid()
      reads this, ring
    {
      && 0 < ring.Length <= WRAP / 2
      && startIndex == StartAfter(|added|, ring.Length) && endIndex == |added| % WRAP
      && Holds(ring[..], SinceWrap(added))
    }

    method Add(data: T) returns (currentIndex: nat)
      requires Valid()
      modifies this, ring
      ensures Valid() && added == old(added) + [data]
      ensures currentIndex == old(endIndex) % ring.Length
      ensures ring[..] == old(ring[..])[currentIndex := data]
    {
      var m := ring.Length;
      ghost var n, slots := |added|, ring[..];
      HoldsAdded(slots, added, data);
      EndMoves(n, m);
      currentIndex := endIndex % m;
      endIndex := (endIndex + 1) % WRAP;
      ring[currentIndex] := data;
      if endIndex > m {
        startIndex := (startIndex + 1) % m;
      }
      added := added + [data];
      assert startIndex == StartAfter(n + 1, m) && endIndex == (n + 1) % WRAP;
      assert ring[..] == slots[currentIndex := data];
    }

    function Size(): nat
      reads `startIndex, `endIndex
    {
      SizeOf(startIndex, endIndex, ring.Length)
    }

    /** What a loop shows to its callback. */
    ghost function Shown(): seq<T>
      requires Valid()
      reads this, ring
    {
      Visited(ring[..], startIndex, endIndex)
    }

    /** What a loop shows compared with the window and with the size. */
    lemma ShownWindow()
      requires Valid()
      ensures startIndex <= endIndex ==> Size() == |Shown()|
      ensures startIndex > endIndex ==>
        Shown() == [] && Size() == 0x1_0000_0000_0000_0000 - (startIndex - endIndex)
      ensures Kept(|added|, ring.Length) ==>
        Shown() == Window(added, ring.Length) && Size() == |Window(added, ring.Length)|
      ensures Distinct(Window(added, ring.Length)) ==>
        (Shown() == Window(added, ring.Length) <==> Kept(|added|, ring.Length))
      ensures endIndex == 0 ==> Shown() == []
    {
      NothingVisited(ring[..], startIndex);
      SizeIs(ring[..], startIndex, endIndex);
      if Kept(|added|, ring.Length) {
        KeptShown(ring[..], added);
      } else if Distinct(Window(added, ring.Length)) {
        ShownIff(ring[..], added);
      }
    }

    /** Visit values from the start index on until the callback says to stop. They are the window,
        oldest value first, whenever the window is kept. */
    method Loop<S>(loopFunction: (S, T) -> (S, bool), init: S) returns (s: S)
      requires Valid()
      ensures s == FoldWhile(loopFunction, init, Shown())
      ensures Kept(|added|, ring.Length) ==>
        Shown() == Window(added, ring.Length) && Size() == |Window(added, ring.Length)|
      ensures endIndex == 0 ==> Shown() == []
    {
      s := init;
      ghost var v, k: nat := Shown(), 0;
      ShownWindow();
      var end := LoopEnd(startIndex, endIndex, ring.Length);
      var i := startIndex;
      while i < end
        invariant k <= |v| && i == startIndex + k
        invariant FoldWhile(loopFunction, init, v) == FoldWhile(loopFunction, s, v[k..])
      {
        var data := ring[i % ring.Length];
        VisitedAt(ring[..], startIndex, endIndex, i);
        FoldStep(loopFunction, s, v, k);
        var (s', more) := loopFunction(s, data);
        s := s';
        if !more {
          return;
        }
        i, k := i + 1, k + 1;
      }
    }
  }

  lemma FoldStep<S, T>(fn: (S, T) -> (S, bool), s: S, w: seq<T>, k: nat)
    requires k < |w|
    ensures FoldWhile(fn, s, w[k..]) ==
            if fn(s, w[k]).1 then FoldWhile(fn, fn(s, w[k]).0, w[k + 1..]) else fn(s, w[k]).0
  {
  }

  /** Writing the next value into its slot keeps the array right, also when the end index wraps. */
  lemma HoldsAdded<T>(slots: seq<T>, added: seq<T>, data: T)
    requires Holds(slots, SinceWrap(added))
    ensures Holds(slots[|added| % WRAP % |slots| := data], SinceWrap(added + [data]))
  {
    SinceWrapNext(added, data);
    HoldsNext(slots, SinceWrap(added), data);
  }

  lemma SinceWrapNext<T>(added: seq<T>, data: T)
    ensures SinceWrap(added + [data])
         == if |added| % WRAP + 1 == WRAP then [] else SinceWrap(added) + [data]
  {
    var k := |added| - |added| % WRAP;
    assert (added + [data])[k..] == added[k..] + [data];
  }

  lemma HoldsNext<T>(slots: seq<T>, w: seq<T>, data: T)
    requires Holds(slots, w)
    ensures Holds(slots[|w| % |slots| := data], w + [data])
  {
    var m := |slots|;
    forall i | Oldest(|w| + 1, m) <= i < |w| + 1
      ensures slots[|w| % m := data][i % m] == (w + [data])[i]
    {
      if i < |w| {
        R.DistinctSlots(i, |w|, m);
      }
    }
  }

  lemma EndMoves(n: nat, m: nat)
    requires m > 0
    ensures (n + 1) % WRAP == (n % WRAP + 1) % WRAP
    ensures StartAfter(n + 1, m)
         == if (n % WRAP + 1) % WRAP > m then (StartAfter(n, m) + 1) % m else StartAfter(n, m)
  {
  }

  /** The start index in closed form. */
  lemma {:induction false} StartAt(n: nat, m: nat)
    requires 0 < m <= WRAP / 2
    ensures StartAfter(n, m) == (Astray(n) + Oldest(n % WRAP, m)) % m
  {
    if n > 0 {
      StartAt(n - 1, m);
      AstrayMoves(n - 1);
      StartStep(Astray(n - 1), (n - 1) % WRAP, m);
    }
  }

  lemma StartStep(a: nat, r: nat, m: nat)
    requires 0 < m <= WRAP / 2 && r < WRAP
    ensures r + 1 == WRAP ==> (a + WRAP - 1) % m == (a + Oldest(r, m)) % m
    ensures r >= m ==> ((a + Oldest(r, m)) % m + 1) % m == (a + Oldest(r + 1, m)) % m
  {
    Successor(a + Oldest(r, m), m);
    if r + 1 == WRAP {
      LengthLess(a + r, m);
    }
  }

  lemma AstrayMoves(n: nat)
    ensures (n + 1) % WRAP == if n % WRAP + 1 == WRAP then 0 else n % WRAP + 1
    ensures Astray(n + 1) == Astray(n) + if n % WRAP + 1 == WRAP then WRAP - 1 else 0
  {
    assert (n + 1) / WRAP == n / WRAP + if n % WRAP + 1 == WRAP then 1 else 0;
  }

  lemma LengthLess(x: nat, m: nat)
    requires 0 < m <= x
    ensures (x - m) % m == x % m
  {
    R.ModOfSum(x - m, 1, m);
  }

  /** The value `t` places after the start index, if that is the slot of the `k`-th last value. */
  lemma ShownAt<T>(slots: seq<T>, added: seq<T>, start: nat, k: nat, t: nat)
    requires Holds(slots, SinceWrap(added))
    requires t < k <= |SinceWrap(added)| && k <= |slots| && start == (|SinceWrap(added)| - k) % |slots|
    ensures ValueAt(slots, start + t) == added[|added| - k + t]
  {
    SameSlot(|SinceWrap(added)| - k, t, |slots|);
    assert SinceWrap(added)[|SinceWrap(added)| - k + t] == added[|added| - k + t];
  }

  lemma KeptShown<T>(slots: seq<T>, added: seq<T>)
    requires Holds(slots, SinceWrap(added)) && |slots| <= WRAP / 2 && Kept(|added|, |slots|)
    ensures var m, n := |slots|, |added|;
      && Visited(slots, StartAfter(n, m), n % WRAP) == Window(added, m)
      && SizeOf(StartAfter(n, m), n % WRAP, m) == |Window(added, m)|
  {
    var m, n := |slots|, |added|;
    var w, start, r := Window(added, m), StartAfter(n, m), n % WRAP;
    StartWhenKept(n, m);
    VisitedAll(slots, start, r);
    forall t: nat | t < |w| ensures ValueAt(slots, start + t) == w[t] {
      ShownAt(slots, added, start, |w|, t);
    }
  }

  lemma EndOf(start: nat, end: nat, m: nat)
    requires start < m <= WRAP / 2 && end < WRAP
    ensures LoopEnd(start, end, m) == if end > m then start + m else end
  {
  }

  lemma VisitedAt<T>(slots: seq<T>, start: nat, end: nat, i: nat)
    requires slots != [] && start <= i < LoopEnd(start, end, |slots|)
    ensures i - start < |Visited(slots, start, end)|
    ensures Visited(slots, start, end)[i - start] == ValueAt(slots, i)
  {
  }

  lemma VisitedAll<T>(slots: seq<T>, start: nat, end: nat)
    requires slots != [] && start <= LoopEnd(start, end, |slots|)
    ensures |Visited(slots, start, end)| == LoopEnd(start, end, |slots|) - start
    ensures forall t :: 0 <= t < |Visited(slots, start, end)| ==>
      Visited(slots, start, end)[t] == ValueAt(slots, start + t)
  {
  }

  /** The size is what a loop visits, but for a start index beyond the end index. */
  lemma SizeIs<T>(slots: seq<T>, start: nat, end: nat)
    requires slots != [] && start < |slots| <= WRAP / 2 && end < WRAP
    ensures start <= end ==> SizeOf(start, end, |slots|) == |Visited(slots, start, end)|
    ensures start > end ==>
      && Visited(slots, start, end) == []
      && SizeOf(start, end, |slots|) == 0x1_0000_0000_0000_0000 - (start - end)
  {
    EndOf(start, end, |slots|);
  }

  lemma NothingVisited<T>(slots: seq<T>, start: nat)
    requires slots != [] && start < |slots| <= WRAP / 2
    ensures Visited(slots, start, 0) == []
  {
    EndOf(start, 0, |slots|);
  }

  lemma StartWhenKept(n: nat, m: nat)
    requires 0 < m <= WRAP / 2 && Kept(n, m)
    ensures var r := n % WRAP; var k := if n <= m then n else m;
      && k <= r && StartAfter(n, m) == (r - k) % m
      && SizeOf(StartAfter(n, m), r, m) == k
      && LoopEnd(StartAfter(n, m), r, m) == StartAfter(n, m) + k
  {
    StartAt(n, m);
    EndOf(StartAfter(n, m), n % WRAP, m);
    assert n < WRAP ==> n / WRAP == 0;
    Aligned(Astray(n), Oldest(n % WRAP, m), m);
  }

  lemma LostStart(n: nat, m: nat)
    requires 0 < m <= WRAP / 2 && !Kept(n, m)
    ensures var r := n % WRAP; var start := StartAfter(n, m);
      && n >= WRAP
      && (r <= m ==> LoopEnd(start, r, m) < start + m)
      && (r > m ==> start != (r - m) % m && LoopEnd(start, r, m) == start + m)
  {
    var r := n % WRAP;
    StartAt(n, m);
    EndOf(StartAfter(n, m), r, m);
    if r > m && StartAfter(n, m) == (r - m) % m {
      Multiple(Astray(n), r - m, m);
    }
  }

  /** A loop visits exactly the last values added, oldest first, if and only if the window is kept:
      after any number of values, as long as those in the window can be told apart. */
  lemma {:induction false} ShownIff<T>(slots: seq<T>, added: seq<T>)
    requires Holds(slots, SinceWrap(added)) && |slots| <= WRAP / 2
    requires Distinct(Window(added, |slots|))
    ensures Visited(slots, StartAfter(|added|, |slots|), |added| % WRAP) == Window(added, |slots|)
      <==> Kept(|added|, |slots|)
  {
    if Kept(|added|, |slots|) {
      KeptShown(slots, added);
    } else {
      LostShown(slots, added);
    }
  }

  /** Where the window is lost, a loop visits too few values, or it begins amid the window. */
  lemma {:induction false} LostShown<T>(slots: seq<T>, added: seq<T>)
    requires Holds(slots, SinceWrap(added)) && |slots| <= WRAP / 2 && !Kept(|added|, |slots|)
    ensures var v := Visited(slots, StartAfter(|added|, |slots|), |added| % WRAP);
      var w := Window(added, |slots|);
      |v| < |w| || (v != [] && exists j :: 0 < j < |w| && v[0] == w[j])
  {
    var m, n := |slots|, |added|;
    var w, start, r := Window(added, m), StartAfter(n, m), n % WRAP;
    LostStart(n, m);
    if r > m {
      var j := PlacesBetween(r - m, start, m);
      ShownAt(slots, added, (r - m) % m, m, j);
      VisitedAt(slots, start, r, start);
      SmallSlot(start, m);
      assert w[j] == added[n - m + j];
    }
  }

  /** The condition in numbers. */
  lemma KeptMeans(n: nat, m: nat)
    requires m > 0
    ensures Kept(n, m) <==>
      || n < 0x1_0000_0000_0000_0000
      || (&& n % 0x1_0000_0000_0000_0000 >= m
          && (n / 0x1_0000_0000_0000_0000) * 0xFFFF_FFFF_FFFF_FFFF % m == 0)
  {
  }

  /** How far the slot `y` is beyond the slot of `x`. */
  lemma PlacesBetween(x: nat, y: nat, m: nat) returns (j: nat)
    requires y < m && y != x % m
    ensures 0 < j < m && (x % m + j) % m == y
  {
    SmallSlot(y, m);
    if y > x % m {
      j := y - x % m;
    } else {
      j := y + m - x % m;
      LengthLess(y + m, m);
    }
  }

  lemma Multiple(a: nat, b: nat, m: nat)
    requires m > 0 && (a + b) % m == b % m
    ensures a % m == 0
  {
    SameSlot(a, b, m);
    SameSlot(b, a % m, m);
  }

  lemma Successor(x: nat, m: nat)
    requires m > 0
    ensures (x % m + 1) % m == (x + 1) % m
  {
    SameSlot(x, 1, m);
  }

  lemma Aligned(a: nat, k: nat, m: nat)
    requires m > 0 && a % m == 0
    ensures (a + k) % m == k % m
  {
    SameSlot(a, k, m);
  }

  lemma SmallSlot(x: nat, m: nat)
    requires x < m
    ensures x % m == x
  {
  }

  lemma SameSlot(x: nat, k: nat, m: nat)
    requires m > 0
    ensures (x % m + k) % m == (x + k) % m
  {
    R.ModOfSum(x % m + k, x / m, m);
    assert x + k == x % m + k + m * (x / m);
  }
}
