/** The lock-less ring buffer as a value: a fixed number of slots and two free-running 16-bit
    counters, compared with the bounded queue it is meant to be. */
module RingModel {
  /** The counters are unsigned 16-bit numbers. */
  const WRAP: nat := 0x1_0000

  datatype Ring<T> = Ring(slots: seq<T>, head: nat, tail: nat) {
    /** The difference of the counters, truncated to 16 bits. */
    function Size(): nat {
      (head - tail) % WRAP
    }

    predicate HasSpace() {
      Size() < |slots|
    }

    predicate Empty() {
      head == tail
    }

    /** The slot is taken at the head counter, which then moves on. */
    function Push(v: T): Ring<T>
      requires HasSpace()
    {
      Ring(slots[head % |slots| := v], (head + 1) % WRAP, tail)
    }

    function Front(): T
      requires slots != []
    {
      slots[tail % |slots|]
    }

    function Pop(): Ring<T> {
      Ring(slots, head, (tail + 1) % WRAP)
    }
  }

  datatype Op<T> = Push(v: T) | Pop

  /** A ring with everything it has handed out so far, and a plain queue likewise. */
  datatype Machine<T> = Machine(ring: Ring<T>, out: seq<T>)
  datatype Queue<T> = Queue(contents: seq<T>, out: seq<T>)

  function Step<T>(c: Machine<T>, op: Op<T>): Machine<T>
    requires c.ring.slots != []
  {
    match op
    case Push(v) => if c.ring.HasSpace() then Machine(c.ring.Push(v), c.out) else c
    case Pop => if c.ring.Empty() then c else Machine(c.ring.Pop(), c.out + [c.ring.Front()])
  }

  function Exec<T>(c: Machine<T>, ops: seq<Op<T>>): (r: Machine<T>)
    requires c.ring.slots != []
    ensures |r.ring.slots| == |c.ring.slots|
    decreases |ops|
  {
    if ops == [] then c else Exec(Step(c, ops[0]), ops[1..])
  }

  /** The specification: at most `capacity` values, first in first out. */
  function QueueStep<T>(q: Queue<T>, op: Op<T>, capacity: nat): Queue<T> {
    match op
    case Push(v) => if |q.contents| < capacity then Queue(q.contents + [v], q.out) else q
    case Pop => if q.contents == [] then q else Queue(q.contents[1..], q.out + [q.contents[0]])
  }

  function QueueExec<T>(q: Queue<T>, ops: seq<Op<T>>, capacity: nat): Queue<T>
    decreases |ops|
  {
    if ops == [] then q else QueueExec(QueueStep(q, ops[0], capacity), ops[1..], capacity)
  }

  /** A ring as it starts: its slots hold anything, its counters are zero. */
  predicate Fresh<T(==)>(c: Machine<T>) {
    0 < |c.ring.slots| < WRAP && c.ring.head == 0 && c.ring.tail == 0 && c.out == []
  }

  // ---- counters: every length ----

  /** The counters tell how much the queue holds, whatever the length of the ring. */
  ghost predicate SameCount<T>(c: Machine<T>, q: Queue<T>) {
    var n := |c.ring.slots|;
    && 0 < n < WRAP && |q.contents| <= n
    && |c.out| == |q.out|
    && c.ring.tail == |c.out| % WRAP
    && c.ring.head == (|c.out| + |q.contents|) % WRAP
  }

  lemma CountFacts<T>(c: Machine<T>, q: Queue<T>)
    requires SameCount(c, q)
    ensures c.ring.Size() == |q.contents|
    ensures c.ring.Empty() <==> q.contents == []
  {
  }

  lemma CounterMoves(x: nat)
    ensures (x % WRAP + 1) % WRAP == (x + 1) % WRAP
  {
  }

  lemma CountStep<T>(c: Machine<T>, q: Queue<T>, op: Op<T>)
    requires SameCount(c, q)
    ensures SameCount(Step(c, op), QueueStep(q, op, |c.ring.slots|))
  {
    CountFacts(c, q);
    CounterMoves(|c.out|);
    CounterMoves(|c.out| + |q.contents|);
  }

  /** For every ring length and every run: the ring holds, accepts and refuses exactly as many
      values as the bounded queue, however often the counters wrap around. */
  lemma {:induction false} CountExec<T>(c: Machine<T>, q: Queue<T>, ops: seq<Op<T>>)
    requires SameCount(c, q)
    ensures var c', q' := Exec(c, ops), QueueExec(q, ops, |c.ring.slots|);
      SameCount(c', q') && c'.ring.Size() == |q'.contents|
    decreases |ops|
  {
    if ops == [] {
      CountFacts(c, q);
    } else {
      CountStep(c, q, ops[0]);
      CountExec(Step(c, ops[0]), QueueStep(q, ops[0], |c.ring.slots|), ops[1..]);
    }
  }

  // ---- values: lengths that divide 65536 ----

  lemma ModOfSum(a: int, k: int, n: nat)
    requires n > 0
    ensures (a + n * k) % n == a % n
    decreases if k < 0 then -k else k
  {
    if k > 0 {
      ModOfSum(a, k - 1, n);
      assert a + n * k == (a + n * (k - 1)) + n;
      assert (a + n * (k - 1) + n) % n == (a + n * (k - 1)) % n by {
        ModPlus(a + n * (k - 1), n);
      }
    } else if k < 0 {
      ModOfSum(a, k + 1, n);
      assert a + n * k + n == a + n * (k + 1);
      ModPlus(a + n * k, n);
    }
  }

  lemma ModPlus(a: int, n: nat)
    requires n > 0
    ensures (a + n) % n == a % n
  {
    var q, r := a / n, a % n;
    assert a + n == n * (q + 1) + r;
    DivUnique(a + n, n, q + 1, r);
  }

  lemma Scale(n: nat, d: int)
    requires n > 0
    ensures d >= 1 ==> n * d >= n
    ensures d <= -1 ==> n * d + n <= 0
  {
  }

  lemma DivUnique(a: int, n: nat, q: int, r: nat)
    requires n > 0 && a == n * q + r && r < n
    ensures a / n == q && a % n == r
  {
    var q', r' := a / n, a % n;
    var d := q' - q;
    assert a == n * q' + r';
    assert n * q' == n * q + n * d;
    Scale(n, d);
  }

  /** A length that divides 65536 does not notice the wrap-around of the counter. */
  lemma SlotOfCounter(i: nat, n: nat)
    requires n > 0 && WRAP % n == 0
    ensures (i % WRAP) % n == i % n
  {
    var k := WRAP / n;
    assert WRAP == n * k;
    var w := i / WRAP;
    assert i == i % WRAP + WRAP * w;
    assert WRAP * w == n * (k * w);
    ModOfSum(i % WRAP, k * w, n);
  }

  lemma DistinctSlots(i: nat, j: nat, n: nat)
    requires n > 0 && i < j < i + n
    ensures i % n != j % n
  {
    if i % n == j % n {
      var a, b := i / n, j / n;
      assert i == n * a + i % n && j == n * b + j % n;
      assert n * b == n * a + n * (b - a);
      Scale(n, b - a);
      assert false;
    }
  }

  /** The live slots hold the contents of the queue. */
  ghost predicate SameValues<T>(c: Machine<T>, q: Queue<T>) {
    && SameCount(c, q)
    && c.out == q.out
    && forall i :: 0 <= i < |q.contents| ==>
         c.ring.slots[(|c.out| + i) % |c.ring.slots|] == q.contents[i]
  }

  lemma FrontIsOldest<T>(c: Machine<T>, q: Queue<T>)
    requires SameValues(c, q) && WRAP % |c.ring.slots| == 0 && q.contents != []
    ensures c.ring.Front() == q.contents[0]
  {
    SlotOfCounter(|c.out|, |c.ring.slots|);
    assert c.ring.slots[(|c.out| + 0) % |c.ring.slots|] == q.contents[0];
  }

  lemma ValuesStep<T>(c: Machine<T>, q: Queue<T>, op: Op<T>)
    requires SameValues(c, q) && WRAP % |c.ring.slots| == 0
    ensures SameValues(Step(c, op), QueueStep(q, op, |c.ring.slots|))
  {
    var n, p := |c.ring.slots|, |c.out|;
    CountFacts(c, q);
    CountStep(c, q, op);
    var c', q' := Step(c, op), QueueStep(q, op, n);
    match op
    case Push(v) =>
      if c.ring.HasSpace() {
        var e := p + |q.contents|;
        SlotOfCounter(e, n);
        forall i | 0 <= i < |q'.contents| ensures c'.ring.slots[(p + i) % n] == q'.contents[i] {
          if i < |q.contents| {
            DistinctSlots(p + i, e, n);
          }
        }
      }
    case Pop =>
      if !c.ring.Empty() {
        FrontIsOldest(c, q);
        forall i | 0 <= i < |q'.contents| ensures c'.ring.slots[(p + 1 + i) % n] == q'.contents[i] {
          assert c.ring.slots[(p + (i + 1)) % n] == q.contents[i + 1];
        }
      }
  }

  /** When the length divides 65536 the ring is the bounded queue for runs of any length: same
      values, same order. */
  lemma {:induction false} ValuesExec<T>(c: Machine<T>, q: Queue<T>, ops: seq<Op<T>>)
    requires SameValues(c, q) && WRAP % |c.ring.slots| == 0
    ensures SameValues(Exec(c, ops), QueueExec(q, ops, |c.ring.slots|))
    decreases |ops|
  {
    if ops != [] {
      ValuesStep(c, q, ops[0]);
      ValuesExec(Step(c, ops[0]), QueueStep(q, ops[0], |c.ring.slots|), ops[1..]);
    }
  }

  // ---- every other length loses a value ----

  lemma {:induction false} ExecConcat<T>(c: Machine<T>, x: seq<Op<T>>, y: seq<Op<T>>)
    requires c.ring.slots != []
    ensures Exec(c, x + y) == Exec(Exec(c, x), y)
    decreases |x|
  {
    if x == [] {
      assert x + y == y;
    } else {
      assert (x + y)[0] == x[0] && (x + y)[1..] == x[1..] + y;
      ExecConcat(Step(c, x[0]), x[1..], y);
    }
  }

  lemma {:induction false} QueueConcat<T>(q: Queue<T>, x: seq<Op<T>>, y: seq<Op<T>>, n: nat)
    ensures QueueExec(q, x + y, n) == QueueExec(QueueExec(q, x, n), y, n)
    decreases |x|
  {
    if x == [] {
      assert x + y == y;
    } else {
      assert (x + y)[0] == x[0] && (x + y)[1..] == x[1..] + y;
      QueueConcat(QueueStep(q, x[0], n), x[1..], y, n);
    }
  }

  function Pairs<T>(v: T, k: nat): seq<Op<T>> {
    if k == 0 then [] else Pairs(v, k - 1) + [Op.Push(v), Op.Pop]
  }

  function Pushes<T>(v: T, k: nat): seq<Op<T>> {
    if k == 0 then [] else Pushes(v, k - 1) + [Op.Push(v)]
  }

  /** Pushing and popping in turn brings the counters to any value with nothing held. */
  lemma {:induction false} AfterPairs<T>(c: Machine<T>, v: T, k: nat)
    requires Fresh(c)
    ensures var c', q' := Exec(c, Pairs(v, k)), QueueExec(Queue([], []), Pairs(v, k), |c.ring.slots|);
      SameCount(c', q') && q'.contents == [] && |q'.out| == k
  {
    var n, q := |c.ring.slots|, Queue<T>.Queue([], []);
    if k > 0 {
      AfterPairs(c, v, k - 1);
      ExecConcat(c, Pairs(v, k - 1), [Op.Push(v), Op.Pop]);
      QueueConcat(q, Pairs(v, k - 1), [Op.Push(v), Op.Pop], n);
      var c1, q1 := Exec(c, Pairs(v, k - 1)), QueueExec(q, Pairs(v, k - 1), n);
      CountExec(c1, q1, [Op.Push(v), Op.Pop]);
      TwoSteps(q1, Op.Push(v), Op.Pop, n);
    }
  }

  lemma TwoSteps<T>(q: Queue<T>, a: Op<T>, b: Op<T>, n: nat)
    ensures QueueExec(q, [a, b], n) == QueueStep(QueueStep(q, a, n), b, n)
  {
    assert [a, b][1..] == [b] && [b][1..] == [];
    var q1 := QueueStep(q, a, n);
    assert QueueExec(q1, [b], n) == QueueExec(QueueStep(q1, b, n), [], n);
  }

  /** `k` pushes into a ring with room for them: the last one sits in the slot of its counter. */
  lemma {:induction false} AfterPushes<T>(c: Machine<T>, q: Queue<T>, v: T, k: nat)
    requires SameCount(c, q) && |q.contents| + k <= |c.ring.slots|
    ensures var n := |c.ring.slots|;
      var c', q' := Exec(c, Pushes(v, k)), QueueExec(q, Pushes(v, k), n);
      && SameCount(c', q')
      && |q'.contents| == |q.contents| + k && q.contents <= q'.contents && q'.out == q.out
      && c'.ring.tail == c.ring.tail && c'.out == c.out
      && (k > 0 ==> c'.ring.slots[((|c.out| + |q.contents| + k - 1) % WRAP) % n] == v)
  {
    var n := |c.ring.slots|;
    if k > 0 {
      AfterPushes(c, q, v, k - 1);
      ExecConcat(c, Pushes(v, k - 1), [Op.Push(v)]);
      QueueConcat(q, Pushes(v, k - 1), [Op.Push(v)], n);
      var c1, q1 := Exec(c, Pushes(v, k - 1)), QueueExec(q, Pushes(v, k - 1), n);
      CountStep(c1, q1, Op.Push(v));
      CountFacts(c1, q1);
      assert [Op.Push(v)][1..] == [];
      assert Exec(c1, [Op.Push(v)]) == Step(c1, Op.Push(v));
      assert QueueExec(q1, [Op.Push(v)], n) == QueueStep(q1, Op.Push(v), n);
    }
  }

  /** The run that shows it: go to the last counter value, put in one `a`, then as many `b` as
      there are slots before the wrapped counter meets the slot of `a`, and take one out. */
  function Clash<T>(n: nat, a: T, b: T): seq<Op<T>>
    requires n > 0
  {
    Pairs(a, WRAP - 1) + (Pushes(a, 1) + (Pushes(b, WRAP % n) + [Op.Pop]))
  }

  lemma ClashDelivers<T>(c: Machine<T>, a: T, b: T)
    requires Fresh(c) && WRAP % |c.ring.slots| != 0
    ensures var n := |c.ring.slots|;
      var c', q' := Exec(c, Clash(n, a, b)), QueueExec(Queue([], []), Clash(n, a, b), n);
      && |c'.out| == |q'.out| == WRAP
      && c'.out[WRAP - 1] == b && q'.out[WRAP - 1] == a
  {
    var n, q := |c.ring.slots|, Queue<T>.Queue([], []);
    var r := WRAP % n;
    var tail1 := Pushes(b, r) + [Op.Pop];
    ExecConcat(c, Pairs(a, WRAP - 1), Pushes(a, 1) + tail1);
    QueueConcat(q, Pairs(a, WRAP - 1), Pushes(a, 1) + tail1, n);
    AfterPairs(c, a, WRAP - 1);
    var c1, q1 := Exec(c, Pairs(a, WRAP - 1)), QueueExec(q, Pairs(a, WRAP - 1), n);
    ExecConcat(c1, Pushes(a, 1), tail1);
    QueueConcat(q1, Pushes(a, 1), tail1, n);
    AfterPushes(c1, q1, a, 1);
    var c2, q2 := Exec(c1, Pushes(a, 1)), QueueExec(q1, Pushes(a, 1), n);
    OnePush(q1, a, n);
    ExecConcat(c2, Pushes(b, r), [Op.Pop]);
    QueueConcat(q2, Pushes(b, r), [Op.Pop], n);
    AfterPushes(c2, q2, b, r);
    var c3, q3 := Exec(c2, Pushes(b, r)), QueueExec(q2, Pushes(b, r), n);
    LastSlot(n);
    CountFacts(c3, q3);
    assert [Op<T>.Pop][1..] == [];
    assert Exec(c3, [Op.Pop]) == Step(c3, Op.Pop);
    assert QueueExec(q3, [Op.Pop], n) == QueueStep(q3, Op.Pop, n);
  }

  lemma OnePush<T>(q: Queue<T>, v: T, n: nat)
    requires q.contents == [] && n > 0
    ensures QueueExec(q, Pushes(v, 1), n) == Queue([v], q.out)
  {
  }

  /** The counters 65535 and (65536 + r - 1) mod 65536 meet in one slot, r being 65536 mod n. */
  lemma LastSlot(n: nat)
    requires 0 < n < WRAP && WRAP % n != 0
    ensures var r := WRAP % n;
      && 1 + r <= n
      && (WRAP - 1) % n == r - 1 && ((WRAP + r - 1) % WRAP) % n == r - 1
  {
    var r := WRAP % n;
    assert WRAP == n * (WRAP / n) + r;
    DivUnique(WRAP - 1, n, WRAP / n, r - 1);
    assert (WRAP + r - 1) % WRAP == r - 1;
    DivUnique(r - 1, n, 0, r - 1);
  }

  /** The ring hands out what the bounded queue hands out, whatever the run, if and only if its
      length divides 65536. */
  lemma FifoIffDivides<T>(c: Machine<T>, a: T, b: T)
    requires Fresh(c) && a != b
    ensures var n := |c.ring.slots|;
      (forall ops :: Exec(c, ops).out == QueueExec(Queue([], []), ops, n).out) <==> 65536 % n == 0
  {
    var n := |c.ring.slots|;
    if WRAP % n == 0 {
      FifoWhenDivides(c);
    } else {
      ClashDelivers(c, a, b);
      assert Exec(c, Clash(n, a, b)).out != QueueExec(Queue([], []), Clash(n, a, b), n).out;
    }
  }

  lemma FifoWhenDivides<T>(c: Machine<T>)
    requires Fresh(c) && WRAP % |c.ring.slots| == 0
    ensures forall ops :: Exec(c, ops).out == QueueExec(Queue([], []), ops, |c.ring.slots|).out
  {
    forall ops ensures Exec(c, ops).out == QueueExec(Queue([], []), ops, |c.ring.slots|).out {
      ValuesExec(c, Queue([], []), ops);
    }
  }

  /** A ring of the default length is first in, first out over all runs. */
  lemma FifoByDefault<T>(c: Machine<T>)
    requires Fresh(c) && |c.ring.slots| == 1024
    ensures forall ops :: Exec(c, ops).out == QueueExec(Queue([], []), ops, 1024).out
  {
    FifoWhenDivides(c);
  }
}
