/** Many producers and one consumer on the counters of the lock-less ring buffer. Reading the head
    counter, reading the tail counter and reserving are separate steps, in any interleaving. */
module Interleavings {
  import R = RingModel

  /** Where a producer stands inside `Push`: it may hold a head counter it has read. */
  datatype Producer = Idle | HasHead(h: nat) | Checked(h: nat)

  datatype Consumer = Waiting | SawHead(h: nat) | MayPop

  /** The counters without their truncation to 16 bits; the code only ever sees them modulo 65536.
      `floor` and `last` are history: the highest head counter any passed check relied on, and the
      head counter after the last reservation of each producer. No step depends on them. */
  datatype State = State(head: nat, tail: nat, producers: seq<Producer>, consumer: Consumer,
                         floor: int, last: seq<nat>)

  datatype Event =
    | ReadHead(i: nat)
    | ReadTail(i: nat)
    | Reserve(i: nat)
    | PopReadHead
    | PopReadTail
    | Advance

  function Init(p: nat): State {
    State(0, 0, seq(p, _ => Idle), Waiting, -1, seq(p, _ => 0))
  }

  /** `Size` as the code computes it from the two counters it has read. */
  function SeenSize(h: nat, t: nat): nat {
    (h % R.WRAP - t % R.WRAP) % R.WRAP
  }

  /** One step of one thread; an event that is not due changes nothing. */
  function Next(s: State, e: Event, capacity: nat): State
    requires |s.last| == |s.producers|
  {
    match e
    case ReadHead(i) =>
      if i < |s.producers| && s.producers[i].Idle?
      then s.(producers := s.producers[i := HasHead(s.head)]) else s
    case ReadTail(i) =>
      if i < |s.producers| && s.producers[i].HasHead? then
        var h := s.producers[i].h;
        if SeenSize(h, s.tail) < capacity
        then s.(producers := s.producers[i := Checked(h)], floor := if h > s.floor then h else s.floor)
        else s.(producers := s.producers[i := Idle])
      else s
    case Reserve(i) =>
      if i < |s.producers| && s.producers[i].Checked?
      then s.(head := s.head + 1, producers := s.producers[i := Idle], last := s.last[i := s.head + 1])
      else s
    case PopReadHead => if s.consumer.Waiting? then s.(consumer := SawHead(s.head)) else s
    case PopReadTail =>
      if s.consumer.SawHead?
      then s.(consumer := if s.consumer.h % R.WRAP == s.tail % R.WRAP then Waiting else MayPop) else s
    case Advance => if s.consumer.MayPop? then s.(tail := s.tail + 1, consumer := Waiting) else s
  }

  function Occupancy(s: State): int {
    s.head - s.tail
  }

  ghost function CheckedSet(s: State): set<nat> {
    set i: nat | i < |s.producers| && s.producers[i].Checked?
  }

  ghost function PastFloor(s: State): set<nat> {
    set i: nat | i < |s.last| && s.last[i] > s.floor
  }

  ghost predicate Local(s: State) {
    && |s.last| == |s.producers|
    && -1 <= s.floor <= s.head
    && forall i :: 0 <= i < |s.producers| ==>
         && s.last[i] <= s.head
         && (s.producers[i].HasHead? ==> s.last[i] <= s.producers[i].h <= s.head)
         && (s.producers[i].Checked? ==> s.last[i] <= s.producers[i].h <= s.head && s.producers[i].h <= s.floor)
  }

  ghost predicate Tail(s: State) {
    && s.tail <= s.head
    && (s.consumer.SawHead? ==> s.tail <= s.consumer.h <= s.head)
    && (s.consumer.MayPop? ==> s.tail < s.head)
  }

  /** Every head counter above the floor was reached by somebody's last reservation. */
  ghost predicate Covered(s: State) {
    forall v :: s.floor < v <= s.head ==> v in s.last
  }

  ghost predicate Inv(s: State, capacity: nat) {
    Local(s) && Tail(s) && Covered(s) && s.floor < s.tail + capacity && |s.producers| >= 1
  }

  // ---- counting ----

  lemma {:induction false} SubsetSize(a: set<nat>, b: set<nat>)
    requires a <= b
    ensures |a| <= |b|
    decreases a
  {
    if a != {} {
      var x :| x in a;
      SubsetSize(a - {x}, b - {x});
    }
  }

  ghost function Range(n: nat): (r: set<nat>)
    ensures |r| == n && forall i: nat :: i in r <==> i < n
  {
    if n == 0 then {} else Range(n - 1) + {n - 1}
  }

  /** As many different indices as there are values to cover. */
  lemma {:induction false} CoverSize(last: seq<nat>, lo: int, hi: int)
    requires lo <= hi && forall v :: lo < v <= hi ==> v in last
    ensures |set i: nat | i < |last| && lo < last[i] <= hi| >= hi - lo
    decreases hi - lo
  {
    if lo < hi {
      CoverSize(last, lo, hi - 1);
      var a := set i: nat | i < |last| && lo < last[i] <= hi - 1;
      var b := set i: nat | i < |last| && lo < last[i] <= hi;
      assert hi in last;
      var k: nat :| k < |last| && last[k] == hi;
      assert k !in a && a + {k} <= b;
      SubsetSize(a + {k}, b);
    }
  }

  /** A producer past the floor cannot be past its check: so the floor bounds the rest. */
  lemma FloorBound(s: State, capacity: nat)
    requires Inv(s, capacity)
    ensures s.head - s.floor + |CheckedSet(s)| <= |s.producers|
  {
    var a, c := PastFloor(s), CheckedSet(s);
    CoverSize(s.last, s.floor, s.head);
    assert a == set i: nat | i < |s.last| && s.floor < s.last[i] <= s.head;
    var all := Range(|s.producers|);
    assert a * c == {};
    assert a + c <= all;
    SubsetSize(a + c, all);
    assert |a + c| == |a| + |c|;
  }

  // ---- the bound ----

  lemma InitInv(p: nat, capacity: nat)
    requires p >= 1
    ensures Inv(Init(p), capacity)
  {
    assert Init(p).last[0] == 0;
  }

  /** A head counter and a tail counter read apart, compared modulo 65536, still tell when the ring
      had room for the head that was read. */
  lemma SeenRoom(h: nat, t: nat, capacity: nat)
    requires h - t < R.WRAP && SeenSize(h, t) < capacity
    ensures h < t + capacity
  {
  }

  lemma ProducerKeeps(s: State, e: Event, capacity: nat)
    requires Inv(s, capacity) && capacity + |s.producers| <= R.WRAP
    requires e.ReadHead? || e.ReadTail? || e.Reserve?
    ensures Inv(Next(s, e, capacity), capacity)
  {
    FloorBound(s, capacity);
    var s' := Next(s, e, capacity);
    match e
    case ReadHead(i) =>
    case ReadTail(i) =>
      if i < |s.producers| && s.producers[i].HasHead? && SeenSize(s.producers[i].h, s.tail) < capacity {
        SeenRoom(s.producers[i].h, s.tail, capacity);
      }
    case Reserve(i) =>
      if i < |s.producers| && s.producers[i].Checked? {
        forall v | s'.floor < v <= s'.head ensures v in s'.last {
          if v == s'.head {
            assert s'.last[i] == v;
          } else {
            assert v in s.last;
            var k: nat :| k < |s.last| && s.last[k] == v;
            assert s'.last[k] == v;
          }
        }
      }
  }

  lemma ConsumerKeeps(s: State, e: Event, capacity: nat)
    requires Inv(s, capacity) && capacity + |s.producers| <= R.WRAP
    requires e.PopReadHead? || e.PopReadTail? || e.Advance?
    ensures Inv(Next(s, e, capacity), capacity)
  {
  }

  ghost function Run(s: State, es: seq<Event>, capacity: nat): (r: State)
    requires |s.last| == |s.producers|
    ensures |r.last| == |r.producers| == |s.producers|
    decreases |es|
  {
    if es == [] then s else Run(Next(s, es[0], capacity), es[1..], capacity)
  }

  lemma {:induction false} RunKeeps(s: State, es: seq<Event>, capacity: nat)
    requires Inv(s, capacity) && capacity + |s.producers| <= R.WRAP
    ensures Inv(Run(s, es, capacity), capacity)
    ensures |Run(s, es, capacity).producers| == |s.producers|
    decreases |es|
  {
    if es != [] {
      var e := es[0];
      if e.ReadHead? || e.ReadTail? || e.Reserve? {
        ProducerKeeps(s, e, capacity);
      } else {
        ConsumerKeeps(s, e, capacity);
      }
      RunKeeps(Next(s, e, capacity), es[1..], capacity);
    }
  }

  /** However the threads interleave: what the ring holds plus the producers past their check never
      exceeds the capacity by more than the number of producers less one, and is never negative.
      With one producer the ring never holds more than its capacity. */
  lemma OccupancyBound(p: nat, es: seq<Event>, capacity: nat)
    requires p >= 1 && capacity + p <= R.WRAP
    ensures var s := Run(Init(p), es, capacity);
      && 0 <= Occupancy(s)
      && Occupancy(s) + |CheckedSet(s)| <= capacity + p - 1
  {
    InitInv(p, capacity);
    RunKeeps(Init(p), es, capacity);
    FloorBound(Run(Init(p), es, capacity), capacity);
  }

  // ---- the bound is reached ----

  lemma {:induction false} RunConcat(s: State, x: seq<Event>, y: seq<Event>, capacity: nat)
    requires |s.last| == |s.producers|
    ensures Run(s, x + y, capacity) == Run(Run(s, x, capacity), y, capacity)
    decreases |x|
  {
    if x == [] {
      assert x + y == y;
    } else {
      assert (x + y)[0] == x[0] && (x + y)[1..] == x[1..] + y;
      RunConcat(Next(s, x[0], capacity), x[1..], y, capacity);
    }
  }

  /** One producer alone pushes `k` values. */
  function Alone(k: nat): seq<Event> {
    if k == 0 then [] else Alone(k - 1) + [ReadHead(0), ReadTail(0), Reserve(0)]
  }

  /** The first `k` producers do their checks. */
  function Checks(k: nat): seq<Event> {
    if k == 0 then [] else Checks(k - 1) + [ReadHead(k - 1), ReadTail(k - 1)]
  }

  /** The first `k` producers reserve. */
  function Reserves(k: nat): seq<Event> {
    if k == 0 then [] else Reserves(k - 1) + [Reserve(k - 1)]
  }

  /** Nothing popped, `head` values held, the producers from `lo` to `hi` past their checks. */
  ghost predicate Shape(s: State, p: nat, head: nat, lo: nat, hi: nat) {
    && |s.producers| == |s.last| == p && s.head == head && s.tail == 0
    && forall i :: 0 <= i < p ==> if lo <= i < hi then s.producers[i].Checked? else s.producers[i].Idle?
  }

  lemma RunOne(s: State, e: Event, capacity: nat)
    requires |s.last| == |s.producers|
    ensures Run(s, [e], capacity) == Next(s, e, capacity)
  {
  }

  lemma RunTwo(s: State, a: Event, b: Event, capacity: nat)
    requires |s.last| == |s.producers|
    ensures Run(s, [a, b], capacity) == Next(Next(s, a, capacity), b, capacity)
  {
    RunConcat(s, [a], [b], capacity);
    assert [a] + [b] == [a, b];
    RunOne(s, a, capacity);
    RunOne(Next(s, a, capacity), b, capacity);
  }

  lemma RunThree(s: State, a: Event, b: Event, c: Event, capacity: nat)
    requires |s.last| == |s.producers|
    ensures Run(s, [a, b, c], capacity) == Next(Next(Next(s, a, capacity), b, capacity), c, capacity)
  {
    RunConcat(s, [a], [b, c], capacity);
    assert [a] + [b, c] == [a, b, c];
    RunOne(s, a, capacity);
    RunTwo(Next(s, a, capacity), b, c, capacity);
  }

  /** A push that nobody interrupts reserves a slot exactly when the ring is not full. */
  lemma UndisturbedPush(s: State, i: nat, capacity: nat)
    requires |s.last| == |s.producers| && i < |s.producers| && s.producers[i].Idle?
    requires 0 <= Occupancy(s) < R.WRAP
    ensures var s' := Run(s, [ReadHead(i), ReadTail(i), Reserve(i)], capacity);
      && s'.head == s.head + (if Occupancy(s) < capacity then 1 else 0)
      && s'.tail == s.tail && s'.producers == s.producers && s'.consumer == s.consumer
  {
    RunThree(s, ReadHead(i), ReadTail(i), Reserve(i), capacity);
    assert SeenSize(s.head, s.tail) == Occupancy(s);
    assert s.producers[i := Idle] == s.producers;
  }

  /** A pop that nobody interrupts takes a value exactly when the ring is not empty. */
  lemma UndisturbedPop(s: State, capacity: nat)
    requires |s.last| == |s.producers| && s.consumer.Waiting?
    requires 0 <= Occupancy(s) < R.WRAP
    ensures Run(s, [PopReadHead, PopReadTail, Advance], capacity)
         == s.(tail := s.tail + (if Occupancy(s) > 0 then 1 else 0))
  {
    RunThree(s, PopReadHead, PopReadTail, Advance, capacity);
    assert SeenSize(s.head, s.tail) == Occupancy(s);
  }

  /** Over any interleaving: a consumer that has read head counter `h` may pop exactly when `h` is
      not the tail counter, whatever has been reserved since. */
  lemma PopCheck(p: nat, es: seq<Event>, capacity: nat, h: nat)
    requires p >= 1 && capacity + p <= R.WRAP
    requires Run(Init(p), es, capacity).consumer == SawHead(h)
    ensures var s := Run(Init(p), es, capacity);
      Next(s, PopReadTail, capacity) == s.(consumer := if h == s.tail then Waiting else MayPop)
  {
    InitInv(p, capacity);
    RunKeeps(Init(p), es, capacity);
    var s := Run(Init(p), es, capacity);
    FloorBound(s, capacity);
    assert s.tail <= h <= s.head < s.tail + R.WRAP;
  }

  /** Over any interleaving: a producer that has read head counter `h` passes its check exactly when
      fewer than `capacity` values lie between the tail counter and `h` modulo 65536, whatever has
      been reserved since. As long as the tail counter is not more than 65536 - `capacity` past `h`
      that says: the tail counter has not passed `h`, and is within `capacity` of it. */
  lemma PushCheck(p: nat, es: seq<Event>, capacity: nat, i: nat, h: nat)
    requires p >= 1 && capacity + p <= R.WRAP
    requires i < p && Run(Init(p), es, capacity).producers[i] == HasHead(h)
    ensures var s := Run(Init(p), es, capacity); var s' := Next(s, ReadTail(i), capacity);
      && s'.head == s.head && s'.tail == s.tail && s'.consumer == s.consumer
      && s'.producers == s.producers[i := if (h - s.tail) % 65536 < capacity then Checked(h) else Idle]
      && (s.tail <= h + 65536 - capacity ==>
            (s'.producers[i] == Checked(h) <==> s.tail <= h < s.tail + capacity))
      && (s'.producers[i] == Checked(h) ==> h < s.tail + capacity)
  {
    InitInv(p, capacity);
    RunKeeps(Init(p), es, capacity);
    var s := Run(Init(p), es, capacity);
    FloorBound(s, capacity);
    SeenIs(h, s.tail, capacity);
  }

  lemma SeenIs(h: nat, t: nat, capacity: nat)
    requires h < t + R.WRAP && capacity <= R.WRAP
    ensures SeenSize(h, t) == (h - t) % 65536
    ensures t <= h + 65536 - capacity ==> (SeenSize(h, t) < capacity <==> t <= h < t + capacity)
    ensures SeenSize(h, t) < capacity ==> h < t + capacity
  {
    if h < t && t <= h + 65536 - capacity {
      assert (h - t) % 65536 == (h - t) + 65536 || t == h + 65536;
    }
  }

  /** A push can be refused by a ring that has room: between its two reads the others have filled
      and emptied slots past the head counter it has read. */
  lemma StalePushRefused(capacity: nat) returns (es: seq<Event>)
    requires 1 <= capacity && capacity + 2 <= R.WRAP
    ensures var s := Run(Init(2), es, capacity);
      && s.head == s.tail == 1 && s.producers[1] == HasHead(0)
      && Next(s, ReadTail(1), capacity).producers[1] == Idle
  {
    var push, pop := [ReadHead(0), ReadTail(0), Reserve(0)], [PopReadHead, PopReadTail, Advance];
    es := [ReadHead(1)] + (push + pop);
    var s0 := Init(2);
    var s1 := Next(s0, ReadHead(1), capacity);
    RunOne(s0, ReadHead(1), capacity);
    RunConcat(s0, [ReadHead(1)], push + pop, capacity);
    RunConcat(s1, push, pop, capacity);
    UndisturbedPush(s1, 0, capacity);
    UndisturbedPop(Run(s1, push, capacity), capacity);
  }

  lemma CheckPasses(s: State, p: nat, head: nat, i: nat, capacity: nat)
    requires Shape(s, p, head, 0, i) && i < p && head < capacity < R.WRAP
    ensures Shape(Run(s, [ReadHead(i), ReadTail(i)], capacity), p, head, 0, i + 1)
  {
    RunTwo(s, ReadHead(i), ReadTail(i), capacity);
    assert SeenSize(head, 0) == head;
  }

  lemma ReservePasses(s: State, p: nat, head: nat, i: nat, hi: nat, capacity: nat)
    requires Shape(s, p, head, i, hi) && i < hi <= p
    ensures Shape(Run(s, [Reserve(i)], capacity), p, head + 1, i + 1, hi)
  {
  }

  lemma {:induction false} AfterAlone(p: nat, k: nat, capacity: nat)
    requires p >= 1 && k <= capacity < R.WRAP
    ensures Shape(Run(Init(p), Alone(k), capacity), p, k, 0, 0)
  {
    if k > 0 {
      AfterAlone(p, k - 1, capacity);
      var s := Run(Init(p), Alone(k - 1), capacity);
      var push := [ReadHead(0), ReadTail(0)];
      assert [ReadHead(0), ReadTail(0), Reserve(0)] == push + [Reserve(0)];
      RunConcat(Init(p), Alone(k - 1), push + [Reserve(0)], capacity);
      RunConcat(s, push, [Reserve(0)], capacity);
      CheckPasses(s, p, k - 1, 0, capacity);
      var s1 := Run(s, push, capacity);
      ReservePasses(s1, p, k - 1, 0, 1, capacity);
    }
  }

  lemma {:induction false} AfterChecks(s: State, p: nat, head: nat, k: nat, capacity: nat)
    requires Shape(s, p, head, 0, 0) && k <= p && head < capacity < R.WRAP
    ensures Shape(Run(s, Checks(k), capacity), p, head, 0, k)
  {
    if k > 0 {
      AfterChecks(s, p, head, k - 1, capacity);
      RunConcat(s, Checks(k - 1), [ReadHead(k - 1), ReadTail(k - 1)], capacity);
      CheckPasses(Run(s, Checks(k - 1), capacity), p, head, k - 1, capacity);
    }
  }

  lemma {:induction false} AfterReserves(s: State, p: nat, head: nat, k: nat, capacity: nat)
    requires Shape(s, p, head, 0, p) && k <= p
    ensures Shape(Run(s, Reserves(k), capacity), p, head + k, k, p)
  {
    if k > 0 {
      AfterReserves(s, p, head, k - 1, capacity);
      RunConcat(s, Reserves(k - 1), [Reserve(k - 1)], capacity);
      ReservePasses(Run(s, Reserves(k - 1), capacity), p, head + k - 1, k - 1, p, capacity);
    }
  }

  /** The bound is tight: one producer fills all slots but one, then all of them pass their checks
      before anybody reserves, and the ring holds that many values too many. */
  lemma BoundIsReached(p: nat, capacity: nat) returns (es: seq<Event>)
    requires p >= 1 && 1 <= capacity && capacity + p <= R.WRAP
    ensures Occupancy(Run(Init(p), es, capacity)) == capacity + p - 1
  {
    var fill, checks, reserves := Alone(capacity - 1), Checks(p), Reserves(p);
    es := fill + (checks + reserves);
    AfterAlone(p, capacity - 1, capacity);
    var s := Run(Init(p), fill, capacity);
    AfterChecks(s, p, capacity - 1, p, capacity);
    AfterReserves(Run(s, checks, capacity), p, capacity - 1, p, capacity);
    RunConcat(Init(p), fill, checks + reserves, capacity);
    RunConcat(s, checks, reserves, capacity);
  }

  /** The ring keeps within its capacity under every interleaving if and only if there is a single
      producer. */
  lemma CapacityIffSingleProducer(p: nat, capacity: nat)
    requires p >= 1 && 1 <= capacity && capacity + p <= R.WRAP
    ensures (forall es :: Occupancy(Run(Init(p), es, capacity)) <= capacity) <==> p == 1
  {
    if p == 1 {
      forall es ensures Occupancy(Run(Init(p), es, capacity)) <= capacity {
        OccupancyBound(p, es, capacity);
      }
    } else {
      var es := BoundIsReached(p, capacity);
      assert Occupancy(Run(Init(p), es, capacity)) > capacity;
    }
  }
}
