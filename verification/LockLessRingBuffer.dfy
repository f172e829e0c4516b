/** The lock-less ring buffer over its array of slots, with calls that do not overlap. */
module LockLessRingBuffers {
  import opened Wrappers
  import R = RingModel

  class LockLessRingBuffer<T(0)> {
    const queue: array<T>
    var head: nat
    var tail: nat
    /** The values pushed and not popped yet, and the values handed out. */
    ghost var contents: seq<T>
    ghost var out: seq<T>

    constructor (queueLength: nat)
      requires queueLength < R.WRAP
      ensures Valid() && fresh(queue)
      ensures queue.Length == queueLength && head == 0 && tail == 0
      ensures contents == [] && out == []
    {
      queue := new T[queueLength];
      head, tail := 0, 0;
      contents, out := [], [];
    }

    /** The counters tell how much is held; the slots hold it if the length divides 65536. */
    ghost predicate Valid()
      reads this, queue
    {
      && (queue.Length == 0 ==> head == tail && head < R.WRAP && contents == [])
      && (queue.Length > 0 ==> R.SameCount(Ring(), Held()))
      && (queue.Length > 0 && R.WRAP % queue.Length == 0 ==> R.SameValues(Ring(), Held()))
    }

    ghost function View(): R.Ring<T>
      reads this, queue
    {
      R.Ring(queue[..], head, tail)
    }

    ghost function Ring(): R.Machine<T>
      reads this, queue
    {
      R.Machine(View(), out)
    }

    ghost function Held(): R.Queue<T>
      reads this
    {
      R.Queue(contents, out)
    }

    lemma Counted()
      requires Valid()
      ensures View().Size() == |contents| <= queue.Length
      ensures View().Empty() <==> contents == []
    {
      if queue.Length > 0 {
        R.CountFacts(Ring(), Held());
      }
    }

    function Size(): (n: nat)
      requires Valid()
      reads this, queue
      ensures n == |contents|
    {
      Counted();
      (head - tail) % R.WRAP
    }

    function Capacity(): nat
    {
      queue.Length
    }

    predicate HasSpace()
      requires Valid()
      reads this, queue
      ensures HasSpace() <==> |contents| < queue.Length
    {
      Size() < Capacity()
    }

    predicate Empty()
      requires Valid()
      reads this, queue
      ensures Empty() <==> contents == []
    {
      Counted();
      head == tail
    }

    /** `pushFn` writes the reserved slot and may report failure; the slot is taken all the same. */
    method Push(pushFn: (T, nat) -> (T, bool)) returns (ok: bool)
      requires Valid()
      modifies `head, `contents, queue
      ensures Valid()
      ensures old(View()).HasSpace() <==> |old(contents)| < queue.Length
      ensures if old(View()).HasSpace()
        then var n := queue.Length; var pos := old(head) % n; var (v, done) := pushFn(old(queue[pos]), pos);
          View() == old(View()).Push(v) && contents == old(contents) + [v] && ok == done
        else View() == old(View()) && contents == old(contents) && !ok
    {
      Counted();
      if !HasSpace() {
        return false;
      }
      ghost var was, held := Ring(), Held();
      var headPosition := head % queue.Length;
      head := (head + 1) % R.WRAP;
      var (v, done) := pushFn(queue[headPosition], headPosition);
      queue[headPosition] := v;
      contents := contents + [v];
      StepTaken(was, held, R.Op.Push(v));
      return done;
    }

    /** What is handed out is the value of the tail slot. That is the value held longest if the
        length divides 65536. */
    method Pop() returns (value: Option<T>)
      requires Valid()
      modifies `tail, `contents, `out
      ensures Valid()
      ensures old(View()).Empty() <==> old(contents) == []
      ensures old(contents) == [] ==> View() == old(View()) && contents == [] && value == None
      ensures old(contents) != [] ==>
        && View() == old(View()).Pop() && contents == old(contents)[1..]
        && value == Some(old(View()).Front())
        && (R.WRAP % queue.Length == 0 ==> value == Some(old(contents)[0]))
    {
      Counted();
      if Empty() {
        return None;
      }
      ghost var was, held := Ring(), Held();
      if R.WRAP % queue.Length == 0 {
        R.FrontIsOldest(was, held);
      }
      var tailPosition := tail % queue.Length;
      tail := (tail + 1) % R.WRAP;
      value := Some(queue[tailPosition]);
      contents, out := contents[1..], out + [value.value];
      StepTaken(was, held, R.Op.Pop);
    }
  }

  lemma StepTaken<T>(c: R.Machine<T>, q: R.Queue<T>, op: R.Op<T>)
    requires R.SameCount(c, q)
    ensures R.SameCount(R.Step(c, op), R.QueueStep(q, op, |c.ring.slots|))
    ensures R.WRAP % |c.ring.slots| == 0 && R.SameValues(c, q) ==>
      R.SameValues(R.Step(c, op), R.QueueStep(q, op, |c.ring.slots|))
  {
    R.CountStep(c, q, op);
    if R.WRAP % |c.ring.slots| == 0 && R.SameValues(c, q) {
      R.ValuesStep(c, q, op);
    }
  }
}
