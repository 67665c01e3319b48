/**
 The bounded ring buffer of Assignment2/src-3/job_queue.c. What one lock-hold of push, pop and
 finish does is a method of the class below; where the C code would wait on a condition
 variable and give the mutex back, the method reports that instead. WorkerPool.dfy composes
 these lock-holds into interleaved runs.
 */
module JobQueue {

  /** The fields of struct job_queue, as a value. */
  datatype Ring<T> = Ring(buffer: seq<T>, head: nat, tail: nat, count: nat) {
    ghost predicate Ok() {
      && 0 < |buffer| && head < |buffer| && tail < |buffer| && count <= |buffer|
      && tail == (head + count) % |buffer|
    }

    /** The jobs queued, oldest first. */
    ghost function Queue(): (q: seq<T>)
      requires Ok()
      ensures |q| == count
    {
      seq(count, i requires 0 <= i < count => buffer[(head + i) % |buffer|])
    }

    /** What push does when there is room. */
    ghost function Push(x: T): Ring<T>
      requires Ok() && count < |buffer|
    {
      Ring(buffer[tail := x], head, (tail + 1) % |buffer|, count + 1)
    }

    /** What pop does when there is a job. */
    ghost function Pop(): Ring<T>
      requires Ok() && count > 0
    {
      Ring(buffer, (head + 1) % |buffer|, tail, count - 1)
    }

    lemma SlotsDiffer(i: nat, j: nat)
      requires Ok() && i < j <= |buffer| && j - i < |buffer|
      ensures (head + i) % |buffer| != (head + j) % |buffer|
    {
      Wrapped(i);
      Wrapped(j);
    }

    lemma Wrapped(i: nat)
      requires Ok() && i <= |buffer|
      ensures (head + i) % |buffer| == if head + i < |buffer| then head + i else head + i - |buffer|
    {
      ModOnce(head + i, |buffer|);
    }

    /** A push appends to the queue. */
    lemma PushAppends(x: T)
      requires Ok() && count < |buffer|
      ensures Push(x).Ok() && Push(x).Queue() == Queue() + [x]
    {
      var n := |buffer|;
      Wrapped(count);
      Wrapped(count + 1);
      ModOnce(tail + 1, n);
      var r := Push(x);
      assert r.Ok();
      forall i | 0 <= i < count ensures r.Queue()[i] == Queue()[i] {
        SlotsDiffer(i, count);
      }
    }

    /** A pop takes the oldest job. */
    lemma PopTakesFirst()
      requires Ok() && count > 0
      ensures Pop().Ok() && Queue()[0] == buffer[head] && Pop().Queue() == Queue()[1..]
    {
      var n := |buffer|;
      Wrapped(0);
      Wrapped(1);
      Wrapped(count);
      var r := Pop();
      ModOnce(r.head + r.count, n);
      assert r.Ok();
      forall i | 0 <= i < r.count ensures r.Queue()[i] == Queue()[i + 1] {
        Wrapped(i + 1);
        r.Wrapped(i);
      }
    }
  }

  lemma ModOnce(x: nat, n: nat)
    requires 0 < n && x < 2 * n
    ensures x % n == if x < n then x else x - n
  {
    if x >= n { assert x == n + (x - n); assert (x - n) % n == x - n; ModAdd(x - n, n); }
  }

  lemma TimesGrows(p: int, q: int, n: nat)
    requires p <= q
    ensures p * n <= q * n
  {}

  lemma ModAdd(x: nat, n: nat)
    requires 0 < n && x < n
    ensures (x + n) % n == x
  {
    assert (x + n) / n == 1 by {
      var q, r := (x + n) / n, (x + n) % n;
      assert x + n == q * n + r && 0 <= r < n;
      if q >= 2 { TimesGrows(2, q, n); }
      if q <= 0 { TimesGrows(q, 0, n); }
    }
  }

  /** What one lock-hold of pop comes to. */
  datatype PopResult<T> = MustWait | ShutDown | Popped(job: T)

  class JobQueue<T(0)> {
    const buffer: array<T>
    const capacity: nat
    var head: nat
    var tail: nat
    var count: nat
    var shuttingDown: bool

    /** The queue's fields as a value. */
    ghost function State(): Ring<T>
      reads this, buffer
    {
      Ring(buffer[..], head, tail, count)
    }

    ghost predicate Valid()
      reads this, buffer
    {
      buffer.Length == capacity && State().Ok()
    }

    /** job_queue_init */
    constructor (capacity: nat)
      requires capacity > 0
      ensures Valid() && this.capacity == capacity && State().Queue() == [] && !shuttingDown
      ensures fresh(buffer)
    {
      buffer := new T[capacity];
      this.capacity := capacity;
      head := 0;
      tail := 0;
      count := 0;
      shuttingDown := false;
    }

    /** job_queue_push from taking the mutex to waiting (false) or to the signal (true). */
    method TryPush(data: T) returns (done: bool)
      requires Valid()
      modifies this, buffer
      ensures Valid() && shuttingDown == old(shuttingDown)
      ensures done == (|old(State().Queue())| < capacity)
      ensures State() == if done then old(State()).Push(data) else old(State())
      ensures State().Queue() == if done then old(State().Queue()) + [data] else old(State().Queue())
    {
      State().Wrapped(0);
      if count == capacity { return false; }
      ghost var was := State();
      was.PushAppends(data);
      buffer[tail] := data;
      tail := (tail + 1) % capacity;
      count := count + 1;
      assert State() == was.Push(data);
      done := true;
    }

    /** job_queue_pop from taking the mutex to waiting, giving up or returning a job. */
    method TryPop() returns (result: PopResult<T>)
      requires Valid()
      modifies this
      ensures Valid() && shuttingDown == old(shuttingDown)
      ensures result.MustWait? <==> old(State().Queue()) == [] && !shuttingDown
      ensures result.ShutDown? <==> old(State().Queue()) == [] && shuttingDown
      ensures result.Popped? ==>
        State() == old(State()).Pop() && old(State().Queue()) == [result.job] + State().Queue()
      ensures !result.Popped? ==> State() == old(State())
    {
      if count == 0 {
        if shuttingDown { return ShutDown; }
        return MustWait;
      }
      ghost var was := State();
      was.PopTakesFirst();
      result := Popped(buffer[head]);
      head := (head + 1) % capacity;
      count := count - 1;
      assert State() == was.Pop();
    }

    /** job_queue_finish */
    method Finish()
      requires Valid()
      modifies this`shuttingDown
      ensures Valid() && shuttingDown && State() == old(State())
    {
      shuttingDown := true;
    }
  }
}
