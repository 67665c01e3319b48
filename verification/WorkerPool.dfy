/**
 The parallel program of Assignment2/src-3/fhistogram-mt.c as a state machine: one producer
 that pushes every path, finishes the queue, joins the workers and destroys the queue, and
 any number of workers that pop a path, count its bits and merge them under a mutex.

 A step is one lock-hold: from taking the mutex to giving it back, which pthread_cond_wait
 does when it goes to sleep. A signal wakes one sleeping thread of its condition variable if
 there is one; sleeping threads may also wake up spuriously.
 */
module WorkerPool {
  import opened Basics
  import opened JobQueue
  import opened Histogram

  datatype Config = Config(fs: FileSystem, paths: seq<Path>, capacity: nat, workers: nat) {
    ghost predicate Ok() { capacity > 0 && workers > 0 }
  }

  /** Woken: returned from pthread_cond_wait, about to test the queue again. */
  datatype Producer = Pushing | PushAsleep | PushWoken | Finishing | Joining | Destroyed

  datatype Worker =
    | Entering
    | Asleep
    | Woken
    | Holding(path: Path)
    | Merging(local: seq<nat>)
    | Done

  datatype State = State(
    ring: Ring<Path>,
    shuttingDown: bool,
    pushed: nat,
    popped: seq<Path>,
    producer: Producer,
    workers: seq<Worker>,
    global: seq<nat>)

  datatype Step =
    | Push(wake: nat)
    | Finish
    | JoinAndDestroy
    | Pop(w: nat)
    | Count(w: nat)
    | Merge(w: nat)
    | SpuriousPop(w: nat)
    | SpuriousPush

  predicate IsSpurious(step: Step) { step.SpuriousPop? || step.SpuriousPush? }

  // ---------- the steps ----------

  ghost predicate Init(c: Config, s: State) {
    && c.Ok() && |s.ring.buffer| == c.capacity && s.ring.head == 0 && s.ring.tail == 0 && s.ring.count == 0
    && !s.shuttingDown && s.pushed == 0 && s.popped == []
    && s.producer == AfterPush(c, 0)
    && s.workers == seq(c.workers, _ => Entering)
    && s.global == seq(BITS, _ => 0)
  }

  /** The producer's next business when `pushed` paths are on their way. */
  function AfterPush(c: Config, pushed: nat): Producer {
    if pushed < |c.paths| then Pushing else Finishing
  }

  /** pthread_cond_signal(not_empty): wakes the sleeper `wake` if anyone sleeps. */
  function WakeOne(workers: seq<Worker>, wake: nat): seq<Worker> {
    if wake < |workers| && workers[wake].Asleep? then workers[wake := Woken] else workers
  }

  function WakeAll(workers: seq<Worker>): seq<Worker> {
    seq(|workers|, i requires 0 <= i < |workers| => if workers[i].Asleep? then Woken else workers[i])
  }

  /** pthread_cond_signal(not_full) */
  function WakeProducer(p: Producer): Producer {
    if p.PushAsleep? then PushWoken else p
  }

  ghost predicate SomeoneSleeps(workers: seq<Worker>) {
    exists i :: 0 <= i < |workers| && workers[i].Asleep?
  }

  ghost predicate Enabled(c: Config, s: State, step: Step) {
    match step
    case Push(wake) =>
      && (s.producer.Pushing? || s.producer.PushWoken?)
      && (SomeoneSleeps(s.workers) ==> wake < |s.workers| && s.workers[wake].Asleep?)
    case Finish => s.producer.Finishing?
    case JoinAndDestroy =>
      // pthread_join returns for every worker; job_queue_destroy waits for an empty queue
      s.producer.Joining? && (forall i :: 0 <= i < |s.workers| ==> s.workers[i].Done?) && s.ring.count == 0
    case Pop(w) => w < |s.workers| && (s.workers[w].Entering? || s.workers[w].Woken?)
    case Count(w) => w < |s.workers| && s.workers[w].Holding?
    case Merge(w) => w < |s.workers| && s.workers[w].Merging?
    case SpuriousPop(w) => w < |s.workers| && s.workers[w].Asleep?
    case SpuriousPush => s.producer.PushAsleep?
  }

  ghost function LocalCounts(fs: FileSystem, path: Path): seq<nat> {
    seq(BITS, b requires 0 <= b < BITS => FileCount(fs, path, b))
  }

  ghost function Merged(local: seq<nat>, global: seq<nat>): seq<nat>
    requires |local| == |global| == BITS
  {
    seq(BITS, b requires 0 <= b < BITS => global[b] + local[b])
  }

  ghost function Apply(c: Config, s: State, step: Step): State
    requires Inv(c, s) && Enabled(c, s, step)
  {
    match step
    case Push(wake) =>
      if s.ring.count == |s.ring.buffer| then s.(producer := PushAsleep)
      else s.(ring := s.ring.Push(c.paths[s.pushed]),
              pushed := s.pushed + 1,
              producer := AfterPush(c, s.pushed + 1),
              workers := WakeOne(s.workers, wake))
    case Finish => s.(shuttingDown := true, workers := WakeAll(s.workers), producer := Joining)
    case JoinAndDestroy => s.(producer := Destroyed)
    case Pop(w) =>
      if s.ring.count == 0 then
        s.(workers := s.workers[w := if s.shuttingDown then Done else Asleep])
      else
        var path := s.ring.buffer[s.ring.head];
        s.(ring := s.ring.Pop(),
           popped := s.popped + [path],
           workers := s.workers[w := Holding(path)],
           producer := WakeProducer(s.producer))
    case Count(w) =>
      var path := s.workers[w].path;
      s.(workers := s.workers[w := if path in c.fs then Merging(LocalCounts(c.fs, path)) else Entering])
    case Merge(w) =>
      s.(global := Merged(s.workers[w].local, s.global), workers := s.workers[w := Entering])
    case SpuriousPop(w) => s.(workers := s.workers[w := Woken])
    case SpuriousPush => s.(producer := PushWoken)
  }

  // ---------- sums over the workers ----------

  lemma {:induction false} SumWakeAll(ws: seq<Worker>, f: Worker -> nat, k: nat)
    requires f(Woken) <= f(Asleep) + k
    ensures Sum(WakeAll(ws), f) <= Sum(ws, f) + k * |ws|
    ensures f(Woken) == f(Asleep) ==> Sum(WakeAll(ws), f) == Sum(ws, f)
  {
    if ws != [] {
      var n := |ws| - 1;
      assert WakeAll(ws)[..n] == WakeAll(ws[..n]);
      SumWakeAll(ws[..n], f, k);
      assert k * |ws| == k * n + k;
    }
  }

  lemma {:induction false} SumBound(ws: seq<Worker>, f: Worker -> nat, i: nat)
    requires i < |ws|
    ensures f(ws[i]) <= Sum(ws, f)
  {
    if i < |ws| - 1 { SumBound(ws[..|ws| - 1], f, i); }
  }

  lemma {:induction false} SumWitness(ws: seq<Worker>, f: Worker -> nat) returns (i: nat)
    requires Sum(ws, f) > 0
    ensures i < |ws| && f(ws[i]) > 0
  {
    var n := |ws| - 1;
    if f(ws[n]) > 0 { i := n; } else { i := SumWitness(ws[..n], f); }
  }

  lemma {:induction false} SumZero(ws: seq<Worker>, f: Worker -> nat)
    requires forall i :: 0 <= i < |ws| ==> f(ws[i]) == 0
    ensures Sum(ws, f) == 0
  {
    if ws != [] { SumZero(ws[..|ws| - 1], f); }
  }

  function WokenOne(w: Worker): nat { if w.Woken? then 1 else 0 }

  /** What a worker still has to add to bit b of the global histogram. */
  ghost function Pending(fs: FileSystem, b: nat): Worker -> nat {
    (w: Worker) =>
      match w
      case Holding(path) => FileCount(fs, path, b)
      case Merging(local) => if b < |local| then local[b] else 0
      case _ => 0
  }

  // ---------- the invariant ----------

  /** FIFO: what was pushed has been popped or is still queued, in order. */
  ghost predicate QueueInv(c: Config, s: State) {
    && s.ring.Ok() && |s.ring.buffer| == c.capacity && s.pushed <= |c.paths|
    && c.paths[..s.pushed] == s.popped + s.ring.Queue()
  }

  ghost predicate ControlInv(c: Config, s: State) {
    && |s.workers| == c.workers
    && (s.producer.Pushing? || s.producer.PushAsleep? || s.producer.PushWoken? ==> s.pushed < |c.paths|)
    && (s.producer.Finishing? || s.producer.Joining? || s.producer.Destroyed? ==> s.pushed == |c.paths|)
    && (s.shuttingDown <==> s.producer.Joining? || s.producer.Destroyed?)
    && (forall i :: 0 <= i < |s.workers| && s.workers[i].Done? ==> s.shuttingDown && s.ring.count == 0)
    && (s.producer.Destroyed? ==> forall i :: 0 <= i < |s.workers| ==> s.workers[i].Done?)
  }

  /**
   No lost wakeup: a popper sleeps beside a non-empty queue only while at least as many woken
   poppers are still to look at it as there are jobs, no popper sleeps once the queue is shut
   down, and the producer sleeps only while the queue is full.
   */
  ghost predicate WakeupInv(s: State) {
    && (SomeoneSleeps(s.workers) ==> !s.shuttingDown && s.ring.count <= Sum(s.workers, WokenOne))
    && (s.producer.PushAsleep? ==> s.ring.count == |s.ring.buffer|)
  }

  /** Every popped file is counted in the global histogram or still in the hands of a worker. */
  ghost predicate CountInv(c: Config, s: State) {
    && |s.global| == BITS
    && (forall i :: 0 <= i < |s.workers| && s.workers[i].Merging? ==> |s.workers[i].local| == BITS)
    && forall b :: 0 <= b < BITS ==> s.global[b] + Sum(s.workers, Pending(c.fs, b)) == Total(c.fs, s.popped, b)
  }

  ghost predicate Inv(c: Config, s: State) {
    c.Ok() && QueueInv(c, s) && ControlInv(c, s) && WakeupInv(s) && CountInv(c, s)
  }

  lemma InitInv(c: Config, s: State)
    requires Init(c, s)
    ensures Inv(c, s)
  {
    assert c.paths[..0] == [] + s.ring.Queue();
    forall b | 0 <= b < BITS ensures Sum(s.workers, Pending(c.fs, b)) == 0 {
      SumZero(s.workers, Pending(c.fs, b));
    }
  }

  // ---------- each step keeps it ----------

  /** Replacing worker w, whose pending counts change as the global ones do. */
  lemma ReplaceKeepsCount(c: Config, s: State, w: nat, to: Worker, popped: seq<Path>, global: seq<nat>)
    requires CountInv(c, s) && w < |s.workers| && |global| == BITS
    requires to.Merging? ==> |to.local| == BITS
    requires forall b :: 0 <= b < BITS ==>
      global[b] + Pending(c.fs, b)(to) + Total(c.fs, s.popped, b)
        == s.global[b] + Pending(c.fs, b)(s.workers[w]) + Total(c.fs, popped, b)
    ensures CountInv(c, s.(workers := s.workers[w := to], popped := popped, global := global))
  {
    forall b | 0 <= b < BITS
      ensures global[b] + Sum(s.workers[w := to], Pending(c.fs, b)) == Total(c.fs, popped, b)
    {
      SumUpdate(s.workers, Pending(c.fs, b), w, to);
    }
  }

  lemma PushKeeps(c: Config, s: State, wake: nat)
    requires Inv(c, s) && Enabled(c, s, Push(wake))
    ensures Inv(c, Apply(c, s, Push(wake)))
  {
    if s.ring.count < |s.ring.buffer| {
      var r := Apply(c, s, Push(wake));
      s.ring.PushAppends(c.paths[s.pushed]);
      assert c.paths[..s.pushed + 1] == c.paths[..s.pushed] + [c.paths[s.pushed]];
      assert QueueInv(c, r);
      if SomeoneSleeps(s.workers) {
        SumUpdate(s.workers, WokenOne, wake, Woken);
        ReplaceKeepsCount(c, s, wake, Woken, s.popped, s.global);
      }
      assert CountInv(c, r);
      assert SomeoneSleeps(r.workers) ==> SomeoneSleeps(s.workers);
    }
  }

  lemma FinishKeeps(c: Config, s: State)
    requires Inv(c, s) && Enabled(c, s, Finish)
    ensures Inv(c, Apply(c, s, Finish))
  {
    var r := Apply(c, s, Finish);
    forall b | 0 <= b < BITS ensures Sum(r.workers, Pending(c.fs, b)) == Sum(s.workers, Pending(c.fs, b)) {
      SumWakeAll(s.workers, Pending(c.fs, b), 0);
    }
    assert CountInv(c, r);
  }

  lemma PopKeepsQueue(c: Config, s: State, w: nat)
    requires Inv(c, s) && Enabled(c, s, Pop(w)) && s.ring.count > 0
    ensures QueueInv(c, Apply(c, s, Pop(w))) && s.ring.head < |s.ring.buffer|
  {
    var r := Apply(c, s, Pop(w));
    s.ring.PopTakesFirst();
    assert c.paths[..s.pushed] == s.popped + [s.ring.buffer[s.ring.head]] + r.ring.Queue();
  }

  /** The queue is empty: the worker goes to sleep, or gives up after shutdown. */
  lemma EmptyPopKeeps(c: Config, s: State, w: nat)
    requires Inv(c, s) && Enabled(c, s, Pop(w)) && s.ring.count == 0
    ensures Inv(c, Apply(c, s, Pop(w)))
  {
    var r := Apply(c, s, Pop(w));
    ReplaceKeepsCount(c, s, w, r.workers[w], s.popped, s.global);
    assert s.shuttingDown ==> (SomeoneSleeps(r.workers) ==> SomeoneSleeps(s.workers));
  }

  /** The worker takes the first path off the queue. */
  lemma FullPopKeeps(c: Config, s: State, w: nat)
    requires Inv(c, s) && Enabled(c, s, Pop(w)) && s.ring.count > 0
    ensures Inv(c, Apply(c, s, Pop(w)))
  {
    var r := Apply(c, s, Pop(w));
    PopKeepsQueue(c, s, w);
    hide QueueInv;
    SumUpdate(s.workers, WokenOne, w, r.workers[w]);
    var path := s.ring.buffer[s.ring.head];
    assert (s.popped + [path])[..|s.popped|] == s.popped;
    ReplaceKeepsCount(c, s, w, Holding(path), s.popped + [path], s.global);
    assert CountInv(c, r);
    hide CountInv;
    assert SomeoneSleeps(r.workers) ==> SomeoneSleeps(s.workers);
  }

  lemma PopKeeps(c: Config, s: State, w: nat)
    requires Inv(c, s) && Enabled(c, s, Pop(w))
    ensures Inv(c, Apply(c, s, Pop(w)))
  {
    if s.ring.count == 0 { EmptyPopKeeps(c, s, w); } else { FullPopKeeps(c, s, w); }
  }

  lemma WorkKeeps(c: Config, s: State, step: Step)
    requires Inv(c, s) && Enabled(c, s, step) && (step.Count? || step.Merge? || step.SpuriousPop?)
    ensures Inv(c, Apply(c, s, step))
  {
    var r := Apply(c, s, step);
    SumUpdate(s.workers, WokenOne, step.w, r.workers[step.w]);
    ReplaceKeepsCount(c, s, step.w, r.workers[step.w], s.popped, r.global);
    assert SomeoneSleeps(r.workers) ==> SomeoneSleeps(s.workers);
  }

  /** Every step of every thread keeps the invariant. */
  lemma StepKeeps(c: Config, s: State, step: Step)
    requires Inv(c, s) && Enabled(c, s, step)
    ensures Inv(c, Apply(c, s, step))
  {
    match step
    case Push(wake) => PushKeeps(c, s, wake);
    case Finish => FinishKeeps(c, s);
    case Pop(w) => PopKeeps(c, s, w);
    case JoinAndDestroy =>
    case SpuriousPush =>
    case _ => WorkKeeps(c, s, step);
  }

  // ---------- no deadlock ----------

  lemma FirstSleeps(workers: seq<Worker>)
    ensures workers != [] && workers[0].Asleep? ==> SomeoneSleeps(workers)
  {}

  function SleepingOrDone(w: Worker): nat { if w.Asleep? || w.Done? then 0 else 1 }

  /** Until the queue has been destroyed, some thread can go on without a spurious wakeup. */
  lemma NoDeadlock(c: Config, s: State) returns (step: Step)
    requires Inv(c, s) && !s.producer.Destroyed?
    ensures Enabled(c, s, step) && !IsSpurious(step)
  {
    if Sum(s.workers, SleepingOrDone) > 0 {
      var w := SumWitness(s.workers, SleepingOrDone);
      step := if s.workers[w].Holding? then Count(w) else if s.workers[w].Merging? then Merge(w) else Pop(w);
    } else {
      forall i | 0 <= i < |s.workers| ensures s.workers[i].Asleep? || s.workers[i].Done? {
        SumBound(s.workers, SleepingOrDone, i);
      }
      if s.producer.Pushing? || s.producer.PushWoken? {
        var wake :| SomeoneSleeps(s.workers) ==> 0 <= wake < |s.workers| && s.workers[wake].Asleep?;
        step := Push(if wake < 0 then 0 else wake);
      } else if s.producer.Finishing? {
        step := Finish;
      } else if s.producer.Joining? {
        assert !SomeoneSleeps(s.workers) && s.workers[0].Done?;
        step := JoinAndDestroy;
      } else {
        SumZero(s.workers, WokenOne);
        FirstSleeps(s.workers);
        assert false;
      }
    }
  }

  // ---------- every schedule ends ----------

  function Weight(w: Worker): nat {
    match w
    case Entering => 1
    case Asleep => 0
    case Woken => 1
    case Holding(_) => 3
    case Merging(_) => 2
    case Done => 0
  }

  function ProducerWeight(c: Config, p: Producer): nat {
    match p
    case Pushing => c.workers + 4
    case PushWoken => c.workers + 4
    case PushAsleep => c.workers + 3
    case Finishing => c.workers + 2
    case Joining => 1
    case Destroyed => 0
  }

  /** Work left: every step that is not a spurious wakeup uses some of it up. */
  ghost function Measure(c: Config, s: State): nat
    requires Inv(c, s)
  {
    6 * (|c.paths| - s.pushed) + 4 * s.ring.count + ProducerWeight(c, s.producer) + Sum(s.workers, Weight)
  }

  lemma StepUsesWork(c: Config, s: State, step: Step)
    requires Inv(c, s) && Enabled(c, s, step)
    ensures Inv(c, Apply(c, s, step))
    ensures Measure(c, Apply(c, s, step)) <= Measure(c, s) + (if IsSpurious(step) then 1 else -1)
  {
    StepKeeps(c, s, step);
    hide WakeupInv, CountInv;
    match step
    case Push(wake) =>
      if s.ring.count < |s.ring.buffer| && SomeoneSleeps(s.workers) {
        SumUpdate(s.workers, Weight, wake, Woken);
      }
    case Finish => SumWakeAll(s.workers, Weight, 1);
    case JoinAndDestroy =>
    case SpuriousPush =>
    case _ => WorkerUsesWork(c, s, step);
  }

  lemma WorkerUsesWork(c: Config, s: State, step: Step)
    requires Inv(c, s) && Enabled(c, s, step) && (step.Pop? || step.Count? || step.Merge? || step.SpuriousPop?)
    requires Inv(c, Apply(c, s, step))
    ensures Measure(c, Apply(c, s, step)) <= Measure(c, s) + (if IsSpurious(step) then 1 else -1)
  {
    hide WakeupInv, CountInv;
    SumUpdate(s.workers, Weight, step.w, Apply(c, s, step).workers[step.w]);
  }

  // ---------- whole runs ----------

  ghost predicate ValidRun(c: Config, s: State, steps: seq<Step>)
    requires Inv(c, s)
    decreases |steps|
  {
    steps == [] ||
    (Enabled(c, s, steps[0]) && (StepKeeps(c, s, steps[0]); ValidRun(c, Apply(c, s, steps[0]), steps[1..])))
  }

  ghost function Run(c: Config, s: State, steps: seq<Step>): (r: State)
    requires Inv(c, s) && ValidRun(c, s, steps)
    ensures Inv(c, r)
    decreases |steps|
  {
    if steps == [] then s else
      StepKeeps(c, s, steps[0]);
      Run(c, Apply(c, s, steps[0]), steps[1..])
  }

  ghost function SpuriousIn(steps: seq<Step>): nat {
    if steps == [] then 0 else (if IsSpurious(steps[0]) then 1 else 0) + SpuriousIn(steps[1..])
  }

  /**
   No schedule goes on for ever: apart from its spurious wakeups, each of which costs at most
   one more step, a run has at most as many steps as there is work at the start.
   */
  lemma {:induction false} RunsAreBounded(c: Config, s: State, steps: seq<Step>)
    requires Inv(c, s) && ValidRun(c, s, steps)
    ensures |steps| <= Measure(c, s) + 2 * SpuriousIn(steps)
    decreases |steps|
  {
    if steps != [] {
      StepUsesWork(c, s, steps[0]);
      RunsAreBounded(c, Apply(c, s, steps[0]), steps[1..]);
    }
  }

  /** From wherever a run has got to, it can be brought to its end without any spurious wakeup. */
  lemma {:induction false} CanFinish(c: Config, s: State) returns (steps: seq<Step>)
    requires Inv(c, s)
    ensures ValidRun(c, s, steps) && Run(c, s, steps).producer.Destroyed? && SpuriousIn(steps) == 0
    decreases Measure(c, s)
  {
    if s.producer.Destroyed? {
      steps := [];
    } else {
      var step := NoDeadlock(c, s);
      StepUsesWork(c, s, step);
      var rest := CanFinish(c, Apply(c, s, step));
      steps := [step] + rest;
      assert steps[1..] == rest;
    }
  }

  /** At the start the work is linear in the number of files and threads. */
  lemma InitialWork(c: Config, s: State)
    requires Init(c, s)
    ensures Inv(c, s) && Measure(c, s) <= 6 * |c.paths| + 2 * c.workers + 4
  {
    InitInv(c, s);
    AllEntering(s.workers);
  }

  lemma {:induction false} AllEntering(ws: seq<Worker>)
    requires forall i :: 0 <= i < |ws| ==> ws[i].Entering?
    ensures Sum(ws, Weight) == |ws|
  {
    if ws != [] { AllEntering(ws[..|ws| - 1]); }
  }

  // ---------- the result ----------

  /**
   Whatever the schedule, once the queue is destroyed every path has been popped, in the order
   pushed and exactly once, the queue is empty, and the global histogram is the total over
   all paths.
   */
  lemma ResultIsTotal(c: Config, s: State)
    requires Inv(c, s) && s.producer.Destroyed?
    ensures s.popped == c.paths && s.ring.count == 0
    ensures |s.global| == BITS && forall b :: 0 <= b < BITS ==> s.global[b] == Total(c.fs, c.paths, b)
  {
    assert s.workers[0].Done?;
    assert s.popped + s.ring.Queue() == s.popped && c.paths[..s.pushed] == c.paths;
    forall b | 0 <= b < BITS ensures Sum(s.workers, Pending(c.fs, b)) == 0 {
      SumZero(s.workers, Pending(c.fs, b));
    }
  }

  /**
   The parallel program computes what the sequential one does: any run from the initial state
   that ends with the queue destroyed has the sequential program's global histogram.
   */
  method SequentialAgrees(c: Config, ghost s: State, ghost steps: seq<Step>) returns (expected: array<int>)
    requires Init(c, s) && Inv(c, s) && ValidRun(c, s, steps) && Run(c, s, steps).producer.Destroyed?
    ensures expected.Length == BITS && |Run(c, s, steps).global| == BITS
    ensures forall b :: 0 <= b < BITS ==> expected[b] == Run(c, s, steps).global[b]
  {
    expected := Sequential(c.fs, c.paths);
    ResultIsTotal(c, Run(c, s, steps));
  }

  /** job_queue_pop gives up only when the queue is shut down and empty, and then for good. */
  lemma GivingUp(c: Config, s: State, w: nat)
    requires Inv(c, s) && Enabled(c, s, Pop(w)) && Apply(c, s, Pop(w)).workers[w].Done?
    ensures s.shuttingDown && s.ring.Queue() == [] && s.popped == c.paths
  {
    assert s.popped + s.ring.Queue() == s.popped && c.paths[..s.pushed] == c.paths;
  }
}
