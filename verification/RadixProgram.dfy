/**
 The main program of Assignment4/predictor-benchmarks/radix.c. Numbers are read in batches and
 written in chunks; how many numbers a read or a write transfers is up to the system.
 */
module RadixProgram {
  import opened Basics
  import opened BitMasks
  import opened RadixTrie
  import opened RadixTree

  // ---------- the files ----------

  /** The numbers not yet read, and what the next reads may give: at most so many, or an early end or an error. */
  class InFile {
    var numbers: seq<int>
    var answers: seq<int>

    /** read_int_buffer */
    method ReadInts(buffer: array<int>, maxSize: nat) returns (read: int)
      requires 0 < maxSize <= buffer.Length
      modifies this, buffer
      ensures AllPositive(old(answers)) ==> AllPositive(answers) && (read <= 0 ==> old(numbers) == [])
      ensures read <= 0 ==> numbers == old(numbers)
      ensures read > 0 ==> read <= maxSize && read <= |old(numbers)|
      ensures read > 0 ==> buffer[..read] == old(numbers)[..read] && numbers == old(numbers)[read..]
    {
      var most: nat := maxSize;
      if answers != [] {
        var answer := answers[0];
        answers := answers[1..];
        if answer <= 0 { return answer; }
        most := Min(answer, maxSize);
      }
      read := Min(most, |numbers|);
      for i := 0 to read
        invariant numbers == old(numbers) && (AllPositive(old(answers)) ==> AllPositive(answers))
        invariant forall j :: 0 <= j < i ==> buffer[j] == numbers[j]
      {
        buffer[i] := numbers[i];
      }
      numbers := numbers[read..];
    }
  }

  /** No read fails or ends early. */
  ghost predicate AllPositive(answers: seq<int>) { forall i :: 0 <= i < |answers| ==> answers[i] > 0 }

  class OutFile {
    var written: seq<nat>
    /** How many numbers the next writes may take; a negative number is an error. */
    var answers: seq<int>

    /** write_int_buffer: so many numbers from the front of the buffer, perhaps none, or an error. */
    method WriteInts(buffer: array<nat>, size: nat) returns (count: int)
      requires 0 < size <= buffer.Length
      modifies this
      ensures count == Answer(old(answers), size) && answers == Tail(old(answers))
      ensures written == old(written) + buffer[..Max(count, 0)]
    {
      count := size;
      if answers != [] {
        if answers[0] < size { count := answers[0]; }
        answers := answers[1..];
      }
      written := written + buffer[..Max(count, 0)];
    }
  }

  /** The answer to a write of so many numbers. */
  function Answer(answers: seq<int>, size: nat): (a: int)
    ensures a <= size
  {
    if answers == [] || answers[0] > size then size else answers[0]
  }

  function Tail(answers: seq<int>): seq<int> { if answers == [] then [] else answers[1..] }

  /** The answers from the first write on that takes anything or fails. */
  function Started(answers: seq<int>): (s: seq<int>)
    ensures s == [] || s[0] != 0
  {
    if answers == [] || answers[0] != 0 then answers else Started(answers[1..])
  }

  predicate Failing(answers: seq<int>) {
    var s := Started(answers);
    s != [] && s[0] < 0
  }

  /** What the first write takes that takes anything, if it does not fail. */
  function FirstWrite(answers: seq<int>, size: nat): (w: nat)
    ensures w <= size && (size > 0 ==> w > 0)
  {
    var s := Started(answers);
    if s == [] || s[0] < 0 then size else Min(s[0], size)
  }

  function AfterWrite(answers: seq<int>): seq<int> {
    var s := Started(answers);
    if s == [] then [] else s[1..]
  }

  // ---------- writing a buffer out ----------

  /** What the loop writes while `left` numbers are still to go: every write takes them from the front again. */
  ghost function Emitted(chunk: seq<nat>, left: nat, answers: seq<int>): (out: seq<nat>)
    requires left <= |chunk|
    ensures |out| == left
  {
    if left == 0 then [] else
      var w := FirstWrite(answers, left);
      chunk[..w] + Emitted(chunk, left - w, AfterWrite(answers))
  }

  ghost function AnswersAfter(left: nat, answers: seq<int>): seq<int> {
    if left == 0 then answers else AnswersAfter(left - FirstWrite(answers, left), AfterWrite(answers))
  }

  /** No write fails on the way. */
  ghost predicate Completes(left: nat, answers: seq<int>) {
    left == 0 || (!Failing(answers) && Completes(left - FirstWrite(answers, left), AfterWrite(answers)))
  }

  ghost predicate Constant(s: seq<nat>) { forall i :: 0 <= i < |s| ==> s[i] == s[0] }

  /** The loop writes this buffer as it is: the first write takes all of it, or all numbers in it are equal. */
  ghost predicate Clean(chunk: seq<nat>, answers: seq<int>) {
    FirstWrite(answers, |chunk|) == |chunk| || Constant(chunk)
  }

  /** A sorted buffer comes out right exactly when the first write takes all of it or all numbers are equal. */
  lemma EmittedRight(chunk: seq<nat>, answers: seq<int>)
    requires Sorted(chunk) && chunk != []
    ensures Emitted(chunk, |chunk|, answers) == chunk <==> Clean(chunk, answers)
  {
    var n := |chunk|;
    if FirstWrite(answers, n) < n {
      if Constant(chunk) { EmittedConstant(chunk, n, answers); }
      if Emitted(chunk, n, answers) == chunk { RightIsConstant(chunk, answers); }
    }
  }

  /** A write that takes one of two numbers, and the first comes out twice. */
  lemma EmittedWrong()
    ensures Emitted([1, 2], 2, [1]) == [1, 1] && !Clean([1, 2], [1])
  {
    assert Emitted([1, 2], 1, []) == [1, 2][..1] + Emitted([1, 2], 0, []);
    assert !Constant([1, 2]) by { assert [1, 2][1] != [1, 2][0]; }
  }

  lemma RightIsConstant(chunk: seq<nat>, answers: seq<int>)
    requires Sorted(chunk) && FirstWrite(answers, |chunk|) < |chunk| && Emitted(chunk, |chunk|, answers) == chunk
    ensures Constant(chunk)
  {
    hide Emitted, Constant;
    var n, w := |chunk|, FirstWrite(answers, |chunk|);
    var rest := Emitted(chunk, n - w, AfterWrite(answers));
    EmittedStarts(chunk, n, answers);
    EmittedStarts(chunk, n - w, AfterWrite(answers));
    assert chunk[w] == chunk[w..][0] == rest[0];
    FrontConstant(chunk, w);
    SuffixConstant(chunk, w, AfterWrite(answers));
  }

  lemma EmittedStarts(chunk: seq<nat>, left: nat, answers: seq<int>)
    requires 0 < left <= |chunk|
    ensures Emitted(chunk, left, answers)[0] == chunk[0]
    ensures var w := FirstWrite(answers, left);
      Emitted(chunk, left, answers)[w..] == Emitted(chunk, left - w, AfterWrite(answers))
  {}

  lemma FrontConstant(chunk: seq<nat>, w: nat)
    requires Sorted(chunk) && w < |chunk| && chunk[w] == chunk[0]
    ensures Constant(chunk[..w])
  {
    assert forall i :: 0 <= i < w ==> chunk[0] <= chunk[i] <= chunk[w];
  }

  lemma {:induction false} EmittedConstant(chunk: seq<nat>, left: nat, answers: seq<int>)
    requires Constant(chunk) && left <= |chunk|
    ensures forall i :: 0 <= i < left ==> Emitted(chunk, left, answers)[i] == chunk[0]
  {
    if left > 0 { EmittedConstant(chunk, left - FirstWrite(answers, left), AfterWrite(answers)); }
  }

  /** What repeats the front after a constant prefix is constant. */
  lemma {:induction false} SuffixConstant(chunk: seq<nat>, m: nat, answers: seq<int>)
    requires 0 < m <= |chunk| && Constant(chunk[..m]) && Emitted(chunk, |chunk| - m, answers) == chunk[m..]
    ensures Constant(chunk)
    decreases |chunk| - m
  {
    if m < |chunk| {
      var w := FirstWrite(answers, |chunk| - m);
      var rest := Emitted(chunk, |chunk| - m - w, AfterWrite(answers));
      assert chunk[m..] == chunk[..w] + rest;
      forall j | 0 <= j < m + w ensures chunk[j] == chunk[0] {
        Periodic(chunk, m, w, j);
      }
      assert chunk[m + w..] == chunk[m..][w..] == rest;
      SuffixConstant(chunk, m + w, AfterWrite(answers));
    } else {
      assert chunk[..m] == chunk;
    }
  }

  lemma {:induction false} Periodic(chunk: seq<nat>, m: nat, w: nat, j: nat)
    requires 0 < m && m + w <= |chunk| && j < m + w
    requires Constant(chunk[..m]) && chunk[m..m + w] == chunk[..w]
    ensures chunk[j] == chunk[0]
  {
    if j < m {
      assert chunk[..m][j] == chunk[..m][0];
    } else {
      assert chunk[m..m + w][j - m] == chunk[..w][j - m];
      Periodic(chunk, m, w, j - m);
    }
  }

  /**
   What comes of handing numbers to the writing loop: the numbers that arrive, the answers that
   are left, whether every write succeeded, and whether every buffer was written clean.
   */
  datatype Trace = Trace(numbers: seq<nat>, answers: seq<int>, done: bool, clean: bool)

  ghost function Nothing(answers: seq<int>): Trace { Trace([], answers, true, true) }

  ghost function Then(a: Trace, b: Trace): Trace {
    Trace(a.numbers + b.numbers, b.answers, a.done && b.done, a.clean && b.clean)
  }

  lemma ThenAssociates(a: Trace, b: Trace, c: Trace)
    ensures Then(Then(a, b), c) == Then(a, Then(b, c)) && Then(a, b).answers == b.answers
    ensures a.done && a.clean && a.numbers == [] ==> Then(a, b) == b
    ensures Then(a, Nothing(a.answers)) == a
  {
    assert a.numbers + b.numbers + c.numbers == a.numbers + (b.numbers + c.numbers);
  }

  /** An output file whose contents and answers were `was` and is what the trace says, unless a write failed. */
  ghost predicate Follows(w: Trace, failed: bool, was: seq<nat>, now: seq<nat>, answers: seq<int>) {
    (failed <==> !w.done) && (!failed ==> now == was + w.numbers && answers == w.answers)
  }

  lemma FollowsThen(a: Trace, b: Trace, failed: bool, w0: seq<nat>, w1: seq<nat>, w2: seq<nat>, answers: seq<int>)
    requires a.done && w1 == w0 + a.numbers && Follows(b, failed, w1, w2, answers)
    ensures Follows(Then(a, b), failed, w0, w2, answers)
  {
    assert w0 + a.numbers + b.numbers == w0 + (a.numbers + b.numbers);
  }

  ghost function WriteBuffer(chunk: seq<nat>, answers: seq<int>): Trace {
    Trace(Emitted(chunk, |chunk|, answers), AnswersAfter(|chunk|, answers), Completes(|chunk|, answers),
          Clean(chunk, answers))
  }

  /** The loop of main around write_int_buffer. After an error it would count up; here it ends. */
  method WriteOut(f: OutFile, outNumbers: array<nat>, taken: nat) returns (failed: bool)
    requires 0 < taken <= outNumbers.Length
    modifies f
    ensures Follows(WriteBuffer(outNumbers[..taken], old(f.answers)), failed, old(f.written), f.written, f.answers)
  {
    hide Emitted, AnswersAfter, Completes;
    ghost var chunk := outNumbers[..taken];
    var toWrite := taken;
    while toWrite > 0
      invariant 0 <= toWrite <= taken && outNumbers[..taken] == chunk
      invariant f.written + Emitted(chunk, toWrite, f.answers) == old(f.written) + Emitted(chunk, taken, old(f.answers))
      invariant AnswersAfter(toWrite, f.answers) == AnswersAfter(taken, old(f.answers))
      invariant Completes(toWrite, f.answers) <==> Completes(taken, old(f.answers))
      decreases toWrite, |f.answers|
    {
      OneWrite(chunk, toWrite, f.answers);
      ghost var before := f.written;
      var written := f.WriteInts(outNumbers, toWrite);
      if written < 0 { return true; }
      assert outNumbers[..written] == chunk[..written];
      Associates(before, chunk[..written], Emitted(chunk, toWrite - written, f.answers));
      toWrite := toWrite - written;
    }
    NoWrite(chunk, f.answers, f.written);
    failed := false;
  }

  /** One call of write_int_buffer. */
  lemma OneWrite(chunk: seq<nat>, left: nat, answers: seq<int>)
    requires 0 < left <= |chunk|
    ensures var a := Answer(answers, left);
      if a < 0 then !Completes(left, answers) else
        && Emitted(chunk, left, answers) == chunk[..a] + Emitted(chunk, left - a, Tail(answers))
        && AnswersAfter(left, answers) == AnswersAfter(left - a, Tail(answers))
        && (Completes(left, answers) <==> Completes(left - a, Tail(answers)))
  {
    StartedStep(answers);
    if Answer(answers, left) != 0 {
      FirstAnswer(left, answers);
      hide Started, FirstWrite, AfterWrite, Failing;
    } else {
      NoneTaken(left, answers);
      hide Started, FirstWrite, AfterWrite, Failing;
      assert Emitted(chunk, left, answers) == Emitted(chunk, left, Tail(answers));
    }
  }

  lemma StartedStep(answers: seq<int>)
    ensures answers == [] || answers[0] != 0 ==> Started(answers) == answers
    ensures answers != [] && answers[0] == 0 ==> Started(answers) == Started(Tail(answers))
  {}

  lemma FirstAnswer(left: nat, answers: seq<int>)
    requires left > 0 && Started(answers) == answers
    ensures Answer(answers, left) < 0 ==> Failing(answers)
    ensures Answer(answers, left) >= 0 ==>
      !Failing(answers) && FirstWrite(answers, left) == Answer(answers, left) && AfterWrite(answers) == Tail(answers)
  {
    hide Started;
  }

  lemma NoneTaken(left: nat, answers: seq<int>)
    requires Started(answers) == Started(Tail(answers))
    ensures FirstWrite(answers, left) == FirstWrite(Tail(answers), left)
    ensures AfterWrite(answers) == AfterWrite(Tail(answers)) && (Failing(answers) <==> Failing(Tail(answers)))
  {
    hide Started;
  }

  lemma Associates(a: seq<nat>, b: seq<nat>, c: seq<nat>)
    ensures a + b + c == a + (b + c)
  {}

  lemma NoWrite(chunk: seq<nat>, answers: seq<int>, before: seq<nat>)
    ensures before + Emitted(chunk, 0, answers) == before
    ensures AnswersAfter(0, answers) == answers && Completes(0, answers)
  {}

  // ---------- taking, chunk by chunk ----------

  /** A list of numbers written out with a buffer of 1000. */
  ghost function WriteNumbers(s: seq<nat>, answers: seq<int>): Trace {
    if s == [] then Nothing(answers) else
      var n := Min(1000, |s|);
      var first := WriteBuffer(s[..n], answers);
      Then(first, WriteNumbers(s[n..], first.answers))
  }

  lemma SliceSorted(s: seq<nat>, i: nat, j: nat)
    requires Sorted(s) && i <= j <= |s|
    ensures Sorted(s[i..j])
  {}

  /** Two stretches are both right when the whole is. */
  lemma TwoParts(a: seq<nat>, b: seq<nat>, c: seq<nat>, d: seq<nat>)
    requires |a| == |c| && |b| == |d|
    ensures a + b == c + d <==> a == c && b == d
  {
    if a + b == c + d {
      assert a == (a + b)[..|a|] && c == (c + d)[..|a|];
      assert b == (a + b)[|a|..] && d == (c + d)[|a|..];
    }
  }

  /** As many numbers arrive as are written, and the right ones exactly when every buffer is written clean. */
  lemma {:induction false} NumbersRight(s: seq<nat>, answers: seq<int>)
    requires Sorted(s)
    ensures |WriteNumbers(s, answers).numbers| == |s|
    ensures WriteNumbers(s, answers).numbers == s <==> WriteNumbers(s, answers).clean
    decreases |s|
  {
    hide Sorted, Emitted, Clean, AnswersAfter, Completes;
    if s != [] {
      var n := Min(1000, |s|);
      var first := WriteBuffer(s[..n], answers);
      SliceSorted(s, 0, n);
      SliceSorted(s, n, |s|);
      assert s[0..n] == s[..n] && s[n..|s|] == s[n..];
      EmittedRight(s[..n], answers);
      NumbersRight(s[n..], first.answers);
      TwoParts(first.numbers, WriteNumbers(s[n..], first.answers).numbers, s[..n], s[n..]);
      assert s == s[..n] + s[n..];
    }
  }

  /** The loop of main that takes up to 1000 numbers at a time: the same as one big take. */
  method TakeInChunks(t: RadixTree, outNumbers: array<nat>, request: int, f: OutFile) returns (failed: bool)
    requires t.Valid() && outNumbers.Length == 1000 && request < 0
    modifies t, t.Repr, outNumbers, f
    ensures t.Valid() && t.Repr <= old(t.Repr)
    ensures !failed ==> Listing(t.Shape()) == Serve(old(Listing(t.Shape())), request).0
    ensures Follows(WriteNumbers(Serve(old(Listing(t.Shape())), request).1, old(f.answers)), failed,
                    old(f.written), f.written, f.answers)
  {
    hide Listing, Serve, Negate, WriteBuffer, WriteNumbers, Then;
    ghost var all := Listing(t.Shape());
    var limit := Negate(request);
    ghost var wanted := if limit <= 0 then 0 else Min(limit, |all|);
    ServeTakes(all, request, wanted);
    ghost var target := WriteNumbers(all[..wanted], f.answers);
    ghost var done: nat, sofar := 0, Nothing(f.answers);
    ThenAssociates(sofar, target, target);
    assert all[0..wanted] == all[..wanted] && f.written + [] == f.written;
    while limit > 0
      invariant t.Valid() && t.Repr <= old(t.Repr)
      invariant done <= wanted <= |all| && Listing(t.Shape()) == all[done..]
      invariant limit > 0 ==> wanted - done == Min(limit, |all| - done)
      invariant limit <= 0 ==> wanted == done
      invariant f.written == old(f.written) + sofar.numbers && f.answers == sofar.answers && sofar.done
      invariant Then(sofar, WriteNumbers(all[done..wanted], f.answers)) == target
    {
      var takeMax := if limit < 1000 then limit else 1000;
      var taken := t.TakeNumbers(outNumbers, takeMax);
      SlicesOf(all, done, wanted, taken);
      if taken > 0 {
        NextBuffer(sofar, all[done..wanted], taken);
        ghost var written, next := f.written, WriteBuffer(outNumbers[..taken], f.answers);
        failed := WriteOut(f, outNumbers, taken);
        FollowsThen(sofar, next, failed, old(f.written), written, f.written, f.answers);
        if failed { return; }
        sofar := Then(sofar, next);
      }
      done := done + taken;
      limit := limit - taken;
      if taken == 0 { break; }
    }
    assert all[done..wanted] == [];
    AtTheEnd(sofar);
    failed := false;
  }

  lemma SlicesOf(all: seq<nat>, done: nat, wanted: nat, taken: nat)
    requires done + taken <= wanted <= |all|
    ensures all[done..wanted][..taken] == all[done..][..taken]
    ensures all[done..wanted][taken..] == all[done + taken..wanted]
    ensures all[done..][taken..] == all[done + taken..]
  {}

  /** The next buffer of the numbers still to be written. */
  lemma NextBuffer(sofar: Trace, s: seq<nat>, n: nat)
    requires s != [] && n == Min(1000, |s|)
    ensures var next := WriteBuffer(s[..n], sofar.answers);
      && Then(Then(sofar, next), WriteNumbers(s[n..], next.answers)) == Then(sofar, WriteNumbers(s, sofar.answers))
      && (!next.done ==> !Then(sofar, WriteNumbers(s, sofar.answers)).done)
  {
    hide WriteBuffer;
    var next := WriteBuffer(s[..n], sofar.answers);
    ThenAssociates(sofar, next, WriteNumbers(s[n..], next.answers));
  }

  lemma AtTheEnd(sofar: Trace)
    ensures Then(sofar, WriteNumbers([], sofar.answers)) == sofar
  {
    ThenAssociates(sofar, sofar, sofar);
  }

  /** What a list serves when it is asked to give numbers away. */
  lemma ServeTakes(s: seq<nat>, request: int, done: nat)
    requires request < 0 && done <= |s|
    requires done == if Negate(request) <= 0 then 0 else Min(Negate(request), |s|)
    ensures Serve(s, request) == (s[done..], s[..done])
  {}

  // ---------- the requests ----------

  /** A sorted list answering all requests in turn, and what it serves written out. */
  ghost function WriteAll(s: seq<nat>, requests: seq<int>, answers: seq<int>): Trace
    decreases |requests|
  {
    if requests == [] then Nothing(answers) else
      var (next, out) := Serve(s, requests[0]);
      var first := WriteNumbers(out, answers);
      Then(first, WriteAll(next, requests[1..], first.answers))
  }

  lemma WriteNone(s: seq<nat>, answers: seq<int>)
    ensures WriteAll(s, [], answers) == Nothing(answers)
  {}

  lemma ServeAllFirst(s: seq<nat>, requests: seq<int>)
    requires requests != []
    ensures var (s1, out1) := Serve(s, requests[0]);
      var (s2, out2) := ServeAll(s1, requests[1..]);
      ServeAll(s, requests) == (s2, out1 + out2)
  {
    hide Serve, ServeAll;
    ServeAllAppend(s, requests[..1], requests[1..]);
    ServeAllLast(s, [], requests[0]);
    NoRequests(s);
    assert [] + [requests[0]] == requests[..1] && requests[..1] + requests[1..] == requests;
    assert [] + Serve(s, requests[0]).1 == Serve(s, requests[0]).1;
  }

  /** As much is written as a sorted list would write, and exactly that when every buffer is written clean. */
  lemma {:induction false} AllRight(s: seq<nat>, requests: seq<int>, answers: seq<int>)
    requires Sorted(s)
    ensures |WriteAll(s, requests, answers).numbers| == |ServeAll(s, requests).1|
    ensures WriteAll(s, requests, answers).numbers == ServeAll(s, requests).1 <==> WriteAll(s, requests, answers).clean
    decreases |requests|
  {
    hide Sorted, Serve, ServeAll, WriteNumbers;
    if requests == [] {
      NoRequests(s);
    } else {
      var (next, out) := Serve(s, requests[0]);
      var first := WriteNumbers(out, answers);
      ServeKeeps(s, requests[0]);
      NumbersRight(out, answers);
      AllRight(next, requests[1..], first.answers);
      ServeAllFirst(s, requests);
      TwoParts(first.numbers, WriteAll(next, requests[1..], first.answers).numbers,
               out, ServeAll(next, requests[1..]).1);
    }
  }

  /** The same of a file that these numbers are appended to. */
  lemma OutputExactly(s: seq<nat>, requests: seq<int>, answers: seq<int>, was: seq<nat>)
    requires Sorted(s)
    ensures var w, right := WriteAll(s, requests, answers), ServeAll(s, requests).1;
      |w.numbers| == |right| && (was + w.numbers == was + right <==> w.clean)
  {
    hide WriteAll, ServeAll, Sorted;
    AllRight(s, requests, answers);
    TwoParts(was, WriteAll(s, requests, answers).numbers, was, ServeAll(s, requests).1);
  }

  /** How the requests fall into batches makes no difference to what is written. */
  lemma {:induction false} WriteAllAppend(s: seq<nat>, a: seq<int>, b: seq<int>, answers: seq<int>)
    ensures var first := WriteAll(s, a, answers);
      WriteAll(s, a + b, answers) == Then(first, WriteAll(ServeAll(s, a).0, b, first.answers))
    decreases |a|
  {
    hide Serve, ServeAll, WriteNumbers, Then;
    if a == [] {
      NoRequests(s);
      var all := WriteAll(s, b, answers);
      assert a + b == b;
      ThenAssociates(Nothing(answers), all, all);
    } else {
      var (next, out) := Serve(s, a[0]);
      var first := WriteNumbers(out, answers);
      WriteAllAppend(next, a[1..], b, first.answers);
      ServeAllFirst(s, a);
      assert (a + b)[1..] == a[1..] + b && (a + b)[0] == a[0];
      var rest := WriteAll(next, a[1..], first.answers);
      ThenAssociates(first, rest, WriteAll(ServeAll(s, a).0, b, rest.answers));
    }
  }

  /** One request more. */
  lemma WriteOneMore(s: seq<nat>, requests: seq<int>, n: nat, answers: seq<int>)
    requires n < |requests|
    ensures var first := WriteAll(s, requests[..n], answers);
      var (next, out) := Serve(ServeAll(s, requests[..n]).0, requests[n]);
      && WriteAll(s, requests[..n + 1], answers) == Then(first, WriteNumbers(out, first.answers))
      && ServeAll(s, requests[..n + 1]).0 == next
  {
    hide Serve, ServeAll, WriteNumbers, Then;
    var first := WriteAll(s, requests[..n], answers);
    var s1 := ServeAll(s, requests[..n]).0;
    var last := WriteNumbers(Serve(s1, requests[n]).1, first.answers);
    ServeAllStep(s, requests, n);
    WriteAllAppend(s, requests[..n], [requests[n]], answers);
    assert requests[..n + 1] == requests[..n] + [requests[n]];
    ThenAssociates(last, last, last);
  }

  /** A failure on the way is a failure of the whole. */
  lemma FailsEarly(s: seq<nat>, requests: seq<int>, n: nat, answers: seq<int>)
    requires n <= |requests| && !WriteAll(s, requests[..n], answers).done
    ensures !WriteAll(s, requests, answers).done
  {
    hide WriteAll;
    WriteAllAppend(s, requests[..n], requests[n..], answers);
    assert requests[..n] + requests[n..] == requests;
  }

  /** Everything is written right if no write takes less than a whole buffer. */
  lemma {:induction false} LargeWrites(s: seq<nat>, requests: seq<int>, answers: seq<int>)
    requires forall i :: 0 <= i < |answers| ==> answers[i] >= 1000
    ensures var w := WriteAll(s, requests, answers);
      w.done && w.clean && forall i :: 0 <= i < |w.answers| ==> w.answers[i] >= 1000
    decreases |requests|
  {
    hide Serve, WriteNumbers;
    if requests != [] {
      var (next, out) := Serve(s, requests[0]);
      LargeWritesOf(out, answers);
      LargeWrites(next, requests[1..], WriteNumbers(out, answers).answers);
    }
  }

  lemma {:induction false} LargeWritesOf(s: seq<nat>, answers: seq<int>)
    requires forall i :: 0 <= i < |answers| ==> answers[i] >= 1000
    ensures var w := WriteNumbers(s, answers);
      w.done && w.clean && forall i :: 0 <= i < |w.answers| ==> w.answers[i] >= 1000
    decreases |s|
  {
    if s != [] {
      var n := Min(1000, |s|);
      OneLargeWrite(n, answers);
      hide Emitted, AnswersAfter, Completes, FirstWrite;
      LargeWritesOf(s[n..], AnswersAfter(n, answers));
    }
  }

  lemma OneLargeWrite(n: nat, answers: seq<int>)
    requires 0 < n <= 1000 && forall i :: 0 <= i < |answers| ==> answers[i] >= 1000
    ensures FirstWrite(answers, n) == n && Completes(n, answers)
    ensures AnswersAfter(n, answers) == if answers == [] then [] else answers[1..]
  {
    assert AnswersAfter(0, AfterWrite(answers)) == AfterWrite(answers) && Completes(0, AfterWrite(answers));
  }

  /** The buffer holds 1000 numbers: that is what a single partial write has to take for a clean output. */
  lemma OnePartialWrite(s: seq<nat>, k: nat)
    requires s != [] && k > 0
    ensures var n := if |s| <= 1000 then |s| else 1000;
      WriteNumbers(s, [k]).clean <==> k >= n || forall i :: 0 <= i < n ==> s[i] == s[0]
  {
    var n := Min(1000, |s|);
    OneAnswer(n, k);
    CleanWithOne(s, n, k);
    hide Emitted, AnswersAfter, Completes, FirstWrite, Constant, Clean;
    LargeWritesOf(s[n..], []);
  }

  lemma OneAnswer(n: nat, k: nat)
    requires n > 0 && k > 0
    ensures FirstWrite([k], n) == Min(k, n) && AnswersAfter(n, [k]) == []
  {
    assert Started([k]) == [k] && [k][1..] == [] && AfterWrite([k]) == [];
    AllTaken(n - FirstWrite([k], n));
  }

  lemma CleanWithOne(s: seq<nat>, n: nat, k: nat)
    requires 0 < n <= |s| && k > 0
    ensures Clean(s[..n], [k]) <==> k >= n || forall i :: 0 <= i < n ==> s[i] == s[0]
  {
    OneAnswer(n, k);
    var chunk := s[..n];
    assert forall i :: 0 <= i < n ==> chunk[i] == s[i];
    hide FirstWrite, AnswersAfter;
    if Constant(chunk) {
      forall i | 0 <= i < n ensures s[i] == s[0] { assert chunk[i] == chunk[0]; }
    }
  }

  /** The program fails at the first write that does, and not before. */
  lemma FailsAtFirst(s: seq<nat>, answers: seq<int>)
    requires s != [] && answers != [] && answers[0] < 0
    ensures !WriteNumbers(s, answers).done
  {
    assert Started(answers) == answers;
    assert Failing(answers);
    var n := Min(1000, |s|);
    FailingFirst(n, answers);
    hide Completes, Emitted, AnswersAfter, Clean, Failing;
  }

  lemma FailingFirst(n: nat, answers: seq<int>)
    requires n > 0 && Failing(answers)
    ensures !Completes(n, answers)
  {}

  /** As long as no write fails, the program goes on to its end. */
  lemma {:induction false} NoFailure(s: seq<nat>, answers: seq<int>)
    requires forall i :: 0 <= i < |answers| ==> answers[i] >= 0
    ensures var w := WriteNumbers(s, answers);
      w.done && forall i :: 0 <= i < |w.answers| ==> w.answers[i] >= 0
    decreases |s|
  {
    if s != [] {
      var n := Min(1000, |s|);
      NoFailureHere(n, answers);
      hide Completes, Emitted, AnswersAfter, Clean, Failing;
      NoFailure(s[n..], AnswersAfter(n, answers));
    }
  }

  lemma {:induction false} NoFailureHere(left: nat, answers: seq<int>)
    requires forall i :: 0 <= i < |answers| ==> answers[i] >= 0
    ensures Completes(left, answers)
    ensures forall i :: 0 <= i < |AnswersAfter(left, answers)| ==> AnswersAfter(left, answers)[i] >= 0
    decreases left
  {
    if left > 0 {
      NoneSkipped(answers);
      NoFailureHere(left - FirstWrite(answers, left), AfterWrite(answers));
    }
  }

  lemma {:induction false} NoneSkipped(answers: seq<int>)
    requires forall i :: 0 <= i < |answers| ==> answers[i] >= 0
    ensures forall i :: 0 <= i < |Started(answers)| ==> Started(answers)[i] >= 0
  {
    if answers != [] && answers[0] == 0 { NoneSkipped(answers[1..]); }
  }

  lemma AllTaken(left: nat)
    ensures AnswersAfter(left, []) == []
  {
    if left > 0 { assert FirstWrite([], left) == left && AnswersAfter(0, []) == []; }
  }

  // ---------- the program ----------

  ghost predicate AllInts(numbers: seq<int>) {
    forall i :: 0 <= i < |numbers| ==> 0 <= numbers[i] + LIMIT < 2 * LIMIT
  }

  /** The requests may be any 32-bit ints. */
  lemma AnyInts(numbers: seq<int>)
    ensures AllInts(numbers) <==> forall i :: 0 <= i < |numbers| ==> -0x8000_0000 <= numbers[i] <= 0x7fff_ffff
  {}

  /** One request: a number to add, or -N to take N numbers. */
  method ProcessOne(t: RadixTree, number: int, outNumbers: array<nat>, f: OutFile) returns (failed: bool)
    requires t.Valid() && outNumbers.Length == 1000 && 0 <= number + LIMIT < 2 * LIMIT
    modifies t, t.Repr, outNumbers, f
    ensures t.Valid() && fresh(t.Repr - old(t.Repr))
    ensures !failed ==> Listing(t.Shape()) == Serve(old(Listing(t.Shape())), number).0
    ensures Follows(WriteNumbers(Serve(old(Listing(t.Shape())), number).1, old(f.answers)), failed,
                    old(f.written), f.written, f.answers)
  {
    if number < 0 {
      failed := TakeInChunks(t, outNumbers, number, f);
    } else {
      hide Listing, Insert, InsertSorted, Wf;
      InsertListing(t.Shape(), number);
      t.AddNumber(number);
      assert f.written + [] == f.written;
      failed := false;
    }
  }

  /** The requests of a batch, one after the other. */
  method ProcessBatch(t: RadixTree, numbers: array<int>, read: nat, outNumbers: array<nat>, f: OutFile)
    returns (failed: bool)
    requires t.Valid() && read <= numbers.Length && outNumbers.Length == 1000
    requires AllInts(numbers[..read])
    modifies t, t.Repr, outNumbers, f
    ensures t.Valid() && fresh(t.Repr - old(t.Repr))
    ensures !failed ==> Listing(t.Shape()) == ServeAll(old(Listing(t.Shape())), old(numbers[..read])).0
    ensures Follows(WriteAll(old(Listing(t.Shape())), old(numbers[..read]), old(f.answers)), failed,
                    old(f.written), f.written, f.answers)
  {
    hide Listing, Serve, ServeAll, WriteNumbers, WriteAll, Then, RadixTree.Valid, RadixTree.Shape;
    ghost var start, requests := Listing(t.Shape()), numbers[..read];
    NoRequests(start);
    WriteNone(start, f.answers);
    assert f.written + [] == f.written;
    for n := 0 to read
      invariant t.Valid() && fresh(t.Repr - old(t.Repr)) && numbers[..read] == requests
      invariant Listing(t.Shape()) == ServeAll(start, requests[..n]).0
      invariant Follows(WriteAll(start, requests[..n], old(f.answers)), false, old(f.written), f.written, f.answers)
    {
      assert numbers[n] == requests[n];
      ghost var written, sofar := f.written, WriteAll(start, requests[..n], old(f.answers));
      WriteOneMore(start, requests, n, old(f.answers));
      ghost var next := WriteNumbers(Serve(Listing(t.Shape()), requests[n]).1, f.answers);
      failed := ProcessOne(t, numbers[n], outNumbers, f);
      FollowsThen(sofar, next, failed, old(f.written), written, f.written, f.answers);
      if failed {
        FailsEarly(start, requests, n + 1, old(f.answers));
        return;
      }
    }
    assert requests[..read] == requests;
    failed := false;
  }

  lemma BatchOf(all: seq<int>, done: nat, read: nat)
    requires done + read <= |all|
    ensures all[done..][..read] == all[done..done + read] && all[done..][read..] == all[done + read..]
    ensures AllInts(all) ==> AllInts(all[done..done + read])
  {}

  /** One batch more. */
  lemma OneMoreBatch(s: seq<nat>, all: seq<int>, done: nat, read: nat, answers: seq<int>)
    requires done + read <= |all|
    ensures var first, batch := WriteAll(s, all[..done], answers), all[done..done + read];
      var s1 := ServeAll(s, all[..done]).0;
      && WriteAll(s, all[..done + read], answers) == Then(first, WriteAll(s1, batch, first.answers))
      && ServeAll(s, all[..done + read]).0 == ServeAll(s1, batch).0
  {
    hide ServeAll, WriteAll;
    var batch := all[done..done + read];
    ServeAllAppend(s, all[..done], batch);
    WriteAllAppend(s, all[..done], batch, answers);
    assert all[..done] + batch == all[..done + read];
  }

  /**
   main, on any input and under any reads and writes. The requests served are all of them unless a
   read fails or ends early, or a write fails. If no write fails, the tree holds what a sorted list
   would after them; the output file gets what the specification of the writing loop says, which
   is as much as the list would write, and exactly that if and only if every buffer is written
   clean; and in the end every node is released once, and not before its children.
   */
  method Process(t: RadixTree, inFile: InFile, outFile: OutFile)
    returns (failed: bool, released: seq<Node>, ghost served: nat)
    requires t.Valid() && AllInts(inFile.numbers)
    modifies t, t.Repr, inFile, outFile
    ensures served <= |old(inFile.numbers)|
    ensures !failed && AllPositive(old(inFile.answers)) ==> served == |old(inFile.numbers)|
    ensures var start, requests := old(Listing(t.Shape())), old(inFile.numbers)[..served];
      && Follows(WriteAll(start, requests, old(outFile.answers)), failed,
                 old(outFile.written), outFile.written, outFile.answers)
      && (!failed ==> t.Valid() && Listing(t.Shape()) == ServeAll(start, requests).0)
      && (!failed ==> |outFile.written| == |old(outFile.written)| + |ServeAll(start, requests).1|)
      && (!failed ==> (outFile.written == old(outFile.written) + ServeAll(start, requests).1
                       <==> WriteAll(start, requests, old(outFile.answers)).clean))
    ensures !failed ==> forall i, j :: 0 <= i < j < |released| ==> released[i] != released[j]
    ensures !failed ==> (forall x :: x in released <==> x in t.Repr) && ChildrenFirst(released)
  {
    hide Listing, ServeAll, WriteAll, Then, Wf, Rest, AllInts, AllPositive, ChildrenFirst, Sorted, RadixTree.Below;
    ghost var start, all, done := Listing(t.Shape()), inFile.numbers, 0;
    ListingSorted(t.Shape());
    NoRequests(start);
    WriteNone(start, outFile.answers);
    assert outFile.written + [] == outFile.written && all[..0] == [];
    released := [];
    while true
      invariant t.Valid() && fresh(t.Repr - old(t.Repr))
      invariant 0 <= done <= |all| && inFile.numbers == all[done..]
      invariant AllPositive(old(inFile.answers)) ==> AllPositive(inFile.answers)
      invariant Listing(t.Shape()) == ServeAll(start, all[..done]).0
      invariant Follows(WriteAll(start, all[..done], old(outFile.answers)), false,
                        old(outFile.written), outFile.written, outFile.answers)
      decreases |inFile.numbers|
    {
      var numbers := new int[1000];
      var outNumbers := new nat[1000];
      var read := inFile.ReadInts(numbers, 100);
      if read <= 0 { break; }
      ghost var batch, written := numbers[..read], outFile.written;
      BatchOf(all, done, read);
      ghost var sofar := WriteAll(start, all[..done], old(outFile.answers));
      ghost var next := WriteAll(Listing(t.Shape()), batch, outFile.answers);
      OneMoreBatch(start, all, done, read, old(outFile.answers));
      failed := ProcessBatch(t, numbers, read, outNumbers, outFile);
      FollowsThen(sofar, next, failed, old(outFile.written), written, outFile.written, outFile.answers);
      if failed { return failed, [], done + read; }
      done := done + read;
    }
    served := done;
    failed := false;
    OutputExactly(start, all[..done], old(outFile.answers), old(outFile.written));
    t.ReadyToTake(0);
    released := t.ReleaseTree(t.tree, []);
    t.ReleasesEachOnce();
  }
}
