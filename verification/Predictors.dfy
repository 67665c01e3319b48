/**
 The branch predictors of Assignment4/src/simulate.c: tables of two-bit counters indexed by the
 program counter (bimodal) or by the program counter mixed with the branch history (gshare),
 each in four sizes, against "always not taken".
 */
module Predictors {
  import opened Basics
  import opened BitMasks
  import opened ByteLanes

  const NUM_SIZES: nat := 4
  const ROW: nat := 16384

  function SizeOf(i: nat): (n: nat)
    requires i < NUM_SIZES
    ensures 0 < n <= ROW
  {
    if i == 0 then 256 else if i == 1 then 1024 else if i == 2 then 4096 else 16384
  }

  // ---------- one counter ----------

  type Counter = c: nat | c <= 3 witness 1

  function Update2Bit(counter: Counter, taken: bool): Counter {
    if taken then (if counter < 3 then counter + 1 else counter)
    else (if counter > 0 then counter - 1 else counter)
  }

  predicate Predict2Bit(counter: Counter) { counter >= 2 }

  function Miss(counter: Counter, taken: bool): nat { if Predict2Bit(counter) != taken then 1 else 0 }

  /** A new counter predicts "not taken", and "taken" after a single branch that is. */
  lemma NewCounter()
    ensures !Predict2Bit(1) && Predict2Bit(Update2Bit(1, true))
    ensures Predict2Bit(Update2Bit(Update2Bit(Update2Bit(1, false), true), true))
    ensures !Predict2Bit(Update2Bit(Update2Bit(1, false), true))
  {}

  /** Two branches of one kind and that kind is predicted; after a third it takes two of the other to change that. */
  lemma CounterIsSlow(c: Counter, b: bool)
    ensures var twice := Update2Bit(Update2Bit(c, b), b);
      var thrice := Update2Bit(twice, b);
      && Predict2Bit(twice) == b && Predict2Bit(Update2Bit(thrice, !b)) == b
      && Predict2Bit(Update2Bit(Update2Bit(thrice, !b), !b)) == !b
  {}

  /** The tables have 256, 1024, 4096 and 16384 entries. */
  lemma Sizes(i: nat)
    requires i < NUM_SIZES
    ensures SizeOf(i) == [256, 1024, 4096, 16384][i] == Power2(8 + 2 * i)
  {
    assert Power2(8) == 256;
    assert Power2(10) == 1024;
    assert Power2(12) == 4096;
    assert Power2(14) == 16384;
  }

  // ---------- a table of counters over a run ----------

  /** A table and how often it was wrong. */
  datatype Predictor = Predictor(table: seq<Counter>, misses: nat)

  /** One branch: the table entry it uses, and whether it is taken. */
  datatype Event = Event(index: nat, taken: bool)

  ghost predicate InTable(size: nat, events: seq<Event>) {
    forall i :: 0 <= i < |events| ==> events[i].index < size
  }

  ghost function Step(p: Predictor, e: Event): Predictor
    requires e.index < |p.table|
  {
    var c := p.table[e.index];
    Predictor(p.table[e.index := Update2Bit(c, e.taken)], p.misses + Miss(c, e.taken))
  }

  ghost function Start(size: nat): Predictor { Predictor(seq(size, _ => 1), 0) }

  ghost function Run(size: nat, events: seq<Event>): (p: Predictor)
    requires InTable(size, events)
    ensures |p.table| == size
  {
    if events == [] then Start(size) else Step(Run(size, events[..|events| - 1]), events[|events| - 1])
  }

  ghost function Taken(events: seq<Event>): nat {
    if events == [] then 0
    else Taken(events[..|events| - 1]) + if events[|events| - 1].taken then 1 else 0
  }

  /** Which of the branches that used entry j were taken. */
  ghost function Outcomes(events: seq<Event>, j: nat): seq<bool> {
    if events == [] then [] else
      var n := |events| - 1;
      Outcomes(events[..n], j) + if events[n].index == j then [events[n].taken] else []
  }

  /** A counter that has seen these branches. */
  function Trained(outcomes: seq<bool>): Counter {
    if outcomes == [] then 1 else Update2Bit(Trained(outcomes[..|outcomes| - 1]), outcomes[|outcomes| - 1])
  }

  /** An entry is trained by the branches that use it, all of them and no others. */
  lemma {:induction false} EntryTrained(size: nat, events: seq<Event>, j: nat)
    requires InTable(size, events) && j < size
    ensures Run(size, events).table[j] == Trained(Outcomes(events, j))
  {
    hide Update2Bit;
    if events != [] {
      var n := |events| - 1;
      EntryTrained(size, events[..n], j);
      var seen := Outcomes(events[..n], j);
      assert (seen + [events[n].taken])[..|seen|] == seen;
      assert seen + [] == seen;
    }
  }

  // ---------- potential ----------

  /** How many misses a counter has in store that taken branches have paid for. */
  function PaidByTaken(c: Counter): nat { if c == 3 then 2 else if c == 2 then 1 else 0 }

  /** How many misses a counter has in store that branches not taken have paid for. */
  function PaidByNotTaken(c: Counter): nat { if c == 0 then 2 else if c == 1 then 1 else 0 }

  lemma {:induction false} SumConstant(table: seq<Counter>, f: Counter -> nat, k: nat)
    requires k <= 1 && forall i :: 0 <= i < |table| ==> f(table[i]) == k
    ensures Sum(table, f) == k * |table|
  {
    if table != [] { SumConstant(table[..|table| - 1], f, k); }
  }

  /**
   However a table of two-bit counters is indexed, its misses are at most twice the taken
   branches, and at most twice the branches not taken plus one for each entry.
   */
  lemma {:induction false} MissesBounded(size: nat, events: seq<Event>)
    requires InTable(size, events)
    ensures var p := Run(size, events);
      && p.misses + Sum(p.table, PaidByTaken) <= 2 * Taken(events)
      && p.misses + Sum(p.table, PaidByNotTaken) <= 2 * (|events| - Taken(events)) + size
  {
    if events == [] {
      SumConstant(Start(size).table, PaidByTaken, 0);
      SumConstant(Start(size).table, PaidByNotTaken, 1);
    } else {
      var before, e := events[..|events| - 1], events[|events| - 1];
      MissesBounded(size, before);
      var p := Run(size, before);
      var c := p.table[e.index];
      SumUpdate(p.table, PaidByTaken, e.index, Update2Bit(c, e.taken));
      SumUpdate(p.table, PaidByNotTaken, e.index, Update2Bit(c, e.taken));
    }
  }

  // ---------- traces ----------

  datatype Branch = Branch(pc: nat, taken: bool, offset: int)

  function BimodalIndex(pc: nat, size: nat): nat
    requires size > 0
  {
    And(pc / 4, size - 1)
  }

  function GshareIndex(pc: nat, history: nat, size: nat): nat
    requires size > 0
  {
    And(Xor(pc / 4, history), size - 1)
  }

  lemma {:induction false} AndBound(x: nat, y: nat)
    ensures And(x, y) <= y
  {
    if x > 0 && y > 0 { AndBound(x / 2, y / 2); }
  }

  function Shifted(history: nat, taken: bool): nat {
    Or(history * 2 % 0x1_0000_0000, if taken then 1 else 0)
  }

  ghost function History(trace: seq<Branch>): nat {
    if trace == [] then 0 else Shifted(History(trace[..|trace| - 1]), trace[|trace| - 1].taken)
  }

  // ---------- what the index of an entry says ----------

  lemma ShiftedBits(history: nat, taken: bool, i: nat)
    ensures BitAt(Shifted(history, taken), i) <==> if i == 0 then taken else i < 32 && BitAt(history, i - 1)
    ensures Shifted(history, taken) < 0x1_0000_0000
  {
    hide BitAt, Or, And;
    var last := if taken then 1 else 0;
    var up := history * 2 % 0x1_0000_0000;
    Power32();
    OrBound(up, last, 32);
    AndOrBit(up, last, Power2(i));
    LowBitsKept(history * 2, 32, i);
    BitAtStep(history * 2, i);
    BitAtStep(last, i);
    if i > 0 { BeyondTop(0, 0, i - 1); }
    BitAtIs(Or(up, last), i);
    BitAtIs(up, i);
    BitAtIs(last, i);
  }

  lemma BitAtIs(x: nat, i: nat)
    ensures BitAt(x, i) <==> Bit(x, Power2(i))
  {}

  lemma {:induction false} HistoryBit(trace: seq<Branch>, k: nat)
    requires k < 32
    ensures BitAt(History(trace), k) <==> k < |trace| && trace[|trace| - 1 - k].taken
    ensures History(trace) < 0x1_0000_0000
  {
    hide BitAt, Shifted;
    if trace == [] {
      BeyondTop(0, 0, k);
    } else {
      ShiftedBits(History(trace[..|trace| - 1]), trace[|trace| - 1].taken, k);
      if k > 0 { HistoryBit(trace[..|trace| - 1], k - 1); }
    }
  }

  /** The history holds the last 32 branches, bit k telling whether the one k places from the end was taken. */
  lemma HistoryIsRecent(trace: seq<Branch>, k: nat)
    requires k < 32
    ensures History(trace) / Power2(k) % 2 == 1 <==> k < |trace| && trace[|trace| - 1 - k].taken
    ensures History(trace) < 0x1_0000_0000
  {
    HistoryBit(trace, k);
    BitIsDigit(History(trace), k);
  }

  /** The bimodal predictor uses the word address of the branch modulo the size of the table. */
  lemma BimodalUses(pc: nat, i: nat)
    requires i < NUM_SIZES
    ensures BimodalIndex(pc, SizeOf(i)) == pc / 4 % [256, 1024, 4096, 16384][i]
  {
    Sizes(i);
    hide And, Power2, SizeOf;
    AndModulo(pc / 4, 8 + 2 * i);
  }

  /** Bit k of gshare's index: bit k + 2 of the address, flipped if the branch k places back was taken. */
  lemma GshareUses(pc: nat, trace: seq<Branch>, i: nat, k: nat)
    requires i < NUM_SIZES && k < 8 + 2 * i
    ensures var index := GshareIndex(pc, History(trace), SizeOf(i));
      && index < [256, 1024, 4096, 16384][i]
      && (index / Power2(k) % 2 == 1
          <==> (pc / Power2(k + 2) % 2 == 1) != (k < |trace| && trace[|trace| - 1 - k].taken))
  {
    Sizes(i);
    hide And, Xor, History, SizeOf, Bit, Power2;
    var mixed := Xor(pc / 4, History(trace));
    AndModulo(mixed, 8 + 2 * i);
    LowBitsKept(mixed, 8 + 2 * i, k);
    XorBit(pc / 4, History(trace), Power2(k));
    HistoryBit(trace, k);
    BitIsDigit(mixed % Power2(8 + 2 * i), k);
    BitIsDigit(pc, k + 2);
    WordAddress(pc, k);
  }

  lemma WordAddress(pc: nat, k: nat)
    ensures BitAt(pc / 4, k) <==> BitAt(pc, k + 2)
  {
    hide BitAt;
    BitAtStep(pc, k + 2);
    BitAtStep(pc / 2, k + 1);
    assert pc / 2 / 2 == pc / 4;
  }

  // ---------- what the tables see of a trace ----------

  ghost function BimodalEvents(trace: seq<Branch>, size: nat): (events: seq<Event>)
    requires size > 0
    ensures |events| == |trace| && InTable(size, events)
  {
    if trace == [] then [] else
      var b := trace[|trace| - 1];
      AndBound(b.pc / 4, size - 1);
      BimodalEvents(trace[..|trace| - 1], size) + [Event(BimodalIndex(b.pc, size), b.taken)]
  }

  ghost function GshareEvents(trace: seq<Branch>, size: nat): (events: seq<Event>)
    requires size > 0
    ensures |events| == |trace| && InTable(size, events)
  {
    if trace == [] then [] else
      var before, b := trace[..|trace| - 1], trace[|trace| - 1];
      AndBound(Xor(b.pc / 4, History(before)), size - 1);
      GshareEvents(before, size) + [Event(GshareIndex(b.pc, History(before), size), b.taken)]
  }

  lemma RunOfMore(size: nat, events: seq<Event>, e: Event)
    requires InTable(size, events) && e.index < size
    ensures Run(size, events + [e]) == Step(Run(size, events), e)
  {
    assert (events + [e])[..|events|] == events;
  }

  /** One branch more in the trace is one event more for the table. */
  lemma RunExtends(size: nat, trace: seq<Branch>, after: seq<Branch>)
    requires size > 0 && |after| == |trace| + 1 && after[..|trace|] == trace
    ensures var b := after[|trace|];
      && BimodalIndex(b.pc, size) < size && GshareIndex(b.pc, History(trace), size) < size
      && Run(size, BimodalEvents(after, size))
        == Step(Run(size, BimodalEvents(trace, size)), Event(BimodalIndex(b.pc, size), b.taken))
      && Run(size, GshareEvents(after, size))
        == Step(Run(size, GshareEvents(trace, size)), Event(GshareIndex(b.pc, History(trace), size), b.taken))
  {
    hide And, Xor, Run, Step, BimodalEvents, GshareEvents, History;
    var b := after[|trace|];
    AndBound(b.pc / 4, size - 1);
    AndBound(Xor(b.pc / 4, History(trace)), size - 1);
    EventsExtend(size, trace, after);
    RunOfMore(size, BimodalEvents(trace, size), Event(BimodalIndex(b.pc, size), b.taken));
    RunOfMore(size, GshareEvents(trace, size), Event(GshareIndex(b.pc, History(trace), size), b.taken));
  }

  lemma EventsExtend(size: nat, trace: seq<Branch>, after: seq<Branch>)
    requires size > 0 && |after| == |trace| + 1 && after[..|trace|] == trace
    ensures var b := after[|trace|];
      && BimodalEvents(after, size) == BimodalEvents(trace, size) + [Event(BimodalIndex(b.pc, size), b.taken)]
      && GshareEvents(after, size)
         == GshareEvents(trace, size) + [Event(GshareIndex(b.pc, History(trace), size), b.taken)]
  {
    hide And, Xor, History, BimodalIndex, GshareIndex, InTable;
  }

  /** The table sees every branch, in order, at the index it has then. */
  lemma {:induction false} EventAt(trace: seq<Branch>, size: nat, k: nat)
    requires size > 0 && k < |trace|
    ensures BimodalEvents(trace, size)[k] == Event(BimodalIndex(trace[k].pc, size), trace[k].taken)
    ensures GshareEvents(trace, size)[k]
         == Event(GshareIndex(trace[k].pc, History(trace[..k]), size), trace[k].taken)
  {
    hide BimodalIndex, GshareIndex, History;
    var before := trace[..|trace| - 1];
    if k < |before| {
      EventAt(before, size, k);
      assert before[..k] == trace[..k];
    }
  }

  /** The misses of a table are the branches its entry, trained by the branches before, predicts wrong. */
  lemma {:induction false} MissesCounted(size: nat, events: seq<Event>)
    requires InTable(size, events)
    ensures Run(size, events).misses == |set k | 0 <= k < |events| && IsMiss(size, events, k)|
  {
    hide Update2Bit, Predict2Bit;
    var all := set k | 0 <= k < |events| && IsMiss(size, events, k);
    if events != [] {
      var n := |events| - 1;
      var before := events[..n];
      MissesCounted(size, before);
      assert forall k :: 0 <= k < n ==> before[..k] == events[..k];
      OneMore((set k | 0 <= k < n && IsMiss(size, before, k)), all, n, IsMiss(size, events, n));
    }
  }

  ghost predicate IsMiss(size: nat, events: seq<Event>, k: nat)
    requires InTable(size, events) && k < |events|
  {
    Predict2Bit(Run(size, events[..k]).table[events[k].index]) != events[k].taken
  }

  lemma OneMore(earlier: set<int>, all: set<int>, n: int, more: bool)
    requires forall k :: k in all <==> k in earlier || (k == n && more)
    requires n !in earlier
    ensures |all| == |earlier| + if more then 1 else 0
  {
    var expected := if more then earlier + {n} else earlier;
    forall k: int ensures k in all <==> k in expected {
      assert k in all <==> k in earlier || (k == n && more);
    }
    assert all == expected;
  }

  /** What is counted for the prediction "not taken". */
  lemma {:induction false} TakenCounted(trace: seq<Branch>)
    ensures TakenBranches(trace) == |set k | 0 <= k < |trace| && trace[k].taken|
  {
    var all := set k | 0 <= k < |trace| && trace[k].taken;
    if trace != [] {
      var n := |trace| - 1;
      TakenCounted(trace[..n]);
      OneMore((set k | 0 <= k < n && trace[..n][k].taken), all, n, trace[n].taken);
    }
  }

  /** What is counted for "backward taken, forward not taken". */
  lemma {:induction false} BtfntCounted(trace: seq<Branch>)
    ensures BtfntMisses(trace) == |set k | 0 <= k < |trace| && (trace[k].taken <==> trace[k].offset >= 0)|
  {
    var all := set k | 0 <= k < |trace| && (trace[k].taken <==> trace[k].offset >= 0);
    if trace != [] {
      var n := |trace| - 1;
      BtfntCounted(trace[..n]);
      OneMore((set k | 0 <= k < n && (trace[..n][k].taken <==> trace[..n][k].offset >= 0)), all, n,
              trace[n].taken <==> trace[n].offset >= 0);
    }
  }

  ghost function TakenBranches(trace: seq<Branch>): nat {
    if trace == [] then 0 else TakenBranches(trace[..|trace| - 1]) + if trace[|trace| - 1].taken then 1 else 0
  }

  /** Backward branches are predicted taken. */
  ghost function BtfntMisses(trace: seq<Branch>): nat {
    if trace == [] then 0 else
      var b := trace[|trace| - 1];
      BtfntMisses(trace[..|trace| - 1]) + if (b.offset < 0) != b.taken then 1 else 0
  }

  lemma {:induction false} EventsTaken(trace: seq<Branch>, size: nat)
    requires size > 0
    ensures Taken(BimodalEvents(trace, size)) == TakenBranches(trace)
    ensures Taken(GshareEvents(trace, size)) == TakenBranches(trace)
  {
    if trace != [] {
      var before := trace[..|trace| - 1];
      EventsTaken(before, size);
      assert BimodalEvents(trace, size)[..|before|] == BimodalEvents(before, size);
      assert GshareEvents(trace, size)[..|before|] == GshareEvents(before, size);
    }
  }

  // ---------- the tables and counters of the simulator ----------

  /** The first n counters of row i. */
  ghost function Row(table: array2<Counter>, i: nat, n: nat): (row: seq<Counter>)
    requires i < table.Length0 && n <= table.Length1
    reads table
    ensures |row| == n && forall j :: 0 <= j < n ==> row[j] == table[i, j]
  {
    if n == 0 then [] else Row(table, i, n - 1) + [table[i, n - 1]]
  }

  lemma FreshRow(table: array2<Counter>, i: nat, n: nat)
    requires i < table.Length0 && n <= table.Length1 && forall j :: 0 <= j < n ==> table[i, j] == 1
    ensures Row(table, i, n) == seq(n, _ => 1)
  {}

  /** Predict with one table entry, count a miss, and train the entry. */
  method UpdateTable(table: array2<Counter>, misses: array<nat>, i: nat, index: nat, taken: bool)
    requires i < NUM_SIZES && table.Length0 == NUM_SIZES && table.Length1 == ROW && misses.Length == NUM_SIZES
    requires index < SizeOf(i)
    modifies table, misses
    ensures Predictor(Row(table, i, SizeOf(i)), misses[i])
         == Step(old(Predictor(Row(table, i, SizeOf(i)), misses[i])), Event(index, taken))
    ensures forall j :: 0 <= j < NUM_SIZES && j != i ==>
      Row(table, j, SizeOf(j)) == old(Row(table, j, SizeOf(j))) && misses[j] == old(misses[j])
  {
    ghost var was := Row(table, i, SizeOf(i));
    if Predict2Bit(table[i, index]) != taken { misses[i] := misses[i] + 1; }
    table[i, index] := Update2Bit(table[i, index], taken);
    assert Row(table, i, SizeOf(i)) == was[index := Update2Bit(was[index], taken)];
    forall j | 0 <= j < NUM_SIZES && j != i ensures Row(table, j, SizeOf(j)) == old(Row(table, j, SizeOf(j))) {
      assert forall k :: 0 <= k < SizeOf(j) ==> Row(table, j, SizeOf(j))[k] == old(Row(table, j, SizeOf(j)))[k];
    }
  }

  class Statistics {
    const bimodal: array2<Counter>
    const gshare: array2<Counter>
    const bimodalMisses: array<nat>
    const gshareMisses: array<nat>
    var predictions: nat
    var ntMisses: nat
    var btfntMisses: nat
    var globalHistory: nat
    /** All branches seen since init_predictors. */
    ghost var trace: seq<Branch>

    ghost predicate Shaped()
    {
      && bimodal.Length0 == gshare.Length0 == NUM_SIZES && bimodal.Length1 == gshare.Length1 == ROW
      && bimodalMisses.Length == gshareMisses.Length == NUM_SIZES
      && bimodal != gshare && bimodalMisses != gshareMisses
    }

    ghost function Bimodal(i: nat): Predictor
      requires Shaped() && i < NUM_SIZES
      reads bimodal, bimodalMisses
    {
      Predictor(Row(bimodal, i, SizeOf(i)), bimodalMisses[i])
    }

    ghost function Gshare(i: nat): Predictor
      requires Shaped() && i < NUM_SIZES
      reads gshare, gshareMisses
    {
      Predictor(Row(gshare, i, SizeOf(i)), gshareMisses[i])
    }

    ghost predicate Valid()
      reads this, bimodal, gshare, bimodalMisses, gshareMisses
    {
      && Shaped()
      && predictions == |trace| && ntMisses == TakenBranches(trace) && btfntMisses == BtfntMisses(trace)
      && globalHistory == History(trace)
      && Shows(trace, 0, NUM_SIZES)
    }

    /** init_predictors */
    constructor ()
      ensures Valid() && trace == []
      ensures fresh(bimodal) && fresh(gshare) && fresh(bimodalMisses) && fresh(gshareMisses)
    {
      bimodal := new Counter[NUM_SIZES, ROW]((_, _) => 1);
      gshare := new Counter[NUM_SIZES, ROW]((_, _) => 1);
      bimodalMisses := new nat[NUM_SIZES](_ => 0);
      gshareMisses := new nat[NUM_SIZES](_ => 0);
      predictions, ntMisses, btfntMisses, globalHistory := 0, 0, 0, 0;
      trace := [];
      new;
      forall i | 0 <= i < NUM_SIZES
        ensures Bimodal(i) == Start(SizeOf(i)) && Gshare(i) == Start(SizeOf(i))
      {
        FreshRow(bimodal, i, SizeOf(i));
        FreshRow(gshare, i, SizeOf(i));
      }
    }

    /** One turn of the loop over the table sizes in update_branch_stats. */
    method UpdateSize(i: nat, pc: nat, taken: bool)
      requires Shaped() && i < NUM_SIZES
      modifies bimodal, gshare, bimodalMisses, gshareMisses
      ensures BimodalIndex(pc, SizeOf(i)) < SizeOf(i) && GshareIndex(pc, globalHistory, SizeOf(i)) < SizeOf(i)
      ensures Bimodal(i) == Step(old(Bimodal(i)), Event(BimodalIndex(pc, SizeOf(i)), taken))
      ensures Gshare(i) == Step(old(Gshare(i)), Event(GshareIndex(pc, globalHistory, SizeOf(i)), taken))
      ensures forall j :: 0 <= j < NUM_SIZES && j != i ==> Bimodal(j) == old(Bimodal(j)) && Gshare(j) == old(Gshare(j))
    {
      var mask := SizeOf(i) - 1;
      AndBound(pc / 4, mask);
      AndBound(Xor(pc / 4, globalHistory), mask);
      UpdateTable(bimodal, bimodalMisses, i, And(pc / 4, mask), taken);
      UpdateTable(gshare, gshareMisses, i, And(Xor(pc / 4, globalHistory), mask), taken);
    }

    /** The tables and miss counters up to size n show the trace with one branch more. */
    ghost predicate Shows(tr: seq<Branch>, from: nat, to: nat)
      reads bimodal, gshare, bimodalMisses, gshareMisses
    {
      && Shaped() && to <= NUM_SIZES
      && (forall i :: from <= i < to ==> Bimodal(i) == Run(SizeOf(i), BimodalEvents(tr, SizeOf(i))))
      && (forall i :: from <= i < to ==> Gshare(i) == Run(SizeOf(i), GshareEvents(tr, SizeOf(i))))
    }

    /** update_branch_stats */
    method UpdateBranchStats(pc: nat, taken: bool, offset: int)
      requires Valid()
      modifies this, bimodal, gshare, bimodalMisses, gshareMisses
      ensures Valid() && trace == old(trace) + [Branch(pc, taken, offset)]
    {
      hide Shifted, Run, Statistics.Shows;
      ghost var after := trace + [Branch(pc, taken, offset)];
      assert after[..|trace|] == trace;
      predictions := predictions + 1;
      if taken { ntMisses := ntMisses + 1; }
      if (offset < 0) != taken { btfntMisses := btfntMisses + 1; }
      UpdateTables(pc, taken, after);
      globalHistory := Shifted(globalHistory, taken);
      trace := after;
    }

    /** The loop over the table sizes. */
    method UpdateTables(pc: nat, taken: bool, ghost after: seq<Branch>)
      requires Shaped() && Shows(trace, 0, NUM_SIZES) && globalHistory == History(trace)
      requires |after| == |trace| + 1 && after[..|trace|] == trace
      requires after[|trace|].pc == pc && after[|trace|].taken == taken
      modifies bimodal, gshare, bimodalMisses, gshareMisses
      ensures Shows(after, 0, NUM_SIZES)
    {
      hide Run, BimodalEvents, GshareEvents, BimodalIndex, GshareIndex;
      for i := 0 to NUM_SIZES
        invariant Shows(after, 0, i) && Shows(trace, i, NUM_SIZES)
      {
        RunExtends(SizeOf(i), trace, after);
        UpdateSize(i, pc, taken);
      }
    }

    /**
     On every branch trace, for every table size, either predictor misses at most twice as
     often as predicting "not taken" does, and at most twice as often as predicting "taken"
     would, plus the number of table entries.
     */
    lemma NeverMuchWorse(i: nat)
      requires Valid() && i < NUM_SIZES
      ensures bimodalMisses[i] <= 2 * ntMisses && bimodalMisses[i] <= 2 * (predictions - ntMisses) + SizeOf(i)
      ensures gshareMisses[i] <= 2 * ntMisses && gshareMisses[i] <= 2 * (predictions - ntMisses) + SizeOf(i)
    {
      var size := SizeOf(i);
      EventsTaken(trace, size);
      MissesBounded(size, BimodalEvents(trace, size));
      MissesBounded(size, GshareEvents(trace, size));
      assert Bimodal(i).misses == bimodalMisses[i] && Gshare(i).misses == gshareMisses[i];
    }
  }
}
