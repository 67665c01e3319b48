/**
 The Python peer's receiver (send_to_server in python/first_peer/peer.py): blocks are collected in
 a list with a slot per block, whatever their order, checked against their hashes, and joined when
 no slot is empty.
 */
module BlockAssembly {
  import opened Basics
  import opened Bytes
  import opened FileBlocks

  // ---------- reading one reply ----------

  /** A slice ends where the sequence ends, as in Python. */
  function Slice(b: seq<Octet>, i: nat, j: nat): seq<Octet>
    requires i <= j
  {
    b[Min(i, |b|)..Min(j, |b|)]
  }

  /** parse_reply: unpacking a number raises an exception if there are not enough bytes, slicing does not. */
  function ParseReply(message: seq<Octet>, length: nat): Option<Reply> {
    if |message| < 12 then None else
      Some(Reply(BigEndian(message[0..4]), BigEndian(message[4..8]), BigEndian(message[8..12]),
                 Slice(message, 12, 44), Slice(message, 44, 76), Slice(message, 76, 76 + length)))
  }

  /** The most that recv returns when asked for n bytes: what the next answer allows, or all if there is none. */
  function Granted(answers: seq<nat>, n: nat): (k: nat)
    ensures k <= n
  {
    if answers == [] then n else Min(Max(answers[0], 1), n)
  }

  function Tail(answers: seq<nat>): seq<nat> { if answers == [] then [] else answers[1..] }

  /** How many bytes recv takes from the front of the stream. */
  function Recv(stream: seq<Octet>, answers: seq<nat>, n: nat): (k: nat)
    ensures k <= |stream|
  {
    Min(Granted(answers, n), |stream|)
  }

  /** The answers left after the two calls of recv for a reply. */
  function AfterReply(answers: seq<nat>): seq<nat> { Tail(Tail(answers)) }

  /** One call of recv for the length and one for the rest, neither repeated if it returns less than asked for. */
  function Receive(stream: seq<Octet>, answers: seq<nat>): (r: Option<(Reply, seq<Octet>)>)
    ensures r.Some? ==> |r.value.1| < |stream|
  {
    if Recv(stream, answers, 4) < 4 then None else
      var length: nat := BigEndian(stream[0..4]);
      var rest := stream[4..];
      var k := Recv(rest, Tail(answers), length + 76);
      match ParseReply(rest[..k], length)
      case None => None
      case Some(reply) => Some((reply, rest[k..]))
  }

  /** Neither call for this reply is cut short. */
  ghost predicate Uncut(r: Reply, answers: seq<nat>) {
    Granted(answers, 4) == 4 && Granted(Tail(answers), |r.payload| + 76) == |r.payload| + 76
  }

  lemma SubSlice(s: seq<Octet>, k: nat, i: nat, j: nat)
    requires 4 + k <= |s| && i <= j <= k
    ensures s[4..][..k][i..j] == s[4 + i..4 + j]
  {}

  /** On a reply that is all there and not cut short, the two peers read the same. */
  lemma ReceiveWhole(stream: seq<Octet>, answers: seq<nat>)
    requires ReceiveReply(stream).Some? && Uncut(ReceiveReply(stream).value.0, answers)
    ensures Receive(stream, answers) == ReceiveReply(stream)
  {
    hide BigEndian;
    var k := BigEndian(stream[0..4]) + 76;
    SubSlice(stream, k, 0, 4);
    SubSlice(stream, k, 4, 8);
    SubSlice(stream, k, 8, 12);
    SubSlice(stream, k, 12, 44);
    SubSlice(stream, k, 44, 76);
    SubSlice(stream, k, 76, k);
    assert stream[4..][k..] == stream[4 + k..];
  }

  /** What is read of a reply whose second part is cut short after k bytes. */
  function Cut(r: Reply, k: nat): Reply
    requires 12 <= k <= |r.payload| + 76 && |r.blockHash| == |r.totalHash| == 32
  {
    Reply(r.status, r.thisBlock, r.blockCount,
          r.blockHash[..if k < 44 then k - 12 else 32],
          r.totalHash[..if k < 44 then 0 else if k < 76 then k - 44 else 32],
          r.payload[..if k < 76 then 0 else k - 76])
  }

  lemma ReceiveCut(r: Reply, rest: seq<Octet>, answers: seq<nat>)
    requires Sendable(r) && Granted(answers, 4) == 4
    ensures var k := Granted(Tail(answers), |r.payload| + 76);
      var got := Receive(Encode(r) + rest, answers);
      if k < 12 then got == None else k <= |r.payload| + 76 && got.Some? && got.value.0 == Cut(r, k)
  {
    hide ToBigEndian, BigEndian;
    var s, k := Encode(r) + rest, Granted(Tail(answers), |r.payload| + 76);
    WordRoundTrip(|r.payload|);
    EncodedParts(r, rest);
    hide Encode;
    if k >= 12 {
      WordRoundTrip(r.status);
      WordRoundTrip(r.thisBlock);
      WordRoundTrip(r.blockCount);
      SubSlice(s, k, 0, 4);
      SubSlice(s, k, 4, 8);
      SubSlice(s, k, 8, 12);
      ParsedCut(r, s, k);
    }
  }

  /** The parts of a reply that slicing takes from the first k bytes after the length. */
  lemma ParsedCut(r: Reply, s: seq<Octet>, k: nat)
    requires 12 <= k <= |r.payload| + 76 && |r.blockHash| == |r.totalHash| == 32 && |s| >= 80 + |r.payload|
    requires s[16..48] == r.blockHash && s[48..80] == r.totalHash && s[80..80 + |r.payload|] == r.payload
    ensures var message := s[4..][..k];
      && Slice(message, 12, 44) == Cut(r, k).blockHash && Slice(message, 44, 76) == Cut(r, k).totalHash
      && Slice(message, 76, 76 + |r.payload|) == Cut(r, k).payload
  {
    SubSlice(s, k, 12, Min(44, k));
    FrontOf(s, 16, 48, Min(44, k) - 12);
    if k >= 44 {
      SubSlice(s, k, 44, Min(76, k));
      FrontOf(s, 48, 80, Min(76, k) - 44);
    }
    if k >= 76 {
      SubSlice(s, k, 76, k);
      FrontOf(s, 80, 80 + |r.payload|, k - 76);
    }
  }

  lemma FrontOf(s: seq<Octet>, i: nat, j: nat, n: nat)
    requires i + n <= j <= |s|
    ensures s[i..j][..n] == s[i..i + n]
  {}

  // ---------- collecting the blocks ----------

  type Slots = seq<Option<seq<Octet>>>

  /** Delivered: the joined data. Reported: a status or a hash was wrong. Raised: an exception ended the call. */
  datatype Outcome = Delivered(data: seq<Octet>) | Reported | Raised

  ghost predicate Full(blocks: Slots) { forall i :: 0 <= i < |blocks| ==> blocks[i].Some? }

  method CountEmpty(blocks: Slots) returns (n: nat)
    ensures n == 0 <==> Full(blocks)
  {
    n := 0;
    for i := 0 to |blocks|
      invariant n == 0 <==> forall j :: 0 <= j < i ==> blocks[j].Some?
    {
      if blocks[i].None? { n := n + 1; }
    }
  }

  ghost function Payloads(blocks: Slots): seq<seq<Octet>>
    requires Full(blocks)
  {
    seq(|blocks|, i requires 0 <= i < |blocks| => blocks[i].value)
  }

  method Join(blocks: Slots) returns (data: seq<Octet>)
    requires Full(blocks)
    ensures data == Joined(Payloads(blocks))
  {
    data := [];
    for i := 0 to |blocks|
      invariant data == Joined(Payloads(blocks)[..i])
    {
      assert Payloads(blocks)[..i + 1][..i] == Payloads(blocks)[..i];
      data := data + blocks[i].value;
    }
    assert Payloads(blocks)[..|blocks|] == Payloads(blocks);
  }

  /** What the receiver does with a reply when these blocks have already arrived. */
  ghost function Received(blocks: Slots, stream: seq<Octet>, answers: seq<nat>, sha: Hasher): Outcome
    decreases |stream|
  {
    match Receive(stream, answers)
    case None => Raised
    case Some((r, rest)) =>
      if r.thisBlock >= |blocks| then Raised
      else if r.status != STATUS_OK || sha(r.payload) != r.blockHash then Reported
      else
        var now := blocks[r.thisBlock := Some(r.payload)];
        if Full(now) then Delivered(Joined(Payloads(now))) else Received(now, rest, AfterReply(answers), sha)
  }

  /** The first reply says how many slots there are. */
  ghost function Assembled(stream: seq<Octet>, answers: seq<nat>, sha: Hasher): Outcome {
    match Receive(stream, answers)
    case None => Raised
    case Some((r, _)) => Received(Empty(r.blockCount), stream, answers, sha)
  }

  function Empty(n: nat): Slots { seq(n, _ => None) }

  method SendToServer(stream: seq<Octet>, answers: seq<nat>, sha: Hasher) returns (outcome: Outcome)
    ensures outcome == Assembled(stream, answers, sha)
  {
    hide Joined, Payloads, Receive;
    var received := Receive(stream, answers);
    if received == None { return Raised; }
    var (r, rest) := received.value;
    var blocks := Empty(r.blockCount);
    var schedule := answers;
    ghost var left := stream;
    while true
      invariant Receive(left, schedule) == Some((r, rest))
      invariant Received(blocks, left, schedule, sha) == Assembled(stream, answers, sha)
      decreases |left|
    {
      if r.thisBlock >= |blocks| { return Raised; }
      if r.status != STATUS_OK || sha(r.payload) != r.blockHash { return Reported; }
      blocks := blocks[r.thisBlock := Some(r.payload)];
      var empty := CountEmpty(blocks);
      if empty == 0 {
        var data := Join(blocks);
        return Delivered(data);
      }
      schedule := AfterReply(schedule);
      var next := Receive(rest, schedule);
      if next == None { return Raised; }
      left := rest;
      r, rest := next.value.0, next.value.1;
    }
  }

  // ---------- which replies decide the outcome ----------

  /** All replies that can be read from a stream, one after the other. */
  ghost function Reads(stream: seq<Octet>, answers: seq<nat>): seq<Reply>
    decreases |stream|
  {
    match Receive(stream, answers)
    case None => []
    case Some((r, rest)) => [r] + Reads(rest, AfterReply(answers))
  }

  /** A block of this receiver whose status and hash are as they should be. */
  ghost predicate Right(r: Reply, n: nat, sha: Hasher) {
    r.thisBlock < n && r.status == 1 && sha(r.payload) == r.blockHash
  }

  ghost predicate Wrong(r: Reply, n: nat, sha: Hasher) {
    r.thisBlock < n && (r.status != 1 || sha(r.payload) != r.blockHash)
  }

  /** Some slot is empty and stays so through the first k replies. */
  ghost predicate Missing(blocks: Slots, got: seq<Reply>, k: nat)
    requires k <= |got|
  {
    exists i: nat :: i < |blocks| && blocks[i].None? && forall j :: 0 <= j < k ==> got[j].thisBlock != i
  }

  /** Reply k is looked at: all before it were right, and there is still an empty slot. */
  ghost predicate Reaches(blocks: Slots, got: seq<Reply>, sha: Hasher, k: nat) {
    && k < |got| && (forall j :: 0 <= j < k ==> Right(got[j], |blocks|, sha))
    && (k > 0 ==> Missing(blocks, got, k))
  }

  ghost predicate ReportsAt(blocks: Slots, got: seq<Reply>, sha: Hasher, k: nat) {
    Reaches(blocks, got, sha, k) && Wrong(got[k], |blocks|, sha)
  }

  ghost predicate DeliversAt(blocks: Slots, got: seq<Reply>, sha: Hasher, k: nat) {
    Reaches(blocks, got, sha, k) && Right(got[k], |blocks|, sha) && !Missing(blocks, got, k + 1)
  }

  lemma MissingStep(blocks: Slots, r: Reply, later: seq<Reply>, k: nat)
    requires r.thisBlock < |blocks| && k <= |later|
    ensures Missing(blocks, [r] + later, k + 1) <==> Missing(blocks[r.thisBlock := Some(r.payload)], later, k)
    ensures Missing(blocks[r.thisBlock := Some(r.payload)], later, k) ==> !Full(blocks[r.thisBlock := Some(r.payload)])
  {
    var got, now := [r] + later, blocks[r.thisBlock := Some(r.payload)];
    if Missing(blocks, got, k + 1) {
      var i: nat :| i < |blocks| && blocks[i].None? && forall j :: 0 <= j < k + 1 ==> got[j].thisBlock != i;
      assert got[0] == r;
      assert forall j :: 0 <= j < k ==> later[j] == got[j + 1];
      assert now[i].None?;
    }
    if Missing(now, later, k) {
      var i: nat :| i < |now| && now[i].None? && forall j :: 0 <= j < k ==> later[j].thisBlock != i;
      assert forall j :: 1 <= j < k + 1 ==> got[j] == later[j - 1];
    }
  }

  /** After a right reply that does not complete the file, the replies after it decide. */
  lemma ReachesStep(blocks: Slots, r: Reply, later: seq<Reply>, sha: Hasher, k: nat)
    requires Right(r, |blocks|, sha)
    ensures var now := blocks[r.thisBlock := Some(r.payload)];
      Reaches(blocks, [r] + later, sha, k + 1) <==> !Full(now) && Reaches(now, later, sha, k)
  {
    var got, now := [r] + later, blocks[r.thisBlock := Some(r.payload)];
    hide Missing, Full, Right;
    if k < |later| {
      MissingStep(blocks, r, later, k);
      NoneRead(now, later);
      assert forall j :: 0 <= j < k ==> later[j] == got[j + 1];
      assert forall j :: 1 <= j < k + 1 ==> got[j] == later[j - 1];
    }
  }

  lemma NoneRead(blocks: Slots, got: seq<Reply>)
    ensures Missing(blocks, got, 0) <==> !Full(blocks)
  {}

  /**
   Errors are reported exactly when a wrong reply is reached, and data is delivered exactly when
   a right reply fills the last empty slot. In all other cases an exception ends the call.
   */
  lemma {:induction false} OutcomeOf(blocks: Slots, stream: seq<Octet>, answers: seq<nat>, sha: Hasher)
    ensures var outcome := Received(blocks, stream, answers, sha);
      && (outcome.Reported? <==> exists k: nat :: ReportsAt(blocks, Reads(stream, answers), sha, k))
      && (outcome.Delivered? <==> exists k: nat :: DeliversAt(blocks, Reads(stream, answers), sha, k))
    decreases |stream|
  {
    ReceivedFirst(blocks, stream, answers, sha);
    hide *;
    if Receive(stream, answers).None? {
      NothingDecides(blocks, [], sha);
    } else {
      var (r, rest) := Receive(stream, answers).value;
      var later := Reads(rest, AfterReply(answers));
      if Right(r, |blocks|, sha) {
        var now := blocks[r.thisBlock := Some(r.payload)];
        ReportedLater(blocks, r, later, sha);
        DeliveredLater(blocks, r, later, sha);
        if !Full(now) { OutcomeOf(now, rest, AfterReply(answers), sha); }
      } else {
        NothingDecides(blocks, [r] + later, sha);
      }
    }
  }

  lemma ReceivedFirst(blocks: Slots, stream: seq<Octet>, answers: seq<nat>, sha: Hasher)
    ensures Receive(stream, answers).None? ==>
      Received(blocks, stream, answers, sha) == Raised && Reads(stream, answers) == []
    ensures Receive(stream, answers).Some? ==>
      var (r, rest) := Receive(stream, answers).value;
      && |rest| < |stream| && Reads(stream, answers) == [r] + Reads(rest, AfterReply(answers))
      && var outcome := Received(blocks, stream, answers, sha);
        if Right(r, |blocks|, sha) then
          var now := blocks[r.thisBlock := Some(r.payload)];
          r.thisBlock < |blocks|
          && if Full(now) then outcome.Delivered? else outcome == Received(now, rest, AfterReply(answers), sha)
        else outcome == if Wrong(r, |blocks|, sha) then Reported else Raised
  {
    hide Receive, Full, Joined, Payloads;
  }

  /** The first reply ends the call unless it is right. */
  lemma NothingDecides(blocks: Slots, got: seq<Reply>, sha: Hasher)
    requires got != [] ==> !Right(got[0], |blocks|, sha)
    ensures !exists k: nat :: DeliversAt(blocks, got, sha, k)
    ensures (exists k: nat :: ReportsAt(blocks, got, sha, k)) <==> got != [] && Wrong(got[0], |blocks|, sha)
  {
    hide Right, Missing;
    if got != [] && Wrong(got[0], |blocks|, sha) { assert ReportsAt(blocks, got, sha, 0); }
  }

  /** One reply more before it makes no difference to what is reported. */
  lemma ReportStep(blocks: Slots, r: Reply, later: seq<Reply>, sha: Hasher, k: nat)
    requires Right(r, |blocks|, sha)
    ensures var now := blocks[r.thisBlock := Some(r.payload)];
      && (ReportsAt(blocks, [r] + later, sha, k + 1) <==> !Full(now) && ReportsAt(now, later, sha, k))
      && (DeliversAt(blocks, [r] + later, sha, k + 1) <==> !Full(now) && DeliversAt(now, later, sha, k))
  {
    hide Missing, Full, Reaches;
    ReachesStep(blocks, r, later, sha, k);
    ReachesInside(blocks, [r] + later, sha, k + 1);
    ReachesInside(blocks[r.thisBlock := Some(r.payload)], later, sha, k);
    if k < |later| { MissingStep(blocks, r, later, k + 1); }
  }

  lemma ReachesInside(blocks: Slots, got: seq<Reply>, sha: Hasher, k: nat)
    ensures Reaches(blocks, got, sha, k) ==> k < |got|
  {}

  lemma ReportedLater(blocks: Slots, r: Reply, later: seq<Reply>, sha: Hasher)
    requires Right(r, |blocks|, sha)
    ensures var now := blocks[r.thisBlock := Some(r.payload)];
      (exists k: nat :: ReportsAt(blocks, [r] + later, sha, k))
      <==> !Full(now) && exists k: nat :: ReportsAt(now, later, sha, k)
  {
    var got, now := [r] + later, blocks[r.thisBlock := Some(r.payload)];
    assert !ReportsAt(blocks, got, sha, 0);
    hide ReportsAt, DeliversAt, Full, Right;
    if k: nat :| ReportsAt(blocks, got, sha, k) { ReportStep(blocks, r, later, sha, k - 1); }
    if k: nat :| ReportsAt(now, later, sha, k) { ReportStep(blocks, r, later, sha, k); }
  }

  lemma DeliveredLater(blocks: Slots, r: Reply, later: seq<Reply>, sha: Hasher)
    requires Right(r, |blocks|, sha)
    ensures var now := blocks[r.thisBlock := Some(r.payload)];
      (exists k: nat :: DeliversAt(blocks, [r] + later, sha, k))
      <==> Full(now) || exists k: nat :: DeliversAt(now, later, sha, k)
  {
    var got, now := [r] + later, blocks[r.thisBlock := Some(r.payload)];
    FirstCompletes(blocks, r, later, sha);
    hide ReportsAt, DeliversAt, Full, Right;
    if k: nat :| DeliversAt(blocks, got, sha, k) { if k > 0 { ReportStep(blocks, r, later, sha, k - 1); } }
    if k: nat :| DeliversAt(now, later, sha, k) { ReportStep(blocks, r, later, sha, k); }
  }

  lemma FirstCompletes(blocks: Slots, r: Reply, later: seq<Reply>, sha: Hasher)
    requires Right(r, |blocks|, sha)
    ensures DeliversAt(blocks, [r] + later, sha, 0) <==> Full(blocks[r.thisBlock := Some(r.payload)])
  {
    var now := blocks[r.thisBlock := Some(r.payload)];
    MissingStep(blocks, r, later, 0);
    NoneRead(now, later);
    hide Missing, Full;
  }

  /** On a stream of which nothing can be read the call raises; else the first reply gives the number of slots. */
  lemma AssembledExactly(stream: seq<Octet>, answers: seq<nat>, sha: Hasher)
    ensures var got, outcome := Reads(stream, answers), Assembled(stream, answers, sha);
      if got == [] then outcome == Raised else
        var none := Empty(got[0].blockCount);
        && (outcome.Reported? <==> exists k: nat :: ReportsAt(none, got, sha, k))
        && (outcome.Delivered? <==> exists k: nat :: DeliversAt(none, got, sha, k))
  {
    hide Receive, Received, ReportsAt, DeliversAt;
    if Receive(stream, answers).Some? {
      var (r, rest) := Receive(stream, answers).value;
      OutcomeOf(Empty(r.blockCount), stream, answers, sha);
    }
  }

  /** The payload of the last reply for slot i among the first k + 1, or what was there before if there is none. */
  ghost predicate IsLatest(blocks: Slots, got: seq<Reply>, k: nat, i: nat, payload: seq<Octet>)
    requires k < |got| && i < |blocks|
  {
    || ((forall j :: 0 <= j <= k ==> got[j].thisBlock != i) && blocks[i] == Some(payload))
    || exists j: nat :: j <= k && got[j].thisBlock == i && got[j].payload == payload
        && forall later :: j < later <= k ==> got[later].thisBlock != i
  }

  /** The data delivered joins, slot by slot, the payloads that came last. */
  lemma {:induction false} DeliveredIsLatest(blocks: Slots, stream: seq<Octet>, answers: seq<nat>, sha: Hasher)
    returns (k: nat, parts: seq<seq<Octet>>)
    requires Received(blocks, stream, answers, sha).Delivered?
    ensures DeliversAt(blocks, Reads(stream, answers), sha, k)
    ensures Received(blocks, stream, answers, sha).data == Joined(parts) && |parts| == |blocks|
    ensures forall i :: 0 <= i < |parts| ==> IsLatest(blocks, Reads(stream, answers), k, i, parts[i])
    decreases |stream|
  {
    ReceivedFirst(blocks, stream, answers, sha);
    var (r, rest) := Receive(stream, answers).value;
    var now := blocks[r.thisBlock := Some(r.payload)];
    var later := Reads(rest, AfterReply(answers));
    if Full(now) {
      k, parts := 0, Payloads(now);
      FirstCompletes(blocks, r, later, sha);
      assert Received(blocks, stream, answers, sha).data == Joined(parts);
      LatestIsFirst(blocks, r, later, parts);
    } else {
      hide *;
      k, parts := DeliveredIsLatest(now, rest, AfterReply(answers), sha);
      ReportStep(blocks, r, later, sha, k);
      DeliversInside(now, later, sha, k);
      LatestLater(blocks, r, later, k, parts);
      k := k + 1;
    }
  }

  lemma DeliversInside(blocks: Slots, got: seq<Reply>, sha: Hasher, k: nat)
    requires DeliversAt(blocks, got, sha, k)
    ensures k < |got|
  {}

  lemma LatestIsFirst(blocks: Slots, r: Reply, later: seq<Reply>, parts: seq<seq<Octet>>)
    requires r.thisBlock < |blocks| && Full(blocks[r.thisBlock := Some(r.payload)])
    requires parts == Payloads(blocks[r.thisBlock := Some(r.payload)])
    ensures forall i :: 0 <= i < |parts| ==> IsLatest(blocks, [r] + later, 0, i, parts[i])
  {
    var got := [r] + later;
    assert got[0] == r;
    forall i | 0 <= i < |parts| ensures IsLatest(blocks, got, 0, i, parts[i]) {
      if i == r.thisBlock { assert got[0].thisBlock == i && got[0].payload == parts[i]; }
    }
  }

  lemma LatestLater(blocks: Slots, r: Reply, later: seq<Reply>, k: nat, parts: seq<seq<Octet>>)
    requires r.thisBlock < |blocks| == |parts| && k < |later|
    requires forall i :: 0 <= i < |parts| ==> IsLatest(blocks[r.thisBlock := Some(r.payload)], later, k, i, parts[i])
    ensures forall i :: 0 <= i < |parts| ==> IsLatest(blocks, [r] + later, k + 1, i, parts[i])
  {
    forall i | 0 <= i < |parts| ensures IsLatest(blocks, [r] + later, k + 1, i, parts[i]) {
      StillLatest(blocks, r, later, k, i, parts[i]);
    }
  }

  lemma StillLatest(blocks: Slots, r: Reply, later: seq<Reply>, k: nat, i: nat, payload: seq<Octet>)
    requires r.thisBlock < |blocks| && i < |blocks| && k < |later|
    requires IsLatest(blocks[r.thisBlock := Some(r.payload)], later, k, i, payload)
    ensures IsLatest(blocks, [r] + later, k + 1, i, payload)
  {
    var got := [r] + later;
    assert got[0] == r && forall j :: 1 <= j <= k + 1 ==> got[j] == later[j - 1];
    if forall j :: 0 <= j <= k ==> later[j].thisBlock != i {
      if i == r.thisBlock { assert got[0].payload == payload; }
    } else {
      var j: nat :| j <= k && later[j].thisBlock == i && later[j].payload == payload
        && forall m :: j < m <= k ==> later[m].thisBlock != i;
      assert got[j + 1] == later[j];
    }
  }

  // ---------- any order of arrival delivers the file ----------

  /** Filled slots hold the right block; what is missing, and nothing else, is still to come, once each. */
  ghost predicate Underway(file: seq<Octet>, sha: Hasher, blocks: Slots, coming: seq<Reply>)
  {
    && |blocks| == BlockCount(|file|)
    && (forall i: nat :: i < |blocks| && blocks[i].Some? ==> IsPayload(file, blocks[i].value, i))
    && (forall i: nat :: i < |blocks| && blocks[i].None? ==> IsComing(i, coming))
    && (forall k :: 0 <= k < |coming| ==> IsGenuine(file, sha, coming[k]) && blocks[coming[k].thisBlock].None?)
    && Distinct(coming)
  }

  ghost predicate Distinct(replies: seq<Reply>) {
    forall j, k :: 0 <= j < k < |replies| ==> replies[j].thisBlock != replies[k].thisBlock
  }

  ghost predicate IsPayload(file: seq<Octet>, data: seq<Octet>, i: nat) {
    i * MAX_PAYLOAD <= |file| && data == Payload(file, i)
  }

  ghost predicate IsComing(i: nat, coming: seq<Reply>) {
    exists k :: 0 <= k < |coming| && coming[k].thisBlock == i
  }

  ghost predicate IsGenuine(file: seq<Octet>, sha: Hasher, r: Reply) {
    r.thisBlock < BlockCount(|file|) && r == BlockReply(file, sha, r.thisBlock)
  }

  lemma {:induction false} JoinedPrefix(file: seq<Octet>, blocks: Slots)
    requires 0 < |blocks| <= BlockCount(|file|)
    requires forall i :: 0 <= i < |blocks| ==> blocks[i].Some? && IsPayload(file, blocks[i].value, i)
    ensures Joined(Payloads(blocks)) == file[..Min(|blocks| * MAX_PAYLOAD, |file|)]
  {
    var n := |blocks| - 1;
    BlockStarts(|file|, n);
    assert IsPayload(file, blocks[n].value, n);
    if n > 0 {
      JoinedPrefix(file, blocks[..n]);
      assert Payloads(blocks)[..n] == Payloads(blocks[..n]);
    }
  }

  lemma OneMoreArrives(file: seq<Octet>, sha: Hasher, blocks: Slots, r: Reply, coming: seq<Reply>)
    requires Underway(file, sha, blocks, [r] + coming)
    ensures r.thisBlock < |blocks| && r.status == STATUS_OK && sha(r.payload) == r.blockHash
    ensures Underway(file, sha, blocks[r.thisBlock := Some(r.payload)], coming)
  {
    hide Payload, BlockCount;
    assert IsGenuine(file, sha, ([r] + coming)[0]);
    BlockStarts(|file|, r.thisBlock);
    assert IsPayload(file, r.payload, r.thisBlock);
    hide IsPayload;
    StillComing(file, sha, blocks, r, coming);
    OnceEach(file, sha, blocks, r, coming);
  }

  lemma StillComing(file: seq<Octet>, sha: Hasher, blocks: Slots, r: Reply, coming: seq<Reply>)
    requires Underway(file, sha, blocks, [r] + coming) && r.thisBlock < |blocks|
    ensures forall i: nat :: i < |blocks| && i != r.thisBlock && blocks[i].None? ==> IsComing(i, coming)
  {
    hide IsGenuine, IsPayload;
    forall i: nat | i < |blocks| && i != r.thisBlock && blocks[i].None? ensures IsComing(i, coming) {
      var k :| 0 <= k < |[r] + coming| && ([r] + coming)[k].thisBlock == i;
      assert coming[k - 1].thisBlock == i;
    }
  }

  lemma OnceEach(file: seq<Octet>, sha: Hasher, blocks: Slots, r: Reply, coming: seq<Reply>)
    requires Underway(file, sha, blocks, [r] + coming) && r.thisBlock < |blocks|
    ensures Distinct(coming)
    ensures forall k :: 0 <= k < |coming| ==>
      && IsGenuine(file, sha, coming[k]) && coming[k].thisBlock != r.thisBlock
      && blocks[coming[k].thisBlock].None?
  {
    hide IsPayload, IsComing, BlockReply, BlockCount;
    DistinctTail(r, coming);
    hide Distinct;
    forall k | 0 <= k < |coming| ensures IsGenuine(file, sha, coming[k]) && blocks[coming[k].thisBlock].None? {
      assert coming[k] == ([r] + coming)[k + 1];
    }
  }

  lemma DistinctTail(r: Reply, coming: seq<Reply>)
    requires Distinct([r] + coming)
    ensures Distinct(coming) && forall k :: 0 <= k < |coming| ==> coming[k].thisBlock != r.thisBlock
  {
    var all := [r] + coming;
    forall j, k | 0 <= j < k < |coming| ensures coming[j].thisBlock != coming[k].thisBlock {
      assert all[j + 1].thisBlock != all[k + 1].thisBlock;
    }
    forall k | 0 <= k < |coming| ensures coming[k].thisBlock != r.thisBlock {
      assert all[0].thisBlock != all[k + 1].thisBlock;
    }
  }

  /** All slots are filled exactly when nothing more is to come, and then they hold the file. */
  lemma FullIsDone(file: seq<Octet>, sha: Hasher, blocks: Slots, coming: seq<Reply>)
    requires Underway(file, sha, blocks, coming)
    ensures Full(blocks) <==> coming == []
    ensures Full(blocks) ==> Joined(Payloads(blocks)) == file
  {
    hide Payload, Joined, Payloads;
    if coming != [] { assert blocks[coming[0].thisBlock].None?; }
    if Full(blocks) {
      JoinedPrefix(file, blocks);
      BlockStarts(|file|, |blocks| - 1);
      assert file[..|file|] == file;
    } else {
      var i: nat :| i < |blocks| && blocks[i].None?;
      assert IsComing(i, coming);
    }
  }

  /**
   What the receiver needs of a reply in one piece: length, numbers, block hash and payload. If
   there is a payload that is all of it; otherwise the hash of the whole may be cut.
   */
  ghost predicate Enough(r: Reply, answers: seq<nat>) {
    && Granted(answers, 4) == 4
    && Granted(Tail(answers), |r.payload| + 76) >= if r.payload == [] then 44 else |r.payload| + 76
  }

  ghost predicate AllEnough(replies: seq<Reply>, answers: seq<nat>) {
    replies == [] || (Enough(replies[0], answers) && AllEnough(replies[1..], AfterReply(answers)))
  }

  /** No payload has the hash of a proper prefix of itself. */
  ghost predicate TellsPrefixes(sha: Hasher, replies: seq<Reply>) {
    forall k: nat, n: nat :: k < |replies| && n < |replies[k].payload| ==>
      sha(replies[k].payload[..n]) != sha(replies[k].payload)
  }

  /** A genuine reply of which too little comes is not taken for a block. */
  lemma TooLittle(r: Reply, rest: seq<Octet>, answers: seq<nat>, sha: Hasher, blocks: Slots)
    requires Sendable(r) && r.blockHash == sha(r.payload) && TellsPrefixes(sha, [r]) && !Enough(r, answers)
    ensures !Received(blocks, Encode(r) + rest, answers, sha).Delivered?
  {
    hide Encode, Receive, Granted;
    if Granted(answers, 4) != 4 {
      NoLength(Encode(r) + rest, answers);
    } else {
      ReceiveCut(r, rest, answers);
      var k := Granted(Tail(answers), |r.payload| + 76);
      if k >= 44 { assert [r][0] == r && sha(r.payload[..if k < 76 then 0 else k - 76]) != sha(r.payload); }
    }
  }

  lemma NoLength(stream: seq<Octet>, answers: seq<nat>)
    requires Granted(answers, 4) != 4
    ensures Receive(stream, answers) == None
  {}

  /** Enough though cut short: that is the reply for the empty file, and nothing else comes. */
  lemma EmptyIsOnly(file: seq<Octet>, sha: Hasher, blocks: Slots, r: Reply, later: seq<Reply>, answers: seq<nat>)
    requires Underway(file, sha, blocks, [r] + later) && Enough(r, answers) && !Uncut(r, answers)
    ensures r.payload == [] && later == []
  {
    OneMoreArrives(file, sha, blocks, r, later);
    FullIsDone(file, sha, blocks[r.thisBlock := Some(r.payload)], later);
    hide Granted, Joined, Payloads;
    assert r.payload == [];
    assert IsGenuine(file, sha, ([r] + later)[0]);
    EmptyPayload(file, r.thisBlock);
  }

  lemma EmptyPayload(file: seq<Octet>, i: nat)
    requires i < BlockCount(|file|)
    ensures i * MAX_PAYLOAD <= |file| && (Payload(file, i) == [] ==> BlockCount(|file|) == 1)
  {
    BlockStarts(|file|, i);
  }

  lemma {:induction false} UnderwayDelivers(
    file: seq<Octet>, sha: Hasher, blocks: Slots, coming: seq<Reply>, rest: seq<Octet>, answers: seq<nat>)
    requires Underway(file, sha, blocks, coming) && coming != [] && AllSendable(coming)
    ensures AllEnough(coming, answers) ==>
      Received(blocks, EncodeAll(coming) + rest, answers, sha) == Delivered(file)
    ensures TellsPrefixes(sha, coming) && !AllEnough(coming, answers) ==>
      !Received(blocks, EncodeAll(coming) + rest, answers, sha).Delivered?
    decreases |coming|
  {
    var r, later := coming[0], coming[1..];
    assert coming == [r] + later;
    assert AllEnough(coming, answers) <==> Enough(r, answers) && AllEnough(later, AfterReply(answers));
    assert later == [] ==> AllEnough(later, AfterReply(answers));
    OneMoreArrives(file, sha, blocks, r, later);
    var tail := EncodeAll(later) + rest;
    StreamParts(coming, rest);
    FewerPrefixes(sha, coming);
    hide *;
    if Enough(r, answers) {
      EnoughIsTaken(file, sha, blocks, r, later, tail, answers);
      if later != [] {
        UnderwayDelivers(file, sha, blocks[r.thisBlock := Some(r.payload)], later, rest, AfterReply(answers));
      }
    } else if TellsPrefixes(sha, coming) {
      TooLittle(r, tail, answers, sha, blocks);
    }
  }

  lemma StreamParts(replies: seq<Reply>, rest: seq<Octet>)
    requires replies != [] && AllSendable(replies)
    ensures Sendable(replies[0]) && AllSendable(replies[1..])
    ensures EncodeAll(replies) + rest == Encode(replies[0]) + (EncodeAll(replies[1..]) + rest)
  {
    hide Encode, Sendable;
  }

  /** The block is taken; and if more is to come, the rest of the stream is left for it. */
  lemma EnoughIsTaken(file: seq<Octet>, sha: Hasher, blocks: Slots, r: Reply, later: seq<Reply>,
                      tail: seq<Octet>, answers: seq<nat>)
    requires Underway(file, sha, blocks, [r] + later) && Sendable(r) && Enough(r, answers)
    ensures r.thisBlock < |blocks|
    ensures Received(blocks, Encode(r) + tail, answers, sha)
      == if later == [] then Delivered(file)
         else Received(blocks[r.thisBlock := Some(r.payload)], tail, AfterReply(answers), sha)
  {
    OneMoreArrives(file, sha, blocks, r, later);
    FullIsDone(file, sha, blocks[r.thisBlock := Some(r.payload)], later);
    hide Encode, Receive, ReceiveReply, Underway, Granted, Full, Joined, Payloads, AfterReply;
    if Uncut(r, answers) {
      ReceiveWhatWasSent(r, tail);
      ReceiveWhole(Encode(r) + tail, answers);
    } else {
      EmptyIsOnly(file, sha, blocks, r, later, answers);
      ReceiveCut(r, tail, answers);
    }
  }

  lemma FewerPrefixes(sha: Hasher, replies: seq<Reply>)
    requires replies != []
    ensures TellsPrefixes(sha, replies) ==> TellsPrefixes(sha, replies[..1]) && TellsPrefixes(sha, replies[1..])
    ensures replies[..1] == [replies[0]]
  {
    if TellsPrefixes(sha, replies) {
      forall k: nat, n: nat | k < |replies[1..]| && n < |replies[1..][k].payload|
        ensures sha(replies[1..][k].payload[..n]) != sha(replies[1..][k].payload)
      {
        assert replies[1..][k] == replies[k + 1];
      }
    }
  }

  /** All blocks of a file in some order: before the first of them arrives. */
  lemma AllComing(file: seq<Octet>, sha: Hasher, order: seq<Reply>)
    requires multiset(order) == multiset(Replies(file, sha))
    ensures |order| == BlockCount(|file|) > 0 && order[0].blockCount == |order|
    ensures Underway(file, sha, Empty(|order|), order)
  {
    hide Payload;
    var sent := Replies(file, sha);
    assert |order| == |multiset(order)| == |multiset(sent)| == |sent|;
    forall k | 0 <= k < |order| ensures IsGenuine(file, sha, order[k]) {
      var i := Somewhere(order, sent, k);
    }
    forall i: nat | i < |sent| ensures IsComing(i, order) {
      var k := Somewhere(sent, order, i);
    }
    forall j, k | 0 <= j < k < |order| ensures order[j].thisBlock != order[k].thisBlock {
      if order[j].thisBlock == order[k].thisBlock {
        assert IsGenuine(file, sha, order[j]) && IsGenuine(file, sha, order[k]);
        AtLeastTwice(order, j, k);
        AtMostOnce(sent, order[j]);
      }
    }
  }

  lemma AtLeastTwice<T>(s: seq<T>, j: nat, k: nat)
    requires j < k < |s| && s[j] == s[k]
    ensures multiset(s)[s[j]] >= 2
  {
    assert s == s[..k] + ([s[k]] + s[k + 1..]);
    assert s[..k][j] == s[j] && s[j] in multiset(s[..k]);
  }

  lemma {:induction false} AtMostOnce<T>(s: seq<T>, x: T)
    requires forall i, j :: 0 <= i < j < |s| ==> s[i] != s[j]
    ensures multiset(s)[x] <= 1
  {
    if s != [] {
      var n := |s| - 1;
      AtMostOnce(s[..n], x);
      assert s == s[..n] + [s[n]];
      if x == s[n] { assert x !in s[..n]; }
    }
  }

  /** Whatever the order of the blocks, the Python receiver delivers the file if enough of each reply comes at once. */
  lemma AssemblyDelivers(file: seq<Octet>, sha: Hasher, order: seq<Reply>, rest: seq<Octet>, answers: seq<nat>)
    requires Countable(file) && multiset(order) == multiset(Replies(file, sha)) && AllEnough(order, answers)
    ensures AllSendable(order)
    ensures Assembled(EncodeAll(order) + rest, answers, sha) == Delivered(file)
  {
    hide *;
    TransferDelivers(file, sha, order, rest);
    AllComing(file, sha, order);
    FirstSlots(order, rest, answers, sha);
    UnderwayDelivers(file, sha, Empty(|order|), order, rest, answers);
  }

  /**
   As long as no payload has the hash of a proper prefix of itself, that is also necessary: a
   single call of recv that returns too little, and nothing is delivered.
   */
  lemma DeliversExactly(file: seq<Octet>, sha: Hasher, order: seq<Reply>, rest: seq<Octet>, answers: seq<nat>)
    requires Countable(file) && multiset(order) == multiset(Replies(file, sha)) && TellsPrefixes(sha, order)
    ensures AllSendable(order)
    ensures Assembled(EncodeAll(order) + rest, answers, sha) == Delivered(file) <==> AllEnough(order, answers)
    ensures Assembled(EncodeAll(order) + rest, answers, sha).Delivered? <==> AllEnough(order, answers)
  {
    hide *;
    TransferDelivers(file, sha, order, rest);
    AllComing(file, sha, order);
    FirstSlots(order, rest, answers, sha);
    UnderwayDelivers(file, sha, Empty(|order|), order, rest, answers);
  }

  /** The first reply, if it is read at all, says how many blocks there are. */
  lemma FirstSlots(order: seq<Reply>, rest: seq<Octet>, answers: seq<nat>, sha: Hasher)
    requires order != [] && AllSendable(order) && order[0].blockCount == |order|
    ensures Assembled(EncodeAll(order) + rest, answers, sha)
      == Received(Empty(|order|), EncodeAll(order) + rest, answers, sha)
  {
    StreamParts(order, rest);
    var r, tail := order[0], EncodeAll(order[1..]) + rest;
    hide Encode, EncodeAll, Receive, Received, Assembled, Sendable, Granted, Empty;
    if Granted(answers, 4) != 4 { NoLength(Encode(r) + tail, answers); } else { ReceiveCut(r, tail, answers); }
    SlotsOfFirst(Encode(r) + tail, answers, sha, |order|);
  }

  lemma SlotsOfFirst(stream: seq<Octet>, answers: seq<nat>, sha: Hasher, n: nat)
    requires Receive(stream, answers).Some? ==> Receive(stream, answers).value.0.blockCount == n
    ensures Assembled(stream, answers, sha) == Received(Empty(n), stream, answers, sha)
  {
    hide Receive;
  }

  /** It is enough if every call of recv may return as much as the longest reply holds. */
  lemma {:induction false} LargeAnswers(replies: seq<Reply>, answers: seq<nat>)
    requires forall k :: 0 <= k < |replies| ==> |replies[k].payload| <= MAX_PAYLOAD
    requires forall k :: 0 <= k < |answers| ==> answers[k] >= MAX_PAYLOAD + 76
    ensures AllEnough(replies, answers)
  {
    if replies != [] { LargeAnswers(replies[1..], AfterReply(answers)); }
  }

  /** Delivered data is made of blocks whose hashes were right, one for every slot, in slot order. */
  lemma {:induction false} DeliveredIsChecked(blocks: Slots, stream: seq<Octet>, answers: seq<nat>, sha: Hasher)
    returns (all: Slots)
    requires Received(blocks, stream, answers, sha).Delivered?
    ensures |all| == |blocks| && Full(all) && Received(blocks, stream, answers, sha).data == Joined(Payloads(all))
    ensures forall i :: 0 <= i < |blocks| ==> all[i] == blocks[i] || Checked(stream, answers, sha, i, all[i].value)
    decreases |stream|
  {
    var (r, rest) := Receive(stream, answers).value;
    var now := blocks[r.thisBlock := Some(r.payload)];
    if Full(now) {
      all := now;
    } else {
      all := DeliveredIsChecked(now, rest, AfterReply(answers), sha);
    }
  }

  /** A reply read from the stream carries this payload for block i, with its hash. */
  ghost predicate Checked(stream: seq<Octet>, answers: seq<nat>, sha: Hasher, i: nat, payload: seq<Octet>)
    decreases |stream|
  {
    match Receive(stream, answers)
    case None => false
    case Some((r, rest)) =>
      || (r.thisBlock == i && r.payload == payload && r.status == STATUS_OK && r.blockHash == sha(payload))
      || Checked(rest, AfterReply(answers), sha, i, payload)
  }
}
