/**
 File transfer between the peers of Assignment3: a file is cut into blocks, each sent with a
 header (handle_retrieve in src/peer.c, _build_and_send_responses in python/first_peer/peer.py,
 which shuffles them), parsed from the byte stream, and written at its place in the order of
 arrival (send_message in src/peer.c, send_to_server in the Python peer).
 */
module FileBlocks {
  import opened Basics
  import opened Bytes

  const REPLY_HEADER_LEN: nat := 80
  const MAX_PAYLOAD: nat := 8116
  const STATUS_OK: nat := 1

  // ---------- the wire format ----------

  datatype Reply = Reply(
    status: nat, thisBlock: nat, blockCount: nat,
    blockHash: seq<Octet>, totalHash: seq<Octet>, payload: seq<Octet>)

  /** What the fields of a header can hold. */
  predicate Sendable(r: Reply) {
    && r.status < M32 && r.thisBlock < M32 && r.blockCount < M32 && |r.payload| < M32
    && |r.blockHash| == 32 && |r.totalHash| == 32
  }

  predicate AllSendable(replies: seq<Reply>) {
    forall i :: 0 <= i < |replies| ==> Sendable(replies[i])
  }

  /** Header and body as the sender puts them on the wire (also assemble_reply). */
  function Encode(r: Reply): seq<Octet>
    requires Sendable(r)
  {
    ToBigEndian(|r.payload|) + ToBigEndian(r.status) + ToBigEndian(r.thisBlock) + ToBigEndian(r.blockCount)
    + r.blockHash + r.totalHash + r.payload
  }

  /** receive_reply: a header of fixed size, then as many bytes of body as it announces; -1 if the stream ends first. */
  function ReceiveReply(stream: seq<Octet>): Option<(Reply, seq<Octet>)> {
    if |stream| < REPLY_HEADER_LEN then None else
      var length := BigEndian(stream[0..4]);
      if |stream| < REPLY_HEADER_LEN + length then None else
        var r := Reply(
          BigEndian(stream[4..8]), BigEndian(stream[8..12]), BigEndian(stream[12..16]),
          stream[16..48], stream[48..80], stream[80..80 + length]);
        Some((r, stream[80 + length..]))
  }

  /** Where the parts of a reply lie. */
  lemma EncodedParts(r: Reply, rest: seq<Octet>)
    requires Sendable(r)
    ensures var s := Encode(r) + rest;
      && |s| >= 80 + |r.payload|
      && s[0..4] == ToBigEndian(|r.payload|) && s[4..8] == ToBigEndian(r.status)
      && s[8..12] == ToBigEndian(r.thisBlock) && s[12..16] == ToBigEndian(r.blockCount)
      && s[16..48] == r.blockHash && s[48..80] == r.totalHash
      && s[80..80 + |r.payload|] == r.payload && s[80 + |r.payload|..] == rest
  {
    hide ToBigEndian;
  }

  /** A reply is parsed back from whatever stream it is at the front of. */
  lemma ReceiveWhatWasSent(r: Reply, rest: seq<Octet>)
    requires Sendable(r)
    ensures ReceiveReply(Encode(r) + rest) == Some((r, rest))
  {
    hide ToBigEndian, BigEndian;
    EncodedParts(r, rest);
    hide Encode;
    WordRoundTrip(|r.payload|);
    WordRoundTrip(r.status);
    WordRoundTrip(r.thisBlock);
    WordRoundTrip(r.blockCount);
  }

  /** Nothing else is parsed: what was received, sent again, gives the same bytes. */
  lemma SentIsWhatWasReceived(stream: seq<Octet>)
    requires ReceiveReply(stream).Some?
    ensures var (r, rest) := ReceiveReply(stream).value;
      Sendable(r) && stream == Encode(r) + rest
  {
    hide ToBigEndian, BigEndian;
    BytesRoundTrip(stream[0..4]);
    BytesRoundTrip(stream[4..8]);
    BytesRoundTrip(stream[8..12]);
    BytesRoundTrip(stream[12..16]);
    var length := BigEndian(stream[0..4]);
    var (r, rest) := ReceiveReply(stream).value;
    assert |r.payload| == length;
    assert stream == stream[0..4] + stream[4..8] + stream[8..12] + stream[12..16] + stream[16..48] + stream[48..80]
      + stream[80..80 + length] + stream[80 + length..];
  }

  ghost function EncodeAll(replies: seq<Reply>): seq<Octet>
    requires AllSendable(replies)
  {
    if replies == [] then [] else Encode(replies[0]) + EncodeAll(replies[1..])
  }

  // ---------- cutting a file into blocks ----------

  /** The hash of the blocks, which the receiver in peer.c does not check. */
  type Hasher = f: seq<Octet> -> seq<Octet> | forall s :: |f(s)| == 32 witness (s: seq<Octet>) => seq(32, _ => 0)

  function BlockCount(size: nat): nat { if size == 0 then 1 else (size + MAX_PAYLOAD - 1) / MAX_PAYLOAD }

  ghost function Payload(file: seq<Octet>, i: nat): seq<Octet>
    requires i * MAX_PAYLOAD <= |file|
  {
    file[i * MAX_PAYLOAD..Min((i + 1) * MAX_PAYLOAD, |file|)]
  }

  lemma BlockStarts(size: nat, i: nat)
    requires i < BlockCount(size)
    ensures i * MAX_PAYLOAD <= size && (i > 0 ==> i * MAX_PAYLOAD < size)
    ensures i == BlockCount(size) - 1 ==> size <= (i + 1) * MAX_PAYLOAD
    ensures i < BlockCount(size) - 1 ==> (i + 1) * MAX_PAYLOAD < size
  {}

  ghost function BlockReply(file: seq<Octet>, sha: Hasher, i: nat): Reply
    requires i < BlockCount(|file|)
  {
    BlockStarts(|file|, i);
    Reply(STATUS_OK, i, BlockCount(|file|), sha(Payload(file, i)), sha(file), Payload(file, i))
  }

  /** All replies for a file, in order. */
  ghost function Replies(file: seq<Octet>, sha: Hasher): (rs: seq<Reply>)
    ensures |rs| == BlockCount(|file|) && forall i :: 0 <= i < |rs| ==> rs[i] == BlockReply(file, sha, i)
  {
    seq(BlockCount(|file|), i requires 0 <= i < BlockCount(|file|) => BlockReply(file, sha, i))
  }

  /** The number of blocks fits into its field of the header. */
  ghost predicate Countable(file: seq<Octet>) { BlockCount(|file|) < M32 }

  /**
   What the header of block i looks like: the length of the payload, status 1, the numbers of the
   block and of all blocks, each most significant byte first, and the two hashes; 80 bytes in all.
   A message has at most 8196 bytes.
   */
  lemma BlockHeader(file: seq<Octet>, sha: Hasher, i: nat)
    requires Countable(file) && i < BlockCount(|file|)
    ensures var r := BlockReply(file, sha, i);
      && Sendable(r) && |Encode(r)| == 80 + |r.payload| <= 8196
      && var s := Encode(r);
        && BigEndian(s[0..4]) == |s| - 80 && s[4..8] == [0, 0, 0, 1]
        && BigEndian(s[8..12]) == i && BigEndian(s[12..16]) == BlockCount(|file|)
        && s[16..48] == sha(s[80..]) && s[48..80] == sha(file)
    ensures BlockCount(|file|) == if file == [] then 1 else (|file| + 8115) / 8116
  {
    BlockStarts(|file|, i);
    hide ToBigEndian, BigEndian, Encode, BlockCount, Payload;
    SizeOfBlock(file, i);
    HeaderFields(BlockReply(file, sha, i));
  }

  lemma SizeOfBlock(file: seq<Octet>, i: nat)
    requires i < BlockCount(|file|)
    ensures i * MAX_PAYLOAD <= |file| && |Payload(file, i)| <= 8116
    ensures BlockCount(|file|) == if file == [] then 1 else (|file| + 8115) / 8116
  {
    BlockStarts(|file|, i);
  }

  lemma HeaderFields(r: Reply)
    requires Sendable(r) && r.status == 1
    ensures var s := Encode(r);
      && |s| == 80 + |r.payload| && BigEndian(s[0..4]) == |r.payload| && s[4..8] == [0, 0, 0, 1]
      && BigEndian(s[8..12]) == r.thisBlock && BigEndian(s[12..16]) == r.blockCount
      && s[16..48] == r.blockHash && s[48..80] == r.totalHash && s[80..] == r.payload
  {
    EncodedParts(r, []);
    OneIsOne();
    EncodedLength(r);
    hide Encode, ToBigEndian, BigEndian;
    var s := Encode(r);
    assert s + [] == s;
    assert s[80..80 + |r.payload|] == s[80..];
    WordRoundTrip(|r.payload|);
    WordRoundTrip(r.thisBlock);
    WordRoundTrip(r.blockCount);
  }

  lemma EncodedLength(r: Reply)
    requires Sendable(r)
    ensures |Encode(r)| == 80 + |r.payload|
  {
    hide ToBigEndian;
  }

  lemma OneIsOne()
    ensures ToBigEndian(1) == [0, 0, 0, 1]
  {}

  lemma RepliesSendable(file: seq<Octet>, sha: Hasher)
    requires Countable(file)
    ensures AllSendable(Replies(file, sha))
  {
    forall i | 0 <= i < BlockCount(|file|) ensures Sendable(BlockReply(file, sha, i)) {
      BlockStarts(|file|, i);
    }
  }

  lemma {:induction false} EncodeAllAppends(replies: seq<Reply>, i: nat)
    requires i < |replies| && AllSendable(replies)
    ensures EncodeAll(replies[..0]) == []
    ensures EncodeAll(replies[..i + 1]) == EncodeAll(replies[..i]) + Encode(replies[i])
    decreases i
  {
    hide Encode, Sendable;
    if i == 0 {
      assert replies[..1][1..] == [];
    } else {
      EncodeAllAppends(replies[1..], i - 1);
      assert replies[..i + 1][1..] == replies[1..][..i] && replies[..i][1..] == replies[1..][..i - 1];
    }
  }

  // ---------- putting the file together ----------

  /** fseek and fwrite on a binary file: a gap is filled with zeros, an empty write does nothing. */
  function WriteAt(f: seq<Octet>, offset: nat, data: seq<Octet>): seq<Octet> {
    if data == [] then f else
      var padded := if |f| < offset then f + seq(offset - |f|, _ => 0) else f;
      padded[..offset] + data + if offset + |data| < |f| then f[offset + |data|..] else []
  }

  /** Where the payload of a reply goes. */
  function Offset(r: Reply): nat { r.thisBlock * MAX_PAYLOAD }

  /** The file after these replies have been written, in this order. */
  ghost function Written(arrivals: seq<Reply>): seq<Octet> {
    if arrivals == [] then [] else
      var last := arrivals[|arrivals| - 1];
      WriteAt(Written(arrivals[..|arrivals| - 1]), Offset(last), last.payload)
  }

  /** The first n replies of a stream, or as many as there are. */
  ghost function Arrivals(stream: seq<Octet>, n: nat): seq<Reply> {
    if n == 0 then [] else
      match ReceiveReply(stream)
      case None => []
      case Some((r, rest)) => [r] + Arrivals(rest, n - 1)
  }

  /** What the file is after the exchange; None stands for the cases in which no file is written. */
  ghost function Retrieved(stream: seq<Octet>): Option<seq<Octet>> {
    match ReceiveReply(stream)
    case None => None
    case Some((first, _)) =>
      if first.status != STATUS_OK then None else Some(Written(Arrivals(stream, first.blockCount)))
  }

  lemma WrittenStep(arrivals: seq<Reply>, r: Reply)
    ensures Written([]) == []
    ensures Written(arrivals + [r]) == WriteAt(Written(arrivals), Offset(r), r.payload)
  {
    assert (arrivals + [r])[..|arrivals|] == arrivals;
  }

  // ---------- the file after any arrivals ----------

  lemma WriteAtBytes(f: seq<Octet>, offset: nat, data: seq<Octet>)
    ensures var g := WriteAt(f, offset, data);
      && |g| == (if data != [] && offset + |data| > |f| then offset + |data| else |f|)
      && forall x :: 0 <= x < |g| ==>
        g[x] == if offset <= x < offset + |data| then data[x - offset] else if x < |f| then f[x] else 0
  {}

  /** Byte x of a file lies in the payload of this reply. */
  ghost predicate Covers(r: Reply, x: nat) { 8116 * r.thisBlock <= x < 8116 * r.thisBlock + |r.payload| }

  /** The file reaches beyond byte x once this reply has been written. */
  ghost predicate Extends(r: Reply, x: nat) { r.payload != [] && x < 8116 * r.thisBlock + |r.payload| }

  /** Reply k is the last one that covers byte x, and has this value there. */
  ghost predicate LastCover(arrivals: seq<Reply>, k: nat, x: nat, value: Octet) {
    && k < |arrivals| && Covers(arrivals[k], x) && value == arrivals[k].payload[x - 8116 * arrivals[k].thisBlock]
    && forall j :: k < j < |arrivals| ==> !Covers(arrivals[j], x)
  }

  ghost predicate NoneCovers(arrivals: seq<Reply>, x: nat) {
    forall k :: 0 <= k < |arrivals| ==> !Covers(arrivals[k], x)
  }

  /** This is what the replies make of byte x. */
  ghost predicate MakeByte(arrivals: seq<Reply>, x: nat, value: Octet) {
    (value == 0 && NoneCovers(arrivals, x)) || exists k: nat :: LastCover(arrivals, k, x, value)
  }

  function ByteOr0(f: seq<Octet>, x: nat): Octet { if x < |f| then f[x] else 0 }

  /**
   The file ends with the last byte of any payload. Each byte is the one of the last reply that
   covers it, and zero if there is none.
   */
  lemma {:induction false} WrittenBytes(arrivals: seq<Reply>, x: nat)
    ensures x < |Written(arrivals)| <==> exists k :: 0 <= k < |arrivals| && Extends(arrivals[k], x)
    ensures MakeByte(arrivals, x, ByteOr0(Written(arrivals), x))
  {
    if arrivals != [] {
      var n := |arrivals| - 1;
      WrittenBytes(arrivals[..n], x);
      OneMoreByte(Written(arrivals[..n]), arrivals[n], x);
      ExtendsMore(arrivals, x);
      CoverMore(arrivals, x, ByteOr0(Written(arrivals), x));
      hide WriteAt, MakeByte, Extends, Covers, ByteOr0;
    }
  }

  /** What one reply does to byte x. */
  lemma OneMoreByte(f: seq<Octet>, r: Reply, x: nat)
    ensures var g := WriteAt(f, Offset(r), r.payload);
      && (x < |g| <==> x < |f| || Extends(r, x))
      && ByteOr0(g, x) == if Covers(r, x) then r.payload[x - 8116 * r.thisBlock] else ByteOr0(f, x)
  {
    WriteAtBytes(f, Offset(r), r.payload);
    hide WriteAt;
  }

  lemma ExtendsMore(arrivals: seq<Reply>, x: nat)
    requires arrivals != []
    ensures var n := |arrivals| - 1;
      (exists k :: 0 <= k < |arrivals| && Extends(arrivals[k], x))
      <==> Extends(arrivals[n], x) || exists k :: 0 <= k < n && Extends(arrivals[..n][k], x)
  {
    hide Extends;
    var before := arrivals[..|arrivals| - 1];
    if k :| 0 <= k < |before| && Extends(before[k], x) { assert Extends(arrivals[k], x); }
    if k :| 0 <= k < |before| && Extends(arrivals[k], x) { assert Extends(before[k], x); }
  }

  lemma CoverMore(arrivals: seq<Reply>, x: nat, value: Octet)
    requires arrivals != []
    ensures var n := |arrivals| - 1;
      if Covers(arrivals[n], x) then
        value == arrivals[n].payload[x - 8116 * arrivals[n].thisBlock] ==> MakeByte(arrivals, x, value)
      else
        MakeByte(arrivals[..n], x, value) ==> MakeByte(arrivals, x, value)
  {
    var n := |arrivals| - 1;
    if Covers(arrivals[n], x) {
      if value == arrivals[n].payload[x - 8116 * arrivals[n].thisBlock] { assert LastCover(arrivals, n, x, value); }
    } else if k: nat :| LastCover(arrivals[..n], k, x, value) {
      assert LastCover(arrivals, k, x, value);
    }
  }

  /** No file is written exactly if no whole reply is there or the status of the first one is not 1. */
  lemma RetrievedExactly(stream: seq<Octet>)
    ensures Retrieved(stream) == None <==>
      |stream| < 80 || |stream| < 80 + BigEndian(stream[0..4]) || BigEndian(stream[4..8]) != 1
    ensures Retrieved(stream).Some? ==>
      Retrieved(stream).value == Written(Arrivals(stream, BigEndian(stream[12..16])))
  {
    hide BigEndian, Written, Arrivals;
  }

  /** The replies read are those at the front of the stream: as many as announced, or all there are. */
  lemma {:induction false} ArrivalsAreFront(stream: seq<Octet>, n: nat) returns (rest: seq<Octet>)
    ensures var got := Arrivals(stream, n);
      && AllSendable(got) && stream == EncodeAll(got) + rest
      && (|got| == n || (|got| < n && ReceiveReply(rest) == None))
    decreases n
  {
    hide Encode, ReceiveReply, Sendable;
    rest := stream;
    if n > 0 && ReceiveReply(stream).Some? {
      var (r, tail) := ReceiveReply(stream).value;
      SentIsWhatWasReceived(stream);
      rest := ArrivalsAreFront(tail, n - 1);
    }
  }

  // ---------- any order of arrival rebuilds the file ----------

  predicate InBlock(x: nat, i: nat) { i * MAX_PAYLOAD <= x < (i + 1) * MAX_PAYLOAD }

  /** Byte x of the file has arrived and is in place. */
  ghost predicate InPlace(file: seq<Octet>, f: seq<Octet>, x: nat) { x < |f| && x < |file| && f[x] == file[x] }

  /** Bytes of blocks that have arrived are in place; nothing lies beyond the end of the file. */
  ghost predicate Partial(file: seq<Octet>, f: seq<Octet>, arrivals: seq<Reply>) {
    && |f| <= |file|
    && forall k: nat, x: nat ::
        k < |arrivals| && x < |file| && InBlock(x, arrivals[k].thisBlock) ==> InPlace(file, f, x)
  }

  ghost predicate IsBlockOf(file: seq<Octet>, r: Reply) {
    Offset(r) <= |file| && r.payload == Payload(file, r.thisBlock)
  }

  lemma WriteKeepsPartial(file: seq<Octet>, f: seq<Octet>, arrivals: seq<Reply>, r: Reply)
    requires Partial(file, f, arrivals) && IsBlockOf(file, r)
    ensures Partial(file, WriteAt(f, Offset(r), r.payload), arrivals + [r])
  {
    var offset, data := Offset(r), r.payload;
    var g := WriteAt(f, offset, data);
    forall k: nat, x: nat | k < |arrivals + [r]| && x < |file| && InBlock(x, (arrivals + [r])[k].thisBlock)
      ensures InPlace(file, g, x)
    {
      if offset <= x < offset + |data| {
        assert g[x] == data[x - offset];
      } else {
        assert k < |arrivals| && InPlace(file, f, x);
      }
    }
  }

  lemma {:induction false} WrittenPartial(file: seq<Octet>, arrivals: seq<Reply>)
    requires forall k :: 0 <= k < |arrivals| ==> IsBlockOf(file, arrivals[k])
    ensures Partial(file, Written(arrivals), arrivals)
  {
    if arrivals != [] {
      var n := |arrivals| - 1;
      WrittenPartial(file, arrivals[..n]);
      WriteKeepsPartial(file, Written(arrivals[..n]), arrivals[..n], arrivals[n]);
      assert arrivals == arrivals[..n] + [arrivals[n]];
    }
  }

  /** Sequences with the same elements: each element of the one is somewhere in the other. */
  lemma Somewhere<T>(a: seq<T>, b: seq<T>, i: nat) returns (k: nat)
    requires multiset(a) == multiset(b) && i < |a|
    ensures k < |b| && b[k] == a[i]
  {
    assert a[i] in multiset(b);
    k :| k < |b| && b[k] == a[i];
  }

  /** Writing the blocks of a file in any order gives the file, byte for byte. */
  lemma AnyOrderRebuilds(file: seq<Octet>, sha: Hasher, arrivals: seq<Reply>)
    requires multiset(arrivals) == multiset(Replies(file, sha))
    ensures Written(arrivals) == file
  {
    hide Written, Payload, BlockCount;
    var sent, f := Replies(file, sha), Written(arrivals);
    forall k | 0 <= k < |arrivals| ensures IsBlockOf(file, arrivals[k]) {
      var i := Somewhere(arrivals, sent, k);
      BlockStarts(|file|, i);
    }
    WrittenPartial(file, arrivals);
    forall x: nat | x < |file| ensures InPlace(file, f, x) {
      var i := x / MAX_PAYLOAD;
      BlockOfByte(|file|, x);
      var k := Somewhere(sent, arrivals, i);
    }
    if file != [] { assert InPlace(file, f, |file| - 1); }
    forall x | 0 <= x < |file| ensures f[x] == file[x] { assert InPlace(file, f, x); }
  }

  lemma BlockOfByte(size: nat, x: nat)
    requires x < size
    ensures x / MAX_PAYLOAD < BlockCount(size) && InBlock(x, x / MAX_PAYLOAD)
  {}

  lemma {:induction false} ArrivalsOfStream(replies: seq<Reply>, rest: seq<Octet>)
    requires AllSendable(replies)
    ensures Arrivals(EncodeAll(replies) + rest, |replies|) == replies
  {
    if replies != [] {
      var tail := EncodeAll(replies[1..]) + rest;
      assert EncodeAll(replies) + rest == Encode(replies[0]) + tail;
      ReceiveWhatWasSent(replies[0], tail);
      ArrivalsOfStream(replies[1..], rest);
    }
  }

  /** Over the wire: whatever order the blocks are sent in, the receiver ends with the file. */
  lemma TransferDelivers(file: seq<Octet>, sha: Hasher, order: seq<Reply>, rest: seq<Octet>)
    requires Countable(file) && multiset(order) == multiset(Replies(file, sha))
    ensures AllSendable(order)
    ensures Retrieved(EncodeAll(order) + rest) == Some(file)
  {
    hide Written, Encode, ReceiveReply, Arrivals, Payload, BlockCount, Sendable, EncodeAll;
    var sent := Replies(file, sha);
    RepliesSendable(file, sha);
    forall k | 0 <= k < |order| ensures Sendable(order[k]) { var _ := Somewhere(order, sent, k); }
    var first := FirstArrival(file, sha, order, rest);
    ArrivalsOfStream(order, rest);
    AnyOrderRebuilds(file, sha, order);
  }

  lemma FirstArrival(file: seq<Octet>, sha: Hasher, order: seq<Reply>, rest: seq<Octet>) returns (first: Reply)
    requires multiset(order) == multiset(Replies(file, sha)) && AllSendable(order)
    ensures ReceiveReply(EncodeAll(order) + rest).Some?
    ensures first == ReceiveReply(EncodeAll(order) + rest).value.0
    ensures first.status == STATUS_OK && first.blockCount == |order| > 0
  {
    hide Encode, ReceiveReply, Sendable, Payload;
    var sent := Replies(file, sha);
    assert |order| == |multiset(order)| == |multiset(sent)| == |sent|;
    first := order[0];
    var i := Somewhere(order, sent, 0);
    var tail := EncodeAll(order[1..]) + rest;
    assert EncodeAll(order) + rest == Encode(first) + tail;
    ReceiveWhatWasSent(first, tail);
  }
}
