/**
 The two ends of a transfer in Assignment3/src/peer.c, over descriptors that transfer as much as
 they like: the loop of handle_retrieve with compsys_helper_writen, receive_reply with
 compsys_helper_readn, and the retrieve branch of send_message.
 */
module FileTransfer {
  import opened Basics
  import opened Bytes
  import opened FileBlocks
  import RobustIO

  // ---------- the sender ----------

  /** The size variable of the C code has 32 bits. */
  function FileSize(file: seq<Octet>): (size: nat)
    ensures size <= |file| && size < M32 && (size == |file| <==> |file| < M32)
  {
    |file| % M32
  }

  /** The number of blocks as computed in 32 bits, where rounding up can wrap around. */
  function TotalBlocks(size: nat): (n: nat)
    requires size < M32
    ensures n > 0
  {
    var n := (size + MAX_PAYLOAD - 1) % M32 / MAX_PAYLOAD;
    if n == 0 then 1 else n
  }

  /** The length that the loop asks for at block i. */
  function BytesToRead(size: nat, i: nat): nat
    requires size < M32
  {
    var remaining := (size - i * MAX_PAYLOAD) % M32;
    if i == TotalBlocks(size) - 1 && remaining > 0 then remaining else MAX_PAYLOAD
  }

  /** No read of the loop is longer than the buffer it goes into. */
  ghost predicate ReadsFit(size: nat)
    requires size < M32
  {
    forall i: nat :: i < TotalBlocks(size) ==> BytesToRead(size, i) <= MAX_PAYLOAD
  }

  /** The reads fit exactly as long as rounding up to blocks does not wrap around. */
  lemma ReadsFitExactly(size: nat)
    requires size < M32
    ensures ReadsFit(size) <==> size + MAX_PAYLOAD - 1 < M32
    ensures ReadsFit(size) ==> TotalBlocks(size) == BlockCount(size)
    ensures !ReadsFit(size) ==> TotalBlocks(size) == 1 && BytesToRead(size, 0) == size > MAX_PAYLOAD
  {
    if size + MAX_PAYLOAD - 1 < M32 {
      NoWrap(size);
      forall i: nat | i < TotalBlocks(size) ensures BytesToRead(size, i) <= MAX_PAYLOAD {
        BlockStarts(size, i);
      }
    } else {
      assert BytesToRead(size, 0) == size;
    }
  }

  lemma NoWrap(size: nat)
    requires size + MAX_PAYLOAD - 1 < M32
    ensures TotalBlocks(size) == BlockCount(size)
  {}

  /** A file of one byte less than 2^32 is sent as one block, and all of it is read into the buffer for a block. */
  lemma LargestOverruns()
    ensures TotalBlocks(0xffff_ffff) == 1 && BytesToRead(0xffff_ffff, 0) == 0xffff_ffff && !ReadsFit(0xffff_ffff)
  {
    ReadsFitExactly(0xffff_ffff);
  }

  /**
   The replies sent for a file: those of its blocks, as long as its size fits into 32 bits. The
   size of a larger file is cut to 32 bits, and if nothing is left of it one full block is sent.
   */
  ghost function SentReplies(file: seq<Octet>, sha: Hasher): (replies: seq<Reply>)
    requires ReadsFit(FileSize(file))
    ensures |replies| == TotalBlocks(FileSize(file))
  {
    var size := FileSize(file);
    ReadsFitExactly(size);
    if size > 0 then Replies(file[..size], sha) else
      var payload := file[..Min(MAX_PAYLOAD, |file|)];
      [Reply(STATUS_OK, 0, 1, sha(payload), sha([]), payload)]
  }

  /** The part of a file that its replies carry. */
  ghost function SentPart(file: seq<Octet>): seq<Octet> {
    var size := FileSize(file);
    if size > 0 then file[..size] else file[..Min(MAX_PAYLOAD, |file|)]
  }

  /** If the reads fit, the whole file is sent exactly when its size fits into 32 bits. */
  lemma SentPartExactly(file: seq<Octet>)
    requires ReadsFit(FileSize(file))
    ensures SentPart(file) == file <==> |file| < M32
  {
    if |file| >= M32 { assert |SentPart(file)| < |file|; }
  }

  lemma SentSendable(file: seq<Octet>, sha: Hasher)
    requires ReadsFit(FileSize(file))
    ensures AllSendable(SentReplies(file, sha))
  {
    var size := FileSize(file);
    ReadsFitExactly(size);
    if size > 0 { RepliesSendable(file[..size], sha); }
  }

  /** Where the read at block i ends. */
  ghost function ReadEnd(file: seq<Octet>, i: nat): (end: nat)
    requires i * MAX_PAYLOAD <= |file|
    ensures i * MAX_PAYLOAD <= end <= |file|
  {
    i * MAX_PAYLOAD + Min(BytesToRead(FileSize(file), i), |file| - i * MAX_PAYLOAD)
  }

  /** Block starts within the file, and the read at a block that is not the last ends where the next one starts. */
  lemma ReadStarts(file: seq<Octet>, i: nat)
    requires ReadsFit(FileSize(file)) || i == 0
    requires i < TotalBlocks(FileSize(file))
    ensures i * MAX_PAYLOAD <= FileSize(file)
    ensures i < TotalBlocks(FileSize(file)) - 1 ==> ReadEnd(file, i) == (i + 1) * MAX_PAYLOAD
  {
    hide FileSize;
    ReadsFitExactly(FileSize(file));
    BlockStarts(FileSize(file), i);
  }

  /** A read stops at the end of the block or of the part of the file that is sent. */
  lemma ReadEnds(file: seq<Octet>, i: nat)
    requires ReadsFit(FileSize(file)) && FileSize(file) > 0
    requires i < TotalBlocks(FileSize(file)) && i * MAX_PAYLOAD <= FileSize(file)
    ensures ReadEnd(file, i) == Min((i + 1) * MAX_PAYLOAD, FileSize(file))
  {
    hide FileSize;
    ReadsFitExactly(FileSize(file));
    BlockStarts(FileSize(file), i);
  }

  /** Reading on from the previous block gives the reply of the next one. */
  lemma ReadsReply(file: seq<Octet>, sha: Hasher, i: nat)
    requires ReadsFit(FileSize(file)) && i < TotalBlocks(FileSize(file)) && i * MAX_PAYLOAD <= FileSize(file)
    ensures var payload := file[i * MAX_PAYLOAD..ReadEnd(file, i)];
      SentReplies(file, sha)[i]
      == Reply(STATUS_OK, i, TotalBlocks(FileSize(file)), sha(payload), sha(file[..FileSize(file)]), payload)
  {
    var size := FileSize(file);
    ReadsFitExactly(size);
    if size > 0 {
      ReadEnds(file, i);
      hide ReadEnd, FileSize, BlockCount, TotalBlocks, ReadsFit;
      var part := file[..size];
      var payload := file[i * MAX_PAYLOAD..ReadEnd(file, i)];
      assert Payload(part, i) == payload;
      assert SentReplies(file, sha)[i] == BlockReply(part, sha, i);
    } else {
      FirstRead(file);
      hide ReadEnd, FileSize;
      assert i == 0 && file[..0] == [];
    }
  }

  lemma FirstRead(file: seq<Octet>)
    requires FileSize(file) == 0
    ensures ReadEnd(file, 0) == Min(MAX_PAYLOAD, |file|)
  {
    hide FileSize;
  }

  /** One packet: header and body in one call of compsys_helper_writen, whose result is not looked at. */
  method SendReply(reply: Reply, fd: RobustIO.Descriptor)
    requires Sendable(reply)
    modifies fd`output, fd`answers
    ensures RobustIO.Fails !in old(fd.answers) ==>
      RobustIO.Fails !in fd.answers && fd.output == old(fd.output) + Encode(reply)
  {
    hide Encode, RobustIO.Later;
    ghost var answers := fd.answers;
    var packet := Encode(reply);
    var _, sent := fd.WriteN(packet);
    if RobustIO.Fails !in answers {
      RobustIO.NoNewFailure(answers, fd.answers);
      assert packet[..sent] == packet;
    }
  }

  /** What the first n replies are on the wire. */
  ghost function SentBytes(file: seq<Octet>, sha: Hasher, n: nat): seq<Octet>
    requires ReadsFit(FileSize(file)) && n <= TotalBlocks(FileSize(file))
  {
    SentSendable(file, sha);
    EncodeAll(SentReplies(file, sha)[..n])
  }

  /** Since the output was `start`, n replies have been written to it. */
  ghost predicate HasSent(file: seq<Octet>, sha: Hasher, start: seq<Octet>, output: seq<Octet>, n: nat) {
    if n == 0 then output == start else
      ReadsFit(FileSize(file)) && n <= TotalBlocks(FileSize(file)) && output == start + SentBytes(file, sha, n)
  }

  lemma SentAll(file: seq<Octet>, sha: Hasher, start: seq<Octet>, output: seq<Octet>)
    requires ReadsFit(FileSize(file))
    ensures AllSendable(SentReplies(file, sha))
    ensures HasSent(file, sha, start, output, TotalBlocks(FileSize(file))) ==>
      output == start + EncodeAll(SentReplies(file, sha))
  {
    hide FileSize, TotalBlocks, ReadsFit, SentReplies, EncodeAll;
    var replies := SentReplies(file, sha);
    SentSendable(file, sha);
    assert replies[..|replies|] == replies;
  }

  /** This was read at block i. */
  ghost predicate IsRead(file: seq<Octet>, i: nat, payload: seq<Octet>) {
    i * MAX_PAYLOAD <= |file| && payload == file[i * MAX_PAYLOAD..ReadEnd(file, i)]
  }

  /** The next read is the one at block i. */
  ghost predicate AtBlock(file: seq<Octet>, pos: nat, i: nat) { pos == i * MAX_PAYLOAD <= FileSize(file) }

  lemma AtFirst(file: seq<Octet>, sha: Hasher, start: seq<Octet>)
    ensures AtBlock(file, 0, 0) && HasSent(file, sha, start, start, 0)
  {}

  /** One more reply is one more block. */
  lemma OneMoreSent(file: seq<Octet>, sha: Hasher, start: seq<Octet>, output: seq<Octet>, i: nat, payload: seq<Octet>)
    requires ReadsFit(FileSize(file)) && i < TotalBlocks(FileSize(file))
    requires IsRead(file, i, payload)
    ensures var size := FileSize(file);
      var reply := Reply(STATUS_OK, i, TotalBlocks(size), sha(payload), sha(file[..size]), payload);
      && Sendable(reply)
      && (HasSent(file, sha, start, output, i) ==> HasSent(file, sha, start, output + Encode(reply), i + 1))
  {
    hide FileSize, TotalBlocks, ReadsFit, ReadEnd, SentReplies, EncodeAll, Encode, Sendable;
    SentSendable(file, sha);
    EncodeAllAppends(SentReplies(file, sha), i);
    ReadStarts(file, i);
    ReadsReply(file, sha, i);
    hide SentBytes, IsRead;
    var r := SentReplies(file, sha)[i];
    assert SentBytes(file, sha, i + 1) == SentBytes(file, sha, i) + Encode(r);
    AppendedTwice(start, SentBytes(file, sha, i), Encode(r));
    if i == 0 { assert SentBytes(file, sha, 0) == []; }
  }

  lemma AppendedTwice(a: seq<Octet>, b: seq<Octet>, c: seq<Octet>)
    ensures a + b + c == a + (b + c) && a + [] == a
  {}

  method CountBlocks(fileSize: nat) returns (totalBlocks: nat)
    requires fileSize < M32
    ensures totalBlocks == TotalBlocks(fileSize)
  {
    totalBlocks := (fileSize + MAX_PAYLOAD - 1) % M32 / MAX_PAYLOAD;
    if totalBlocks == 0 { totalBlocks := 1; }
  }

  /** The bytes of block i, read on from where the block before it ended; no more than fit into the buffer, or None. */
  method ReadBlock(file: seq<Octet>, pos: nat, i: nat, totalBlocks: nat)
    returns (payload: Option<seq<Octet>>, next: nat)
    requires i < totalBlocks == TotalBlocks(FileSize(file)) && AtBlock(file, pos, i)
    ensures payload == None <==> !ReadsFit(FileSize(file))
    ensures payload.Some? ==> IsRead(file, i, payload.value)
    ensures payload.Some? && i < totalBlocks - 1 ==> AtBlock(file, next, i + 1)
  {
    ReadsFitExactly(FileSize(file));
    if ReadsFit(FileSize(file)) {
      ReadStarts(file, i);
      if i < totalBlocks - 1 { ReadStarts(file, i + 1); }
    }
    hide FileSize, TotalBlocks, ReadsFit;
    var bytesToRead := MAX_PAYLOAD;
    if i == totalBlocks - 1 {
      var remaining := (FileSize(file) - i * MAX_PAYLOAD) % M32;
      if remaining > 0 { bytesToRead := remaining; }
    }
    var actualRead := Min(bytesToRead, |file| - pos);
    next := pos + actualRead;
    payload := if actualRead > MAX_PAYLOAD then None else Some(file[pos..next]);
  }

  /**
   The loop of handle_retrieve, which does not look at what compsys_helper_writen returns. It
   overruns its buffer exactly if the reads do not fit; nothing has been sent then.
   */
  method HandleRetrieve(file: seq<Octet>, sha: Hasher, fd: RobustIO.Descriptor) returns (overrun: bool)
    modifies fd`output, fd`answers
    ensures overrun <==> !ReadsFit(FileSize(file))
    ensures overrun ==> fd.output == old(fd.output)
    ensures !overrun ==> AllSendable(SentReplies(file, sha))
    ensures !overrun && RobustIO.Fails !in old(fd.answers) ==>
      fd.output == old(fd.output) + EncodeAll(SentReplies(file, sha))
  {
    hide *;
    var fileSize := FileSize(file);
    var totalBlocks := CountBlocks(fileSize);
    var totalHash := sha(file[..fileSize]);
    ghost var sound := RobustIO.Fails !in fd.answers;
    var pos: nat := 0;
    AtFirst(file, sha, fd.output);
    for i := 0 to totalBlocks
      invariant i < totalBlocks ==> AtBlock(file, pos, i)
      invariant i > 0 ==> ReadsFit(fileSize)
      invariant sound ==> RobustIO.Fails !in fd.answers
      invariant i == 0 ==> fd.output == old(fd.output)
      invariant sound ==> HasSent(file, sha, old(fd.output), fd.output, i)
    {
      var payload, next := ReadBlock(file, pos, i, totalBlocks);
      if payload == None { return true; }
      pos := next;
      var reply := Reply(STATUS_OK, i, totalBlocks, sha(payload.value), totalHash, payload.value);
      OneMoreSent(file, sha, old(fd.output), fd.output, i, payload.value);
      SendReply(reply, fd);
    }
    SentAll(file, sha, old(fd.output), fd.output);
    overrun := false;
  }

  // ---------- the receiver ----------

  /** receive_reply: whatever the schedule, a reply that comes back is the one at the front of the input. */
  method ReceiveReplyFrom(fd: RobustIO.Descriptor) returns (reply: Option<Reply>)
    modifies fd`input, fd`answers
    ensures RobustIO.Fails !in old(fd.answers) ==> RobustIO.Fails !in fd.answers
    ensures RobustIO.Fails !in old(fd.answers) ==> (reply == None <==> ReceiveReply(old(fd.input)) == None)
    ensures reply.Some? ==> ReceiveReply(old(fd.input)) == Some((reply.value, fd.input))
  {
    hide BigEndian, RobustIO.Later;
    ghost var input, answers := fd.input, fd.answers;
    var header := new Octet[REPLY_HEADER_LEN];
    var n, got := fd.ReadN(header, REPLY_HEADER_LEN);
    ghost var between := fd.answers;
    if RobustIO.Fails !in answers { RobustIO.NoNewFailure(answers, between); }
    if n != REPLY_HEADER_LEN { return None; }
    assert header[..] == input[..REPLY_HEADER_LEN];
    var h := header[..];
    assert h[0..4] == input[0..4] && h[4..8] == input[4..8] && h[8..12] == input[8..12] && h[12..16] == input[12..16];
    assert h[16..48] == input[16..48] && h[48..80] == input[48..80];
    var length: nat := BigEndian(h[0..4]);
    var body := [];
    if length > 0 {
      var buffer := new Octet[length];
      n, got := fd.ReadN(buffer, length);
      if RobustIO.Fails !in answers { RobustIO.NoNewFailure(between, fd.answers); }
      if n != length { return None; }
      body := buffer[..];
    }
    assert body == input[REPLY_HEADER_LEN..][..length] == input[80..80 + length];
    assert fd.input == input[80..][length..] == input[80 + length..];
    reply := Some(Reply(BigEndian(h[4..8]), BigEndian(h[8..12]), BigEndian(h[12..16]), h[16..48], h[48..80], body));
  }

  /** These replies are the first of the stream, and the rest of it follows. */
  ghost predicate Reached(stream: seq<Octet>, done: seq<Reply>, rest: seq<Octet>) {
    forall m: nat :: m >= |done| ==> Arrivals(stream, m) == done + Arrivals(rest, m - |done|)
  }

  lemma NothingReached(stream: seq<Octet>)
    ensures Reached(stream, [], stream)
  {}

  lemma ReachedEnd(stream: seq<Octet>, done: seq<Reply>, rest: seq<Octet>, m: nat)
    requires Reached(stream, done, rest) && m >= |done|
    requires m == |done| || ReceiveReply(rest) == None
    ensures Arrivals(stream, m) == done
  {
    assert Arrivals(stream, m) == done + Arrivals(rest, m - |done|);
  }

  lemma ArrivalsStep(stream: seq<Octet>, r: Reply, left: seq<Octet>, n: nat)
    requires ReceiveReply(stream) == Some((r, left)) && n > 0
    ensures Arrivals(stream, n) == [r] + Arrivals(left, n - 1)
    ensures Arrivals(left, 0) == []
  {
    hide ReceiveReply;
  }

  lemma ReachedNext(stream: seq<Octet>, done: seq<Reply>, rest: seq<Octet>, r: Reply, left: seq<Octet>)
    requires Reached(stream, done, rest) && ReceiveReply(rest) == Some((r, left))
    ensures Reached(stream, done + [r], left)
  {
    hide ReceiveReply, Arrivals;
    forall m: nat | m >= |done + [r]| ensures Arrivals(stream, m) == (done + [r]) + Arrivals(left, m - |done + [r]|) {
      assert Arrivals(stream, m) == done + Arrivals(rest, m - |done|);
      ArrivalsStep(rest, r, left, m - |done|);
    }
  }

  /**
   The retrieve branch of send_message. What it leaves is always the first replies written in
   the order of arrival; if no call fails it is the whole exchange.
   */
  method Retrieve(fd: RobustIO.Descriptor) returns (file: Option<seq<Octet>>, ghost blocks: nat)
    modifies fd`input, fd`answers
    ensures RobustIO.Fails !in old(fd.answers) ==> file == Retrieved(old(fd.input))
    ensures file.Some? ==> file == Some(Written(Arrivals(old(fd.input), blocks)))
  {
    hide WriteAt, ReceiveReply, Written, Reached, Arrivals;
    ghost var stream, sound := fd.input, RobustIO.Fails !in fd.answers;
    var received := ReceiveReplyFrom(fd);
    if received == None { return None, 0; }
    var reply := received.value;
    if reply.status != STATUS_OK { return None, 0; }
    var totalBlocks := reply.blockCount;
    var blocksReceived := 0;
    var f: seq<Octet> := [];
    ghost var done: seq<Reply> := [];
    WrittenStep(done, reply);
    NothingReached(stream);
    ReachedNext(stream, done, stream, reply, fd.input);
    ReachedEnd(stream, done, stream, 0);
    while blocksReceived < totalBlocks
      invariant 0 <= blocksReceived == |done| <= totalBlocks
      invariant f == Written(done) && done == Arrivals(stream, blocksReceived)
      invariant sound ==> RobustIO.Fails !in fd.answers
      invariant blocksReceived < totalBlocks ==> Reached(stream, done + [reply], fd.input)
    {
      f := WriteAt(f, Offset(reply), reply.payload);
      WrittenStep(done, reply);
      done := done + [reply];
      blocksReceived := blocksReceived + 1;
      ghost var rest := fd.input;
      ReachedEnd(stream, done, rest, blocksReceived);
      if blocksReceived < totalBlocks {
        var next := ReceiveReplyFrom(fd);
        if next == None {
          if sound { ReachedEnd(stream, done, rest, totalBlocks); }
          break;
        }
        reply := next.value;
        ReachedNext(stream, done, rest, reply, fd.input);
      }
    }
    blocks := blocksReceived;
    file := Some(f);
  }

  // ---------- from end to end ----------

  /** Whatever the order of the blocks and the schedule of the reads, the receiver ends with the file. */
  method Transfer(
    file: seq<Octet>, sha: Hasher, ghost order: seq<Reply>, ghost rest: seq<Octet>, fd: RobustIO.Descriptor)
    returns (copy: Option<seq<Octet>>)
    requires Countable(file) && multiset(order) == multiset(Replies(file, sha)) && AllSendable(order)
    requires fd.input == EncodeAll(order) + rest && RobustIO.Fails !in fd.answers
    modifies fd`input, fd`answers
    ensures copy == Some(file)
  {
    hide Retrieved, Replies, EncodeAll;
    ghost var blocks;
    TransferDelivers(file, sha, order, rest);
    copy, blocks := Retrieve(fd);
  }

  /** What handle_retrieve sends, received in order, is the part of the file that it sends. */
  lemma SentIsRetrieved(file: seq<Octet>, sha: Hasher, rest: seq<Octet>)
    requires ReadsFit(FileSize(file))
    ensures AllSendable(SentReplies(file, sha))
    ensures Retrieved(EncodeAll(SentReplies(file, sha)) + rest) == Some(SentPart(file))
  {
    var size := FileSize(file);
    ReadsFitExactly(size);
    SentSendable(file, sha);
    if size > 0 {
      hide FileSize, ReadsFit, TotalBlocks, Written, Encode, EncodeAll, ReceiveReply, Arrivals, Replies, Sendable;
      TransferDelivers(file[..size], sha, Replies(file[..size], sha), rest);
    } else {
      var r := SentReplies(file, sha)[0];
      assert SentReplies(file, sha) == [r] && SentPart(file) == r.payload;
      hide SentReplies, SentPart, Retrieved, EncodeAll, FileSize;
      OneReplyRetrieved(r, rest);
    }
  }

  lemma OneReplyRetrieved(r: Reply, rest: seq<Octet>)
    requires Sendable(r) && r.status == STATUS_OK && r.thisBlock == 0 && r.blockCount == 1
    ensures AllSendable([r]) && Retrieved(EncodeAll([r]) + rest) == Some(r.payload)
  {
    assert AllSendable([r]);
    assert [r][1..] == [];
    assert EncodeAll([r]) + rest == Encode(r) + rest;
    ReceiveWhatWasSent(r, rest);
    WrittenStep([], r);
    assert [] + [r] == [r];
    assert WriteAt([], 0, r.payload) == r.payload;
    hide Encode, EncodeAll, ReceiveReply, Sendable, Written, WriteAt, Arrivals;
    ArrivalsStep(Encode(r) + rest, r, rest, 1);
  }

  /** The sender stays within its buffer, and what it sends gives the receiver the file. */
  ghost predicate Transfers(file: seq<Octet>, sha: Hasher, rest: seq<Octet>) {
    && ReadsFit(FileSize(file)) && AllSendable(SentReplies(file, sha))
    && Retrieved(EncodeAll(SentReplies(file, sha)) + rest) == Some(file)
  }

  /** That is so if and only if the size can be rounded up to blocks in 32 bits. */
  lemma TransferExactly(file: seq<Octet>, sha: Hasher, rest: seq<Octet>)
    ensures Transfers(file, sha, rest) <==> |file| + MAX_PAYLOAD - 1 < M32
  {
    hide TotalBlocks, Retrieved;
    ReadsFitExactly(FileSize(file));
    if ReadsFit(FileSize(file)) {
      SentIsRetrieved(file, sha, rest);
      SentPartExactly(file);
    }
  }

  /** In numbers: the largest file that is transferred. */
  lemma LargestTransferred(file: seq<Octet>, sha: Hasher, rest: seq<Octet>)
    ensures Transfers(file, sha, rest) <==> |file| <= 0xffff_e04c
  {
    TransferExactly(file, sha, rest);
  }
}
