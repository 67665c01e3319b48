/**
 The list of known peers as handle_registration in Assignment3/src/peer.c writes it into a reply
 and update_network_from_payload reads it back.
 */
module PeerList {
  import opened Bytes

  const IP_LEN: nat := 16
  const HASH_LEN: nat := 32
  const SALT_LEN: nat := 16
  const PEER_ADDR_LEN: nat := 68

  datatype Peer = Peer(ip: seq<Octet>, port: nat, signature: seq<Octet>, salt: seq<Octet>)

  predicate Valid(p: Peer) {
    |p.ip| == IP_LEN && p.port < M32 && |p.signature| == HASH_LEN && |p.salt| == SALT_LEN
  }

  predicate AllValid(peers: seq<Peer>) { forall i :: 0 <= i < |peers| ==> Valid(peers[i]) }

  ghost function EntryBytes(p: Peer): (b: seq<Octet>)
    requires Valid(p)
    ensures |b| == PEER_ADDR_LEN
  {
    p.ip + ToBigEndian(p.port) + p.signature + p.salt
  }

  ghost function ListBytes(peers: seq<Peer>): (b: seq<Octet>)
    requires AllValid(peers)
    ensures |b| == |peers| * PEER_ADDR_LEN
  {
    if peers == [] then [] else ListBytes(peers[..|peers| - 1]) + EntryBytes(peers[|peers| - 1])
  }

  lemma EntryParts(p: Peer)
    requires Valid(p)
    ensures EntryBytes(p) == p.ip + ToBigEndian(p.port) + p.signature + p.salt
  {}

  /** An entry has one reading, and every 68 bytes are an entry. */
  lemma EntryRoundTrip(p: Peer, b: seq<Octet>)
    requires Valid(p) && |b| == PEER_ADDR_LEN
    ensures EntryBytes(p) == b <==> p == Peer(b[0..16], BigEndian(b[16..20]), b[20..52], b[52..68])
  {
    hide BigEndian, ToBigEndian;
    var e := EntryBytes(p);
    WordRoundTrip(p.port);
    assert e[0..16] == p.ip && e[16..20] == ToBigEndian(p.port) && e[20..52] == p.signature && e[52..68] == p.salt;
    BytesRoundTrip(b[16..20]);
    assert b == b[0..16] + b[16..20] + b[20..52] + b[52..68];
  }

  /** No two lists are written the same: what was read back is what was sent. */
  lemma {:induction false} ListBytesInjective(a: seq<Peer>, b: seq<Peer>)
    requires AllValid(a) && AllValid(b) && ListBytes(a) == ListBytes(b)
    ensures a == b
  {
    hide EntryBytes, Valid;
    assert |a| * PEER_ADDR_LEN == |b| * PEER_ADDR_LEN;
    if a != [] {
      var n := |a| - 1;
      var start := n * PEER_ADDR_LEN;
      assert ListBytes(a)[..start] == ListBytes(a[..n]) && ListBytes(b)[..start] == ListBytes(b[..n]);
      assert ListBytes(a)[start..] == EntryBytes(a[n]) && ListBytes(b)[start..] == EntryBytes(b[n]);
      ListBytesInjective(a[..n], b[..n]);
      EntryRoundTrip(a[n], EntryBytes(b[n]));
      EntryRoundTrip(b[n], EntryBytes(b[n]));
      assert a == a[..n] + [a[n]] && b == b[..n] + [b[n]];
    }
  }

  /** Entry i starts at byte 68 * i. */
  lemma {:induction false} EntryAt(peers: seq<Peer>, i: nat)
    requires AllValid(peers) && i < |peers|
    ensures |ListBytes(peers)| == 68 * |peers|
    ensures ListBytes(peers)[68 * i..68 * i + 68] == EntryBytes(peers[i])
  {
    hide EntryBytes, Valid;
    var n := |peers| - 1;
    if i < n {
      EntryAt(peers[..n], i);
      FrontBytes(ListBytes(peers[..n]), EntryBytes(peers[n]), 68 * i, 68 * i + 68);
    }
  }

  lemma FrontBytes(a: seq<Octet>, b: seq<Octet>, i: nat, j: nat)
    requires i <= j <= |a|
    ensures (a + b)[i..j] == a[i..j]
  {}

  class Network {
    var peers: seq<Peer>

    /** The payload that handle_registration sends back. */
    method BuildPayload() returns (payload: seq<Octet>)
      requires AllValid(peers)
      ensures payload == ListBytes(peers)
    {
      hide EntryBytes;
      payload := [];
      for i := 0 to |peers|
        invariant payload == ListBytes(peers[..i])
      {
        assert peers[..i + 1][..i] == peers[..i];
        var p := peers[i];
        var port := ToBigEndian(p.port);
        EntryParts(p);
        payload := payload + p.ip;
        payload := payload + port;
        payload := payload + p.signature;
        payload := payload + p.salt;
      }
      assert peers[..|peers|] == peers;
    }

    /** update_network_from_payload: a length that is no whole number of entries changes nothing. */
    method UpdateFromPayload(payload: seq<Octet>)
      modifies this
      ensures |payload| % PEER_ADDR_LEN != 0 ==> peers == old(peers)
      ensures |payload| % PEER_ADDR_LEN == 0 ==> AllValid(peers) && ListBytes(peers) == payload
    {
      hide EntryBytes, BigEndian, ToBigEndian;
      if |payload| % PEER_ADDR_LEN != 0 { return; }
      var count := |payload| / PEER_ADDR_LEN;
      var entries: seq<Peer> := [];
      var offset := 0;
      for i := 0 to count
        invariant offset == i * PEER_ADDR_LEN && |entries| == i && AllValid(entries)
        invariant ListBytes(entries) == payload[..offset]
      {
        var entry := payload[offset..offset + PEER_ADDR_LEN];
        BytesRoundTrip(entry[16..20]);
        var p := Peer(entry[0..16], BigEndian(entry[16..20]), entry[20..52], entry[52..68]);
        EntryRoundTrip(p, entry);
        assert (entries + [p])[..i] == entries;
        assert payload[..offset + PEER_ADDR_LEN] == payload[..offset] + entry;
        entries := entries + [p];
        offset := offset + PEER_ADDR_LEN;
      }
      peers := entries;
      assert payload[..|payload|] == payload;
    }
  }
}
