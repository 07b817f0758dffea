/** The telemetry server's side of one connection (the `handleConnection`
    routine, and the loops in the two stand-alone monitor servers): a raw
    consumer count, then fixed-size records until the first failed receive. */
module Collector {
  import opened Wire
  import opened Transport

  /** How one connection ends. */
  datatype Session =
    /** The consumer count could not be read; the server gives up. */
    | HandshakeFailed
    /** The record loop ended at the first failed receive, after these records. */
    | Ended(consumers: int, records: seq<seq<int>>)
    /** The record buffer has no room (count <= -2): every receive succeeds
        at once without reading and the loop never ends. */
    | Spinning(consumers: int)

  /** `sizeof(int)`: the size of the handshake. */
  const INT_SIZE := 4

  /** `sizeof(msg)` for `int msg[consumers + 2]`. */
  function RecordSize(consumers: int): int {
    INT_SIZE * (consumers + 2)
  }

  /** The records the loop reads from `cur` on: one `receive` of a whole record
      per turn, each decoded with `ntohl` field by field, until the first
      `receive` that fails. */
  function Records(peer: Peer, cur: Cursor, consumers: int): (rs: seq<seq<int>>)
    requires Within(peer, cur) && consumers + 2 > 0
    ensures Uniform(rs, consumers + 2)
    decreases |peer.sent| - cur.read
  {
    var r := ReceiveOutcome(peer, cur, RecordSize(consumers));
    if r.status != 0 then []
    else [DecodeRecord(r.data)] + Records(peer, r.after, consumers)
  }

  /** One turn of the record loop. */
  lemma RecordsStep(peer: Peer, cur: Cursor, consumers: int, r: Received)
    requires Within(peer, cur) && consumers + 2 > 0
    requires r == ReceiveOutcome(peer, cur, RecordSize(consumers))
    ensures r.status != 0 ==> Records(peer, cur, consumers) == []
    ensures r.status == 0 ==> Records(peer, cur, consumers) == [DecodeRecord(r.data)] + Records(peer, r.after, consumers)
  {
  }

  /** A whole connection: the handshake, then the record loop. */
  function Collect(peer: Peer, order: ByteOrder): (s: Session)
    ensures !s.HandshakeFailed? ==> IsInt32(s.consumers)
    ensures s.Spinning? ==> s.consumers + 2 <= 0
    ensures s.Ended? ==> s.consumers + 2 > 0 && Uniform(s.records, s.consumers + 2)
  {
    var h := ReceiveOutcome(peer, Cursor(0, 0), INT_SIZE);
    if h.status != 0 then HandshakeFailed
    else
      var consumers := FromHostBytes(h.data, order);
      if consumers + 2 <= 0 then Spinning(consumers)
      else Ended(consumers, Records(peer, h.after, consumers))
  }

  /** The `ntohl(msg[i])` of every field of a received record, in field order. */
  method DecodeFields(msg: array<byte>, n: nat) returns (fields: seq<int>)
    requires msg.Length == INT_SIZE * n
    ensures fields == DecodeRecord(msg[..])
  {
    fields := [];
    for i := 0 to n
      invariant |fields| == i
      invariant forall j | 0 <= j < i :: fields[j] == Ntohl(msg[INT_SIZE * j..INT_SIZE * j + INT_SIZE])
    {
      fields := fields + [Ntohl(msg[INT_SIZE * i..INT_SIZE * i + INT_SIZE])];
    }
    assert |fields| == |DecodeRecord(msg[..])|;
    forall j | 0 <= j < n ensures fields[j] == DecodeRecord(msg[..])[j] {
      assert msg[..][INT_SIZE * j..INT_SIZE * j + INT_SIZE] == msg[INT_SIZE * j..INT_SIZE * j + INT_SIZE];
    }
  }

  /** The record loop: receives one whole record into `msg` per turn and
      decodes it, until a receive fails. */
  method ReadRecords(peer: Peer, start: Cursor, consumers: int, msg: array<byte>) returns (records: seq<seq<int>>)
    requires Within(peer, start) && consumers + 2 > 0
    requires msg.Length == RecordSize(consumers)
    modifies msg
    ensures records == Records(peer, start, consumers)
  {
    var size := msg.Length;
    records := [];
    var cur := start;
    while true
      invariant Within(peer, cur)
      invariant Records(peer, start, consumers) == records + Records(peer, cur, consumers)
      decreases |peer.sent| - cur.read
    {
      ghost var r := ReceiveOutcome(peer, cur, size);
      RecordsStep(peer, cur, consumers, r);
      var st, next := Receive(peer, cur, msg, size);
      if st == -1 {
        break;
      }
      assert msg[..] == r.data;
      var fields := DecodeFields(msg, consumers + 2);
      Regroup(records, fields, Records(peer, next, consumers), Records(peer, cur, consumers));
      records := records + [fields];
      cur := next;
    }
  }

  lemma Regroup(done: seq<seq<int>>, x: seq<int>, rest: seq<seq<int>>, all: seq<seq<int>>)
    requires all == [x] + rest
    ensures done + all == (done + [x]) + rest
  {
  }

  /** Serves one connection: receives the consumer count into an `int`, then
      runs the record loop over a buffer of `consumers + 2` ints. */
  method HandleConnection(peer: Peer, order: ByteOrder) returns (session: Session)
    ensures session == Collect(peer, order)
  {
    ghost var h := ReceiveOutcome(peer, Cursor(0, 0), INT_SIZE);
    var consumersBuf := new byte[INT_SIZE];
    var status, start := Receive(peer, Cursor(0, 0), consumersBuf, INT_SIZE);
    if status == -1 {
      return HandshakeFailed;
    }
    assert consumersBuf[..] == h.data;
    var consumers := FromHostBytes(consumersBuf[..], order);
    if RecordSize(consumers) <= 0 {
      return Spinning(consumers);
    }
    var msg := new byte[RecordSize(consumers)];
    var records := ReadRecords(peer, start, consumers, msg);
    return Ended(consumers, records);
  }

  /** The records read are exactly the whole records at the front of the
      stream, back to back: nothing is lost, reordered or made up, and a
      trailing partial record is dropped. */
  lemma {:induction false} RecordsAreStream(peer: Peer, cur: Cursor, consumers: int)
    requires Within(peer, cur) && NoErrors(peer, cur) && consumers + 2 > 0
    decreases |peer.sent| - cur.read
    ensures var rs := Records(peer, cur, consumers);
      var size := RecordSize(consumers);
      && |rs| * size <= |Pending(peer, cur)| < |rs| * size + size
      && Stream(rs) == Pending(peer, cur)[..|rs| * size]
  {
    var size := RecordSize(consumers);
    var p := Pending(peer, cur);
    var r := ReceiveOutcome(peer, cur, size);
    ReceiveSucceedsIff(peer, cur, size);
    if r.status == 0 {
      ReceiveSuccess(peer, cur, size);
      ReceiveKeepsNoErrors(peer, cur, size);
      RecordsAreStream(peer, r.after, consumers);
      var rest := Records(peer, r.after, consumers);
      assert Records(peer, cur, consumers) == [DecodeRecord(r.data)] + rest;
      EncodeDecode(r.data);
      assert Stream([DecodeRecord(r.data)] + rest) == r.data + Stream(rest);
      WholeRecordsStep(p, size, |rest|);
    }
  }

  /** Taking one whole record off the front of `p` leaves the whole records
      of the remainder. */
  lemma WholeRecordsStep(p: seq<byte>, size: int, m: nat)
    requires 0 < size <= |p| && m * size <= |p| - size < m * size + size
    ensures (1 + m) * size <= |p| < (1 + m) * size + size
    ensures p[..(1 + m) * size] == p[..size] + p[size..][..m * size]
  {
    assert (1 + m) * size == size + m * size;
  }

  /** The first of the records sent back to back arrives whole. */
  lemma FirstRecord(peer: Peer, cur: Cursor, consumers: int, rs: seq<seq<int>>, tail: seq<byte>)
    requires Within(peer, cur) && NoErrors(peer, cur) && consumers + 2 > 0
    requires Uniform(rs, consumers + 2) && rs != []
    requires Pending(peer, cur) == Stream(rs) + tail
    ensures var r := ReceiveOutcome(peer, cur, RecordSize(consumers));
      && r.status == 0 && DecodeRecord(r.data) == rs[0]
      && NoErrors(peer, r.after) && Pending(peer, r.after) == Stream(rs[1..]) + tail
  {
    var size := RecordSize(consumers);
    ReceiveSucceedsIff(peer, cur, size);
    ReceiveSuccess(peer, cur, size);
    ReceiveKeepsNoErrors(peer, cur, size);
    var first := EncodeRecord(rs[0]);
    assert Stream(rs) == first + Stream(rs[1..]);
    SplitFront3(Pending(peer, cur), first, Stream(rs[1..]), tail);
    DecodeEncode(rs[0]);
  }

  /** Conversely, whatever records the peer sends are read back in full, and
      in order, when no transport error intervenes and less than a record
      follows them. */
  lemma {:induction false} RecordsOfStream(peer: Peer, cur: Cursor, consumers: int, rs: seq<seq<int>>, tail: seq<byte>)
    requires Within(peer, cur) && NoErrors(peer, cur) && consumers + 2 > 0
    requires Uniform(rs, consumers + 2) && |tail| < RecordSize(consumers)
    requires Pending(peer, cur) == Stream(rs) + tail
    decreases |rs|
    ensures Records(peer, cur, consumers) == rs
  {
    var r := ReceiveOutcome(peer, cur, RecordSize(consumers));
    RecordsStep(peer, cur, consumers, r);
    if rs == [] {
      ReceiveSucceedsIff(peer, cur, RecordSize(consumers));
      assert Pending(peer, cur) == tail;
    } else {
      FirstRecord(peer, cur, consumers, rs, tail);
      RecordsOfStream(peer, r.after, consumers, rs[1..], tail);
    }
  }

  /** End to end: a peer of the server's byte order that sends its consumer
      count, then whole records, then less than a record, is heard out in
      full. */
  lemma CollectStream(peer: Peer, order: ByteOrder, consumers: int, rs: seq<seq<int>>, tail: seq<byte>)
    requires IsInt32(consumers) && consumers + 2 > 0
    requires Uniform(rs, consumers + 2) && |tail| < RecordSize(consumers)
    requires peer.sent == HostBytes(consumers, order) + (Stream(rs) + tail)
    requires NoErrors(peer, Cursor(0, 0))
    ensures Collect(peer, order) == Ended(consumers, rs)
  {
    var start := Cursor(0, 0);
    var h := ReceiveOutcome(peer, start, INT_SIZE);
    ReceiveSucceedsIff(peer, start, INT_SIZE);
    ReceiveSuccess(peer, start, INT_SIZE);
    ReceiveKeepsNoErrors(peer, start, INT_SIZE);
    var hs := HostBytes(consumers, order);
    SplitFront(peer.sent, hs, Stream(rs) + tail);
    assert Pending(peer, start) == peer.sent;
    HandshakeRoundTrip(consumers, order);
    RecordsOfStream(peer, h.after, consumers, rs, tail);
  }

  lemma SplitFront3(s: seq<byte>, a: seq<byte>, b: seq<byte>, c: seq<byte>)
    requires s == (a + b) + c
    ensures s[..|a|] == a && s[|a|..] == b + c
  {
  }

  lemma SplitFront(s: seq<byte>, a: seq<byte>, b: seq<byte>)
    requires s == a + b
    ensures s[..|a|] == a && s[|a|..] == b
  {
  }

  /** Without transport errors the handshake fails exactly when the peer
      closes before sending a whole `int`. */
  lemma HandshakeFailsIff(peer: Peer, order: ByteOrder)
    requires NoErrors(peer, Cursor(0, 0))
    ensures Collect(peer, order) == HandshakeFailed <==> |peer.sent| < INT_SIZE
  {
    ReceiveSucceedsIff(peer, Cursor(0, 0), INT_SIZE);
  }
}
