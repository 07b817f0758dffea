/** The reading side of the telemetry connection: one `recv` call on a stream
    socket, and the read-until-full `receive` routine that every program of the
    repository carries a copy of. */
module Transport {
  import opened Wire

  /** What the other end of a connection does. `sent` holds every byte it
      sends before it closes the connection. `grants[i]` says how many bytes
      the i-th `recv` call hands over at most (a non-positive entry stands for
      a transport error); calls beyond `grants` hand over as much as asked. */
  datatype Peer = Peer(sent: seq<byte>, grants: seq<int>)

  /** The reader's side of the connection: how many bytes it has read and how
      many `recv` calls it has made. */
  datatype Cursor = Cursor(read: nat, calls: nat)

  /** The read position lies within what the peer sent. */
  predicate Within(peer: Peer, cur: Cursor) {
    cur.read <= |peer.sent|
  }

  /** The bytes sent but not read yet. */
  function Pending(peer: Peer, cur: Cursor): seq<byte>
    requires Within(peer, cur)
  {
    peer.sent[cur.read..]
  }

  /** No later `recv` on this connection reports a transport error. */
  predicate NoErrors(peer: Peer, cur: Cursor) {
    forall i | cur.calls <= i < |peer.grants| :: peer.grants[i] > 0
  }

  /** One `recv(sd, buf, len, 0)`: its result and the reader's side afterwards. */
  datatype Chunk = Chunk(result: int, after: Cursor)

  function Min(a: int, b: int): int {
    if a <= b then a else b
  }

  function Max(a: int, b: int): int {
    if a >= b then a else b
  }

  /** `recv` asked for `len` bytes: -1 on a transport error, 0 once the peer has
      closed and nothing is pending, otherwise between 1 and `len` bytes taken
      from the front of what is pending. Every call uses up one grant. */
  function Recv(peer: Peer, cur: Cursor, len: int): (c: Chunk)
    requires Within(peer, cur) && len > 0
    ensures -1 <= c.result <= len && c.result <= |peer.sent| - cur.read
    ensures c.after.read == cur.read + Max(c.result, 0) && c.after.calls == cur.calls + 1
  {
    var grant := if cur.calls < |peer.grants| then peer.grants[cur.calls] else len;
    if grant <= 0 then Chunk(-1, cur.(calls := cur.calls + 1))
    else
      var n := Min(Min(grant, len), |peer.sent| - cur.read);
      Chunk(n, Cursor(cur.read + n, cur.calls + 1))
  }

  /** `recv` returns -1 exactly on a transport error and 0 exactly when the
      peer has closed with nothing pending. */
  lemma RecvResult(peer: Peer, cur: Cursor, len: int)
    requires Within(peer, cur) && len > 0
    ensures var c := Recv(peer, cur, len);
      && (c.result == -1 <==> cur.calls < |peer.grants| && peer.grants[cur.calls] <= 0)
      && (c.result == 0 <==> (cur.calls >= |peer.grants| || peer.grants[cur.calls] > 0) && cur.read == |peer.sent|)
  {
  }

  /** A `recv` only moves forward, so a connection without errors stays so. */
  lemma RecvKeepsNoErrors(peer: Peer, cur: Cursor, len: int)
    requires Within(peer, cur) && len > 0
    ensures NoErrors(peer, cur) ==> NoErrors(peer, Recv(peer, cur, len).after)
  {
  }

  /** Where the `while (totSize < size)` loop of `receive` ends when entered
      with `totSize` bytes already in: the return value, the final `totSize` and
      the reader's side afterwards. */
  datatype Progress = Progress(status: int, total: int, after: Cursor)

  /** The loop of `receive`: each `recv` asks for the `size - totSize` bytes
      still missing; the loop gives up with -1 at the first result <= 0 and
      returns 0 once `totSize` reaches `size`. */
  function Accumulate(peer: Peer, cur: Cursor, size: int, totSize: int): (p: Progress)
    requires Within(peer, cur)
    decreases |peer.sent| - cur.read
  {
    if totSize >= size then Progress(0, totSize, cur)
    else
      var c := Recv(peer, cur, size - totSize);
      if c.result <= 0 then Progress(-1, totSize, c.after)
      else Accumulate(peer, c.after, size, totSize + c.result)
  }

  /** What the loop keeps true: `totSize` never exceeds `size`, exactly the
      bytes added to `totSize` are read from the connection, and 0 is returned
      exactly when `size` bytes are in. */
  lemma {:induction false} AccumulateSound(peer: Peer, cur: Cursor, size: int, totSize: int)
    requires Within(peer, cur)
    requires 0 <= totSize <= Max(size, 0)
    decreases |peer.sent| - cur.read
    ensures var p := Accumulate(peer, cur, size, totSize);
      && (p.status == 0 || p.status == -1)
      && totSize <= p.total <= Max(size, 0)
      && p.after.read == cur.read + (p.total - totSize) && Within(peer, p.after)
      && (p.status == 0 <==> p.total == Max(size, 0))
  {
    var p := Accumulate(peer, cur, size, totSize);
    if totSize < size {
      var c := Recv(peer, cur, size - totSize);
      if c.result > 0 {
        assert p == Accumulate(peer, c.after, size, totSize + c.result);
        AccumulateSound(peer, c.after, size, totSize + c.result);
      }
    }
  }

  /** The loop of `receive` keeps a connection without transport errors so. */
  lemma {:induction false} AccumulateKeepsNoErrors(peer: Peer, cur: Cursor, size: int, totSize: int)
    requires Within(peer, cur)
    decreases |peer.sent| - cur.read
    ensures NoErrors(peer, cur) ==> NoErrors(peer, Accumulate(peer, cur, size, totSize).after)
  {
    if totSize < size {
      RecvKeepsNoErrors(peer, cur, size - totSize);
      var c := Recv(peer, cur, size - totSize);
      if c.result > 0 {
        AccumulateKeepsNoErrors(peer, c.after, size, totSize + c.result);
      }
    }
  }

  /** One turn of the `receive` loop that received `n > 0` bytes. */
  lemma AccumulateStep(peer: Peer, cur: Cursor, size: int, totSize: int, n: int, next: Cursor)
    requires Within(peer, cur) && totSize < size
    requires Recv(peer, cur, size - totSize) == Chunk(n, next) && n > 0
    ensures Within(peer, next)
    ensures Accumulate(peer, cur, size, totSize) == Accumulate(peer, next, size, totSize + n)
  {
  }

  /** What `receive(sd, retBuf, size)` leaves behind: its return value, the
      `totSize` bytes accumulated at the front of `retBuf`, and the reader's
      side of the connection. */
  datatype Received = Received(status: int, data: seq<byte>, after: Cursor)

  /** The outcome of a call `receive(sd, retBuf, size)`: 0 or -1, never more
      than `size` bytes, taken in order from the front of what is pending and
      read off the connection, and 0 exactly when all `size` of them are in. */
  function ReceiveOutcome(peer: Peer, cur: Cursor, size: int): (r: Received)
    requires Within(peer, cur)
    ensures r.status == 0 || r.status == -1
    ensures |r.data| <= Max(size, 0) && |r.data| <= |Pending(peer, cur)|
    ensures r.data == Pending(peer, cur)[..|r.data|]
    ensures r.after.read == cur.read + |r.data| && Within(peer, r.after)
    ensures r.status == 0 <==> |r.data| == Max(size, 0)
  {
    AccumulateSound(peer, cur, size, 0);
    var p := Accumulate(peer, cur, size, 0);
    Received(p.status, peer.sent[cur.read..p.after.read], p.after)
  }

  /** A `receive` without transport errors leaves the connection without them. */
  lemma ReceiveKeepsNoErrors(peer: Peer, cur: Cursor, size: int)
    requires Within(peer, cur)
    ensures NoErrors(peer, cur) ==> NoErrors(peer, ReceiveOutcome(peer, cur, size).after)
  {
    AccumulateKeepsNoErrors(peer, cur, size, 0);
  }

  /** `recv(sd, &buf[offset], len, 0)`: stores the bytes it receives at
      `buf[offset..]`, in stream order, and leaves every other byte of `buf`
      as it was. */
  method RecvInto(peer: Peer, cur: Cursor, buf: array<byte>, offset: int, len: int) returns (n: int, after: Cursor)
    requires Within(peer, cur)
    requires 0 <= offset && 0 < len && offset + len <= buf.Length
    modifies buf
    ensures Recv(peer, cur, len) == Chunk(n, after)
    ensures buf[..offset] == old(buf[..offset])
    ensures n > 0 ==> after.read == cur.read + n && buf[..offset + n] == old(buf[..offset]) + peer.sent[cur.read..after.read]
    ensures buf[offset + Max(n, 0)..] == old(buf[offset + Max(n, 0)..])
  {
    var c := Recv(peer, cur, len);
    n, after := c.result, c.after;
    if n > 0 {
      ghost var front := buf[..offset];
      ghost var back := buf[offset + n..];
      for k := 0 to n
        invariant buf[..offset + k] == front + peer.sent[cur.read..cur.read + k]
        invariant buf[offset + n..] == back
      {
        buf[offset + k] := peer.sent[cur.read + k];
        assert buf[..offset + k + 1] == buf[..offset + k] + [peer.sent[cur.read + k]];
        assert peer.sent[cur.read..cur.read + k + 1] == peer.sent[cur.read..cur.read + k] + [peer.sent[cur.read + k]];
      }
      assert buf[..offset + n][..offset] == buf[..offset];
    }
  }

  lemma SliceSplit(a: seq<byte>, i: int, j: int, k: int)
    requires 0 <= i <= j <= k <= |a|
    ensures a[i..j] + a[j..k] == a[i..k]
  {
  }

  lemma DropFurther(a: seq<byte>, b: seq<byte>, i: int, j: int)
    requires 0 <= i <= j <= |a| == |b| && a[i..] == b[i..]
    ensures a[j..] == b[j..]
  {
    assert a[j..] == a[i..][j - i..];
    assert b[j..] == b[i..][j - i..];
  }

  /** `receive(sd, retBuf, size)`: reads until `size` bytes are in `retBuf`
      (returning 0) or the first `recv` result <= 0 (returning -1). */
  method Receive(peer: Peer, start: Cursor, retBuf: array<byte>, size: int) returns (status: int, after: Cursor)
    requires Within(peer, start)
    requires size <= retBuf.Length
    modifies retBuf
    ensures var r := ReceiveOutcome(peer, start, size);
      && status == r.status && after == r.after
      && retBuf[..|r.data|] == r.data
      && retBuf[|r.data|..] == old(retBuf[|r.data|..])
  {
    ghost var target := Accumulate(peer, start, size, 0);
    ghost var original := retBuf[..];
    var totSize := 0;
    var cur := start;
    while totSize < size
      invariant 0 <= totSize <= Max(size, 0)
      invariant cur.read == start.read + totSize && Within(peer, cur)
      invariant Accumulate(peer, cur, size, totSize) == target
      invariant retBuf[..totSize] == peer.sent[start.read..cur.read]
      invariant retBuf[totSize..] == original[totSize..]
      decreases |peer.sent| - cur.read
    {
      ghost var before := retBuf[..];
      var currSize, next := RecvInto(peer, cur, retBuf, totSize, size - totSize);
      if currSize <= 0 {
        assert Accumulate(peer, cur, size, totSize) == Progress(-1, totSize, next);
        return -1, next;
      }
      AccumulateStep(peer, cur, size, totSize, currSize, next);
      assert Accumulate(peer, next, size, totSize + currSize) == target;
      SliceSplit(peer.sent, start.read, cur.read, next.read);
      DropFurther(before, original, totSize, totSize + currSize);
      totSize := totSize + currSize;
      cur := next;
    }
    assert Accumulate(peer, cur, size, totSize) == Progress(0, totSize, cur);
    return 0, cur;
  }

  /** `receive` returns 0 only after exactly `size` bytes have accumulated;
      they are the next `size` bytes of the stream, in order, and what stays
      pending is the rest of the stream. */
  lemma ReceiveSuccess(peer: Peer, cur: Cursor, size: int)
    requires Within(peer, cur) && size >= 0
    ensures var r := ReceiveOutcome(peer, cur, size);
      r.status == 0 ==>
        && |r.data| == size && r.data == Pending(peer, cur)[..size]
        && Pending(peer, r.after) == Pending(peer, cur)[size..]
  {
  }

  /** Without transport errors, the loop reaches `size` exactly when the peer
      sent enough bytes before closing. */
  lemma {:induction false} AccumulateSucceedsIff(peer: Peer, cur: Cursor, size: int, totSize: int)
    requires Within(peer, cur) && NoErrors(peer, cur)
    requires 0 <= totSize <= Max(size, 0)
    ensures Accumulate(peer, cur, size, totSize).status == 0 <==> totSize + |Pending(peer, cur)| >= size
    decreases |peer.sent| - cur.read
  {
    if totSize < size {
      RecvKeepsNoErrors(peer, cur, size - totSize);
      RecvResult(peer, cur, size - totSize);
      var c := Recv(peer, cur, size - totSize);
      if c.result > 0 {
        AccumulateSucceedsIff(peer, c.after, size, totSize + c.result);
      }
    }
  }

  /** Without transport errors, `receive` returns 0 exactly when the peer sent at
      least `size` more bytes before closing. */
  lemma ReceiveSucceedsIff(peer: Peer, cur: Cursor, size: int)
    requires Within(peer, cur) && NoErrors(peer, cur)
    ensures ReceiveOutcome(peer, cur, size).status == 0 <==> |Pending(peer, cur)| >= size
  {
    AccumulateSucceedsIff(peer, cur, size, 0);
  }

  /** With `size <= 0` `receive` returns 0 without calling `recv`. */
  lemma ReceiveNothing(peer: Peer, cur: Cursor, size: int)
    requires Within(peer, cur) && size <= 0
    ensures ReceiveOutcome(peer, cur, size) == Received(0, [], cur)
  {
  }

  /** A failed `receive` has accumulated fewer than `size` bytes, and the
      failure is reported even when some bytes already arrived: one byte and a
      closed peer make a 2-byte `receive` return -1 with that byte stored. */
  lemma ReceiveFailure(peer: Peer, cur: Cursor, size: int)
    requires Within(peer, cur)
    ensures var r := ReceiveOutcome(peer, cur, size); r.status == -1 ==> |r.data| < size
    ensures ReceiveOutcome(Peer([7], []), Cursor(0, 0), 2) == Received(-1, [7], Cursor(1, 2))
  {
    var peer1 := Peer([7], []);
    assert Recv(peer1, Cursor(0, 0), 2) == Chunk(1, Cursor(1, 1));
    assert Recv(peer1, Cursor(1, 1), 1) == Chunk(0, Cursor(1, 2));
    assert Accumulate(peer1, Cursor(0, 0), 2, 0) == Progress(-1, 1, Cursor(1, 2));
  }
}
