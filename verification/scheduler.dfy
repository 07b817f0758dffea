/** The client's threads without the threads: a schedule says which thread
    takes the next turn, and a turn runs one critical section if that
    thread is not waiting. Whatever the schedule, the indices stay in range,
    items are taken in production order without loss or duplication, the
    counters add up, and the monitor's connection carries the handshake
    followed by well-formed records that the server reads back in full. */
module Scheduler {
  import opened Wire
  import opened Transport
  import opened Collector
  import opened Pipeline

  /** Who takes the next turn. */
  datatype Step =
    | ProducerTurn
    | ConsumerTurn(id: int)
    | MonitorTurn

  /** The producer is not waiting and has work left: room for its next item,
      or the completion flag still to set. */
  predicate ProducerCanRun(b: BoundedBuffer)
    reads b, b.buffer, b.consumed
    requires b.Valid()
  {
    if b.itemsProduced < b.messages then !b.Full() else !b.producingCompleted
  }

  /** A consumer is not waiting: there is an item, or production is over. */
  predicate ConsumerCanRun(b: BoundedBuffer)
    reads b, b.buffer, b.consumed
    requires b.Valid()
  {
    b.producingCompleted || !b.Empty()
  }

  /** What the threads have shown the outside so far: the items the
      consumers took, in order; the records the monitor sent and the bytes on
      its connection; the consumers that retired; whether the monitor
      stopped. */
  datatype Observed = Observed(taken: seq<int>, sent: seq<seq<int>>, wire: seq<byte>, retired: set<int>, monitorDone: bool)

  ghost predicate Consistent(b: BoundedBuffer, order: ByteOrder, o: Observed)
    reads b, b.buffer, b.consumed
  {
    && b.Valid() && IsInt32(b.consumers)
    && o.taken == b.dequeued
    && Snapshots(o.sent, b.consumers, b.capacity, b.messages)
    && (forall i | 0 <= i < |o.sent| :: o.sent[i][1] <= b.itemsProduced)
    && (o.retired != {} ==> b.producingCompleted && b.contents == [])
    && o.wire == HostBytes(b.consumers, order) + Stream(o.sent)
  }

  /** Records as the monitor builds them: `consumers + 2` C `int`s each, a
      queue length below the capacity first and a production count of at
      most `MESSAGES` second; in each, the queue length plus the consumers'
      counters equals the production count; and the production counts never
      decrease from one record to the next. */
  ghost predicate Snapshots(sent: seq<seq<int>>, consumers: int, capacity: int, messages: int) {
    && consumers >= 0 && Uniform(sent, consumers + 2)
    && (forall i | 0 <= i < |sent| :: 0 <= sent[i][0] < capacity && 0 <= sent[i][1] <= messages)
    && (forall i | 0 <= i < |sent| :: sent[i][0] + Sum(sent[i][2..]) == sent[i][1])
    && (forall i, j | 0 <= i < j < |sent| :: sent[i][1] <= sent[j][1])
  }

  lemma SnapshotsAppend(sent: seq<seq<int>>, fields: seq<int>, consumers: int, capacity: int, messages: int)
    requires Snapshots(sent, consumers, capacity, messages)
    requires |fields| == consumers + 2 >= 2 && AllInt32(fields)
    requires 0 <= fields[0] < capacity && 0 <= fields[1] <= messages
    requires fields[0] + Sum(fields[2..]) == fields[1]
    requires forall i | 0 <= i < |sent| :: sent[i][1] <= fields[1]
    ensures Snapshots(sent + [fields], consumers, capacity, messages)
  {
  }

  /** A producer turn: the next item if there is room, the completion flag
      once all items are in, nothing when it waits or has finished. */
  method ProducerMoves(b: BoundedBuffer, ghost order: ByteOrder, ghost o: Observed)
    requires Consistent(b, order, o)
    modifies b, b.buffer
    ensures Consistent(b, order, o)
    ensures b.dequeued == old(b.dequeued) && b.indexRead == old(b.indexRead)
    ensures old(b.itemsProduced) < b.messages && !old(b.Full()) ==>
      && b.contents == old(b.contents) + [old(b.itemsProduced)]
      && b.itemsProduced == old(b.itemsProduced) + 1
      && b.producingCompleted == old(b.producingCompleted)
    ensures old(b.itemsProduced) == b.messages ==>
      b.producingCompleted && b.contents == old(b.contents) && b.itemsProduced == b.messages
    ensures old(b.itemsProduced) < b.messages && old(b.Full()) ==> unchanged(b, b.buffer)
  {
    if b.itemsProduced < b.messages {
      if !b.Full() {
        b.Produce();
      }
    } else if !b.producingCompleted {
      b.CompleteProduction();
    }
  }

  /** A turn of consumer `id`: nothing if the id is unknown, the consumer
      retired or it waits; otherwise it takes the oldest item or retires. */
  method ConsumerMoves(b: BoundedBuffer, id: int, ghost order: ByteOrder, o: Observed) returns (o': Observed)
    requires Consistent(b, order, o)
    modifies b`indexRead, b`contents, b`dequeued, b.consumed
    ensures Consistent(b, order, o')
    ensures o'.sent == o.sent && o'.wire == o.wire && o'.monitorDone == o.monitorDone
    ensures !(1 <= id <= b.consumers && id !in o.retired && old(ConsumerCanRun(b))) ==>
      o' == o && unchanged(b, b.consumed)
    ensures 1 <= id <= b.consumers && id !in o.retired && old(ConsumerCanRun(b)) && old(b.contents) == [] ==>
      && o' == o.(retired := o.retired + {id}) && b.contents == []
      && b.indexRead == old(b.indexRead) && b.consumed[..] == old(b.consumed[..])
    ensures 1 <= id <= b.consumers && id !in o.retired && old(ConsumerCanRun(b)) && old(b.contents) != [] ==>
      && o'.taken == o.taken + [old(b.contents)[0]] && o'.retired == o.retired
      && b.contents == old(b.contents)[1..]
      && b.consumed[..] == old(b.consumed[..])[id - 1 := old(b.consumed[id - 1]) + 1]
  {
    o' := o;
    if 1 <= id <= b.consumers && id !in o.retired && ConsumerCanRun(b) {
      var done, item := b.Consume(id);
      if done {
        o' := o.(retired := o.retired + {id});
      } else {
        o' := o.(taken := o.taken + [item]);
      }
    }
  }

  /** A monitor turn: nothing once it stopped; otherwise it stops, when
      production is complete and the buffer drained, or sends the record of
      the current queue length, production count and consumers' counters. */
  method MonitorMoves(b: BoundedBuffer, order: ByteOrder, o: Observed) returns (o': Observed)
    requires Consistent(b, order, o)
    ensures Consistent(b, order, o')
    ensures o'.taken == o.taken && o'.retired == o.retired
    ensures o.monitorDone ==> o' == o
    ensures !o.monitorDone && b.producingCompleted && b.contents == [] ==> o' == o.(monitorDone := true)
    ensures !o.monitorDone && !(b.producingCompleted && b.contents == []) ==>
      && !o'.monitorDone
      && o'.sent == o.sent + [[|b.contents|, b.itemsProduced] + b.consumed[..]]
      && o'.wire == o.wire + EncodeRecord(o'.sent[|o.sent|])
  {
    o' := o;
    if !o.monitorDone {
      var stop, record := b.Report();
      if stop {
        o' := o.(monitorDone := true);
      } else {
        var fields := DecodeRecord(record);
        EncodeDecode(record);
        RecordSent(b, order, o, fields, record);
        o' := o.(sent := o.sent + [fields], wire := o.wire + record);
      }
    }
  }

  /** With at least one consumer, some thread can always move until
      production is complete and the buffer drained: the producer has work
      it is not waiting for, or consumer 1 has not retired and has an item
      to take. The threads never deadlock. */
  lemma NoDeadlock(b: BoundedBuffer, order: ByteOrder, o: Observed)
    requires Consistent(b, order, o) && b.consumers >= 1
    ensures !(b.producingCompleted && b.contents == []) ==>
      || ProducerCanRun(b)
      || (1 <= b.consumers && 1 !in o.retired && ConsumerCanRun(b) && b.contents != [])
  {
  }

  /** Without consumers, once the buffer is full and items remain, no
      schedule whatever moves the producer again: every turn leaves the
      queue, the production count and the completion flag as they were. */
  method StuckWithoutConsumers(b: BoundedBuffer, order: ByteOrder, o: Observed, schedule: seq<Step>) returns (o': Observed)
    requires Consistent(b, order, o) && b.consumers == 0
    requires b.itemsProduced < b.messages && b.Full()
    modifies b, b.buffer, b.consumed
    ensures Consistent(b, order, o')
    ensures b.itemsProduced == old(b.itemsProduced) && b.contents == old(b.contents)
    ensures !b.producingCompleted && !ProducerCanRun(b)
  {
    o' := o;
    for n := 0 to |schedule|
      invariant Consistent(b, order, o')
      invariant b.itemsProduced == old(b.itemsProduced) && b.contents == old(b.contents)
      invariant !b.producingCompleted
    {
      match schedule[n]
      case ProducerTurn =>
        ProducerMoves(b, order, o');
      case ConsumerTurn(id) =>
        o' := ConsumerMoves(b, id, order, o');
      case MonitorTurn =>
        o' := MonitorMoves(b, order, o');
    }
  }

  /** Sending the record of the current state keeps the observations
      consistent. */
  lemma RecordSent(b: BoundedBuffer, order: ByteOrder, o: Observed, fields: seq<int>, record: seq<byte>)
    requires Consistent(b, order, o)
    requires fields == [|b.contents|, b.itemsProduced] + b.consumed[..]
    requires AllInt32(fields) && record == EncodeRecord(fields)
    ensures Consistent(b, order, o.(sent := o.sent + [fields], wire := o.wire + record))
  {
    assert fields[2..] == b.consumed[..];
    b.Balanced();
    SnapshotsAppend(o.sent, fields, b.consumers, b.capacity, b.messages);
    StreamAppend(o.sent, fields);
    AppendAssoc(HostBytes(b.consumers, order), Stream(o.sent), record);
  }

  lemma AppendAssoc(a: seq<byte>, b: seq<byte>, c: seq<byte>)
    ensures (a + b) + c == a + (b + c)
  {
  }

  /** Runs a schedule from the initial state; a turn of a waiting thread, of
      a retired consumer, of a consumer id out of range or of a finished
      thread changes nothing. Returns the buffer and what was observed: the
      items the consumers took in order, the records the monitor sent and
      the bytes on its connection. */
  method Simulate(capacity: int, messages: int, consumers: int, order: ByteOrder, schedule: seq<Step>)
    returns (b: BoundedBuffer, o: Observed)
    requires 2 <= capacity && IsInt32(capacity)
    requires 0 <= messages && IsInt32(messages)
    requires 0 <= consumers && IsInt32(consumers)
    ensures b.Valid() && b.capacity == capacity && b.messages == messages && b.consumers == consumers
    ensures o.taken == b.dequeued && o.taken + b.contents == Range(b.itemsProduced)
    ensures Sum(b.consumed[..]) == |o.taken|
    ensures Snapshots(o.sent, consumers, capacity, messages)
    ensures forall i | 0 <= i < |o.sent| :: o.sent[i][1] <= b.itemsProduced
    ensures o.wire == HostBytes(consumers, order) + Stream(o.sent)
  {
    b := new BoundedBuffer(capacity, messages, consumers);
    o := Observed([], [], HostBytes(consumers, order), {}, false);
    for n := 0 to |schedule|
      invariant fresh(b.buffer) && fresh(b.consumed)
      invariant Consistent(b, order, o)
      invariant b.capacity == capacity && b.messages == messages && b.consumers == consumers
    {
      match schedule[n]
      case ProducerTurn =>
        ProducerMoves(b, order, o);
      case ConsumerTurn(id) =>
        o := ConsumerMoves(b, id, order, o);
      case MonitorTurn =>
        o := MonitorMoves(b, order, o);
    }
    assert o.taken + b.contents == Range(b.itemsProduced);
  }

  /** The server, reading the monitor's connection after it closes, collects
      exactly the records the monitor sent. */
  lemma ServerHearsAll(consumers: int, order: ByteOrder, sent: seq<seq<int>>)
    requires 0 <= consumers && IsInt32(consumers) && Uniform(sent, consumers + 2)
    ensures Collect(Peer(HostBytes(consumers, order) + Stream(sent), []), order) == Ended(consumers, sent)
  {
    var peer := Peer(HostBytes(consumers, order) + Stream(sent), []);
    assert peer.sent == HostBytes(consumers, order) + (Stream(sent) + []);
    CollectStream(peer, order, consumers, sent, []);
  }

  /** The greedy run, in which the producer moves whenever it can and
      consumer 1 otherwise, terminates: it ends with production complete, the
      buffer drained and every item taken once, in order. */
  method RunToCompletion(capacity: int, messages: int, consumers: int) returns (b: BoundedBuffer)
    requires 2 <= capacity && IsInt32(capacity)
    requires 0 <= messages && IsInt32(messages)
    requires 1 <= consumers
    ensures b.Valid() && b.producingCompleted && b.contents == []
    ensures b.itemsProduced == messages && b.dequeued == Range(messages)
    ensures Sum(b.consumed[..]) == messages
  {
    b := new BoundedBuffer(capacity, messages, consumers);
    while !(b.producingCompleted && b.Empty())
      invariant fresh(b.buffer) && fresh(b.consumed)
      invariant b.Valid() && b.messages == messages && b.consumers == consumers
      decreases 2 * (b.messages - b.itemsProduced) + |b.contents| + (if b.producingCompleted then 0 else 1)
    {
      if ProducerCanRun(b) {
        if b.itemsProduced < b.messages {
          b.Produce();
        } else {
          b.CompleteProduction();
        }
      } else {
        var _, _ := b.Consume(1);
      }
    }
    b.Drained();
  }
}
