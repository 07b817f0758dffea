# Producer/consumer telemetry: a Dafny model

The repository is a set of small C programs around one idea. A client
process runs one producer thread, `K` consumer threads and a monitor thread
over a bounded ring buffer. The monitor connects to a server. It first sends
the consumer count `K` as a raw `int`. It then sends periodic snapshot
records `[queue length, items produced, consumed[0], ..., consumed[K-1]]`,
each field in network byte order. The server reads the count, then reads
whole records with a read-until-full `receive` routine until a receive
fails, and decodes each field with `ntohl`.

The model has five modules:

- `Wire` (`wire.dfy`): the byte layout. It covers C `int` fields and
  `htonl`/`ntohl` as a big-endian image of the 32-bit two's-complement
  word. It also covers the snapshot record of `4 * (K + 2)` bytes, a stream
  of records sent back to back, and the raw host-order handshake integer.
- `Transport` (`transport.dfy`): one `recv` call and the `receive` routine.
  The other end of a connection is a value, `Peer(sent, grants)`. `sent`
  holds the bytes it sends before closing. `grants` is how many bytes each
  successive `recv` hands over at most; a non-positive grant is a transport
  error. `Receive` is the source's loop over a caller's array, proved
  against the function `ReceiveOutcome`.
- `Collector` (`collector.dfy`): the server side of one connection
  (`handleConnection` in core/server.c, and the loops in `main` of
  server.c and monitor.c). The handshake is followed by the record loop.
  `HandleConnection` and `ReadRecords` are proved against the function
  `Collect`, which is proved to read back exactly the records a
  well-behaved peer sent.
- `Pipeline` (`pipeline.dfy`): the ring buffer as the class
  `BoundedBuffer`. Its fields are `buffer` and `consumed` arrays, the two
  indices, `producing_completed` and `items_produced`. A ghost queue
  `contents` and a ghost log `dequeued` give the abstract view. Each
  critical section is one method, and the condition-variable wait becomes
  its precondition.
- `Scheduler` (`scheduler.dfy`): the threads as turns. A schedule is any
  sequence of producer, consumer and monitor turns. A turn of a waiting or
  finished thread changes nothing. The model proves three things about any
  schedule: FIFO delivery with no loss or duplication, counter
  conservation, and well-formed records on the wire. Each record balances
  (queue length plus counters equals items produced), and production
  counts never decrease from record to record. Separately, with at least
  one consumer some thread can always move until the buffer is drained
  after completion, and without consumers a full buffer stops the
  producer for good.
- `CoreVariant` (`corevariant.dfy`): the `& BUFFER_SIZE` read-index advance
  of core/client.c, and why it is wrong.

The three clients share one ring-buffer logic, with different constants:

| program | `BUFFER_SIZE` | `MESSAGES` | Dafny constants |
|---|---|---|---|
| prodcons.c | 10 | 1024 | `PRODCONS_BUFFER_SIZE`, `PRODCONS_MESSAGES` |
| client.c | 10 | 1000 | `CLIENT_BUFFER_SIZE`, `CLIENT_MESSAGES` |
| core/client.c | 16 | 1024 | `CORE_BUFFER_SIZE`, `CORE_MESSAGES` |

`BoundedBuffer` takes the capacity and message count as constructor
arguments, so one class serves all three.

Modelling decisions:

- **Producer counter.** The producer's loop counter `i`, `items_produced`
  (incremented after the unlock at prodcons.c:72) and core/client.c's
  `item`/`msg_produced` pair are one field, `itemsProduced`. In an atomic
  producer step they are always equal, so `Produce` stores
  `itemsProduced` and increments it.
- **Monitor snapshot.** The monitor's snapshot is taken atomically
  (`Report`). The source reads the counters outside the lock.
- **Consumer counters.** The `consumed` counters start at 0. The source
  `malloc`s them without zeroing.
- **Host byte order.** The byte order of a host appears as a parameter,
  `ByteOrder`. The handshake integer is sent and received without `htonl`.
- **Receive results.** A `receive` result is `0` or `-1`. So `< 0` (server.c)
  and `== -1` (monitor.c, core/server.c) break the record loop alike.
- **Non-positive record size.** When the handshake count is `-2` or less,
  the record buffer has size `<= 0`. Each `receive` then returns 0 without
  reading, and the server loop never ends. `Collect` returns `Spinning`
  for that case.

## Model

| member | source | states |
|---|---|---|
| Wire.ToUint32 | prodcons.c:176-177 | The `int` passed to `htonl` becomes a 32-bit word in [0, 2^32) congruent to it modulo 2^32 |
| Wire.ToInt32 | core/server.c:55-56 | The `uint32_t` from `ntohl`, printed with `%d`, is the C `int` congruent to it modulo 2^32 |
| Wire.NtohlHtonl | core/server.c:55-58 | `ntohl` of the 4-byte `htonl` image of any C `int` gives the `int` back |
| Wire.HtonlNtohl | server.c:85-88 | Any 4 bytes received decode by `ntohl` to the `int` whose `htonl` image they are |
| Wire.Htonl | prodcons.c:176-179 | `htonl` of a C `int` is 4 bytes that spell its 32-bit two's-complement word, most significant first |
| Wire.Ntohl | server.c:86-88 | `ntohl` of 4 bytes, printed with `%d`, is the C `int` whose 32-bit word they spell, most significant first |
| Wire.EncodeRecord | prodcons.c:175-180 | The record of n fields is 4n bytes, and bytes 4i..4i+3 are `htonl` of field i |
| Wire.DecodeRecord | monitor.c:85-89 | A buffer of 4n bytes gives n C `int`s, and field i is `ntohl` of bytes 4i..4i+3 |
| Wire.DecodeEncode | client.c:160-165 | Decoding an encoded record returns the original fields |
| Wire.EncodeDecode | core/server.c:48-58 | Encoding a decoded record buffer reproduces the buffer byte for byte |
| Wire.Stream | client.c:167 | Records sent back to back by repeated `send`s make a whole number of 4-byte fields |
| Wire.StreamLength | prodcons.c:182 | m records of n fields sent back to back make 4nm bytes |
| Wire.StreamAppend | client.c:167 | Sending one more record appends exactly its encoding to the stream |
| Wire.HostBytes | prodcons.c:152 | The raw `int` is 4 bytes, equal to its `htonl` image on a big-endian host |
| Wire.FromHostBytes | server.c:73-74 | The raw count received is the C `int` whose memory image, on the receiving host, the 4 bytes are |
| Wire.HandshakeRoundTrip | server.c:72-78 | A receiver with the sender's byte order reads back the same consumer count |
| Wire.HandshakeByteOrderMismatch | client.c:140 | Because the count skips `htonl`, a big-endian server reads a little-endian count of 1 as 2^24 |
| Transport.Recv | core/server.c:24 | A `recv` of `len` bytes returns -1 on error, 0 when closed with nothing pending, and otherwise at most `len` bytes taken from the front of the pending bytes |
| Transport.RecvResult | core/server.c:25-28 | `recv` returns -1 exactly on a transport error, and 0 exactly when nothing is pending and no error occurs |
| Transport.AccumulateSound | core/server.c:17-30 | The loop ends with status 0 or -1, and `totalSize` stays between its start and `size`. The bytes read are exactly the increase of `totalSize`, and status is 0 exactly when `totalSize == size` |
| Transport.ReceiveOutcome | monitor.c:14-25 | `receive` returns 0 or -1. Its bytes are a prefix of the pending stream, no longer than `size`, and status 0 holds exactly when `size` bytes arrived |
| Transport.RecvInto | core/server.c:24 | `recv` at offset `totalSize` writes its chunk there, in stream order. The bytes before and after the chunk are untouched, and a result `<= 0` writes nothing |
| Transport.Receive | prodcons.c:112-124 | The loop over `retBuf` returns what `ReceiveOutcome` states. It leaves the accumulated bytes at the front of `retBuf` and the rest of `retBuf` untouched |
| Transport.ReceiveSuccess | server.c:15-26 | A 0 return means exactly the next `size` bytes were read, in order, and the rest stay pending |
| Transport.AccumulateSucceedsIff | core/client.c:185-191 | Without transport errors the loop reaches `size` exactly when enough bytes are pending |
| Transport.ReceiveSucceedsIff | core/client.c:183-192 | Without transport errors `receive` returns 0 exactly when the peer sent at least `size` more bytes |
| Transport.ReceiveNothing | core/server.c:17 | With `size <= 0`, `receive` returns 0 without calling `recv` |
| Transport.ReceiveFailure | core/server.c:24-28 | A -1 return has fewer than `size` bytes. It is returned even after some bytes arrived: one byte, then a close, fails a 2-byte receive |
| Collector.Collect | server.c:72-91 | A connection ends in one of three ways. A failed handshake gives no count. A count with a non-positive record size spins. Otherwise a C `int` count is read, and records of `count + 2` C `int`s each follow |
| Collector.Records | core/server.c:50-61 | Every record read has `consumers + 2` C `int`s |
| Collector.DecodeFields | core/server.c:55-58 | The fields printed are `ntohl` of each 4-byte group of the record buffer, in order (for a count of -1 see "## Left out") |
| Collector.ReadRecords | server.c:80-91 | The record loop over `message` reads exactly the records `Records` describes, ending at the first failed receive |
| Collector.HandleConnection | core/server.c:36-65 | One connection has three outcomes. A failed handshake aborts. A non-positive record size spins. Otherwise the records are read until the first failed receive. The whole is what `Collect` states |
| Collector.RecordsAreStream | monitor.c:78-91 | Without transport errors the records read are the whole records at the front of the stream, back to back. Their count is the number of whole records, and a trailing partial record is dropped |
| Collector.RecordsOfStream | core/server.c:50-52 | Records sent back to back and followed by less than one record are read back in full and in order |
| Collector.CollectStream | core/server.c:42-61 | A peer of the server's byte order that sends a count, whole records and then less than one record is heard out: `Ended(count, records)` |
| Collector.HandshakeFailsIff | core/server.c:42-46 | Without transport errors the handshake fails exactly when fewer than 4 bytes arrive |
| Pipeline.Advance | prodcons.c:68 | The index advance stays in [0, BUFFER_SIZE) and wraps from the last slot to slot 0 |
| Pipeline.QueueLength | prodcons.c:159 | The queue length is in [0, BUFFER_SIZE-1], and that many slots after `index_read` lies `index_write` |
| Pipeline.HoldsDequeue | prodcons.c:97-98 | The item read at `index_read` is the oldest queued item, and after the advance the rest of the queue lies from the new read slot on |
| Pipeline.HoldsEnqueue | prodcons.c:67-68 | Writing at the slot just past the queue appends the item at the back, provided one slot stays free |
| Pipeline.TallyIncrement | core/client.c:107 | Incrementing one consumer's counter keeps every counter non-negative and raises their total by one |
| Pipeline.SnapshotFields | core/client.c:164-170 | The queue length, the production count and every per-consumer counter fit a C `int` field of the record |
| Pipeline.SumIncrement | prodcons.c:99 | Incrementing one consumer's counter increments the total consumed by one |
| Pipeline.SumBound | client.c:163-165 | No consumer's counter exceeds the total consumed, so each fits an `int` field |
| Pipeline.BoundedBuffer.constructor | prodcons.c:32-36 | Both indices start at 0, nothing is produced, production is not completed and every counter is 0 |
| Pipeline.BoundedBuffer.Full | prodcons.c:59 | The producer waits exactly when BUFFER_SIZE-1 items are buffered |
| Pipeline.BoundedBuffer.Empty | prodcons.c:90 | `index_read == index_write` exactly when no item is buffered |
| Pipeline.BoundedBuffer.Produce | prodcons.c:58-72 | The item numbered `items_produced` goes to `buffer[index_write]` and nothing else in `buffer` changes. `index_write` advances modulo BUFFER_SIZE and the item joins the back of the queue. The read index, the counters and the flag are unchanged |
| Pipeline.BoundedBuffer.CompleteProduction | prodcons.c:74-80 | After `MESSAGES` items the flag goes from false to true, and nothing else changes |
| Pipeline.BoundedBuffer.Consume | prodcons.c:89-99 | A consumer retires, changing nothing, exactly when completion is set and the buffer is empty. Otherwise it takes `buffer[index_read]`, the front of the queue, and `index_read` advances modulo BUFFER_SIZE. Only `consumed[id-1]` is incremented |
| Pipeline.BoundedBuffer.Report | prodcons.c:158-180 | The monitor stops exactly when completed and empty. Otherwise it sends `4 * (K + 2)` bytes, which decode to the number of buffered items, `items_produced` and every `consumed[i]` |
| Pipeline.BoundedBuffer.Balanced | prodcons.c:159-179 | The queue length plus all consumers' counters equals `items_produced`, the balance every snapshot shows |
| Pipeline.BoundedBuffer.Drained | prodcons.c:93-96 | At completed-and-empty the items taken are 0..MESSAGES-1 in order, and the counters sum to MESSAGES |
| Scheduler.NoDeadlock | prodcons.c:59-61 | In any consistent state with at least one consumer, until the buffer is drained after completion, the producer can move, or consumer 1 has not retired and can take an item |
| Scheduler.StuckWithoutConsumers | client.c:58-60 | With no consumer, a full buffer and items left, every schedule of further turns leaves the queue, the production count and the flag unchanged, so the producer stays blocked forever |
| Scheduler.ProducerMoves | prodcons.c:54-80 | A producer turn keeps the observations consistent, and the read index and the items taken are unchanged. With room and items left, item `items_produced` joins the back of the queue and the count goes up by one, with the flag unchanged. With all items in, the flag is set and the queue and count are unchanged. While the buffer is full and items remain, nothing changes |
| Scheduler.ConsumerMoves | client.c:89-107 | A consumer turn keeps the observations consistent. It never touches the monitor's records or bytes, the write index, the production count or the completion flag. An unknown, retired or waiting consumer changes nothing. At completed-and-empty the consumer retires, and the read index and counters are unchanged. Otherwise the front of the queue is removed and appended to the observed order, and only `consumed[id-1]` goes up, by one |
| Scheduler.MonitorMoves | client.c:144-173 | A monitor turn changes nothing once the monitor has stopped, and it stops at completed-and-empty. Otherwise the record `[queue length, items_produced, consumed[0..K-1]]` is sent, and its encoding is appended to the connection's bytes |
| Scheduler.Simulate | prodcons.c:53-109 | For any schedule the indices stay in range. The items taken followed by those buffered are 0..items_produced-1, so delivery is FIFO with no loss or duplicate. The counters sum to the items taken. The connection is the raw count followed by the records sent. In every record sent, the queue length plus the counters equals the production count. Production counts never decrease from record to record, and none exceeds the final `items_produced` |
| Scheduler.ServerHearsAll | server.c:72-91 | The server reading the monitor's connection collects exactly the records the monitor sent |
| Scheduler.RunToCompletion | core/client.c:62-88 | The greedy run terminates: the producer moves when it can, consumer 1 otherwise. It ends with production complete and the buffer drained. Every item is produced once and taken once, in order, and the counters sum to MESSAGES |
| CoreVariant.AdvanceReadAsWritten | core/client.c:110 | `(read_pos + 1) & 16` is 16 from slot 15 and 0 from every other slot |
| CoreVariant.AsWrittenNeverAdvances | core/client.c:110 | The masked advance differs from the modulo advance at every slot |
| CoreVariant.AsWrittenLeavesBuffer | core/client.c:106-110 | From slot 15 the read index becomes 16, outside `buffer[16]` |
| CoreVariant.AsWrittenDeliversTwice | core/client.c:106-110 | Two dequeues from slot 0 both read slot 0 and deliver item 0 twice, where the modulo advance reads item 1 |

## Left out

- Threads, mutexes, condition variables, signal and broadcast are left out.
  Each critical section is one atomic method, each wait loop is its
  precondition, and interleavings are the turns of a schedule. Deadlock
  freedom is argued over that driver, not over scheduler fairness.
- Sleeps, `rand` and the monitor's print interval are left out: they only
  affect timing.
- Socket plumbing is left out: socket creation, connect, bind, listen,
  accept, close and address lookup. `send` is appending bytes to the
  connection. `recv` is the `Peer` value's next grant, and its blocking
  until data arrives is not modelled.
- Failures of `send`, `perror`/`exit`, `printf`, the `DEBUG` blocks, argv
  parsing and the `malloc` failure checks are left out. A failed handshake
  is the `HandshakeFailed` outcome, not a process exit.
- The length-prefixed command shell in core/client.c (lines 195-270) is
  not part of this model.
- core/client.c does not compile as written. There is a missing `;` after
  the struct (line 48), a non-constant static initialiser (53-56), a
  pointer assigned to a struct (125), a bare `#ifdef` (139) and an
  undeclared `consumed` (157). The model follows the evident intent.
- The core/client.c producer locks at line 66 on every turn and never
  unlocks or signals. The model gives it the prodcons.c critical section.
- The monitor reads `items_produced` and `consumed` outside the lock, and
  the producer increments `items_produced` after unlocking. So a source
  snapshot can mix states. `Pipeline.BoundedBuffer.Report` takes it
  atomically.
- The `consumed` counters are `malloc`ed without zeroing. The model starts
  them at 0.
- Pipeline.BoundedBuffer.constructor: requires a non-negative consumer
  count and a capacity of at least 2 (the source's constants are 10 and
  16). A negative `consumers_number` from argv would make a negative-size
  `malloc` and VLA in the source.
- Collector.HandleConnection: does not model the size truncation of
  `sizeof(msg)` to `int` when `4 * (consumers + 2)` exceeds `INT_MAX`, or
  the stack overflow of so large a VLA. It also does not model the
  undefined behaviour of a VLA of size `<= 0`; that case is the `Spinning`
  outcome, read as a `receive` of size `<= 0` that returns 0 at once.
- Collector.HandleConnection: does not model the out-of-bounds read for a
  handshake count of -1. The record buffer then holds a single `int`, yet
  the servers still print `ntohl` of its second element (core/server.c:56,
  server.c:86, monitor.c:85). The model decodes and returns only the one
  field the buffer holds.
- Collector.HandleConnection: the endless accept loop of server.c and
  monitor.c serves connections one after another. Only one connection is
  modelled.
- Scheduler.RunToCompletion: shows that the greedy run finishes, not that
  every fair schedule does.

## Findings

| source | as written | input that shows it | evidently intended | confidence | as-written member | corrected member |
|---|---|---|---|---|---|---|
| core/client.c:110 | `read_pos = (read_pos + 1) & BUFFER_SIZE` with `BUFFER_SIZE` 16 keeps only bit 4 of the index | `read_pos` 0 with items 0 and 1 buffered: the next read is slot 0 again, so item 0 is delivered twice. `read_pos` 15 steps to 16, outside the array | `read_pos = (read_pos + 1) % BUFFER_SIZE`, as in prodcons.c:98 and client.c:99 | high, by proof; not executed | CoreVariant.AsWrittenDeliversTwice | Pipeline.Advance |
