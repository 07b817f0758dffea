/** The bounded ring buffer shared by the producer, the consumers and the
    monitor of the telemetry client: one slot is always left free so that
    "full" (`(index_write + 1) % BUFFER_SIZE == index_read`) and "empty"
    (`index_read == index_write`) can be told apart. Each critical section is
    one atomic method; the condition-variable waits become preconditions. */
module Pipeline {
  import opened Wire

  /** `BUFFER_SIZE` and `MESSAGES` of the three client programs. */
  const PRODCONS_BUFFER_SIZE := 10
  const PRODCONS_MESSAGES := 1024
  const CLIENT_BUFFER_SIZE := 10
  const CLIENT_MESSAGES := 1000
  const CORE_BUFFER_SIZE := 16
  const CORE_MESSAGES := 1024

  /** The remainder of `d` by `c` when `d` is less than two laps of `c`. */
  lemma ModOnce(d: int, c: int)
    requires c > 0 && 0 <= d < 2 * c
    ensures d % c == if d < c then d else d - c
  {
    var q, r := d / c, d % c;
    assert d == c * q + r && 0 <= r < c;
    assert 0 <= q <= 1;
  }

  /** `(index + 1) % BUFFER_SIZE`: the next slot, wrapping round to slot 0. */
  function Advance(index: int, capacity: int): (next: int)
    requires 0 <= index < capacity
    ensures 0 <= next < capacity
    ensures next == if index == capacity - 1 then 0 else index + 1
  {
    ModOnce(index + 1, capacity);
    (index + 1) % capacity
  }

  /** The slot `k` places after `index`, going round the ring. */
  function Slot(index: int, k: int, capacity: int): int
    requires 0 <= index < capacity && 0 <= k < capacity
  {
    if index + k < capacity then index + k else index + k - capacity
  }

  /** `(index_write - index_read + BUFFER_SIZE) % BUFFER_SIZE`: how many slots
      the reader is behind the writer. */
  function QueueLength(write: int, read: int, capacity: int): (n: int)
    requires 0 <= write < capacity && 0 <= read < capacity
    ensures 0 <= n < capacity
    ensures Slot(read, n, capacity) == write
  {
    ModOnce(write - read + capacity, capacity);
    (write - read + capacity) % capacity
  }

  /** The items `0, 1, ..., n - 1`, in production order. */
  function Range(n: nat): (items: seq<int>)
    ensures |items| == n
    ensures forall i | 0 <= i < n :: items[i] == i
  {
    if n == 0 then [] else Range(n - 1) + [n - 1]
  }

  function Sum(s: seq<int>): int {
    if s == [] then 0 else Sum(s[..|s| - 1]) + s[|s| - 1]
  }

  /** Incrementing one counter increments the total by one. */
  lemma {:induction false} SumIncrement(s: seq<int>, i: int)
    requires 0 <= i < |s|
    ensures Sum(s[i := s[i] + 1]) == Sum(s) + 1
  {
    var t := s[i := s[i] + 1];
    if i < |s| - 1 {
      assert t[..|t| - 1] == s[..|s| - 1][i := s[i] + 1];
      SumIncrement(s[..|s| - 1], i);
    } else {
      assert t[..|t| - 1] == s[..|s| - 1];
    }
  }

  /** Counters that start at zero add up to zero. */
  lemma {:induction false} SumZero(s: seq<int>)
    requires forall i | 0 <= i < |s| :: s[i] == 0
    ensures Sum(s) == 0
  {
    if s != [] {
      SumZero(s[..|s| - 1]);
    }
  }

  /** No counter of non-negative counters exceeds their total. */
  lemma {:induction false} SumBound(s: seq<int>, i: int)
    requires forall j | 0 <= j < |s| :: 0 <= s[j]
    requires 0 <= i < |s|
    ensures 0 <= s[i] <= Sum(s)
  {
    var front := s[..|s| - 1];
    if i < |s| - 1 {
      SumBound(front, i);
    } else if front != [] {
      SumBound(front, |front| - 1);
    }
  }

  /** The queue `items` lies in the ring `buf`, oldest first, from slot
      `read` on. */
  ghost predicate Holds(buf: seq<int>, read: int, items: seq<int>) {
    && 0 <= read < |buf| && |items| < |buf|
    && forall k | 0 <= k < |items| :: buf[Slot(read, k, |buf|)] == items[k]
  }

  /** Taking the oldest item: it is the one at the read slot, and the rest
      of the queue lies from the next slot on. */
  lemma HoldsDequeue(buf: seq<int>, read: int, items: seq<int>)
    requires Holds(buf, read, items) && items != []
    ensures buf[read] == items[0]
    ensures Holds(buf, Advance(read, |buf|), items[1..])
  {
    assert Slot(read, 0, |buf|) == read;
    var next := Advance(read, |buf|);
    forall k | 0 <= k < |items| - 1
      ensures buf[Slot(next, k, |buf|)] == items[1..][k]
    {
      assert Slot(next, k, |buf|) == Slot(read, k + 1, |buf|);
    }
  }

  /** Storing an item in the slot just past the queue appends it, as long
      as one slot stays free. */
  lemma HoldsEnqueue(buf: seq<int>, read: int, items: seq<int>, x: int)
    requires Holds(buf, read, items) && |items| < |buf| - 1
    ensures Holds(buf[Slot(read, |items|, |buf|) := x], read, items + [x])
  {
    var slot := Slot(read, |items|, |buf|);
    forall k | 0 <= k < |items|
      ensures Slot(read, k, |buf|) != slot
    {
    }
  }

  /** Non-negative per-consumer counters adding up to `total`. */
  ghost predicate Tally(counts: seq<int>, total: int) {
    && (forall i | 0 <= i < |counts| :: 0 <= counts[i])
    && Sum(counts) == total
  }

  /** Counting one more item for one consumer keeps the tally. */
  lemma TallyIncrement(counts: seq<int>, i: int, total: int)
    requires Tally(counts, total) && 0 <= i < |counts|
    ensures Tally(counts[i := counts[i] + 1], total + 1)
  {
    SumIncrement(counts, i);
  }

  /** Every field of a snapshot fits a C `int` when the counters total no
      more than a C `int` holds. */
  lemma SnapshotFields(queueLength: int, produced: int, counts: seq<int>, total: int)
    requires IsInt32(queueLength) && IsInt32(produced)
    requires Tally(counts, total) && total < INT_LIMIT
    ensures AllInt32([queueLength, produced] + counts)
  {
    var fields := [queueLength, produced] + counts;
    forall i | 2 <= i < |fields|
      ensures IsInt32(fields[i])
    {
      SumBound(counts, i - 2);
    }
  }

  /** The shared state of one client process: `buffer`, `index_write`,
      `index_read`, `producing_completed`, `items_produced` and `consumed`.
      `contents` is the queue the ring holds, oldest first, and `dequeued`
      the items the consumers have taken, in the order they took them. */
  class BoundedBuffer {
    const capacity: int
    const messages: int
    const consumers: int
    const buffer: array<int>
    const consumed: array<int>
    var indexWrite: int
    var indexRead: int
    var producingCompleted: bool
    var itemsProduced: int
    ghost var contents: seq<int>
    ghost var dequeued: seq<int>

    ghost predicate Valid()
      reads this, buffer, consumed
    {
      && 2 <= capacity == buffer.Length && IsInt32(capacity)
      && 0 <= consumers == consumed.Length && buffer != consumed
      && 0 <= messages && IsInt32(messages)
      && 0 <= indexWrite < capacity && 0 <= indexRead < capacity
      && |contents| == QueueLength(indexWrite, indexRead, capacity)
      && Holds(buffer[..], indexRead, contents)
      && 0 <= itemsProduced <= messages
      && (producingCompleted ==> itemsProduced == messages)
      && dequeued + contents == Range(itemsProduced)
      && Tally(consumed[..], |dequeued|)
    }

    /** The state before any thread runs: both indices at slot 0, nothing
        produced and every consumer's counter at zero. */
    constructor (capacity: int, messages: int, consumers: int)
      requires 2 <= capacity && IsInt32(capacity)
      requires 0 <= messages && IsInt32(messages)
      requires 0 <= consumers
      ensures Valid() && fresh(buffer) && fresh(consumed)
      ensures this.capacity == capacity && this.messages == messages && this.consumers == consumers
      ensures indexWrite == 0 && indexRead == 0 && itemsProduced == 0 && !producingCompleted
      ensures contents == [] && dequeued == []
      ensures forall i | 0 <= i < consumers :: consumed[i] == 0
    {
      this.capacity := capacity;
      this.messages := messages;
      this.consumers := consumers;
      buffer := new int[capacity];
      consumed := new int[consumers](_ => 0);
      indexWrite := 0;
      indexRead := 0;
      producingCompleted := false;
      itemsProduced := 0;
      contents := [];
      dequeued := [];
      new;
      SumZero(consumed[..]);
    }

    /** The producer's wait condition: one more item would make the write
        index catch up with the read index. */
    predicate Full()
      reads this, buffer, consumed
      requires Valid()
      ensures Full() <==> |contents| == capacity - 1
    {
      Advance(indexWrite, capacity) == indexRead
    }

    /** The consumers' wait condition. */
    predicate Empty()
      reads this, buffer, consumed
      requires Valid()
      ensures Empty() <==> contents == []
    {
      indexRead == indexWrite
    }

    /** One turn of the producer loop once there is room: the next item,
        numbered by `items_produced`, goes into the write slot. */
    method Produce()
      requires Valid() && !Full() && itemsProduced < messages
      modifies this`indexWrite, this`itemsProduced, this`contents, buffer
      ensures Valid()
      ensures buffer[..] == old(buffer[..])[old(indexWrite) := old(itemsProduced)]
      ensures indexWrite == Advance(old(indexWrite), capacity)
      ensures itemsProduced == old(itemsProduced) + 1
      ensures contents == old(contents) + [old(itemsProduced)]
    {
      HoldsEnqueue(buffer[..], indexRead, contents, itemsProduced);
      buffer[indexWrite] := itemsProduced;
      indexWrite := Advance(indexWrite, capacity);
      contents := contents + [itemsProduced];
      assert dequeued + contents == (dequeued + old(contents)) + [itemsProduced];
      itemsProduced := itemsProduced + 1;
    }

    /** The producer's last critical section, after `MESSAGES` turns. */
    method CompleteProduction()
      requires Valid() && itemsProduced == messages && !producingCompleted
      modifies this`producingCompleted
      ensures Valid() && producingCompleted
    {
      producingCompleted := true;
    }

    /** One turn of consumer `id` once it no longer waits: it retires when
        production is complete and the buffer is empty, and otherwise takes
        the item at the read slot and counts it. */
    method Consume(id: int) returns (retired: bool, item: int)
      requires Valid() && 1 <= id <= consumers
      requires producingCompleted || !Empty()
      modifies this`indexRead, this`contents, this`dequeued, consumed
      ensures Valid()
      ensures retired <==> old(contents) == []
      ensures retired ==> indexRead == old(indexRead) && consumed[..] == old(consumed[..]) && dequeued == old(dequeued)
      ensures !retired ==> item == old(buffer[indexRead]) && item == old(contents)[0]
      ensures !retired ==> contents == old(contents)[1..] && dequeued == old(dequeued) + [item]
      ensures !retired ==> indexRead == Advance(old(indexRead), capacity)
      ensures !retired ==> consumed[..] == old(consumed[..])[id - 1 := old(consumed[id - 1]) + 1]
    {
      if producingCompleted && indexRead == indexWrite {
        return true, 0;
      }
      HoldsDequeue(buffer[..], indexRead, contents);
      item := buffer[indexRead];
      indexRead := Advance(indexRead, capacity);
      TallyIncrement(consumed[..], id - 1, |dequeued|);
      consumed[id - 1] := consumed[id - 1] + 1;
      assert (dequeued + [item]) + contents[1..] == dequeued + contents;
      dequeued := dequeued + [item];
      contents := contents[1..];
      retired := false;
    }

    /** The monitor's turn: it stops once production is complete and the
        buffer is empty; otherwise it sends the record
        `[queue length, items produced, consumed[0], ..., consumed[K-1]]`,
        each field in network byte order. */
    method Report() returns (stop: bool, record: seq<byte>)
      requires Valid()
      ensures stop <==> producingCompleted && contents == []
      ensures !stop ==> |record| == 4 * (consumers + 2)
      ensures !stop ==> DecodeRecord(record) == [|contents|, itemsProduced] + consumed[..]
    {
      var queueLength := QueueLength(indexWrite, indexRead, capacity);
      if producingCompleted && indexRead == indexWrite {
        return true, [];
      }
      var message := new int[consumers + 2];
      message[0] := queueLength;
      message[1] := itemsProduced;
      for i := 0 to consumers
        invariant message[0] == queueLength && message[1] == itemsProduced
        invariant message[2..i + 2] == consumed[..i]
      {
        message[i + 2] := consumed[i];
        assert message[2..i + 3] == message[2..i + 2] + [consumed[i]];
        assert consumed[..i + 1] == consumed[..i] + [consumed[i]];
      }
      var fields := message[..];
      assert fields == [queueLength, itemsProduced] + consumed[..];
      assert |dequeued| <= itemsProduced;
      SnapshotFields(queueLength, itemsProduced, consumed[..], |dequeued|);
      record := EncodeRecord(fields);
      DecodeEncode(fields);
      stop := false;
    }

    /** Every item produced is either still queued or counted by exactly one
        consumer: the balance a snapshot of the monitor shows. */
    lemma Balanced()
      requires Valid()
      ensures |contents| + Sum(consumed[..]) == itemsProduced
    {
      assert |dequeued + contents| == |Range(itemsProduced)|;
    }

    /** When production is complete and the buffer is empty, every item was
        taken exactly once, in order, and the counters add up to `MESSAGES`. */
    lemma Drained()
      requires Valid() && producingCompleted && contents == []
      ensures dequeued == Range(messages)
      ensures Sum(consumed[..]) == messages
    {
      assert dequeued == dequeued + contents;
    }
  }
}
