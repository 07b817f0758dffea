/** The read-index advance of the consumer in core/client.c, which masks
    with `& BUFFER_SIZE` where the other clients take `% BUFFER_SIZE`. With
    `BUFFER_SIZE` 16, a power of two, the mask keeps only bit 4: the index
    falls back to slot 0 from every slot but the last, and leaves the
    buffer from the last. The corrected advance is `Pipeline.Advance`. */
module CoreVariant {
  import opened Pipeline

  /** `(read_pos + 1) & BUFFER_SIZE` on a 32-bit `int`, as written. */
  function AdvanceReadAsWritten(readPos: int): (next: int)
    requires 0 <= readPos < CORE_BUFFER_SIZE
    ensures next == if readPos == CORE_BUFFER_SIZE - 1 then CORE_BUFFER_SIZE else 0
  {
    (((readPos + 1) as bv32) & (CORE_BUFFER_SIZE as bv32)) as int
  }

  /** The masked advance agrees with the modulo advance at no slot at all. */
  lemma AsWrittenNeverAdvances(readPos: int)
    requires 0 <= readPos < CORE_BUFFER_SIZE
    ensures AdvanceReadAsWritten(readPos) != Advance(readPos, CORE_BUFFER_SIZE)
  {
    var masked := AdvanceReadAsWritten(readPos);
    assert masked == 0 || masked == CORE_BUFFER_SIZE;
    if readPos < CORE_BUFFER_SIZE - 1 {
      assert masked == 0 && Advance(readPos, CORE_BUFFER_SIZE) == readPos + 1;
    }
  }

  /** From the last slot the masked advance yields 16, outside `buffer[16]`:
      the next `buffer[read_pos]` reads past the array. */
  lemma AsWrittenLeavesBuffer()
    ensures AdvanceReadAsWritten(CORE_BUFFER_SIZE - 1) == CORE_BUFFER_SIZE
    ensures !(0 <= AdvanceReadAsWritten(CORE_BUFFER_SIZE - 1) < CORE_BUFFER_SIZE)
  {
  }

  /** With items 0 and 1 in slots 0 and 1 and the reader at slot 0, two
      dequeues as written both read slot 0: item 0 is delivered twice and
      item 1 is skipped. The modulo advance reads item 1 second. */
  lemma AsWrittenDeliversTwice(buffer: seq<int>)
    requires |buffer| == CORE_BUFFER_SIZE && buffer[0] == 0 && buffer[1] == 1
    ensures buffer[AdvanceReadAsWritten(0)] == 0
    ensures buffer[Advance(0, CORE_BUFFER_SIZE)] == 1
  {
  }
}
