/** The persisted high-water mark that gates a session restore. */
module SessionWatermark {
  import opened Octets
  import opened Outcomes

  /** Lexicographic order on (epoch, counter) pairs. */
  predicate Below(e: int, c: int, e': int, c': int) {
    e < e' || (e == e' && c < c')
  }

  datatype Watermark = Watermark(epochNumber: U64, messageCounter: U64) {
    /** Refuses a pair strictly below the mark; an equal pair passes. */
    function Check(epoch: U64, counter: U64): Result<()> {
      if Below(epoch, counter, epochNumber, messageCounter) then Err(MessageCounterTooOld) else Ok(())
    }

    /** The lexicographic maximum of the mark and the given pair. */
    function Advanced(epoch: U64, counter: U64): Watermark {
      if Below(epochNumber, messageCounter, epoch, counter) then Watermark(epoch, counter) else this
    }

    function ToBytes(): (b: Bytes)
      ensures |b| == 16
    {
      Le64(epochNumber) + Le64(messageCounter)
    }
  }

  function FromBytes(bytes: Bytes): Result<Watermark> {
    if |bytes| < 16 then Err(MalformedMessage)
    else Ok(Watermark(FromLe64(bytes[0..8]), FromLe64(bytes[8..16])))
  }

  /** After advancing, exactly the pairs that both the old mark and the new pair admit get through. */
  lemma AdvancedGatesBoth(w: Watermark, epoch: U64, counter: U64, e: U64, c: U64)
    ensures w.Advanced(epoch, counter).Check(e, c).Ok?
       <==> w.Check(e, c).Ok? && Watermark(epoch, counter).Check(e, c).Ok?
    ensures w.Advanced(epoch, counter) == w || w.Advanced(epoch, counter) == Watermark(epoch, counter)
  {}

  /** The parser reads the first 16 bytes and inverts the printer. */
  lemma WatermarkCodec(w: Watermark, b: Bytes)
    ensures FromBytes(b) == Ok(w) <==> w.ToBytes() <= b
  {
    var t := w.ToBytes();
    assert t[0..8] == Le64(w.epochNumber) && t[8..16] == Le64(w.messageCounter);
    if t <= b {
      assert b[..16] == t;
      assert b[0..8] == t[0..8] && b[8..16] == t[8..16];
      Le64RoundTrip(w.epochNumber); Le64RoundTrip(w.messageCounter);
    }
    if FromBytes(b) == Ok(w) {
      assert t == b[0..8] + b[8..16] == b[..16];
    }
  }

  /** Where the fields lie, and what the parser says of fewer than 16 bytes. */
  lemma WatermarkLayout(w: Watermark, b: Bytes)
    ensures w.ToBytes()[..8] == Le64(w.epochNumber) && w.ToBytes()[8..] == Le64(w.messageCounter)
    ensures |b| < 16 ==> FromBytes(b) == Err(MalformedMessage)
  {}
}
