/** The wire form of a group message: a 24-byte header followed by the ciphertext. */
module GroupMessage {
  import opened Octets
  import opened Outcomes

  /** The target's pointer width; a slice length and every `usize` stay below `Limit`. */
  datatype UsizeWidth = W32 | W64 {
    function Limit(): nat {
      if W32? then 0x1_0000_0000 else 0x1_0000_0000_0000_0000
    }
  }

  const HEADER_SIZE: nat := 24

  datatype EncryptedMessage = EncryptedMessage(epoch: U64, senderLeaf: U32, counter: U64, ciphertext: Bytes) {
    /** The 32-bit length field keeps the low bits of the length, as the cast does. */
    function ToBytes(): (b: Bytes)
      ensures |b| == HEADER_SIZE + |ciphertext|
    {
      Le64(epoch) + Le32(senderLeaf) + Le64(counter) + Le(|ciphertext|, 4) + ciphertext
    }
  }

  function FromBytes(w: UsizeWidth, bytes: Bytes): (r: Result<EncryptedMessage>)
    requires |bytes| < w.Limit()
    ensures r.Err? ==> r.error == MalformedMessage
  {
    if |bytes| < HEADER_SIZE then Err(MalformedMessage)
    else
      var ctLen := FromLe32(bytes[20..24]);
      // checked_add on usize
      if HEADER_SIZE + ctLen >= w.Limit() then Err(MalformedMessage)
      else if |bytes| < HEADER_SIZE + ctLen then Err(MalformedMessage)
      else
        Ok(EncryptedMessage(FromLe64(bytes[..8]), FromLe32(bytes[8..12]), FromLe64(bytes[12..20]),
                            bytes[HEADER_SIZE..HEADER_SIZE + ctLen]))
  }

  lemma HeaderFields(m: EncryptedMessage, b: Bytes)
    requires m.ToBytes() <= b
    ensures b[..8] == Le64(m.epoch) && b[8..12] == Le32(m.senderLeaf) && b[12..20] == Le64(m.counter)
    ensures b[20..24] == Le(|m.ciphertext|, 4) && b[24..24 + |m.ciphertext|] == m.ciphertext
  {
    var t := m.ToBytes();
    assert t[..8] == Le64(m.epoch);
    assert t[8..12] == Le32(m.senderLeaf);
    assert t[12..20] == Le64(m.counter);
    assert t[20..24] == Le(|m.ciphertext|, 4);
    assert t[24..] == m.ciphertext;
    assert b[..|t|] == t;
    assert b[..8] == t[..8] && b[8..12] == t[8..12] && b[12..20] == t[12..20] && b[20..24] == t[20..24];
    assert b[24..24 + |m.ciphertext|] == t[24..];
  }

  /** On either pointer width the parser accepts exactly the byte strings that start with a
      printed message, and returns that message. */
  lemma ParsesExactlyPrinted(w: UsizeWidth, b: Bytes, m: EncryptedMessage)
    requires |b| < w.Limit()
    ensures FromBytes(w, b) == Ok(m) <==> |m.ciphertext| <= U32_MAX && m.ToBytes() <= b
  {
    if |m.ciphertext| <= U32_MAX && m.ToBytes() <= b {
      HeaderFields(m, b);
      assert Le(|m.ciphertext|, 4) == Le32(|m.ciphertext|);
      Le32RoundTrip(|m.ciphertext|); Le32RoundTrip(m.senderLeaf);
      Le64RoundTrip(m.epoch); Le64RoundTrip(m.counter);
    }
    if FromBytes(w, b) == Ok(m) {
      var ctLen := FromLe32(b[20..24]);
      assert |m.ciphertext| == ctLen && Le32(ctLen) == b[20..24];
      assert m.ToBytes() == b[..8] + b[8..12] + b[12..20] + b[20..24] + b[24..24 + ctLen];
      assert m.ToBytes() == b[..24 + ctLen];
    }
  }
}
