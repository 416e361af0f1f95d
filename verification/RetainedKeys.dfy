/** The 80-byte retained message key record. */
module RetainedKeys {
  import opened Octets
  import opened Outcomes
  import opened Buffers

  const SERIALISED_SIZE: nat := 80

  datatype RetainedKey = RetainedKey(messageId: Bytes32, messageKey: Bytes32, sequence: U64, timestamp: U64) {
    function Spec(): (b: Bytes)
      ensures |b| == SERIALISED_SIZE
    {
      messageId + messageKey + Le64(sequence) + Le64(timestamp)
    }
  }

  /** Fills the fixed buffer field by field. */
  method ToBytes(k: RetainedKey) returns (bytes: Bytes)
    ensures bytes == k.Spec()
  {
    var buf := new Byte[SERIALISED_SIZE](_ => 0);
    CopyInto(buf, 0, k.messageId);
    CopyInto(buf, 32, k.messageKey);
    assert buf[..64] == k.messageId + k.messageKey;
    CopyInto(buf, 64, Le64(k.sequence));
    assert buf[..72] == k.messageId + k.messageKey + Le64(k.sequence);
    CopyInto(buf, 72, Le64(k.timestamp));
    bytes := buf[..];
  }

  function FromBytes(bytes: Bytes): (r: Result<RetainedKey>)
    ensures r.Ok? <==> |bytes| == SERIALISED_SIZE
  {
    if |bytes| != SERIALISED_SIZE then Err(MalformedMessage)
    else Ok(RetainedKey(bytes[0..32], bytes[32..64], FromLe64(bytes[64..72]), FromLe64(bytes[72..80])))
  }

  /** The record codec is a bijection between keys and 80-byte strings. */
  lemma RecordCodec(k: RetainedKey, b: Bytes)
    ensures FromBytes(b) == Ok(k) <==> b == k.Spec()
  {
    var t := k.Spec();
    if b == t {
      assert t[0..32] == k.messageId && t[32..64] == k.messageKey;
      assert t[64..72] == Le64(k.sequence) && t[72..80] == Le64(k.timestamp);
      Le64RoundTrip(k.sequence); Le64RoundTrip(k.timestamp);
    }
    if FromBytes(b) == Ok(k) {
      assert t == b[0..32] + b[32..64] + b[64..72] + b[72..80] == b;
    }
  }

  /** Where the fields of a record lie, and what the parser says of any other length. */
  lemma RecordLayout(k: RetainedKey, b: Bytes)
    ensures var t := k.Spec();
            t[0..32] == k.messageId && t[32..64] == k.messageKey && t[64..72] == Le64(k.sequence) && t[72..80] == Le64(k.timestamp)
    ensures |b| != SERIALISED_SIZE ==> FromBytes(b) == Err(MalformedMessage)
  {}
}
