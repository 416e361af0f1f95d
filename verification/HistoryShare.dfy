/** The message that hands a thread's retained keys to a new device: a variable-count wire format
    and the signature over its contents. */
module HistoryShare {
  import opened Octets
  import opened Outcomes
  import opened Primitives
  import opened GroupMessage
  import opened RetainedKeys
  import opened EdCurve
  import Signatures = HybridSignatures

  const HISTORY_KEY_SHARE_CONTEXT := "trelis-history-key-share-v1"
  const PREFIX_SIZE: nat := 40

  datatype HistoryKeyShareMessage = HistoryKeyShareMessage(
    threadId: Bytes32,
    keys: seq<RetainedKey>,
    signature: Signatures.HybridSignature,
    sharedAt: U64)

  // ----- the wire form

  function Records(keys: seq<RetainedKey>): (r: seq<Bytes>)
    ensures |r| == |keys|
    ensures forall i :: 0 <= i < |r| ==> |r[i]| == SERIALISED_SIZE
  {
    seq(|keys|, i requires 0 <= i < |keys| => keys[i].Spec())
  }

  lemma RecordsAppend(keys: seq<RetainedKey>, k: RetainedKey)
    ensures Flatten(Records(keys + [k])) == Flatten(Records(keys)) + k.Spec()
  {
    assert Records(keys + [k]) == Records(keys) + [k.Spec()];
    FlattenAppend(Records(keys), k.Spec());
  }

  lemma RecordsLength(keys: seq<RetainedKey>)
    ensures |Flatten(Records(keys))| == SERIALISED_SIZE * |keys|
  {
    FlattenLength(Records(keys), SERIALISED_SIZE);
  }

  lemma RecordsInjective(a: seq<RetainedKey>, b: seq<RetainedKey>)
    requires Flatten(Records(a)) == Flatten(Records(b))
    ensures a == b
  {
    FlattenInjective(Records(a), Records(b), SERIALISED_SIZE);
    forall i | 0 <= i < |a| ensures a[i] == b[i] {
      assert Records(a)[i] == Records(b)[i];
      RecordCodec(a[i], a[i].Spec());
      RecordCodec(b[i], a[i].Spec());
    }
  }

  /** Everything after the count field. */
  function Body(m: HistoryKeyShareMessage): Bytes {
    Flatten(Records(m.keys)) + Le64(m.sharedAt) + Signatures.ToBytes(m.signature)
  }

  function Spec(m: HistoryKeyShareMessage): Bytes {
    m.threadId + Le(|m.keys|, 8) + Body(m)
  }

  method ToBytes(m: HistoryKeyShareMessage) returns (bytes: Bytes)
    ensures bytes == Spec(m)
  {
    bytes := m.threadId + Le(|m.keys|, 8);
    ghost var prefix := bytes;
    for i := 0 to |m.keys|
      invariant bytes == prefix + Flatten(Records(m.keys[..i]))
    {
      var record := RetainedKeys.ToBytes(m.keys[i]);
      RecordsAppend(m.keys[..i], m.keys[i]);
      assert m.keys[..i + 1] == m.keys[..i] + [m.keys[i]];
      bytes := bytes + record;
    }
    assert m.keys[..|m.keys|] == m.keys;
    bytes := bytes + Le64(m.sharedAt);
    bytes := bytes + Signatures.ToBytes(m.signature);
  }

  /** The number of records the count field announces. */
  function Announced(w: UsizeWidth, bytes: Bytes): nat
    requires |bytes| >= PREFIX_SIZE
  {
    FromLe64(bytes[32..40]) % w.Limit()
  }

  /** `bytes` is a frame for `m`: the count field, cast to the target's `usize`, is the number of
      records that follow, and the signature has a canonical response. */
  predicate Frames<P>(w: UsizeWidth, c: Curve<P>, bytes: Bytes, m: HistoryKeyShareMessage) {
    && |bytes| >= PREFIX_SIZE
    && bytes[..32] == m.threadId
    && Announced(w, bytes) == |m.keys|
    && bytes[40..] == Body(m)
    && DecodeScalar(c, m.signature.rsp).Some?
  }

  lemma BodyParts(m: HistoryKeyShareMessage, n: nat)
    requires n == SERIALISED_SIZE * |m.keys|
    ensures |Body(m)| == n + 8 + Signatures.SIGNATURE_SIZE
    ensures Body(m)[..n] == Flatten(Records(m.keys))
    ensures Body(m)[n..n + 8] == Le64(m.sharedAt)
    ensures Body(m)[n + 8..] == Signatures.ToBytes(m.signature)
  {
    RecordsLength(m.keys);
    var (r, t, s) := (Flatten(Records(m.keys)), Le64(m.sharedAt), Signatures.ToBytes(m.signature));
    assert Body(m) == r + t + s;
    assert (r + t + s)[..n] == r && (r + t + s)[n..n + 8] == t && (r + t + s)[n + 8..] == s;
  }

  /** The parser is total: it returns the message the bytes frame, and fails exactly when they
      frame none. Every index is in bounds on both pointer widths. */
  method FromBytes<P>(w: UsizeWidth, c: Curve<P>, bytes: Bytes) returns (r: Result<HistoryKeyShareMessage>)
    requires |bytes| < w.Limit()
    ensures r.Ok? ==> Frames(w, c, bytes, r.value)
    ensures r.Err? ==> r.error == MalformedMessage && forall m :: !Frames(w, c, bytes, m)
  {
    if |bytes| < 48 {
      TooShortForFrame(w, c, bytes);
      return Err(MalformedMessage);
    }
    var offset := 0;
    var threadId := bytes[offset..offset + 32];
    offset := offset + 32;
    var keyCount := FromLe64(bytes[offset..offset + 8]) % w.Limit();
    assert keyCount == Announced(w, bytes);
    offset := offset + 8;
    // checked_mul, then two checked_adds
    var keysSize := keyCount * SERIALISED_SIZE;
    if keysSize >= w.Limit() || offset + keysSize >= w.Limit() || offset + keysSize + 8 >= w.Limit() {
      TooShortForFrame(w, c, bytes);
      return Err(MalformedMessage);
    }
    var required := offset + keysSize + 8;
    if |bytes| < required {
      TooShortForFrame(w, c, bytes);
      return Err(MalformedMessage);
    }
    var keys: seq<RetainedKey> := [];
    for i := 0 to keyCount
      invariant |keys| == i
      invariant offset == PREFIX_SIZE + SERIALISED_SIZE * i
      invariant bytes[PREFIX_SIZE..offset] == Flatten(Records(keys))
    {
      var record := bytes[offset..offset + SERIALISED_SIZE];
      var key := RetainedKeys.FromBytes(record).value; // a whole record always parses
      RecordRead(bytes, offset, keys, key);
      keys := keys + [key];
      offset := offset + SERIALISED_SIZE;
    }
    var sharedAt := FromLe64(bytes[offset..offset + 8]);
    offset := offset + 8;
    var signature := Signatures.FromBytes(c, bytes[offset..]);
    if signature.Err? {
      NoSignatureNoFrame(w, c, bytes, keyCount, offset);
      return Err(MalformedMessage);
    }
    r := Ok(HistoryKeyShareMessage(threadId, keys, signature.value, sharedAt));
    PartsFrame(w, c, bytes, r.value, offset);
  }

  lemma RecordRead(bytes: Bytes, offset: nat, keys: seq<RetainedKey>, key: RetainedKey)
    requires PREFIX_SIZE <= offset && offset + SERIALISED_SIZE <= |bytes|
    requires bytes[PREFIX_SIZE..offset] == Flatten(Records(keys))
    requires RetainedKeys.FromBytes(bytes[offset..offset + SERIALISED_SIZE]) == Ok(key)
    ensures bytes[PREFIX_SIZE..offset + SERIALISED_SIZE] == Flatten(Records(keys + [key]))
  {
    var record := bytes[offset..offset + SERIALISED_SIZE];
    RecordCodec(key, record);
    RecordsAppend(keys, key);
    assert bytes[PREFIX_SIZE..offset + SERIALISED_SIZE] == bytes[PREFIX_SIZE..offset] + record;
  }

  lemma FrameLength<P>(w: UsizeWidth, c: Curve<P>, bytes: Bytes, m: HistoryKeyShareMessage)
    requires Frames(w, c, bytes, m)
    ensures |bytes| == PREFIX_SIZE + SERIALISED_SIZE * Announced(w, bytes) + 8 + Signatures.SIGNATURE_SIZE
  {
    BodyParts(m, SERIALISED_SIZE * |m.keys|);
  }

  lemma TooShortForFrame<P>(w: UsizeWidth, c: Curve<P>, bytes: Bytes)
    requires |bytes| < 48 || |bytes| < PREFIX_SIZE + SERIALISED_SIZE * Announced(w, bytes) + 8
    ensures forall m :: !Frames(w, c, bytes, m)
  {
    forall m | Frames(w, c, bytes, m) ensures false {
      FrameLength(w, c, bytes, m);
    }
  }

  lemma PartsFrame<P>(w: UsizeWidth, c: Curve<P>, bytes: Bytes, m: HistoryKeyShareMessage, offset: nat)
    requires |bytes| >= offset >= 48 && bytes[..32] == m.threadId && Announced(w, bytes) == |m.keys|
    requires bytes[40..offset - 8] == Flatten(Records(m.keys))
    requires bytes[offset - 8..offset] == Le64(m.sharedAt)
    requires Signatures.FromBytes(c, bytes[offset..]) == Ok(m.signature)
    ensures Frames(w, c, bytes, m)
  {
    Signatures.SignatureCodec(c, m.signature, bytes[offset..]);
    TailParts(bytes, offset);
  }

  lemma TailParts(bytes: Bytes, offset: nat)
    requires |bytes| >= offset >= 48
    ensures bytes[40..] == bytes[40..offset - 8] + bytes[offset - 8..offset] + bytes[offset..]
  {}

  lemma FrameHasSignature<P>(w: UsizeWidth, c: Curve<P>, bytes: Bytes, m: HistoryKeyShareMessage)
    requires Frames(w, c, bytes, m)
    ensures var offset := PREFIX_SIZE + SERIALISED_SIZE * Announced(w, bytes) + 8;
            |bytes| >= offset && Signatures.FromBytes(c, bytes[offset..]) == Ok(m.signature)
  {
    var n := SERIALISED_SIZE * |m.keys|;
    BodyParts(m, n);
    assert bytes[PREFIX_SIZE + n + 8..] == bytes[40..][n + 8..];
    Signatures.SignatureCodec(c, m.signature, bytes[PREFIX_SIZE + n + 8..]);
  }

  lemma NoSignatureNoFrame<P>(w: UsizeWidth, c: Curve<P>, bytes: Bytes, n: nat, offset: nat)
    requires |bytes| >= offset == PREFIX_SIZE + SERIALISED_SIZE * n + 8
    requires n == Announced(w, bytes)
    requires Signatures.FromBytes(c, bytes[offset..]).Err?
    ensures forall m :: !Frames(w, c, bytes, m)
  {
    forall m | Frames(w, c, bytes, m) ensures false {
      FrameHasSignature(w, c, bytes, m);
    }
  }

  /** A byte string frames at most one message, so the parser's result is determined. */
  lemma FrameUnique<P>(w: UsizeWidth, c: Curve<P>, bytes: Bytes, m: HistoryKeyShareMessage, m': HistoryKeyShareMessage)
    requires Frames(w, c, bytes, m) && Frames(w, c, bytes, m')
    ensures m == m'
  {
    BodyInjective(m, m');
  }

  lemma ThreeParts(b: Bytes, t: Bytes32, n: Bytes8, rest: Bytes)
    ensures b == t + n + rest <==> |b| >= PREFIX_SIZE && b[..32] == t && b[32..40] == n && b[40..] == rest
  {
    if b == t + n + rest {
      assert b[..32] == t && b[32..40] == n && b[40..] == rest;
    }
    if |b| >= PREFIX_SIZE {
      assert b == b[..32] + b[32..40] + b[40..];
    }
  }

  /** Fewer records than bytes, and so fewer than a `usize` holds. */
  lemma RecordsFit(m: HistoryKeyShareMessage)
    ensures |m.keys| <= |Body(m)| <= |Spec(m)|
  {
    BodyParts(m, SERIALISED_SIZE * |m.keys|);
  }

  /** A frame whose count field is the number of records, not just congruent to it. */
  predicate Exact<P>(w: UsizeWidth, c: Curve<P>, b: Bytes, m: HistoryKeyShareMessage) {
    Frames(w, c, b, m) && FromLe64(b[32..40]) < w.Limit()
  }

  /** A frame with the count field `n`, for any `n` that the cast takes to the number of records. */
  lemma CountFrames<P>(w: UsizeWidth, c: Curve<P>, m: HistoryKeyShareMessage, n: U64, b: Bytes)
    requires b == m.threadId + Le64(n) + Body(m)
    requires n % w.Limit() == |m.keys| && DecodeScalar(c, m.signature.rsp).Some?
    ensures Frames(w, c, b, m) && FromLe64(b[32..40]) == n
  {
    ThreeParts(b, m.threadId, Le64(n), Body(m));
    Le64RoundTrip(n);
  }

  lemma PrintedIsExact<P>(w: UsizeWidth, c: Curve<P>, m: HistoryKeyShareMessage)
    requires |Spec(m)| < w.Limit() && DecodeScalar(c, m.signature.rsp).Some?
    ensures Exact(w, c, Spec(m), m)
  {
    RecordsFit(m);
    SmallRemainder(|m.keys|, w.Limit());
    CountFrames(w, c, m, |m.keys|, Spec(m));
  }

  lemma ExactIsPrinted<P>(w: UsizeWidth, c: Curve<P>, b: Bytes, m: HistoryKeyShareMessage)
    requires Exact(w, c, b, m)
    ensures b == Spec(m)
  {
    var n := FromLe64(b[32..40]);
    assert n == |m.keys| by { SmallRemainder(n, w.Limit()); }
    ThreeParts(b, m.threadId, Le64(n), Body(m));
  }

  lemma SmallRemainder(n: nat, limit: nat)
    requires n < limit
    ensures n % limit == n
  {}

  /** The printed form determines the message. */
  lemma PrintInjective(m: HistoryKeyShareMessage, m': HistoryKeyShareMessage)
    requires |Spec(m)| < W64.Limit() && Spec(m) == Spec(m')
    ensures m == m'
  {
    RecordsFit(m);
    RecordsFit(m');
    SplitEqual(m.threadId + Le64(|m.keys|), Body(m), m'.threadId + Le64(|m'.keys|), Body(m'));
    SplitEqual(m.threadId, Le64(|m.keys|), m'.threadId, Le64(|m'.keys|));
    Le64Injective(|m.keys|, |m'.keys|);
    BodyInjective(m, m');
  }

  lemma BodyInjective(m: HistoryKeyShareMessage, m': HistoryKeyShareMessage)
    requires |m.keys| == |m'.keys| && m.threadId == m'.threadId && Body(m) == Body(m')
    ensures m == m'
  {
    var n := SERIALISED_SIZE * |m.keys|;
    BodyParts(m, n);
    BodyParts(m', n);
    RecordsInjective(m.keys, m'.keys);
    Le64Injective(m.sharedAt, m'.sharedAt);
    SplitEqual(m.signature.rsp, m.signature.mldsa, m'.signature.rsp, m'.signature.mldsa);
  }

  /** Print and parse are exact inverses, on the canonical signatures and as long as the wire
      count fits the target's `usize`; with 64 bits it always does. */
  lemma ParsesExactlyPrinted<P>(w: UsizeWidth, c: Curve<P>, b: Bytes, m: HistoryKeyShareMessage)
    requires |b| < w.Limit()
    ensures
      b == Spec(m) && DecodeScalar(c, m.signature.rsp).Some? <==>
      Frames(w, c, b, m) && (w.W64? || FromLe64(b[32..40]) < w.Limit())
  {
    if b == Spec(m) && DecodeScalar(c, m.signature.rsp).Some? {
      PrintedIsExact(w, c, m);
    }
    if Frames(w, c, b, m) && (w.W64? || FromLe64(b[32..40]) < w.Limit()) {
      ExactIsPrinted(w, c, b, m);
    }
  }

  /** Where the cast truncates, one message has further frames: on a 32-bit target the printed form
      with 2^32 added to its count parses as the same message, though it is not its printed form. */
  lemma TruncatedCountStillFrames<P>(c: Curve<P>, m: HistoryKeyShareMessage)
    requires DecodeScalar(c, m.signature.rsp).Some? && |Spec(m)| < W32.Limit()
    ensures |m.keys| <= U32_MAX
    ensures var b := m.threadId + Le64(|m.keys| + 0x1_0000_0000) + Body(m);
            Frames(W32, c, b, m) && b != Spec(m)
  {
    RecordsFit(m);
    CountPlusLimit(|m.keys|);
    var n: U64 := |m.keys| + 0x1_0000_0000;
    CountFrames(W32, c, m, n, m.threadId + Le64(n) + Body(m));
    CountFieldDiffers(m.threadId, n, |m.keys|, Body(m));
  }

  lemma CountPlusLimit(k: U32)
    ensures (k + 0x1_0000_0000) % W32.Limit() == k
  {}

  lemma CountFieldDiffers(t: Bytes32, n: U64, k: U64, rest: Bytes)
    requires n != k
    ensures t + Le64(n) + rest != t + Le64(k) + rest
  {
    SplitEqual(t + Le64(n), rest, t + Le64(k), rest);
    SplitEqual(t, Le64(n), t, Le64(k));
    if Le64(n) == Le64(k) {
      Le64Injective(n, k);
    }
  }

  // ----- the signature

  function SigningSpec(h: Blake3, threadId: Bytes32, keys: seq<RetainedKey>, sharedAt: U64): Bytes {
    Ascii(HISTORY_KEY_SHARE_CONTEXT) + threadId + Le(|keys|, 8) + Le64(sharedAt) + h.hash(Flatten(Records(keys)))
  }

  /** `signing_data`, feeding the hasher one record at a time. */
  method SigningData(h: Blake3, threadId: Bytes32, keys: seq<RetainedKey>, sharedAt: U64) returns (data: Bytes)
    ensures data == SigningSpec(h, threadId, keys, sharedAt)
  {
    var absorbed: Bytes := [];
    for i := 0 to |keys|
      invariant absorbed == Flatten(Records(keys[..i]))
    {
      var record := RetainedKeys.ToBytes(keys[i]);
      RecordsAppend(keys[..i], keys[i]);
      assert keys[..i + 1] == keys[..i] + [keys[i]];
      absorbed := absorbed + record;
    }
    assert keys[..|keys|] == keys;
    data := Ascii(HISTORY_KEY_SHARE_CONTEXT);
    data := data + threadId;
    data := data + Le(|keys|, 8);
    data := data + Le64(sharedAt);
    data := data + h.hash(absorbed);
  }

  function Create<P, S>(s: Signatures.SigSuite<P, S>, kp: Signatures.HybridKeypair<S>, threadId: Bytes32,
                        keys: seq<RetainedKey>, sharedAt: U64, nonce: Bytes114, entropy: Bytes): Result<HistoryKeyShareMessage>
    requires s.curve.order > 0
  {
    var signature :- Signatures.Sign(s, kp, Signatures.Plain, SigningSpec(s.h, threadId, keys, sharedAt), nonce, entropy);
    Ok(HistoryKeyShareMessage(threadId, keys, signature, sharedAt))
  }

  function Verify<P, S>(s: Signatures.SigSuite<P, S>, pk: Signatures.HybridPublicKey, m: HistoryKeyShareMessage): Result<()>
    requires s.curve.order > 0
  {
    Signatures.Verify(s, pk, Signatures.Plain, SigningSpec(s.h, m.threadId, m.keys, m.sharedAt), m.signature)
  }

  /** A message that verifies survives the wire unchanged, on either pointer width, so it still
      verifies there: its response must have been canonical. */
  lemma VerifiedSurvivesWire<P, S>(w: UsizeWidth, s: Signatures.SigSuite<P, S>, pk: Signatures.HybridPublicKey,
                                   m: HistoryKeyShareMessage, received: HistoryKeyShareMessage)
    requires s.curve.order > 0 && |Spec(m)| < w.Limit()
    requires Verify(s, pk, m).Ok?
    ensures Frames(w, s.curve, Spec(m), received) <==> received == m
  {
    ParsesExactlyPrinted(w, s.curve, Spec(m), m);
    if Frames(w, s.curve, Spec(m), received) {
      FrameUnique(w, s.curve, Spec(m), m, received);
    }
  }

  /** What parses back from a printed message is that message, so it verifies exactly as it did. */
  lemma WireKeepsVerdict<P, S>(w: UsizeWidth, s: Signatures.SigSuite<P, S>, pk: Signatures.HybridPublicKey,
                               m: HistoryKeyShareMessage, received: HistoryKeyShareMessage)
    requires s.curve.order > 0 && |Spec(m)| < w.Limit()
    requires Frames(w, s.curve, Spec(m), received)
    ensures received == m && Verify(s, pk, received) == Verify(s, pk, m)
  {
    RecordsFit(m);
    ThreeParts(Spec(m), m.threadId, Le64(|m.keys|), Body(m));
    Le64RoundTrip(|m.keys|);
    ExactIsPrinted(w, s.curve, Spec(m), received);
    PrintInjective(m, received);
  }

  /** A created message verifies, and so does what the receiver parses. */
  lemma CreatedVerifies<P(!new), S(!new)>(w: UsizeWidth, s: Signatures.SigSuite<P, S>, kp: Signatures.HybridKeypair<S>,
                                          threadId: Bytes32, keys: seq<RetainedKey>, sharedAt: U64, nonce: Bytes114, entropy: Bytes)
    requires CurveOk(s.curve) && Signatures.MlDsaCorrect(s.mldsa)
    ensures
      var r := Create(s, kp, threadId, keys, sharedAt, nonce, entropy);
      r.Ok? ==>
        && Verify(s, Signatures.PublicKey(s, kp), r.value) == Ok(())
        && (|Spec(r.value)| < w.Limit() ==> Frames(w, s.curve, Spec(r.value), r.value))
  {
    Signatures.SignedVerifies(s, kp, Signatures.Plain, SigningSpec(s.h, threadId, keys, sharedAt), nonce, entropy);
    var r := Create(s, kp, threadId, keys, sharedAt, nonce, entropy);
    if r.Ok? && |Spec(r.value)| < w.Limit() {
      VerifiedSurvivesWire(w, s, Signatures.PublicKey(s, kp), r.value, r.value);
    }
  }

  /** The signed data: 107 bytes that start with the context, then thread, count, time and the hash of the records. */
  lemma SigningLayout(h: Blake3, t: Bytes32, ks: seq<RetainedKey>, at: U64)
    ensures var d := SigningSpec(h, t, ks, at);
            && |d| == 107 && d[..27] == Ascii(HISTORY_KEY_SHARE_CONTEXT) && d[27..59] == t && d[59..67] == Le(|ks|, 8)
            && d[67..75] == Le64(at) && d[75..107] == h.hash(Flatten(Records(ks)))
  {
    assert |HISTORY_KEY_SHARE_CONTEXT| == 27;
    FiveParts(Ascii(HISTORY_KEY_SHARE_CONTEXT), t, Le(|ks|, 8), Le64(at), h.hash(Flatten(Records(ks))));
  }

  lemma FiveParts(c: Bytes, t: Bytes32, n: Bytes8, at: Bytes8, x: Bytes32)
    requires |c| == 27
    ensures var d := c + t + n + at + x;
            |d| == 107 && d[..27] == c && d[27..59] == t && d[59..67] == n && d[67..75] == at && d[75..107] == x
  {}

  /** Creation fails only if the signature does, and takes over everything it is given. */
  lemma CreateOutcome<P(!new), S(!new)>(s: Signatures.SigSuite<P, S>, kp: Signatures.HybridKeypair<S>, threadId: Bytes32,
                                        keys: seq<RetainedKey>, sharedAt: U64, nonce: Bytes114, entropy: Bytes)
    requires s.curve.order > 0
    ensures
      var r := Create(s, kp, threadId, keys, sharedAt, nonce, entropy);
      && (r.Err? ==> r == Err(SigningFailed))
      && (r.Ok? ==> r.value.threadId == threadId && r.value.keys == keys && r.value.sharedAt == sharedAt)
      && (Signatures.SignsAlways(s.mldsa) ==> r.Ok?)
  {
    Signatures.SignOutcome(s, kp, Signatures.Plain, SigningSpec(s.h, threadId, keys, sharedAt), nonce, entropy);
  }

  /** Equal signed data means equal contents, or the two key lists collide under the hash. */
  lemma SigningDataBinds(h: Blake3, t: Bytes32, ks: seq<RetainedKey>, at: U64, t': Bytes32, ks': seq<RetainedKey>, at': U64)
    requires SigningSpec(h, t, ks, at) == SigningSpec(h, t', ks', at')
    ensures
      || (t == t' && ks == ks' && at == at')
      || HashCollision(h, Flatten(Records(ks)), Flatten(Records(ks')))
  {
    var c := Ascii(HISTORY_KEY_SHARE_CONTEXT);
    SplitEqual(c + t + Le(|ks|, 8) + Le64(at), h.hash(Flatten(Records(ks))),
               c + t' + Le(|ks'|, 8) + Le64(at'), h.hash(Flatten(Records(ks'))));
    SplitEqual(c + t + Le(|ks|, 8), Le64(at), c + t' + Le(|ks'|, 8), Le64(at'));
    SplitEqual(c + t, Le(|ks|, 8), c + t', Le(|ks'|, 8));
    SplitEqual(c, t, c, t');
    Le64Injective(at, at');
    if Flatten(Records(ks)) == Flatten(Records(ks')) {
      RecordsInjective(ks, ks');
    }
  }

  /** Two messages that carry one signature and both verify have one sender and one content, or one
      of the named collisions is at hand: nobody swaps the keys under a signature. */
  lemma SignatureFixesKeys<P(!new), S(!new)>(s: Signatures.SigSuite<P, S>, pk: Signatures.HybridPublicKey, m: HistoryKeyShareMessage,
                                             pk': Signatures.HybridPublicKey, m': HistoryKeyShareMessage)
    requires s.curve.order > 0 && m.signature == m'.signature
    requires Verify(s, pk, m).Ok? && Verify(s, pk', m').Ok?
    ensures
      var (x, x') := (SigningSpec(s.h, m.threadId, m.keys, m.sharedAt), SigningSpec(s.h, m'.threadId, m'.keys, m'.sharedAt));
      var (r, r') := (Signatures.CommitmentOf(s, pk, m.signature).value, Signatures.CommitmentOf(s, pk', m.signature).value);
      var (d, d') := (Signatures.MPrime(s.h, Signatures.Plain, pk, x, r), Signatures.MPrime(s.h, Signatures.Plain, pk', x', r'));
      var h1 := Signatures.SIG_BOP2_H1_CONTEXT;
      || (pk == pk' && m == m')
      || HashCollision(s.h, Flatten(Records(m.keys)), Flatten(Records(m'.keys)))
      || DeriveKeyCollision(s.h, h1, Signatures.H1Preimage(pk, x, r), h1, Signatures.H1Preimage(pk', x', r'))
      || Signatures.AcceptsTwoDigests(s.mldsa, pk.mldsa, d, pk'.mldsa, d', m.signature.mldsa)
  {
    var (x, x') := (SigningSpec(s.h, m.threadId, m.keys, m.sharedAt), SigningSpec(s.h, m'.threadId, m'.keys, m'.sharedAt));
    Signatures.SignatureBindsKeyModeMessage(s, m.signature, pk, Signatures.Plain, x, pk', Signatures.Plain, x');
    if x == x' {
      SigningDataBinds(s.h, m.threadId, m.keys, m.sharedAt, m'.threadId, m'.keys, m'.sharedAt);
    }
  }
}
