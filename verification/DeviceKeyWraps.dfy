/** Wrapping a 32-byte secret to one device: hybrid KEM, key derivation, committing AEAD under an
    81-byte context, and the 1207-byte wire form. */
module DeviceKeyWraps {
  import opened Octets
  import opened Outcomes
  import opened Primitives
  import opened CommittingAead
  import opened HybridKem

  const WRAP_CONTEXT := "trelis-bundle-wrap-v1"
  const ENCRYPTED_PAYLOAD_SIZE: nat := 32 + TAG_SIZE + COMMITMENT_SIZE
  const DEVICE_KEY_WRAP_SIZE: nat := 8 + 56 + 1039 + NONCE_SIZE + ENCRYPTED_PAYLOAD_SIZE

  type Payload = b: Bytes | |b| == ENCRYPTED_PAYLOAD_SIZE witness seq(ENCRYPTED_PAYLOAD_SIZE, _ => 0)

  datatype WrapPurpose = BundleKey | SessionSeed | HistoryKey {
    function ToByte(): Byte {
      match this
      case BundleKey => 1
      case SessionSeed => 2
      case HistoryKey => 3
    }
  }

  datatype WrapContext = WrapContext(recipientKeyId: Bytes8, purpose: WrapPurpose, threadId: Bytes32, bundleId: Bytes32, epoch: U64) {
    function ToAad(): (b: Bytes)
      ensures |b| == 81
    {
      recipientKeyId + [purpose.ToByte()] + threadId + bundleId + Le64(epoch)
    }
  }

  datatype DeviceKeyWrap = DeviceKeyWrap(
    recipientKeyId: Bytes8,
    x448Ephemeral: Bytes56,
    sntrupCiphertext: SntrupCiphertext,
    nonce: Bytes24,
    encryptedPayload: Payload)

  datatype WrapSuite<!X, !S> = WrapSuite(kem: Kem<X, S>, h: Blake3, aead: BaseAead)

  ghost predicate SuiteCorrect<X(!new), S(!new)>(s: WrapSuite<X, S>) {
    KemCorrect(s.kem) && AeadCorrect(s.aead)
  }

  function WrappingKey(h: Blake3, shared: Bytes32): Bytes32 {
    h.deriveKey(WRAP_CONTEXT, shared)
  }

  function Wrap<X, S>(s: WrapSuite<X, S>, secret: Bytes32, pk: KemPublicKey, context: WrapContext,
                      ephemeral: X, coins: Bytes, nonce: Bytes24): Result<DeviceKeyWrap>
  {
    var (shared, e) :- Encapsulate(s.kem, s.h, pk, ephemeral, coins);
    var ct :- EncryptCommitting(s.aead, s.h, WrappingKey(s.h, shared), nonce, secret, context.ToAad());
    if |ct| != ENCRYPTED_PAYLOAD_SIZE then Err(MalformedMessage)
    else
      var encap := EncapsulationBytes(e);
      Ok(DeviceKeyWrap(context.recipientKeyId, encap[..56], encap[56..], nonce, ct))
  }

  function Unwrap<X, S>(s: WrapSuite<X, S>, w: DeviceKeyWrap, kp: KemKeypair<X, S>, context: WrapContext): Result<Bytes32> {
    if w.recipientKeyId != context.recipientKeyId then Err(DecryptionFailed)
    else
      var shared :- DecapsulateBytes(s.kem, s.h, kp, w.x448Ephemeral + w.sntrupCiphertext);
      var plaintext :- DecryptCommitting(s.aead, s.h, WrappingKey(s.h, shared), w.nonce, w.encryptedPayload, context.ToAad());
      if |plaintext| != 32 then Err(DecryptionFailed) else Ok(plaintext)
  }

  function ToBytes(w: DeviceKeyWrap): (b: Bytes)
    ensures |b| == DEVICE_KEY_WRAP_SIZE == 1207
  {
    w.recipientKeyId + w.x448Ephemeral + w.sntrupCiphertext + w.nonce + w.encryptedPayload
  }

  function FromBytes(b: Bytes): (r: Result<DeviceKeyWrap>)
    ensures r.Err? ==> r.error == MalformedMessage
  {
    if |b| != DEVICE_KEY_WRAP_SIZE then Err(MalformedMessage)
    else Ok(DeviceKeyWrap(b[0..8], b[8..64], b[64..1103], b[1103..1127], b[1127..1207]))
  }

  /** The wire form is a bijection between wraps and 1207-byte strings. */
  lemma WrapCodec(w: DeviceKeyWrap, b: Bytes)
    ensures FromBytes(b) == Ok(w) <==> b == ToBytes(w)
  {
    if b == ToBytes(w) {
      assert b[0..8] == w.recipientKeyId && b[8..64] == w.x448Ephemeral;
      assert b[64..1103] == w.sntrupCiphertext;
      assert b[1103..1127] == w.nonce && b[1127..1207] == w.encryptedPayload;
    }
    if FromBytes(b) == Ok(w) {
      assert b == b[0..8] + b[8..64] + b[64..1103] + b[1103..1127] + b[1127..1207];
    }
  }

  /** The 81-byte context form is injective. */
  lemma AadInjective(c: WrapContext, d: WrapContext)
    requires c.ToAad() == d.ToAad()
    ensures c == d
  {
    SplitEqual(c.recipientKeyId + [c.purpose.ToByte()] + c.threadId + c.bundleId, Le64(c.epoch),
               d.recipientKeyId + [d.purpose.ToByte()] + d.threadId + d.bundleId, Le64(d.epoch));
    SplitEqual(c.recipientKeyId + [c.purpose.ToByte()] + c.threadId, c.bundleId,
               d.recipientKeyId + [d.purpose.ToByte()] + d.threadId, d.bundleId);
    SplitEqual(c.recipientKeyId + [c.purpose.ToByte()], c.threadId, d.recipientKeyId + [d.purpose.ToByte()], d.threadId);
    SplitEqual(c.recipientKeyId, [c.purpose.ToByte()], d.recipientKeyId, [d.purpose.ToByte()]);
    assert [c.purpose.ToByte()][0] == [d.purpose.ToByte()][0];
    Le64Injective(c.epoch, d.epoch);
  }

  /** Wrap, serialise, parse, unwrap: the secret comes back, and the payload always fits. */
  lemma WrapEndToEnd<X(!new), S(!new)>(s: WrapSuite<X, S>, secret: Bytes32, kp: KemKeypair<X, S>, context: WrapContext,
                                       ephemeral: X, coins: Bytes, nonce: Bytes24)
    requires SuiteCorrect(s)
    ensures var r := Wrap(s, secret, PublicKey(s.kem, kp), context, ephemeral, coins, nonce);
            && r != Err(MalformedMessage)
            && (r.Ok? ==> FromBytes(ToBytes(r.value)) == Ok(r.value) && Unwrap(s, r.value, kp, context) == Ok(secret))
  {
    var pk := PublicKey(s.kem, kp);
    var enc := Encapsulate(s.kem, s.h, pk, ephemeral, coins);
    if enc.Ok? {
      var (shared, e) := enc.value;
      DecapsulateAgrees(s.kem, s.h, kp, ephemeral, coins);
      DecryptInvertsEncrypt(s.aead, s.h, WrappingKey(s.h, shared), nonce, secret, context.ToAad());
      var r := Wrap(s, secret, pk, context, ephemeral, coins, nonce);
      if r.Ok? {
        var w := r.value;
        assert w.x448Ephemeral + w.sntrupCiphertext == EncapsulationBytes(e);
        EncapsulationCodec(e, w.x448Ephemeral + w.sntrupCiphertext);
        WrapCodec(w, ToBytes(w));
      }
    }
  }

  /** The recipient id in the header is checked on its own: a wrap whose header names anyone but the
      context's recipient is refused, though the seal binds only the context. */
  lemma OtherRecipientRefused<X, S>(s: WrapSuite<X, S>, w: DeviceKeyWrap, kp: KemKeypair<X, S>, c: WrapContext)
    ensures w.recipientKeyId != c.recipientKeyId ==> Unwrap(s, w, kp, c) == Err(DecryptionFailed)
    ensures FromBytes(ToBytes(w)) == Ok(w) && ToBytes(w)[..8] == w.recipientKeyId
  {
    WrapCodec(w, ToBytes(w));
  }

  /** Rewriting the header of a wrap that opens makes it fail, whatever else stays. */
  lemma HeaderRewriteRefused<X(!new), S(!new)>(s: WrapSuite<X, S>, secret: Bytes32, kp: KemKeypair<X, S>, context: WrapContext,
                                               ephemeral: X, coins: Bytes, nonce: Bytes24, other: Bytes8)
    requires SuiteCorrect(s) && Wrap(s, secret, PublicKey(s.kem, kp), context, ephemeral, coins, nonce).Ok?
    ensures var w := Wrap(s, secret, PublicKey(s.kem, kp), context, ephemeral, coins, nonce).value;
            && w.recipientKeyId == context.recipientKeyId
            && (Unwrap(s, w.(recipientKeyId := other), kp, context).Ok? <==> other == context.recipientKeyId)
  {
    WrapEndToEnd(s, secret, kp, context, ephemeral, coins, nonce);
    var w := Wrap(s, secret, PublicKey(s.kem, kp), context, ephemeral, coins, nonce).value;
    assert other == context.recipientKeyId ==> w.(recipientKeyId := other) == w;
  }

  /** A wrap is made exactly when the KEM encapsulates and the cipher seals. */
  lemma WrapOutcome<X(!new), S(!new)>(s: WrapSuite<X, S>, secret: Bytes32, pk: KemPublicKey, context: WrapContext,
                                      ephemeral: X, coins: Bytes, nonce: Bytes24)
    requires AeadCorrect(s.aead)
    ensures
      var r := Wrap(s, secret, pk, context, ephemeral, coins, nonce);
      var enc := Encapsulate(s.kem, s.h, pk, ephemeral, coins);
      if enc.Err? then r == Err(enc.error)
      else if s.aead.seal(WrappingKey(s.h, enc.value.0), nonce, secret, context.ToAad()).None? then r == Err(DecryptionFailed)
      else r.Ok? && r.value.nonce == nonce && r.value.recipientKeyId == context.recipientKeyId
  {
    var enc := Encapsulate(s.kem, s.h, pk, ephemeral, coins);
    if enc.Ok? {
      DecryptInvertsEncrypt(s.aead, s.h, WrappingKey(s.h, enc.value.0), nonce, secret, context.ToAad());
    }
  }

  /** Where the fields of the context lie; the purposes are 1, 2 and 3. */
  lemma AadLayout(c: WrapContext)
    ensures var b := c.ToAad();
            && b[..8] == c.recipientKeyId && b[9..41] == c.threadId && b[41..73] == c.bundleId && b[73..81] == Le64(c.epoch)
            && b[8] == (if c.purpose.BundleKey? then 1 else if c.purpose.SessionSeed? then 2 else 3)
  {}

  /** Where the fields of the wire form lie. */
  lemma WireLayout(w: DeviceKeyWrap)
    ensures var b := ToBytes(w);
            && b[0..8] == w.recipientKeyId && b[8..64] == w.x448Ephemeral && b[64..1103] == w.sntrupCiphertext
            && b[1103..1127] == w.nonce && b[1127..1207] == w.encryptedPayload
  {
    WrapCodec(w, ToBytes(w));
  }

  /** The key a keypair derives for a wrap. */
  function WrapKeyFor<X, S>(s: WrapSuite<X, S>, w: DeviceKeyWrap, kp: KemKeypair<X, S>): Result<Bytes32> {
    var shared :- Decapsulate(s.kem, s.h, kp, Encapsulation(w.x448Ephemeral, w.sntrupCiphertext));
    Ok(WrappingKey(s.h, shared))
  }

  /** What a successful unwrap shows about the committing ciphertext. */
  lemma UnwrapOpens<X, S>(s: WrapSuite<X, S>, w: DeviceKeyWrap, kp: KemKeypair<X, S>, c: WrapContext)
    requires Unwrap(s, w, kp, c).Ok?
    ensures WrapKeyFor(s, w, kp).Ok?
    ensures DecryptCommitting(s.aead, s.h, WrapKeyFor(s, w, kp).value, w.nonce, w.encryptedPayload, c.ToAad()).Ok?
  {
    EncapsulationCodec(Encapsulation(w.x448Ephemeral, w.sntrupCiphertext), w.x448Ephemeral + w.sntrupCiphertext);
  }

  /** One wrap opens in one context, whoever made it, or the commitments of the two openings collide. */
  lemma WrapBindsContext<X, S>(s: WrapSuite<X, S>, w: DeviceKeyWrap, kp: KemKeypair<X, S>, c: WrapContext,
                               kp': KemKeypair<X, S>, c': WrapContext)
    requires Unwrap(s, w, kp, c).Ok? && Unwrap(s, w, kp', c').Ok?
    ensures
      var (k, k') := (WrapKeyFor(s, w, kp).value, WrapKeyFor(s, w, kp').value);
      || (c == c' && k == k')
      || CommitmentCollision(s.h, k, w.nonce, c.ToAad(), k', w.nonce, c'.ToAad(), w.encryptedPayload[..48])
  {
    UnwrapOpens(s, w, kp, c);
    UnwrapOpens(s, w, kp', c');
    var (k, k') := (WrapKeyFor(s, w, kp).value, WrapKeyFor(s, w, kp').value);
    CommitsToEverything(s.aead, s.h, w.encryptedPayload, k, w.nonce, c.ToAad(), k', w.nonce, c'.ToAad());
    if c.ToAad() == c'.ToAad() {
      AadInjective(c, c');
    }
  }

  /** A freshly made wrap fails in every other context, unless a commitment collision is at hand. */
  lemma WrongContextFails<X(!new), S(!new)>(s: WrapSuite<X, S>, secret: Bytes32, kp: KemKeypair<X, S>, context: WrapContext,
                                            ephemeral: X, coins: Bytes, nonce: Bytes24, other: WrapContext)
    requires SuiteCorrect(s) && other != context
    requires Wrap(s, secret, PublicKey(s.kem, kp), context, ephemeral, coins, nonce).Ok?
    ensures
      var w := Wrap(s, secret, PublicKey(s.kem, kp), context, ephemeral, coins, nonce).value;
      || Unwrap(s, w, kp, other).Err?
      || (var k := WrapKeyFor(s, w, kp).value;
          CommitmentCollision(s.h, k, w.nonce, context.ToAad(), k, w.nonce, other.ToAad(), w.encryptedPayload[..48]))
  {
    WrapEndToEnd(s, secret, kp, context, ephemeral, coins, nonce);
    var w := Wrap(s, secret, PublicKey(s.kem, kp), context, ephemeral, coins, nonce).value;
    if Unwrap(s, w, kp, other).Ok? {
      UnwrapOpens(s, w, kp, context);
      WrapBindsContext(s, w, kp, context, kp, other);
    }
  }

  /** The two sides' inputs to the combiner for one wrap. */
  function CombinerInputFor<X, S>(s: WrapSuite<X, S>, w: DeviceKeyWrap, kp: KemKeypair<X, S>): Bytes
    requires WrapKeyFor(s, w, kp).Ok?
  {
    CombineInput(s.h, s.kem.dh(kp.x448, w.x448Ephemeral).value, s.kem.decaps(kp.sntrup, w.sntrupCiphertext).value,
                 w.sntrupCiphertext, w.x448Ephemeral, PublicKey(s.kem, kp).ToBytes())
  }

  /** No wrap opens for two different device public keys, unless BLAKE3 collides: in the
      commitment, in the wrapping-key derivation, in the combiner or on the two public keys. */
  lemma WrapBindsDevice<X, S>(s: WrapSuite<X, S>, w: DeviceKeyWrap, kp: KemKeypair<X, S>, c: WrapContext,
                              kp': KemKeypair<X, S>, c': WrapContext)
    requires Unwrap(s, w, kp, c).Ok? && Unwrap(s, w, kp', c').Ok?
    requires PublicKey(s.kem, kp) != PublicKey(s.kem, kp')
    ensures WrapKeyFor(s, w, kp).Ok? && WrapKeyFor(s, w, kp').Ok?
    ensures
      var (k, k') := (WrapKeyFor(s, w, kp).value, WrapKeyFor(s, w, kp').value);
      var (i, i') := (CombinerInputFor(s, w, kp), CombinerInputFor(s, w, kp'));
      || CommitmentCollision(s.h, k, w.nonce, c.ToAad(), k', w.nonce, c'.ToAad(), w.encryptedPayload[..48])
      || DeriveKeyCollision(s.h, WRAP_CONTEXT, s.h.deriveKey(HYBRID_KEM_V2_CONTEXT, i),
                                 WRAP_CONTEXT, s.h.deriveKey(HYBRID_KEM_V2_CONTEXT, i'))
      || DeriveKeyCollision(s.h, HYBRID_KEM_V2_CONTEXT, i, HYBRID_KEM_V2_CONTEXT, i')
      || HashCollision(s.h, PublicKey(s.kem, kp).ToBytes(), PublicKey(s.kem, kp').ToBytes())
  {
    UnwrapOpens(s, w, kp, c);
    UnwrapOpens(s, w, kp', c');
    WrapBindsContext(s, w, kp, c, kp', c');
    var (p, p') := (PublicKey(s.kem, kp), PublicKey(s.kem, kp'));
    SplitEqual(p.x448, p.sntrup, p'.x448, p'.sntrup);
    var (i, i') := (CombinerInputFor(s, w, kp), CombinerInputFor(s, w, kp'));
    if s.h.deriveKey(HYBRID_KEM_V2_CONTEXT, i) == s.h.deriveKey(HYBRID_KEM_V2_CONTEXT, i') {
      CombinerBinds(s.h,
        s.kem.dh(kp.x448, w.x448Ephemeral).value, s.kem.decaps(kp.sntrup, w.sntrupCiphertext).value,
        w.sntrupCiphertext, w.x448Ephemeral, p.ToBytes(),
        s.kem.dh(kp'.x448, w.x448Ephemeral).value, s.kem.decaps(kp'.sntrup, w.sntrupCiphertext).value,
        w.sntrupCiphertext, w.x448Ephemeral, p'.ToBytes());
    }
  }
}
