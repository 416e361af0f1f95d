/** The Bird-of-Prey-2 hybrid signature: an Ed448 Schnorr response intertwined with an ML-DSA
    signature. The ML-DSA signature covers a digest of the keys, the message region and the
    Schnorr commitment; the Schnorr challenge is a hash of the ML-DSA signature. */
module HybridSignatures {
  import opened Octets
  import opened Outcomes
  import opened Primitives
  import opened EdCurve

  const SIG_BOP2_H1_CONTEXT := "trelis-hybrid-sig-bop2-h1-v1"
  const SIG_BOP2_H1_CTX_CONTEXT := "trelis-hybrid-sig-bop2-h1-ctx-v1"
  const SIG_BOP2_H1_PREHASH_CONTEXT := "trelis-hybrid-sig-bop2-h1-prehash-v1"
  const SIG_BOP2_H2_CONTEXT := "trelis-hybrid-sig-bop2-h2-v1"

  const ED448_SIG_SIZE: nat := 57
  const MLDSA_SIG_SIZE: nat := 3309
  const SIGNATURE_SIZE: nat := ED448_SIG_SIZE + MLDSA_SIG_SIZE

  type MlDsaPublic = b: Bytes | |b| == 1952 witness seq(1952, _ => 0)
  type MlDsaSignature = b: Bytes | |b| == MLDSA_SIG_SIZE witness seq(MLDSA_SIG_SIZE, _ => 0)

  /** ML-DSA-65 as a black box. Signing takes the secret, the digest and its per-call entropy. */
  datatype MlDsa<!S> = MlDsa(
    public: S -> MlDsaPublic,
    sign: (S, Bytes32, Bytes) -> Option<MlDsaSignature>,
    verify: (MlDsaPublic, Bytes32, MlDsaSignature) -> bool)

  ghost predicate MlDsaCorrect<S(!new)>(m: MlDsa<S>) {
    forall sk, d, e :: m.sign(sk, d, e).Some? ==> m.verify(m.public(sk), d, m.sign(sk, d, e).value)
  }

  ghost predicate SignsAlways<S(!new)>(m: MlDsa<S>) {
    forall sk, d, e :: m.sign(sk, d, e).Some?
  }

  /** A scheme whose signatures start with the digest and the first byte of the key. */
  function OpenMlDsa(): MlDsa<Byte> {
    MlDsa(sk => [sk] + seq(1951, _ => 0), (sk, d, _) => Some(d + [sk] + seq(3276, _ => 0)),
          (pk: MlDsaPublic, d: Bytes32, sig: MlDsaSignature) => sig[..32] == d && sig[32] == pk[0])
  }

  /** The hypothesis on ML-DSA can be met, by a scheme that never fails and accepts one digest. */
  lemma MlDsaHypothesisConsistent()
    ensures MlDsaCorrect(OpenMlDsa())
  {
    forall sk: Byte, d: Bytes32
      ensures var sig := d + [sk] + seq(3276, _ => 0); sig[..32] == d && sig[32] == sk
    {}
  }

  /** `expand` is SHAKE256 of the Ed448 seed. */
  datatype SigSuite<!P, !S> = SigSuite(curve: Curve<P>, h: Blake3, expand: Bytes57 -> Bytes114, mldsa: MlDsa<S>)

  datatype HybridPublicKey = HybridPublicKey(ed448: Bytes57, mldsa: MlDsaPublic)
  datatype HybridKeypair<+S> = HybridKeypair(seed: Bytes57, mldsaSecret: S)
  datatype HybridSignature = HybridSignature(rsp: Bytes57, mldsa: MlDsaSignature)

  // ----- the Schnorr surface

  function SecretScalar<P, S>(s: SigSuite<P, S>, seed: Bytes57): nat
    requires s.curve.order > 0
  {
    ReduceWide(s.curve, Clamp(s.expand(seed)[..57]))
  }

  function PublicKey<P, S>(s: SigSuite<P, S>, kp: HybridKeypair<S>): HybridPublicKey
    requires s.curve.order > 0
  {
    HybridPublicKey(s.curve.compress(Mul(s.curve, SecretScalar(s, kp.seed), s.curve.base)), s.mldsa.public(kp.mldsaSecret))
  }

  /** The compressed commitment `r B` for a 114-byte nonce draw. */
  function Commitment<P>(c: Curve<P>, nonce: Bytes114): Bytes57
    requires c.order > 0
  {
    c.compress(Mul(c, ReduceWide(c, nonce), c.base))
  }

  /** `r + chl s` modulo the order, canonically encoded. */
  function Respond<P>(c: Curve<P>, nonce: Bytes114, secret: nat, challenge: Bytes114): Bytes57
    requires c.order > 0
  {
    ScalarBytes((ReduceWide(c, nonce) + ReduceWide(c, challenge) * secret) % c.order)
  }

  /** The verifier's `rsp B - chl A`; a non-canonical response or an undecodable key is refused. */
  function ExtCom<P>(c: Curve<P>, vk: Bytes57, challenge: Bytes114, rsp: Bytes57): Result<Bytes57>
    requires c.order > 0
  {
    match DecodeScalar(c, rsp)
    case None => Err(SignatureVerificationFailed)
    case Some(k) =>
      match c.decompress(vk)
      case None => Err(SignatureVerificationFailed)
      case Some(a) => Ok(c.compress(c.add(Mul(c, k, c.base), c.neg(Mul(c, ReduceWide(c, challenge), a)))))
  }

  // ----- preimages

  /** The three entry points: plain, with a context string, and over a prehash. */
  datatype Mode = Plain | WithContext(context: Bytes) | Prehashed(prehashContext: string)

  function H1Context(mode: Mode): string {
    match mode
    case Plain => SIG_BOP2_H1_CONTEXT
    case WithContext(_) => SIG_BOP2_H1_CTX_CONTEXT
    case Prehashed(_) => SIG_BOP2_H1_PREHASH_CONTEXT
  }

  /** What stands for the message in the digest: the message, `ctx_len || ctx || message`, or the
      32-byte prehash. A context over 255 bytes has no one-byte length. */
  function Region(h: Blake3, mode: Mode, message: Bytes): Result<Bytes> {
    match mode
    case Plain => Ok(message)
    case WithContext(ctx) =>
      if |ctx| > 255 then Err(InvalidContextLength(|ctx|, 255)) else Ok([|ctx|] + ctx + message)
    case Prehashed(c) => Ok(h.deriveKey(c, message))
  }

  function H1Preimage(pk: HybridPublicKey, region: Bytes, com: Bytes57): Bytes {
    pk.ed448 + pk.mldsa + region + com
  }

  function MPrime(h: Blake3, mode: Mode, pk: HybridPublicKey, region: Bytes, com: Bytes57): Bytes32 {
    h.deriveKey(H1Context(mode), H1Preimage(pk, region, com))
  }

  function H2Challenge(h: Blake3, sigma2: MlDsaSignature): Bytes114 {
    h.deriveXof(SIG_BOP2_H2_CONTEXT, sigma2)
  }

  // ----- sign and verify

  function Sign<P, S>(s: SigSuite<P, S>, kp: HybridKeypair<S>, mode: Mode, message: Bytes, nonce: Bytes114, entropy: Bytes):
      Result<HybridSignature>
    requires s.curve.order > 0
  {
    var region :- Region(s.h, mode, message);
    var com := Commitment(s.curve, nonce);
    match s.mldsa.sign(kp.mldsaSecret, MPrime(s.h, mode, PublicKey(s, kp), region, com), entropy)
    case None => Err(SigningFailed)
    case Some(sigma2) =>
      Ok(HybridSignature(Respond(s.curve, nonce, SecretScalar(s, kp.seed), H2Challenge(s.h, sigma2)), sigma2))
  }

  /** Every rejection but that of the context's length looks the same. */
  function Verify<P, S>(s: SigSuite<P, S>, pk: HybridPublicKey, mode: Mode, message: Bytes, sig: HybridSignature): (r: Result<()>)
    requires s.curve.order > 0
    ensures r.Err? ==> r.error == if mode.WithContext? && |mode.context| > 255 then InvalidContextLength(|mode.context|, 255)
                                  else SignatureVerificationFailed
  {
    var region :- Region(s.h, mode, message);
    var com :- ExtCom(s.curve, pk.ed448, H2Challenge(s.h, sig.mldsa), sig.rsp);
    if s.mldsa.verify(pk.mldsa, MPrime(s.h, mode, pk, region, com), sig.mldsa) then Ok(())
    else Err(SignatureVerificationFailed)
  }

  // ----- the wire form

  function ToBytes(sig: HybridSignature): (b: Bytes)
    ensures |b| == SIGNATURE_SIZE
  {
    sig.rsp + sig.mldsa
  }

  function FromBytes<P>(c: Curve<P>, b: Bytes): (r: Result<HybridSignature>)
    ensures r.Err? ==> r.error == InvalidSignature
  {
    if |b| != SIGNATURE_SIZE then Err(InvalidSignature)
    else if DecodeScalar(c, b[..ED448_SIG_SIZE]).None? then Err(InvalidSignature)
    else Ok(HybridSignature(b[..ED448_SIG_SIZE], b[ED448_SIG_SIZE..]))
  }

  /** The parser accepts exactly the printed signatures with a canonical response. */
  lemma SignatureCodec<P>(c: Curve<P>, sig: HybridSignature, b: Bytes)
    ensures FromBytes(c, b) == Ok(sig) <==> b == ToBytes(sig) && DecodeScalar(c, sig.rsp).Some?
  {
    if b == ToBytes(sig) {
      assert b[..ED448_SIG_SIZE] == sig.rsp && b[ED448_SIG_SIZE..] == sig.mldsa;
    }
    if FromBytes(c, b) == Ok(sig) {
      assert b == b[..ED448_SIG_SIZE] + b[ED448_SIG_SIZE..];
    }
  }

  // ----- completeness

  /** The Schnorr identity: `(r + k s) B - k (s B) = r B`, with every scalar reduced. */
  lemma SchnorrIdentity<P(!new)>(c: Curve<P>, r: nat, k: nat, s: nat, ks: nat)
    requires CurveOk(c) && ks == k * s
    ensures c.add(Mul(c, (r + ks) % c.order, c.base), c.neg(Mul(c, k, Mul(c, s, c.base)))) == Mul(c, r, c.base)
  {
    MulReduce(c, r + ks);
    MulAdd(c, r, ks, c.base);
    MulMul(c, k, s, c.base);
    AddThenSubtract(c, Mul(c, r, c.base), Mul(c, ks, c.base));
  }

  /** The verifier extracts the very commitment the signer made. */
  lemma ExtractsCommitment<P(!new)>(c: Curve<P>, nonce: Bytes114, secret: nat, challenge: Bytes114)
    requires CurveOk(c)
    ensures var rsp := Respond(c, nonce, secret, challenge);
            && DecodeScalar(c, rsp).Some?
            && ExtCom(c, c.compress(Mul(c, secret, c.base)), challenge, rsp) == Ok(Commitment(c, nonce))
  {
    var r, k := ReduceWide(c, nonce), ReduceWide(c, challenge);
    var ks := k * secret;
    assert ks >= 0 by { ProductNonNegative(k, secret); }
    ScalarCodec(c, ScalarBytes((r + ks) % c.order), (r + ks) % c.order);
    SchnorrIdentity(c, r, k, secret, ks);
    Decodes(c, Mul(c, secret, c.base));
  }

  /** Whatever is signed, in any mode, survives the wire and verifies. */
  lemma SignedVerifies<P(!new), S(!new)>(s: SigSuite<P, S>, kp: HybridKeypair<S>, mode: Mode, message: Bytes,
                                         nonce: Bytes114, entropy: Bytes)
    requires CurveOk(s.curve) && MlDsaCorrect(s.mldsa)
    ensures
      var r := Sign(s, kp, mode, message, nonce, entropy);
      r.Ok? ==>
        && FromBytes(s.curve, ToBytes(r.value)) == Ok(r.value)
        && Verify(s, PublicKey(s, kp), mode, message, r.value) == Ok(())
    ensures mode.WithContext? && |mode.context| > 255 <==>
      Sign(s, kp, mode, message, nonce, entropy).Err? && Sign(s, kp, mode, message, nonce, entropy).error.InvalidContextLength?
  {
    var r := Sign(s, kp, mode, message, nonce, entropy);
    if r.Ok? {
      var sig := r.value;
      ExtractsCommitment(s.curve, nonce, SecretScalar(s, kp.seed), H2Challenge(s.h, sig.mldsa));
      SignatureCodec(s.curve, sig, ToBytes(sig));
    }
  }

  /** Signing, exactly: a context without a one-byte length is refused; otherwise the outcome is that
      of ML-DSA on the digest, and its signature is the second half. */
  lemma SignOutcome<P(!new), S(!new)>(s: SigSuite<P, S>, kp: HybridKeypair<S>, mode: Mode, message: Bytes, nonce: Bytes114, entropy: Bytes)
    requires s.curve.order > 0
    ensures
      var r := Sign(s, kp, mode, message, nonce, entropy);
      if mode.WithContext? && |mode.context| > 255 then r == Err(InvalidContextLength(|mode.context|, 255))
      else
        var m := MPrime(s.h, mode, PublicKey(s, kp), Region(s.h, mode, message).value, Commitment(s.curve, nonce));
        var sigma2 := s.mldsa.sign(kp.mldsaSecret, m, entropy);
        if sigma2.None? then r == Err(SigningFailed) else r.Ok? && r.value.mldsa == sigma2.value
  {}

  /** Where the fields of the digest input and of the wire form lie. */
  lemma H1Layout(pk: HybridPublicKey, x: Bytes, r: Bytes57, sig: HybridSignature)
    ensures var b := H1Preimage(pk, x, r); var k := 57 + 1952 + |x|;
            |b| == k + 57 && b[..57] == pk.ed448 && b[57..2009] == pk.mldsa && b[2009..k] == x && b[k..] == r
    ensures ToBytes(sig)[..57] == sig.rsp && ToBytes(sig)[57..] == sig.mldsa
  {}

  // ----- keys, commitments and challenges depend on what they should

  /** Two key pairs have one Ed448 key exactly when their clamped expansions are congruent. */
  lemma PublicKeyFixesScalar<P(!new), S(!new)>(s: SigSuite<P, S>, a: HybridKeypair<S>, b: HybridKeypair<S>)
    requires CurveOk(s.curve)
    ensures PublicKey(s, a).ed448 == PublicKey(s, b).ed448
       <==> LeValue(Clamp(s.expand(a.seed)[..57])) % s.curve.order == LeValue(Clamp(s.expand(b.seed)[..57])) % s.curve.order
  {
    var c := s.curve;
    var (x, y) := (SecretScalar(s, a.seed), SecretScalar(s, b.seed));
    if PublicKey(s, a).ed448 == PublicKey(s, b).ed448 {
      CompressInjective(c, Mul(c, x, c.base), Mul(c, y, c.base));
      MulBaseInjective(c, x, y);
    }
  }

  /** Two nonce draws make one commitment exactly when they are congruent. */
  lemma CommitmentFixesNonce<P(!new)>(c: Curve<P>, a: Bytes114, b: Bytes114)
    requires CurveOk(c)
    ensures Commitment(c, a) == Commitment(c, b) <==> LeValue(a) % c.order == LeValue(b) % c.order
  {
    if Commitment(c, a) == Commitment(c, b) {
      CompressInjective(c, Mul(c, ReduceWide(c, a), c.base), Mul(c, ReduceWide(c, b), c.base));
      MulBaseInjective(c, ReduceWide(c, a), ReduceWide(c, b));
    }
  }

  /** The challenge depends on the whole ML-DSA signature: two halves with one challenge are equal,
      or the 114-byte derivation collides on them. */
  lemma ChallengeFixesHalf(h: Blake3, a: MlDsaSignature, b: MlDsaSignature)
    requires H2Challenge(h, a) == H2Challenge(h, b)
    ensures a == b || DeriveXofCollision(h, SIG_BOP2_H2_CONTEXT, a, SIG_BOP2_H2_CONTEXT, b)
  {}

  /** Special soundness: two answers to two challenges for one commitment, under any key that decodes,
      balance against that key. */
  lemma TwoAnswersBalance<P(!new)>(c: Curve<P>, vk: Bytes57, chl: Bytes114, chl': Bytes114, rsp: Bytes57, rsp': Bytes57)
    requires CurveOk(c) && ExtCom(c, vk, chl, rsp).Ok? && ExtCom(c, vk, chl, rsp) == ExtCom(c, vk, chl', rsp')
    ensures DecodeScalar(c, rsp).Some? && DecodeScalar(c, rsp').Some? && c.decompress(vk).Some?
    ensures Balanced(c, DecodeScalar(c, rsp).value, ReduceWide(c, chl), DecodeScalar(c, rsp').value, ReduceWide(c, chl'),
                     c.decompress(vk).value)
  {
    var a := c.decompress(vk).value;
    var (n, n') := (DecodeScalar(c, rsp).value, DecodeScalar(c, rsp').value);
    var (p, p') := (Mul(c, n, c.base), Mul(c, n', c.base));
    var (q, q') := (Mul(c, ReduceWide(c, chl), a), Mul(c, ReduceWide(c, chl'), a));
    CompressInjective(c, c.add(p, c.neg(q)), c.add(p', c.neg(q')));
    CrossDifferences(c, p, q, p', q');
  }

  /** Two signatures with one response and different ML-DSA halves that verify for one key, mode and
      message have different challenges, or the challenge derivation collides on the two halves. */
  lemma HalvesHaveOwnChallenges<P(!new), S(!new)>(s: SigSuite<P, S>, pk: HybridPublicKey, mode: Mode, message: Bytes,
                                                  sig: HybridSignature, sig': HybridSignature)
    requires s.curve.order > 0
    requires Verify(s, pk, mode, message, sig).Ok? && Verify(s, pk, mode, message, sig').Ok?
    requires sig.rsp == sig'.rsp && sig != sig'
    ensures
      || H2Challenge(s.h, sig.mldsa) != H2Challenge(s.h, sig'.mldsa)
      || DeriveXofCollision(s.h, SIG_BOP2_H2_CONTEXT, sig.mldsa, SIG_BOP2_H2_CONTEXT, sig'.mldsa)
  {
    if H2Challenge(s.h, sig.mldsa) == H2Challenge(s.h, sig'.mldsa) {
      ChallengeFixesHalf(s.h, sig.mldsa, sig'.mldsa);
    }
  }

  /** Two verifying signatures of one key that open to one commitment either are one signature, or
      name a challenge collision, or answer two challenges and so balance against the key. */
  lemma SharedCommitmentBalances<P(!new), S(!new)>(s: SigSuite<P, S>, pk: HybridPublicKey, mode: Mode, m: Bytes, sig: HybridSignature,
                                                   mode': Mode, m': Bytes, sig': HybridSignature)
    requires CurveOk(s.curve)
    requires Verify(s, pk, mode, m, sig).Ok? && Verify(s, pk, mode', m', sig').Ok?
    requires CommitmentOf(s, pk, sig) == CommitmentOf(s, pk, sig')
    ensures
      var (k, k') := (H2Challenge(s.h, sig.mldsa), H2Challenge(s.h, sig'.mldsa));
      var (n, n') := (DecodeScalar(s.curve, sig.rsp), DecodeScalar(s.curve, sig'.rsp));
      || sig == sig'
      || DeriveXofCollision(s.h, SIG_BOP2_H2_CONTEXT, sig.mldsa, SIG_BOP2_H2_CONTEXT, sig'.mldsa)
      || (k != k' && n.Some? && n'.Some? && s.curve.decompress(pk.ed448).Some?
          && Balanced(s.curve, n.value, ReduceWide(s.curve, k), n'.value, ReduceWide(s.curve, k'), s.curve.decompress(pk.ed448).value))
  {
    var (k, k') := (H2Challenge(s.h, sig.mldsa), H2Challenge(s.h, sig'.mldsa));
    if k == k' {
      ChallengeFixesHalf(s.h, sig.mldsa, sig'.mldsa);
      if sig.mldsa == sig'.mldsa {
        ResponseUnique(s.curve, pk.ed448, k, sig.rsp, sig'.rsp);
      }
    } else {
      TwoAnswersBalance(s.curve, pk.ed448, k, k', sig.rsp, sig'.rsp);
    }
  }

  // ----- unique responses

  /** For one key and challenge, two accepted responses with one commitment are the same bytes. */
  lemma ResponseUnique<P(!new)>(c: Curve<P>, vk: Bytes57, challenge: Bytes114, rsp: Bytes57, rsp': Bytes57)
    requires CurveOk(c)
    requires ExtCom(c, vk, challenge, rsp).Ok?
    requires ExtCom(c, vk, challenge, rsp) == ExtCom(c, vk, challenge, rsp')
    ensures rsp == rsp'
  {
    var m, n := DecodeScalar(c, rsp).value, DecodeScalar(c, rsp').value;
    var a := c.neg(Mul(c, ReduceWide(c, challenge), c.decompress(vk).value));
    CompressInjective(c, c.add(Mul(c, m, c.base), a), c.add(Mul(c, n, c.base), a));
    Cancel(c, Mul(c, m, c.base), Mul(c, n, c.base), a);
    ScalarCodec(c, rsp, m);
    ScalarCodec(c, rsp', n);
    MulBaseInjective(c, m, n);
  }

  /** The commitment a verifying signature opens to. */
  function CommitmentOf<P, S>(s: SigSuite<P, S>, pk: HybridPublicKey, sig: HybridSignature): Result<Bytes57>
    requires s.curve.order > 0
  {
    ExtCom(s.curve, pk.ed448, H2Challenge(s.h, sig.mldsa), sig.rsp)
  }

  /** ML-DSA accepts one signature, under the two keys, on two different digests. */
  predicate AcceptsTwoDigests<S>(m: MlDsa<S>, pk: MlDsaPublic, d: Bytes32, pk': MlDsaPublic, d': Bytes32, sigma2: MlDsaSignature) {
    d != d' && m.verify(pk, d, sigma2) && m.verify(pk', d', sigma2)
  }

  /** Two signatures that share the ML-DSA half and verify for one key, mode and message are
      identical, unless H1 collides on the two preimages or ML-DSA accepts that half on two digests. */
  lemma UniqueResponses<P(!new), S(!new)>(s: SigSuite<P, S>, pk: HybridPublicKey, mode: Mode, message: Bytes,
                                          sig: HybridSignature, sig': HybridSignature)
    requires CurveOk(s.curve)
    requires sig.mldsa == sig'.mldsa
    requires Verify(s, pk, mode, message, sig).Ok? && Verify(s, pk, mode, message, sig').Ok?
    ensures
      var region := Region(s.h, mode, message).value;
      var (r, r') := (CommitmentOf(s, pk, sig).value, CommitmentOf(s, pk, sig').value);
      || sig == sig'
      || DeriveKeyCollision(s.h, H1Context(mode), H1Preimage(pk, region, r), H1Context(mode), H1Preimage(pk, region, r'))
      || AcceptsTwoDigests(s.mldsa, pk.mldsa, MPrime(s.h, mode, pk, region, r), pk.mldsa, MPrime(s.h, mode, pk, region, r'), sig.mldsa)
  {
    var region := Region(s.h, mode, message).value;
    var (r, r') := (CommitmentOf(s, pk, sig).value, CommitmentOf(s, pk, sig').value);
    if H1Preimage(pk, region, r) == H1Preimage(pk, region, r') {
      SplitEqual(pk.ed448 + pk.mldsa + region, r, pk.ed448 + pk.mldsa + region, r');
      ResponseUnique(s.curve, pk.ed448, H2Challenge(s.h, sig.mldsa), sig.rsp, sig'.rsp);
    }
  }

  // ----- binding of key, mode and message

  /** The fixed-size keys in front and commitment behind delimit the region. */
  lemma H1PreimageInjective(pk: HybridPublicKey, x: Bytes, r: Bytes57, pk': HybridPublicKey, x': Bytes, r': Bytes57)
    requires H1Preimage(pk, x, r) == H1Preimage(pk', x', r')
    ensures pk == pk' && x == x' && r == r'
  {
    var a, a' := pk.ed448 + pk.mldsa + x, pk'.ed448 + pk'.mldsa + x';
    assert |a + r| == |a' + r'|;
    SplitEqual(a, r, a', r');
    SplitEqual(pk.ed448 + pk.mldsa, x, pk'.ed448 + pk'.mldsa, x');
    SplitEqual(pk.ed448, pk.mldsa, pk'.ed448, pk'.mldsa);
  }

  /** The length byte delimits the context, so context and message never blur. */
  lemma ContextRegionInjective(ctx: Bytes, m: Bytes, ctx': Bytes, m': Bytes)
    requires |ctx| <= 255 && |ctx'| <= 255
    requires [|ctx|] + ctx + m == [|ctx'|] + ctx' + m'
    ensures ctx == ctx' && m == m'
  {
    assert ([|ctx|] + ctx + m)[0] == |ctx| && ([|ctx'|] + ctx' + m')[0] == |ctx'|;
    SplitEqual([|ctx|] + ctx, m, [|ctx'|] + ctx', m');
    SplitEqual([|ctx|], ctx, [|ctx'|], ctx');
  }

  lemma H1ContextsDistinct(mode: Mode, mode': Mode)
    requires H1Context(mode) == H1Context(mode')
    ensures mode.Plain? == mode'.Plain? && mode.WithContext? == mode'.WithContext?
  {
    assert |SIG_BOP2_H1_CONTEXT| == 28 && |SIG_BOP2_H1_CTX_CONTEXT| == 32 && |SIG_BOP2_H1_PREHASH_CONTEXT| == 36;
  }

  /** One region under one H1 domain comes from one mode and message, or a prehash collides. */
  lemma RegionBinds(h: Blake3, mode: Mode, m: Bytes, mode': Mode, m': Bytes)
    requires H1Context(mode) == H1Context(mode')
    requires Region(h, mode, m).Ok? && Region(h, mode, m) == Region(h, mode', m')
    ensures
      || (mode == mode' && m == m')
      || (mode.Prehashed? && mode'.Prehashed?
          && DeriveKeyCollision(h, mode.prehashContext, m, mode'.prehashContext, m'))
  {
    H1ContextsDistinct(mode, mode');
    if mode.WithContext? {
      ContextRegionInjective(mode.context, m, mode'.context, m');
    }
  }

  /** A signature that verifies under two (key, mode, message) triples proves them equal, or names
      a collision of H1, a collision of the prehash, or two digests that ML-DSA accepts it on. */
  lemma SignatureBindsKeyModeMessage<P(!new), S(!new)>(s: SigSuite<P, S>, sig: HybridSignature,
                                                       pk: HybridPublicKey, mode: Mode, m: Bytes,
                                                       pk': HybridPublicKey, mode': Mode, m': Bytes)
    requires s.curve.order > 0
    requires Verify(s, pk, mode, m, sig).Ok? && Verify(s, pk', mode', m', sig).Ok?
    ensures
      var (x, x') := (Region(s.h, mode, m).value, Region(s.h, mode', m').value);
      var (r, r') := (CommitmentOf(s, pk, sig).value, CommitmentOf(s, pk', sig).value);
      || (pk == pk' && mode == mode' && m == m')
      || DeriveKeyCollision(s.h, H1Context(mode), H1Preimage(pk, x, r), H1Context(mode'), H1Preimage(pk', x', r'))
      || (mode.Prehashed? && mode'.Prehashed? && DeriveKeyCollision(s.h, mode.prehashContext, m, mode'.prehashContext, m'))
      || AcceptsTwoDigests(s.mldsa, pk.mldsa, MPrime(s.h, mode, pk, x, r), pk'.mldsa, MPrime(s.h, mode', pk', x', r'), sig.mldsa)
  {
    var (x, x') := (Region(s.h, mode, m).value, Region(s.h, mode', m').value);
    var (r, r') := (CommitmentOf(s, pk, sig).value, CommitmentOf(s, pk', sig).value);
    if H1Context(mode) == H1Context(mode') && H1Preimage(pk, x, r) == H1Preimage(pk', x', r') {
      H1PreimageInjective(pk, x, r, pk', x', r');
      RegionBinds(s.h, mode, m, mode', m');
    }
  }
}
