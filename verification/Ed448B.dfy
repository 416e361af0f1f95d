/** Ed448-B: the Ed448 signature scheme with BLAKE3 in place of SHAKE256, shaped as sections
    5.2.5 to 5.2.7 of RFC 8032. */
module Ed448B {
  import opened Octets
  import opened Outcomes
  import opened Primitives
  import opened EdCurve

  const CONTEXT_EXPAND := "Ed448-B-expand"
  const CONTEXT_NONCE := "Ed448-B-nonce"
  const CONTEXT_CHALLENGE := "Ed448-B-challenge"

  const SIGNATURE_SIZE: nat := 114

  datatype ExpandedKey = ExpandedKey(scalar: nat, hashPrefix: Bytes57, public: Bytes57)

  /** A decoded key keeps its encoding and its point. */
  datatype VerifyingKey<+P> = VerifyingKey(compressed: Bytes57, point: P)

  datatype Signature = Signature(r: Bytes57, s: Bytes57)

  function Expand<P>(c: Curve<P>, h: Blake3, seed: Bytes57): ExpandedKey
    requires c.order > 0
  {
    var wide := h.deriveXof(CONTEXT_EXPAND, seed);
    var scalar := ReduceWide(c, Clamp(wide[..57]));
    ExpandedKey(scalar, wide[57..], c.compress(Mul(c, scalar, c.base)))
  }

  function PublicOf<P>(c: Curve<P>, h: Blake3, seed: Bytes57): VerifyingKey<P>
    requires c.order > 0
  {
    var k := Expand(c, h, seed);
    VerifyingKey(k.public, Mul(c, k.scalar, c.base))
  }

  function KeyFromBytes<P>(c: Curve<P>, bytes: Bytes57): Result<VerifyingKey<P>> {
    match c.decompress(bytes)
    case None => Err(SignatureVerificationFailed)
    case Some(p) => Ok(VerifyingKey(bytes, p))
  }

  function NoncePreimage(phflag: Byte, ctx: Bytes, prefix: Bytes57, message: Bytes): Bytes
    requires |ctx| <= 255
  {
    [phflag] + [|ctx|] + ctx + prefix + message
  }

  function ChallengePreimage(phflag: Byte, ctx: Bytes, r: Bytes57, a: Bytes57, message: Bytes): Bytes
    requires |ctx| <= 255
  {
    [phflag] + [|ctx|] + ctx + r + a + message
  }

  function Challenge<P>(c: Curve<P>, h: Blake3, phflag: Byte, ctx: Bytes, r: Bytes57, a: Bytes57, message: Bytes): nat
    requires c.order > 0 && |ctx| <= 255
  {
    ReduceWide(c, h.deriveXof(CONTEXT_CHALLENGE, ChallengePreimage(phflag, ctx, r, a, message)))
  }

  /** The internal signer; a context without a one-byte length hits its `expect`. */
  function SignInner<P>(c: Curve<P>, h: Blake3, k: ExpandedKey, phflag: Byte, ctx: Bytes, message: Bytes): Result<Signature>
    requires c.order > 0
  {
    if |ctx| > 255 then Err(Panicked)
    else
      var r := ReduceWide(c, h.deriveXof(CONTEXT_NONCE, NoncePreimage(phflag, ctx, k.hashPrefix, message)));
      var bigR := c.compress(Mul(c, r, c.base));
      var chl := Challenge(c, h, phflag, ctx, bigR, k.public, message);
      Ok(Signature(bigR, ScalarBytes((r + chl * k.scalar) % c.order)))
  }

  function VerifyInner<P(==)>(c: Curve<P>, h: Blake3, vk: VerifyingKey<P>, phflag: Byte, ctx: Bytes, message: Bytes, sig: Signature):
      Result<()>
    requires c.order > 0
  {
    match c.decompress(sig.r)
    case None => Err(SignatureVerificationFailed)
    case Some(r) =>
      if |ctx| > 255 then Err(Panicked)
      else
        var chl := Challenge(c, h, phflag, ctx, sig.r, vk.compressed, message);
        match DecodeScalar(c, sig.s)
        case None => Err(SignatureVerificationFailed)
        case Some(s) =>
          if Mul(c, s, c.base) == c.add(r, Mul(c, chl, vk.point)) then Ok(()) else Err(SignatureVerificationFailed)
  }

  // ----- the public entry points

  function Sign<P>(c: Curve<P>, h: Blake3, seed: Bytes57, message: Bytes): Result<Signature>
    requires c.order > 0
  {
    SignInner(c, h, Expand(c, h, seed), 0, [], message)
  }

  function SignWithContext<P>(c: Curve<P>, h: Blake3, seed: Bytes57, message: Bytes, ctx: Bytes): Result<Signature>
    requires c.order > 0
  {
    if |ctx| > 255 then Err(InvalidContextLength(|ctx|, 255))
    else SignInner(c, h, Expand(c, h, seed), 0, ctx, message)
  }

  function Verify<P(==)>(c: Curve<P>, h: Blake3, vk: VerifyingKey<P>, message: Bytes, sig: Signature): Result<()>
    requires c.order > 0
  {
    VerifyInner(c, h, vk, 0, [], message, sig)
  }

  function VerifyWithContext<P(==)>(c: Curve<P>, h: Blake3, vk: VerifyingKey<P>, message: Bytes, ctx: Bytes, sig: Signature): Result<()>
    requires c.order > 0
  {
    if |ctx| > 255 then Err(InvalidContextLength(|ctx|, 255))
    else VerifyInner(c, h, vk, 0, ctx, message, sig)
  }

  function ToBytes(sig: Signature): Bytes114 {
    sig.r + sig.s
  }

  function FromBytes<P>(c: Curve<P>, b: Bytes): (r: Result<Signature>)
    ensures r.Err? ==> r.error == InvalidSignature
  {
    if |b| != SIGNATURE_SIZE then Err(InvalidSignature)
    else if DecodeScalar(c, b[57..]).None? then Err(InvalidSignature)
    else Ok(Signature(b[..57], b[57..]))
  }

  // ----- results

  lemma SignatureCodec<P>(c: Curve<P>, sig: Signature, b: Bytes)
    ensures FromBytes(c, b) == Ok(sig) <==> b == ToBytes(sig) && DecodeScalar(c, sig.s).Some?
  {
    if b == ToBytes(sig) {
      assert b[..57] == sig.r && b[57..] == sig.s;
    }
    if FromBytes(c, b) == Ok(sig) {
      assert b == b[..57] + b[57..];
    }
  }

  /** `(r + k s) B = r B + k (s B)`, with the response reduced. */
  lemma ResponseEquation<P(!new)>(c: Curve<P>, r: nat, k: nat, s: nat, ks: nat)
    requires CurveOk(c) && ks == k * s
    ensures Mul(c, (r + ks) % c.order, c.base) == c.add(Mul(c, r, c.base), Mul(c, k, Mul(c, s, c.base)))
  {
    MulReduce(c, r + ks);
    MulAdd(c, r, ks, c.base);
    MulMul(c, k, s, c.base);
  }

  lemma InnerComplete<P(!new)>(c: Curve<P>, h: Blake3, seed: Bytes57, ctx: Bytes, message: Bytes)
    requires CurveOk(c) && |ctx| <= 255
    ensures var r := SignInner(c, h, Expand(c, h, seed), 0, ctx, message);
            && r.Ok?
            && FromBytes(c, ToBytes(r.value)) == Ok(r.value)
            && VerifyInner(c, h, PublicOf(c, h, seed), 0, ctx, message, r.value) == Ok(())
  {
    var k := Expand(c, h, seed);
    var r := ReduceWide(c, h.deriveXof(CONTEXT_NONCE, NoncePreimage(0, ctx, k.hashPrefix, message)));
    var bigR := c.compress(Mul(c, r, c.base));
    var chl := Challenge(c, h, 0, ctx, bigR, k.public, message);
    var ks := chl * k.scalar;
    assert ks >= 0 by { ProductNonNegative(chl, k.scalar); }
    var s := (r + ks) % c.order;
    var sig := Signature(bigR, ScalarBytes(s));
    assert SignInner(c, h, k, 0, ctx, message) == Ok(sig);
    ScalarCodec(c, ScalarBytes(s), s);
    ResponseEquation(c, r, chl, k.scalar, ks);
    Decodes(c, Mul(c, r, c.base));
    SignatureCodec(c, sig, ToBytes(sig));
  }

  /** Every signature, with or without a context of at most 255 bytes, verifies after the signature
      and the public key have both been through their byte forms. */
  lemma SignedVerifies<P(!new)>(c: Curve<P>, h: Blake3, seed: Bytes57, message: Bytes, ctx: Bytes)
    requires CurveOk(c) && |ctx| <= 255
    ensures var vk := KeyFromBytes(c, PublicOf(c, h, seed).compressed);
            var (s, sc) := (Sign(c, h, seed, message), SignWithContext(c, h, seed, message, ctx));
            && vk.Ok? && s.Ok? && sc.Ok?
            && FromBytes(c, ToBytes(s.value)) == Ok(s.value) && FromBytes(c, ToBytes(sc.value)) == Ok(sc.value)
            && Verify(c, h, vk.value, message, s.value) == Ok(())
            && VerifyWithContext(c, h, vk.value, message, ctx, sc.value) == Ok(())
  {
    Decodes(c, Mul(c, Expand(c, h, seed).scalar, c.base));
    InnerComplete(c, h, seed, [], message);
    InnerComplete(c, h, seed, ctx, message);
  }

  /** For one key, commitment, context and message at most one 57-byte response is accepted. */
  lemma ResponseUnique<P(!new)>(c: Curve<P>, h: Blake3, vk: VerifyingKey<P>, message: Bytes, ctx: Bytes,
                                    sig: Signature, sig': Signature)
    requires CurveOk(c) && sig.r == sig'.r
    requires VerifyWithContext(c, h, vk, message, ctx, sig).Ok? && VerifyWithContext(c, h, vk, message, ctx, sig').Ok?
    ensures sig == sig'
  {
    var s, s' := DecodeScalar(c, sig.s).value, DecodeScalar(c, sig'.s).value;
    ScalarCodec(c, sig.s, s);
    ScalarCodec(c, sig'.s, s');
    MulBaseInjective(c, s, s');
  }

  /** No public entry point reaches the internal length `expect`. */
  lemma PublicApiNeverPanics<P>(c: Curve<P>, h: Blake3, seed: Bytes57, vk: VerifyingKey<P>, message: Bytes, ctx: Bytes, sig: Signature)
    requires c.order > 0
    ensures Sign(c, h, seed, message).Ok?
    ensures SignWithContext(c, h, seed, message, ctx).Ok? <==> |ctx| <= 255
    ensures SignWithContext(c, h, seed, message, ctx) != Err(Panicked)
    ensures Verify(c, h, vk, message, sig) != Err(Panicked)
    ensures VerifyWithContext(c, h, vk, message, ctx, sig) != Err(Panicked)
  {}

  /** The length byte delimits the context in the challenge, so one challenge preimage comes from
      one context, commitment, key and message. */
  lemma ChallengePreimageInjective(ctx: Bytes, r: Bytes57, a: Bytes57, m: Bytes, ctx': Bytes, r': Bytes57, a': Bytes57, m': Bytes)
    requires |ctx| <= 255 && |ctx'| <= 255
    requires ChallengePreimage(0, ctx, r, a, m) == ChallengePreimage(0, ctx', r', a', m')
    ensures ctx == ctx' && r == r' && a == a' && m == m'
  {
    var x, x' := ChallengePreimage(0, ctx, r, a, m), ChallengePreimage(0, ctx', r', a', m');
    assert x[1] == |ctx| && x'[1] == |ctx'|;
    SplitEqual([0] + [|ctx|] + ctx + r + a, m, [0] + [|ctx'|] + ctx' + r' + a', m');
    SplitEqual([0] + [|ctx|] + ctx + r, a, [0] + [|ctx'|] + ctx' + r', a');
    SplitEqual([0] + [|ctx|] + ctx, r, [0] + [|ctx'|] + ctx', r');
    SplitEqual([0] + [|ctx|], ctx, [0] + [|ctx'|], ctx');
  }

  /** The nonce input determines context, prefix and message. */
  lemma NoncePreimageInjective(ctx: Bytes, prefix: Bytes57, m: Bytes, ctx': Bytes, prefix': Bytes57, m': Bytes)
    requires |ctx| <= 255 && |ctx'| <= 255
    requires NoncePreimage(0, ctx, prefix, m) == NoncePreimage(0, ctx', prefix', m')
    ensures ctx == ctx' && prefix == prefix' && m == m'
  {
    var x, x' := NoncePreimage(0, ctx, prefix, m), NoncePreimage(0, ctx', prefix', m');
    assert x[1] == |ctx| && x'[1] == |ctx'|;
    SplitEqual([0] + [|ctx|] + ctx + prefix, m, [0] + [|ctx'|] + ctx' + prefix', m');
    SplitEqual([0] + [|ctx|] + ctx, prefix, [0] + [|ctx'|] + ctx', prefix');
    SplitEqual([0] + [|ctx|], ctx, [0] + [|ctx'|], ctx');
  }

  /** The 114-byte nonce draw of a signature: the upper half of the seed's expansion, the context and
      the message, under the nonce context. */
  function NonceInput(h: Blake3, seed: Bytes57, ctx: Bytes, message: Bytes): Bytes
    requires |ctx| <= 255
  {
    NoncePreimage(0, ctx, h.deriveXof(CONTEXT_EXPAND, seed)[57..], message)
  }

  function NonceDraw(h: Blake3, seed: Bytes57, ctx: Bytes, message: Bytes): Bytes114
    requires |ctx| <= 255
  {
    h.deriveXof(CONTEXT_NONCE, NonceInput(h, seed, ctx, message))
  }

  /** Two signatures have one R exactly when their nonce draws are congruent modulo the order. */
  lemma CommonCommitmentIff<P(!new)>(c: Curve<P>, h: Blake3, seed: Bytes57, ctx: Bytes, m: Bytes, seed': Bytes57, ctx': Bytes, m': Bytes)
    requires CurveOk(c) && |ctx| <= 255 && |ctx'| <= 255
    ensures SignWithContext(c, h, seed, m, ctx).Ok? && SignWithContext(c, h, seed', m', ctx').Ok?
    ensures SignWithContext(c, h, seed, m, ctx).value.r == SignWithContext(c, h, seed', m', ctx').value.r
       <==> LeValue(NonceDraw(h, seed, ctx, m)) % c.order == LeValue(NonceDraw(h, seed', ctx', m')) % c.order
  {
    var (x, y) := (ReduceWide(c, NonceDraw(h, seed, ctx, m)), ReduceWide(c, NonceDraw(h, seed', ctx', m')));
    if SignWithContext(c, h, seed, m, ctx).value.r == SignWithContext(c, h, seed', m', ctx').value.r {
      CompressInjective(c, Mul(c, x, c.base), Mul(c, y, c.base));
      MulBaseInjective(c, x, y);
    }
  }

  /** Two signatures with one R sign one context and message under one expansion half; or the nonce
      derivation collides on the two inputs; or two different draws are congruent. */
  lemma NonceBindsMessage<P(!new)>(c: Curve<P>, h: Blake3, seed: Bytes57, ctx: Bytes, m: Bytes, seed': Bytes57, ctx': Bytes, m': Bytes)
    requires CurveOk(c) && |ctx| <= 255 && |ctx'| <= 255
    requires SignWithContext(c, h, seed, m, ctx).Ok? && SignWithContext(c, h, seed', m', ctx').Ok?
    requires SignWithContext(c, h, seed, m, ctx).value.r == SignWithContext(c, h, seed', m', ctx').value.r
    ensures
      var (x, x') := (NonceInput(h, seed, ctx, m), NonceInput(h, seed', ctx', m'));
      var (w, w') := (NonceDraw(h, seed, ctx, m), NonceDraw(h, seed', ctx', m'));
      || (ctx == ctx' && m == m' && h.deriveXof(CONTEXT_EXPAND, seed)[57..] == h.deriveXof(CONTEXT_EXPAND, seed')[57..])
      || DeriveXofCollision(h, CONTEXT_NONCE, x, CONTEXT_NONCE, x')
      || (w != w' && LeValue(w) % c.order == LeValue(w') % c.order)
  {
    CommonCommitmentIff(c, h, seed, ctx, m, seed', ctx', m');
    if NonceInput(h, seed, ctx, m) == NonceInput(h, seed', ctx', m') {
      NoncePreimageInjective(ctx, h.deriveXof(CONTEXT_EXPAND, seed)[57..], m, ctx', h.deriveXof(CONTEXT_EXPAND, seed')[57..], m');
    }
  }

  /** Two seeds have one public key exactly when the clamped lower halves of their expansions are
      congruent modulo the order. */
  lemma PublicKeyFixesScalar<P(!new)>(c: Curve<P>, h: Blake3, seed: Bytes57, seed': Bytes57)
    requires CurveOk(c)
    ensures PublicOf(c, h, seed).compressed == PublicOf(c, h, seed').compressed
       <==> LeValue(Clamp(h.deriveXof(CONTEXT_EXPAND, seed)[..57])) % c.order
              == LeValue(Clamp(h.deriveXof(CONTEXT_EXPAND, seed')[..57])) % c.order
  {
    var (x, y) := (Expand(c, h, seed).scalar, Expand(c, h, seed').scalar);
    if PublicOf(c, h, seed).compressed == PublicOf(c, h, seed').compressed {
      CompressInjective(c, Mul(c, x, c.base), Mul(c, y, c.base));
      MulBaseInjective(c, x, y);
    }
  }

  /** Special soundness: two accepted signatures with one R answer two challenges and balance against
      the key, whatever point it is. */
  lemma TwoAnswersBalance<P(!new)>(c: Curve<P>, h: Blake3, vk: VerifyingKey<P>, ctx: Bytes, m: Bytes, sig: Signature,
                                   ctx': Bytes, m': Bytes, sig': Signature)
    requires CurveOk(c) && |ctx| <= 255 && |ctx'| <= 255 && sig.r == sig'.r
    requires VerifyWithContext(c, h, vk, m, ctx, sig).Ok? && VerifyWithContext(c, h, vk, m', ctx', sig').Ok?
    ensures DecodeScalar(c, sig.s).Some? && DecodeScalar(c, sig'.s).Some?
    ensures
      var (k, k') := (Challenge(c, h, 0, ctx, sig.r, vk.compressed, m), Challenge(c, h, 0, ctx', sig.r, vk.compressed, m'));
      Balanced(c, DecodeScalar(c, sig.s).value, k, DecodeScalar(c, sig'.s).value, k', vk.point)
  {
    var (k, k') := (Challenge(c, h, 0, ctx, sig.r, vk.compressed, m), Challenge(c, h, 0, ctx', sig.r, vk.compressed, m'));
    SwapSummands(c, c.decompress(sig.r).value, Mul(c, k, vk.point), Mul(c, k', vk.point));
  }

  /** The challenge covers the whole input: two with one challenge scalar cover one context, R, key
      and message; or the challenge derivation collides on the two inputs; or two different draws
      are congruent modulo the order. */
  lemma ChallengeFixesInput<P>(c: Curve<P>, h: Blake3, ctx: Bytes, r: Bytes57, a: Bytes57, m: Bytes, ctx': Bytes, r': Bytes57, a': Bytes57, m': Bytes)
    requires c.order > 0 && |ctx| <= 255 && |ctx'| <= 255
    requires Challenge(c, h, 0, ctx, r, a, m) == Challenge(c, h, 0, ctx', r', a', m')
    ensures
      var (x, x') := (ChallengePreimage(0, ctx, r, a, m), ChallengePreimage(0, ctx', r', a', m'));
      var (w, w') := (h.deriveXof(CONTEXT_CHALLENGE, x), h.deriveXof(CONTEXT_CHALLENGE, x'));
      || (ctx == ctx' && r == r' && a == a' && m == m')
      || DeriveXofCollision(h, CONTEXT_CHALLENGE, x, CONTEXT_CHALLENGE, x')
      || (w != w' && LeValue(w) % c.order == LeValue(w') % c.order)
  {
    if ChallengePreimage(0, ctx, r, a, m) == ChallengePreimage(0, ctx', r', a', m') {
      ChallengePreimageInjective(ctx, r, a, m, ctx', r', a', m');
    }
  }

  /** Where the fields of the two inputs lie. */
  lemma PreimageLayout(ctx: Bytes, prefix: Bytes57, r: Bytes57, a: Bytes57, m: Bytes)
    requires |ctx| <= 255
    ensures var n := NoncePreimage(0, ctx, prefix, m); var k := |ctx| + 2;
            n[..k] == [0, |ctx|] + ctx && n[k..k + 57] == prefix && n[k + 57..] == m
    ensures var n := ChallengePreimage(0, ctx, r, a, m); var k := |ctx| + 2;
            n[..k] == [0, |ctx|] + ctx && n[k..k + 57] == r && n[k + 57..k + 114] == a && n[k + 114..] == m
    ensures var b := ToBytes(Signature(r, a)); b[..57] == r && b[57..] == a
  {
    assert [0] + [|ctx|] + ctx == [0, |ctx|] + ctx;
  }
}
