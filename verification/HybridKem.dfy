/** The hybrid KEM: X448 and sntrup761 as black boxes, combined by one key derivation that binds
    the ciphertext, the ephemeral key and the recipient's public key. */
module HybridKem {
  import opened Octets
  import opened Outcomes
  import opened Primitives
  import opened Buffers

  const HYBRID_KEM_V2_CONTEXT := "trelis-hybrid-kem-v2"
  const V2_COMBINED_INPUT_SIZE: nat := 184
  const ENCAPSULATION_SIZE: nat := 56 + 1039

  type SntrupPublic = b: Bytes | |b| == 1158 witness seq(1158, _ => 0)
  type SntrupCiphertext = b: Bytes | |b| == 1039 witness seq(1039, _ => 0)

  /** X448 secrets `X`, sntrup761 secrets `S`; encapsulation takes its coins. */
  datatype Kem<!X, !S> = Kem(
    xPublic: X -> Bytes56,
    dh: (X, Bytes56) -> Option<Bytes56>,
    sPublic: S -> SntrupPublic,
    encaps: (SntrupPublic, Bytes) -> Option<(Bytes32, SntrupCiphertext)>,
    decaps: (S, SntrupCiphertext) -> Option<Bytes32>)

  ghost predicate KemCorrect<X(!new), S(!new)>(k: Kem<X, S>) {
    && (forall a, b :: k.dh(a, k.xPublic(b)).Some? ==> k.dh(b, k.xPublic(a)) == k.dh(a, k.xPublic(b)))
    && (forall sk, coins :: k.encaps(k.sPublic(sk), coins).Some? ==>
          k.decaps(sk, k.encaps(k.sPublic(sk), coins).value.1) == Some(k.encaps(k.sPublic(sk), coins).value.0))
  }

  /** The first 32 bytes, padded with zeros. */
  function Fit32(b: Bytes): Bytes32 {
    if |b| < 32 then b + seq(32 - |b|, _ => 0) else b[..32]
  }

  /** A KEM that sends its shared secret in the clear, over a Diffie-Hellman of constants. */
  function OpenKem<X, S>(): Kem<X, S> {
    Kem(_ => seq(56, _ => 0), (_, _) => Some(seq(56, _ => 0)), _ => seq(1158, _ => 0),
        (_, coins) => Some((Fit32(coins), Fit32(coins) + seq(1007, _ => 0))), (_, ct) => Some(ct[..32]))
  }

  /** The hypothesis on KEMs can be met, by one that never fails. */
  lemma KemHypothesisConsistent<X(!new), S(!new)>()
    ensures KemCorrect(OpenKem<X, S>())
  {
    forall coins: Bytes
      ensures (Fit32(coins) + seq(1007, _ => 0))[..32] == Fit32(coins)
    {}
  }

  datatype KemPublicKey = KemPublicKey(x448: Bytes56, sntrup: SntrupPublic) {
    function ToBytes(): (b: Bytes)
      ensures |b| == 1214
    {
      x448 + sntrup
    }
  }

  datatype KemKeypair<+X, +S> = KemKeypair(x448: X, sntrup: S)

  datatype Encapsulation = Encapsulation(ephemeral: Bytes56, ciphertext: SntrupCiphertext)

  function PublicKey<X, S>(k: Kem<X, S>, kp: KemKeypair<X, S>): KemPublicKey {
    KemPublicKey(k.xPublic(kp.x448), k.sPublic(kp.sntrup))
  }

  // ----- the combiner

  /** `H(ct) || H(eph) || H(pk) || ss_x448 || ss_sntrup`. */
  function CombineInput(h: Blake3, x: Bytes56, s: Bytes32, ct: Bytes, eph: Bytes, pk: Bytes): (b: Bytes)
    ensures |b| == V2_COMBINED_INPUT_SIZE
  {
    h.hash(ct) + h.hash(eph) + h.hash(pk) + x + s
  }

  function Combined(h: Blake3, x: Bytes56, s: Bytes32, ct: Bytes, eph: Bytes, pk: Bytes): Bytes32 {
    h.deriveKey(HYBRID_KEM_V2_CONTEXT, CombineInput(h, x, s, ct, eph, pk))
  }

  /** `combine_v2`, filling the fixed buffer region by region. */
  method CombineV2(h: Blake3, x: Bytes56, s: Bytes32, ct: Bytes, eph: Bytes, pk: Bytes) returns (shared: Bytes32)
    ensures shared == Combined(h, x, s, ct, eph, pk)
  {
    var input := new Byte[V2_COMBINED_INPUT_SIZE](_ => 0);
    CopyInto(input, 0, h.hash(ct));
    CopyInto(input, 32, h.hash(eph));
    assert input[..64] == h.hash(ct) + h.hash(eph);
    CopyInto(input, 64, h.hash(pk));
    assert input[..96] == h.hash(ct) + h.hash(eph) + h.hash(pk);
    CopyInto(input, 96, x);
    assert input[..152] == h.hash(ct) + h.hash(eph) + h.hash(pk) + x;
    CopyInto(input, 152, s);
    assert input[..] == CombineInput(h, x, s, ct, eph, pk);
    shared := h.deriveKey(HYBRID_KEM_V2_CONTEXT, input[..]);
  }

  /** Equal combined secrets bind every input, or BLAKE3 collides on one of them. */
  lemma CombinerBinds(h: Blake3, x: Bytes56, s: Bytes32, ct: Bytes, eph: Bytes, pk: Bytes,
                      x': Bytes56, s': Bytes32, ct': Bytes, eph': Bytes, pk': Bytes)
    requires Combined(h, x, s, ct, eph, pk) == Combined(h, x', s', ct', eph', pk')
    ensures
      || (x == x' && s == s' && ct == ct' && eph == eph' && pk == pk')
      || DeriveKeyCollision(h, HYBRID_KEM_V2_CONTEXT, CombineInput(h, x, s, ct, eph, pk),
                               HYBRID_KEM_V2_CONTEXT, CombineInput(h, x', s', ct', eph', pk'))
      || HashCollision(h, ct, ct') || HashCollision(h, eph, eph') || HashCollision(h, pk, pk')
  {
    if CombineInput(h, x, s, ct, eph, pk) == CombineInput(h, x', s', ct', eph', pk') {
      SplitEqual(h.hash(ct) + h.hash(eph) + h.hash(pk) + x, s, h.hash(ct') + h.hash(eph') + h.hash(pk') + x', s');
      SplitEqual(h.hash(ct) + h.hash(eph) + h.hash(pk), x, h.hash(ct') + h.hash(eph') + h.hash(pk'), x');
      SplitEqual(h.hash(ct) + h.hash(eph), h.hash(pk), h.hash(ct') + h.hash(eph'), h.hash(pk'));
      SplitEqual(h.hash(ct), h.hash(eph), h.hash(ct'), h.hash(eph'));
    }
  }

  // ----- encapsulation

  function Encapsulate<X, S>(k: Kem<X, S>, h: Blake3, pk: KemPublicKey, ephemeral: X, coins: Bytes): Result<(Bytes32, Encapsulation)> {
    match k.dh(ephemeral, pk.x448)
    case None => Err(DecapsulationFailed)
    case Some(x) =>
      match k.encaps(pk.sntrup, coins)
      case None => Err(KeyGenerationFailed)
      case Some((s, ct)) =>
        var eph := k.xPublic(ephemeral);
        Ok((Combined(h, x, s, ct, eph, pk.ToBytes()), Encapsulation(eph, ct)))
  }

  function Decapsulate<X, S>(k: Kem<X, S>, h: Blake3, kp: KemKeypair<X, S>, e: Encapsulation): Result<Bytes32> {
    match k.dh(kp.x448, e.ephemeral)
    case None => Err(DecapsulationFailed)
    case Some(x) =>
      match k.decaps(kp.sntrup, e.ciphertext)
      case None => Err(DecapsulationFailed)
      case Some(s) => Ok(Combined(h, x, s, e.ciphertext, e.ephemeral, PublicKey(k, kp).ToBytes()))
  }

  /** Sender and recipient derive one secret. */
  lemma DecapsulateAgrees<X(!new), S(!new)>(k: Kem<X, S>, h: Blake3, kp: KemKeypair<X, S>, ephemeral: X, coins: Bytes)
    requires KemCorrect(k)
    ensures var r := Encapsulate(k, h, PublicKey(k, kp), ephemeral, coins);
            r.Ok? ==> Decapsulate(k, h, kp, r.value.1) == Ok(r.value.0)
  {
    assert k.dh(ephemeral, k.xPublic(kp.x448)).Some? ==>
      k.dh(kp.x448, k.xPublic(ephemeral)) == k.dh(ephemeral, k.xPublic(kp.x448));
  }

  /** Encapsulation succeeds exactly when both halves do; each failure keeps its own error. */
  lemma EncapsulateOutcome<X, S>(k: Kem<X, S>, h: Blake3, pk: KemPublicKey, ephemeral: X, coins: Bytes)
    ensures var r := Encapsulate(k, h, pk, ephemeral, coins);
            && (r.Ok? <==> k.dh(ephemeral, pk.x448).Some? && k.encaps(pk.sntrup, coins).Some?)
            && (r.Err? ==> r.error == if k.dh(ephemeral, pk.x448).None? then DecapsulationFailed else KeyGenerationFailed)
  {}

  /** What one encapsulation is made of: the two shared secrets, the ciphertext, the ephemeral key. */
  datatype Halves = Halves(x448: Bytes56, sntrup: Bytes32, ciphertext: SntrupCiphertext, ephemeral: Bytes56)

  function HalvesOf<X, S>(k: Kem<X, S>, pk: KemPublicKey, ephemeral: X, coins: Bytes): Halves
    requires k.dh(ephemeral, pk.x448).Some? && k.encaps(pk.sntrup, coins).Some?
  {
    var (s, ct) := k.encaps(pk.sntrup, coins).value;
    Halves(k.dh(ephemeral, pk.x448).value, s, ct, k.xPublic(ephemeral))
  }

  function InputOf(h: Blake3, e: Halves, pk: KemPublicKey): Bytes {
    CombineInput(h, e.x448, e.sntrup, e.ciphertext, e.ephemeral, pk.ToBytes())
  }

  /** Both halves enter the secret: two encapsulations with one shared secret have one X448 secret, one
      sntrup761 secret, one encapsulation and one recipient, or BLAKE3 collides on a named input. */
  lemma SecretBindsBothHalves<X, S>(k: Kem<X, S>, h: Blake3, pk: KemPublicKey, ephemeral: X, coins: Bytes,
                                    pk': KemPublicKey, ephemeral': X, coins': Bytes)
    requires Encapsulate(k, h, pk, ephemeral, coins).Ok? && Encapsulate(k, h, pk', ephemeral', coins').Ok?
    requires Encapsulate(k, h, pk, ephemeral, coins).value.0 == Encapsulate(k, h, pk', ephemeral', coins').value.0
    ensures
      var (e, e') := (HalvesOf(k, pk, ephemeral, coins), HalvesOf(k, pk', ephemeral', coins'));
      || (e == e' && pk == pk')
      || DeriveKeyCollision(h, HYBRID_KEM_V2_CONTEXT, InputOf(h, e, pk), HYBRID_KEM_V2_CONTEXT, InputOf(h, e', pk'))
      || HashCollision(h, e.ciphertext, e'.ciphertext) || HashCollision(h, e.ephemeral, e'.ephemeral)
      || HashCollision(h, pk.ToBytes(), pk'.ToBytes())
  {
    var (e, e') := (HalvesOf(k, pk, ephemeral, coins), HalvesOf(k, pk', ephemeral', coins'));
    CombinerBinds(h, e.x448, e.sntrup, e.ciphertext, e.ephemeral, pk.ToBytes(),
                  e'.x448, e'.sntrup, e'.ciphertext, e'.ephemeral, pk'.ToBytes());
    SplitEqual(pk.x448, pk.sntrup, pk'.x448, pk'.sntrup);
  }

  /** Where the halves of a public key and of an encapsulation lie. */
  lemma HalvesLayout(pk: KemPublicKey, e: Encapsulation)
    ensures pk.ToBytes()[..56] == pk.x448 && pk.ToBytes()[56..] == pk.sntrup
    ensures EncapsulationBytes(e)[..56] == e.ephemeral && EncapsulationBytes(e)[56..] == e.ciphertext
  {}

  /** Where the fields of the combiner input lie. */
  lemma CombineInputLayout(h: Blake3, x: Bytes56, s: Bytes32, ct: Bytes, eph: Bytes, pk: Bytes)
    ensures var b := CombineInput(h, x, s, ct, eph, pk);
            && b[0..32] == h.hash(ct) && b[32..64] == h.hash(eph) && b[64..96] == h.hash(pk)
            && b[96..152] == x && b[152..184] == s
  {}

  function EncapsulationBytes(e: Encapsulation): (b: Bytes)
    ensures |b| == ENCAPSULATION_SIZE
  {
    e.ephemeral + e.ciphertext
  }

  function EncapsulationFromBytes(b: Bytes): (r: Result<Encapsulation>)
    ensures r.Err? ==> r.error == DecapsulationFailed
  {
    if |b| != ENCAPSULATION_SIZE then Err(DecapsulationFailed) else Ok(Encapsulation(b[..56], b[56..]))
  }

  /** Parses the wire encapsulation, then decapsulates. */
  function DecapsulateBytes<X, S>(k: Kem<X, S>, h: Blake3, kp: KemKeypair<X, S>, bytes: Bytes): Result<Bytes32> {
    var e :- EncapsulationFromBytes(bytes);
    Decapsulate(k, h, kp, e)
  }

  lemma EncapsulationCodec(e: Encapsulation, b: Bytes)
    ensures EncapsulationFromBytes(b) == Ok(e) <==> b == EncapsulationBytes(e)
  {
    if b == EncapsulationBytes(e) {
      assert b[..56] == e.ephemeral && b[56..] == e.ciphertext;
    }
    if EncapsulationFromBytes(b) == Ok(e) {
      assert b == b[..56] + b[56..];
    }
  }
}
