/** The foreign primitives, as records of function values. Nothing is assumed of the hash
    functions beyond their output sizes; what the AEAD must satisfy is stated as a predicate
    and passed to the lemmas that need it. */
module Primitives {
  import opened Octets
  import opened Outcomes

  /** BLAKE3: plain, keyed, key-derivation and 114-byte extendable output modes. */
  datatype Blake3 = Blake3(
    hash: Bytes -> Bytes32,
    keyedHash: (Bytes32, Bytes) -> Bytes32,
    deriveKey: (string, Bytes) -> Bytes32,
    deriveXof: (string, Bytes) -> Bytes114)

  // Two given inputs that witness a collision. All results of the form "or a collision"
  // name the inputs, since over all byte strings collisions exist by counting.

  predicate HashCollision(h: Blake3, x: Bytes, y: Bytes) {
    x != y && h.hash(x) == h.hash(y)
  }

  predicate KeyedHashCollision(h: Blake3, j: Bytes32, x: Bytes, k: Bytes32, y: Bytes) {
    (j, x) != (k, y) && h.keyedHash(j, x) == h.keyedHash(k, y)
  }

  predicate DeriveKeyCollision(h: Blake3, c: string, x: Bytes, d: string, y: Bytes) {
    (c, x) != (d, y) && h.deriveKey(c, x) == h.deriveKey(d, y)
  }

  predicate DeriveXofCollision(h: Blake3, c: string, x: Bytes, d: string, y: Bytes) {
    (c, x) != (d, y) && h.deriveXof(c, x) == h.deriveXof(d, y)
  }

  /** An AEAD over key type `K` and nonce type `N`. `seal` and `open` take the key, the nonce,
      the plaintext or ciphertext and the associated data; `None` is the cipher's failure. */
  datatype Aead<!K, !N> = Aead(
    seal: (K, N, Bytes, Bytes) -> Option<Bytes>,
    open: (K, N, Bytes, Bytes) -> Option<Bytes>)

  const TAG_SIZE: nat := 16

  /** Sealing appends one tag, and opening inverts sealing. */
  ghost predicate AeadCorrect<K(!new), N(!new)>(a: Aead<K, N>) {
    forall k, n, p, aad ::
      a.seal(k, n, p, aad).Some? ==>
        var ct := a.seal(k, n, p, aad).value;
        |ct| == |p| + TAG_SIZE && a.open(k, n, ct, aad) == Some(p)
  }

  /** The cipher never fails on the empty plaintext. */
  ghost predicate SealsEmpty<K(!new), N(!new)>(a: Aead<K, N>) {
    forall k, n, aad :: a.seal(k, n, [], aad).Some?
  }

  /** The cipher seals every plaintext of at most `limit` bytes. */
  ghost predicate SealsUpTo<K(!new), N(!new)>(a: Aead<K, N>, limit: nat) {
    forall k, n, p, aad :: |p| <= limit ==> a.seal(k, n, p, aad).Some?
  }

  /** A cipher that appends a tag of zeros. */
  function PaddingAead<K, N>(): Aead<K, N> {
    Aead((k, n, p, aad) => Some(p + seq(TAG_SIZE, _ => 0)),
         (k, n, ct, aad) => if |ct| < TAG_SIZE then None else Some(ct[..|ct| - TAG_SIZE]))
  }

  /** The hypotheses on ciphers can be met, by one that never fails. */
  lemma AeadHypothesesConsistent<K(!new), N(!new)>()
    ensures AeadCorrect(PaddingAead<K, N>()) && SealsEmpty(PaddingAead<K, N>())
    ensures forall limit: nat :: SealsUpTo(PaddingAead<K, N>(), limit)
  {
    forall p: Bytes
      ensures (p + seq(TAG_SIZE, _ => 0))[..|p|] == p
    {}
  }

  /** `aead::encrypt`: a cipher failure is reported as `DecryptionFailed`. */
  function AeadEncrypt<K, N>(a: Aead<K, N>, key: K, nonce: N, plaintext: Bytes, aad: Bytes): Result<Bytes> {
    match a.seal(key, nonce, plaintext, aad)
    case Some(ct) => Ok(ct)
    case None => Err(DecryptionFailed)
  }

  /** `aead::decrypt`: a ciphertext shorter than the tag is rejected before the cipher runs. */
  function AeadDecrypt<K, N>(a: Aead<K, N>, key: K, nonce: N, ciphertext: Bytes, aad: Bytes): Result<Bytes> {
    if |ciphertext| < TAG_SIZE then Err(InvalidCiphertext)
    else
      match a.open(key, nonce, ciphertext, aad)
      case Some(p) => Ok(p)
      case None => Err(AeadAuthenticationFailed)
  }

  /** One ciphertext opens under two sets of inputs that differ at least in the associated data. */
  predicate OpensTwice<K, N>(a: Aead<K, N>, k: K, n: N, aad: Bytes, k': K, n': N, aad': Bytes, ct: Bytes) {
    aad != aad' && a.open(k, n, ct, aad).Some? && a.open(k', n', ct, aad').Some?
  }
}
