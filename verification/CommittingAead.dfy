/** The committing AEAD: the base cipher followed by a 32-byte BLAKE3 commitment to the key, the
    nonce, the associated data and the whole ciphertext. */
module CommittingAead {
  import opened Octets
  import opened Outcomes
  import opened Primitives

  const AEAD_COMMIT_CONTEXT := "trelis-aead-commit-v1"
  const NONCE_SIZE: nat := 24
  const COMMITMENT_SIZE: nat := 32

  type BaseAead = Aead<Bytes32, Bytes24>

  function CommitKey(h: Blake3, key: Bytes32): Bytes32 {
    h.deriveKey(AEAD_COMMIT_CONTEXT, key)
  }

  /** Each field behind its 64-bit length. */
  function CommitInput(nonce: Bytes24, aad: Bytes, ct: Bytes): Bytes {
    Le64(NONCE_SIZE) + nonce + Le(|aad|, 8) + aad + Le(|ct|, 8) + ct
  }

  function Commitment(h: Blake3, key: Bytes32, nonce: Bytes24, aad: Bytes, ct: Bytes): Bytes32 {
    h.keyedHash(CommitKey(h, key), CommitInput(nonce, aad, ct))
  }

  function EncryptCommitting(a: BaseAead, h: Blake3, key: Bytes32, nonce: Bytes24, plaintext: Bytes, aad: Bytes): Result<Bytes> {
    var ct :- AeadEncrypt(a, key, nonce, plaintext, aad);
    Ok(ct + Commitment(h, key, nonce, aad, ct))
  }

  /** The commitment is compared before the cipher opens anything. */
  function DecryptCommitting(a: BaseAead, h: Blake3, key: Bytes32, nonce: Bytes24, committingCt: Bytes, aad: Bytes): Result<Bytes> {
    if |committingCt| < TAG_SIZE + COMMITMENT_SIZE then Err(InvalidCiphertext)
    else
      var split := |committingCt| - COMMITMENT_SIZE;
      var (ct, commitment) := (committingCt[..split], committingCt[split..]);
      if Commitment(h, key, nonce, aad, ct) != commitment then Err(AeadAuthenticationFailed)
      else AeadDecrypt(a, key, nonce, ct, aad)
  }

  lemma HeadInjective(n: Bytes24, x: Bytes8, n': Bytes24, x': Bytes8)
    requires Le64(NONCE_SIZE) + n + x == Le64(NONCE_SIZE) + n' + x'
    ensures n == n' && x == x'
  {
    SplitEqual(Le64(NONCE_SIZE) + n, x, Le64(NONCE_SIZE) + n', x');
    SplitEqual(Le64(NONCE_SIZE), n, Le64(NONCE_SIZE), n');
  }

  lemma TailInjective(aad: Bytes, l: Bytes8, ct: Bytes, aad': Bytes, l': Bytes8, ct': Bytes)
    requires |aad| == |aad'| && aad + (l + ct) == aad' + (l' + ct')
    ensures aad == aad' && ct == ct'
  {
    SplitEqual(aad, l + ct, aad', l' + ct');
    SplitEqual(l, ct, l', ct');
  }

  function Head(n: Bytes24, aadLength: Bytes8): (b: Bytes)
    ensures |b| == 40
  {
    Le64(NONCE_SIZE) + n + aadLength
  }

  lemma FramingParts(n: Bytes24, aad: Bytes, ct: Bytes)
    ensures CommitInput(n, aad, ct) == Head(n, Le(|aad|, 8)) + (aad + (Le(|ct|, 8) + ct))
  {}

  /** The framing is injective on all triples whose lengths a machine word can hold. */
  lemma FramingInjective(n: Bytes24, aad: Bytes, ct: Bytes, n': Bytes24, aad': Bytes, ct': Bytes)
    requires |aad| <= U64_MAX && |aad'| <= U64_MAX
    requires CommitInput(n, aad, ct) == CommitInput(n', aad', ct')
    ensures n == n' && aad == aad' && ct == ct'
  {
    FramingParts(n, aad, ct);
    FramingParts(n', aad', ct');
    SplitEqual(Head(n, Le(|aad|, 8)), aad + (Le(|ct|, 8) + ct), Head(n', Le(|aad'|, 8)), aad' + (Le(|ct'|, 8) + ct'));
    HeadInjective(n, Le(|aad|, 8), n', Le(|aad'|, 8));
    Le64Injective(|aad|, |aad'|);
    TailInjective(aad, Le(|ct|, 8), ct, aad', Le(|ct'|, 8), ct');
  }

  /** Opening what was sealed returns the plaintext, and the output is 48 bytes longer. */
  lemma DecryptInvertsEncrypt(a: BaseAead, h: Blake3, key: Bytes32, nonce: Bytes24, plaintext: Bytes, aad: Bytes)
    requires AeadCorrect(a)
    ensures var c := EncryptCommitting(a, h, key, nonce, plaintext, aad);
            c.Ok? ==>
              && |c.value| == |plaintext| + TAG_SIZE + COMMITMENT_SIZE
              && DecryptCommitting(a, h, key, nonce, c.value, aad) == Ok(plaintext)
  {
    var r := AeadEncrypt(a, key, nonce, plaintext, aad);
    if r.Ok? {
      var tag := Commitment(h, key, nonce, aad, r.value);
      assert (r.value + tag)[..|r.value|] == r.value && (r.value + tag)[|r.value|..] == tag;
    }
  }

  /** Sealing succeeds exactly when the cipher does, and otherwise reports the cipher's error. */
  lemma SealOutcome(a: BaseAead, h: Blake3, key: Bytes32, nonce: Bytes24, plaintext: Bytes, aad: Bytes)
    ensures EncryptCommitting(a, h, key, nonce, plaintext, aad).Ok? <==> a.seal(key, nonce, plaintext, aad).Some?
    ensures EncryptCommitting(a, h, key, nonce, plaintext, aad).Err? ==>
              EncryptCommitting(a, h, key, nonce, plaintext, aad) == Err(DecryptionFailed)
  {}

  /** Opening fails in one way only: whatever is long enough and does not open, for a wrong
      commitment or a wrong tag, gives the same error. */
  lemma FailuresLookAlike(a: BaseAead, h: Blake3, key: Bytes32, nonce: Bytes24, committingCt: Bytes, aad: Bytes)
    ensures var r := DecryptCommitting(a, h, key, nonce, committingCt, aad);
            if |committingCt| < TAG_SIZE + COMMITMENT_SIZE then r == Err(InvalidCiphertext)
            else r.Err? ==> r == Err(AeadAuthenticationFailed)
  {}

  /** Nothing opens whose last 32 bytes are not the commitment to the rest, whatever the cipher says. */
  lemma OpensOnlyCommitted(a: BaseAead, h: Blake3, key: Bytes32, nonce: Bytes24, ct: Bytes, commitment: Bytes32, aad: Bytes)
    ensures DecryptCommitting(a, h, key, nonce, ct + commitment, aad).Ok? <==>
              |ct| >= TAG_SIZE && commitment == Commitment(h, key, nonce, aad, ct) && a.open(key, nonce, ct, aad).Some?
    ensures DecryptCommitting(a, h, key, nonce, ct + commitment, aad).Ok? ==>
              a.open(key, nonce, ct, aad) == Some(DecryptCommitting(a, h, key, nonce, ct + commitment, aad).value)
  {
    assert (ct + commitment)[..|ct|] == ct && (ct + commitment)[|ct|..] == commitment;
  }

  /** Where the fields of the commitment input lie. */
  lemma CommitInputLayout(n: Bytes24, aad: Bytes, ct: Bytes)
    ensures var x := CommitInput(n, aad, ct);
            x[..8] == Le64(24) && x[8..32] == n && x[32..40] == Le(|aad|, 8)
    ensures var rest := CommitInput(n, aad, ct)[40..]; var k := |aad|;
            rest[..k] == aad && rest[k..k + 8] == Le(|ct|, 8) && rest[k + 8..] == ct
  {
    FramingParts(n, aad, ct);
    var head, tail := Head(n, Le(|aad|, 8)), aad + (Le(|ct|, 8) + ct);
    assert (head + tail)[..40] == head && (head + tail)[40..] == tail;
    HeadLayout(n, Le(|aad|, 8));
    var x := CommitInput(n, aad, ct);
    assert x[..8] == x[..40][..8] && x[8..32] == x[..40][8..32] && x[32..40] == x[..40][32..40];
  }

  lemma HeadLayout(n: Bytes24, l: Bytes8)
    ensures Head(n, l)[..8] == Le64(24) && Head(n, l)[8..32] == n && Head(n, l)[32..40] == l
  {}

  /** The two derivations a commitment goes through collide on the given keys and inputs. */
  predicate CommitmentCollision(h: Blake3, k: Bytes32, n: Bytes24, aad: Bytes, k': Bytes32, n': Bytes24, aad': Bytes, ct: Bytes) {
    || DeriveKeyCollision(h, AEAD_COMMIT_CONTEXT, k, AEAD_COMMIT_CONTEXT, k')
    || KeyedHashCollision(h, CommitKey(h, k), CommitInput(n, aad, ct), CommitKey(h, k'), CommitInput(n', aad', ct))
  }

  /** One committing ciphertext opens under one key, nonce and associated data, or BLAKE3 collides
      on the two commitments. Nothing is assumed of the base cipher. */
  lemma CommitsToEverything(a: BaseAead, h: Blake3, committingCt: Bytes,
                            k: Bytes32, n: Bytes24, aad: Bytes, k': Bytes32, n': Bytes24, aad': Bytes)
    requires |aad| <= U64_MAX && |aad'| <= U64_MAX
    requires DecryptCommitting(a, h, k, n, committingCt, aad).Ok? && DecryptCommitting(a, h, k', n', committingCt, aad').Ok?
    ensures
      || (k == k' && n == n' && aad == aad')
      || CommitmentCollision(h, k, n, aad, k', n', aad', committingCt[..|committingCt| - COMMITMENT_SIZE])
  {
    var ct := committingCt[..|committingCt| - COMMITMENT_SIZE];
    if CommitKey(h, k) == CommitKey(h, k') && CommitInput(n, aad, ct) == CommitInput(n', aad', ct) {
      FramingInjective(n, aad, ct, n', aad', ct);
    }
  }

  /** What was sealed opens under no other key or associated data, or the two commitments collide.
      Nothing is assumed of the base cipher. */
  lemma SealBinds(a: BaseAead, h: Blake3, key: Bytes32, nonce: Bytes24, plaintext: Bytes, aad: Bytes, key': Bytes32, aad': Bytes)
    requires |aad| <= U64_MAX && |aad'| <= U64_MAX
    requires EncryptCommitting(a, h, key, nonce, plaintext, aad).Ok?
    ensures var c := EncryptCommitting(a, h, key, nonce, plaintext, aad).value;
            DecryptCommitting(a, h, key', nonce, c, aad').Ok? ==>
              || (key == key' && aad == aad')
              || CommitmentCollision(h, key, nonce, aad, key', nonce, aad', c[..|c| - COMMITMENT_SIZE])
  {
    var ct := AeadEncrypt(a, key, nonce, plaintext, aad).value;
    var tag := Commitment(h, key, nonce, aad, ct);
    assert (ct + tag)[..|ct|] == ct && (ct + tag)[|ct|..] == tag;
    if CommitKey(h, key) == CommitKey(h, key') && CommitInput(nonce, aad, ct) == CommitInput(nonce, aad', ct) {
      FramingInjective(nonce, aad, ct, nonce, aad', ct);
    }
  }
}
