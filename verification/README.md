# Trelis protocol model

A Dafny model of the Trelis messaging library's protocol state machines, key store, codecs and
combiner algebra, with proofs of what they promise. `dafny verify dfyconfig.toml` checks it.

## What is modelled

- **Group session and rollback guard.** `Session` has the CoCoA session as functions on values and
  as a class that updates its fields, proved equal to them. `RollbackGuard` puts the session in a
  device that holds any number of handles, serialises, crashes and restores, and the device in a
  group. `Welcomes` is how a member enters it. `KeySchedule` is generic in the key type, with a
  BLAKE3 instance on bytes and a free symbolic instance.
- **History-key store.** `KeyStore` has the sorted, capped vector with its binary search, insertion,
  merge loop, eviction and pruning, and the convergence results over whole runs.
- **Signatures.** `HybridSignatures` is the Bird-of-Prey-2 combiner, `Ed448B` its sibling scheme, and
  `EdCurve` the scalars and group laws below both.
- **Safety numbers.** `SafetyNumbers`, `ByteOrder`, `Decimal` and `Base64Url`.
- **Committing AEAD, hybrid KEM and device key wrap.** `CommittingAead`, `HybridKem`, `DeviceKeyWraps`.
- **History share codec.** `HistoryShare` and `RetainedKeys`.

## How primitives enter

BLAKE3, SHAKE256, XChaCha20-Poly1305, Ed448 points, ML-DSA-65, X448 and sntrup761 are records of
function values. Randomness (nonces, coins, ephemeral keys, signing entropy) is a parameter. Nothing
is assumed of a hash beyond its output size. Security statements are reductions: the conclusion
holds, or two named inputs of the run have one digest; a bare "some collision exists" would be true
of any hash, so the inputs are always named. The other hypotheses are passed in where they are used:
`AeadCorrect`, `MlDsaCorrect`, `KemCorrect` and `CurveOk`, and `SealsUpTo` where
sealing must succeed. `CurveOk` asks for the abelian group laws, a
base of exactly the stated order, and an encoding that decodes to what was encoded; the residues modulo
the order of Ed448 meet it, and `Primitives`, `HybridKem` and `HybridSignatures` give instances of the
other three. Points outside the subgroup of the base are allowed throughout.

A reached `expect` is the error `Panicked`. `usize` is 32 or 64 bits wide where the code depends on it,
and byte strings that are parsed are shorter than its limit, as every Rust slice is.

## Where the code and its promises differ

- Encryption bounds the plaintext, decryption the plaintext and its tag. The sixteen largest plaintext
  lengths that encryption accepts can be sent but not received. `Session.LockstepMembersDecrypt` gives
  the exact result for every length, `Session.LockstepMembersDeliver` that all shorter ones arrive, and
  `Session.LargestMessagesAreLost` an instance in which each of the sixteen is sealed and lost.
- On a 32-bit target the history share's 64-bit key count is truncated by its cast before any check.
  `HistoryShare.ParsesExactlyPrinted` states exactly when the parser is an inverse of the printer, and
  `HistoryShare.TruncatedCountStillFrames` shows how it fails otherwise. The message parsed, and so the
  result of verifying it, is not affected.
- The Base64-URL decoder accepts a lone trailing character and non-zero unused bits.
  `Base64Url.DecodeThenEncode` and `Base64Url.QrStringExact` state exactly which texts are affected.
- The documentation of the checked restore asks the caller to persist before it releases. That duty is
  needed (`RollbackGuard.EagerReleaseRepeatsPair`) but not enough: the restore is an associated function
  that knows of no other session, so a blob can be restored beside a live session, and both then send
  under one key and nonce with every release behind the watermark (`RollbackGuard.SecondHandleRepeatsKey`).
  A second duty closes the gap: restore only when no handle is live and no unreleased ciphertext stands at
  or above the blob. With both, no pair repeats (`RollbackGuard.NoPairReleasedTwice`); and restoring is safe
  exactly when the second holds (`RollbackGuard.SafeIffCareful`).
- Merging removes duplicates by message id, retaining does not. Stores converge over mixed runs as long as no
  held message is retained again; `KeyStore.RetainHoldsNewestIff` gives the exact step and
  `KeyStore.RetainingTwiceDiverges` the shortest divergence.
- A welcome of the add path cannot be processed, short of a collision: it is sealed under a constant as
  associated data and opened under the group id (`Welcomes.AddWelcomeRefused`). Its content would not bring a member into lockstep either
  (`Welcomes.AddContentNeverAgrees`); `Welcomes.AdoptedAgreement` states which contents do. Members of a new
  group are not affected (`Welcomes.InitialWelcomeJoins`).

Lemmas named `...Layout` fix the byte positions of the formats; the table lists those that the documentation
spells out.

## Model

| member | source | states |
|---|---|---|
| `RollbackGuard.NoPairReleasedTwice` | crates/trelis-cocoa/src/session.rs:230-285 | over every run of encrypt, advance, set-counter, serialise, persist, drop, release, crash and checked restore from any earlier blob, on any handle, a device that releases only behind its watermark and restores only with no handle live and nothing pending at or above the blob never releases one (epoch, counter) pair twice |
| `RollbackGuard.SafeIffCareful` | crates/trelis-cocoa/src/session.rs:255-285 | after any such run, restoring an admitted blob leaves every careful continuation with distinct pairs exactly when the restore itself is careful, a condition on the live handles and the pending messages that is known before the call (for a cipher that seals the empty plaintext, while the epoch numbers are not used up) |
| `RollbackGuard.CarelessRestoreRepeats` | crates/trelis-cocoa/src/session.rs:255-285 | an admitted restore that is not careful has a continuation, with every release behind the watermark and no further restore, that repeats a pair (same provisos) |
| `RollbackGuard.SecondHandleRepeatsKey` | crates/trelis-cocoa/src/session.rs:239-285 | restoring the live session's own blob beside it, encrypting on both and persisting before each release sends two messages under one key and nonce |
| `RollbackGuard.EagerReleaseRepeatsPair` | crates/trelis-cocoa/src/session.rs:242-247 | releasing before persisting and then losing memory makes the checked restore re-emit one pair, even with one handle at a time |
| `RollbackGuard.CrashLosesMemory` | crates/trelis-cocoa/src/session.rs:230-254 | after a crash, until something is restored, nothing is released, saved or persisted, under either policy |
| `RollbackGuard.NextKeepsInv` | crates/trelis-cocoa/src/session.rs:230-285 | every careful step keeps: released pairs below the watermark, at most one handle, at or above the watermark and above everything pending, all pairs distinct |
| `RollbackGuard.RunKeepsInv` | crates/trelis-cocoa/src/session.rs:230-285 | the same invariant over whole careful runs |
| `RollbackGuard.NextStaysOnChain` | crates/trelis-cocoa/src/epoch.rs:184-201 | any step in lockstep, careful or not, keeps handles, blobs and messages on the group's chain at the device's leaf, and every message sealed from its recorded key, nonce and plaintext |
| `RollbackGuard.RunGroupKeepsInv` | crates/trelis-cocoa/src/epoch.rs:184-201 | both invariants for every device, over every run of a group in lockstep |
| `RollbackGuard.EmissionsDiffer` | crates/trelis-cocoa/src/session.rs:432-462 | two released messages of the group differ in epoch, leaf or counter, and each ciphertext is the sealing of its plaintext under the key and nonce of its own triple |
| `RollbackGuard.GroupKeyReuseIsCollision` | crates/trelis-cocoa/src/key_schedule.rs:228-278 | for any key schedule: two released messages are sealed under one key only if the message-key derivation collides on their inputs or the epoch chain is faulty |
| `RollbackGuard.GroupNonceReuseIsCollision` | crates/trelis-cocoa/src/key_schedule.rs:228-305 | two released messages were sealed with one nonce only if the nonce derivation collides on their inputs or the epoch chain is faulty |
| `RollbackGuard.SymbolicGroupNeverReusesKey` | crates/trelis-cocoa/src/key_schedule.rs:228-278 | with free derivations, no two messages ever released by the group are sealed under one key or with one nonce |
| `RollbackGuard.Blake3GroupKeyReuse` | crates/trelis-cocoa/src/key_schedule.rs:228-278 | on bytes, a key that sealed two messages names its cause: a BLAKE3 collision on the two 44-byte preimages, one between two links of the chain, or a chain that met its first secret again |
| `Session.CocoaSession.Create` | crates/trelis-cocoa/src/session.rs:63-98 | rejects a group of size zero; otherwise epoch 0, leaf 0, zero transcript hash, only ourselves a member |
| `Session.CocoaSession.Join` | crates/trelis-cocoa/src/session.rs:121-151 | epoch 0 at our leaf with the given secret and transcript hash, only ourselves a member |
| `Session.CocoaSession.Restore` | crates/trelis-cocoa/src/session.rs:187-216 | rebuilds the session of a blob with counter zero |
| `Session.CocoaSession.RestoreChecked` | crates/trelis-cocoa/src/session.rs:255-285 | watermark check, rebuild and counter forward-set agree with the value-level checked restore, errors included |
| `Session.CocoaSession.NextMessageKey` | crates/trelis-cocoa/src/epoch.rs:263-272 | returns the key at the old counter and moves the counter on by one; at the last counter it aborts with the state unchanged |
| `Session.CocoaSession.EncryptMessage` | crates/trelis-cocoa/src/session.rs:432-462 | in-place encryption equals the value-level one: gate, counter, key, associated data, ciphertext and the whole new state |
| `Session.CocoaSession.DecryptMessage` | crates/trelis-cocoa/src/session.rs:485-516 | size gate, then epoch gate, then opening; the state is only read |
| `Session.CocoaSession.DecryptHistorical` | crates/trelis-cocoa/src/session.rs:538-570 | size gate, then opening under the supplied epoch secret |
| `Session.CocoaSession.Advance` | crates/trelis-cocoa/src/session.rs:573-581 | in-place epoch advance equals the value-level one: new secrets, counter zero, both transcript hashes |
| `Session.CocoaSession.SetCounter` | crates/trelis-cocoa/src/epoch.rs:301-307 | moves the counter forward only; a lower counter is refused and changes nothing |
| `Session.CheckedRestoreExact` | crates/trelis-cocoa/src/session.rs:255-285 | the checked restore succeeds exactly when the blob is not below the watermark, and the result serialises back to the blob |
| `Session.SessionsStartAt` | crates/trelis-cocoa/src/session.rs:63-216 | what create, join and raw restore start from, as saved: leaf 0 at epoch 0 and counter 0 with a zero transcript; the given leaf likewise; the blob with its counter forgotten |
| `Session.EncryptExact` | crates/trelis-cocoa/src/session.rs:432-462 | an oversize plaintext is refused and the last counter aborts, with the state unchanged; any other plaintext spends exactly one counter whether or not the cipher seals |
| `Session.SealedIffAdmissible` | crates/trelis-cocoa/src/session.rs:432-462 | over a cipher that seals what it should, short of the last counter, exactly the plaintexts of at most MAX_MESSAGE_SIZE bytes are sealed |
| `Session.AdvanceExact` | crates/trelis-cocoa/src/session.rs:573-581 | the last epoch aborts and changes nothing; any other gives the next number, counter zero, both transcript hashes and all secrets from the commit, and leaves identity and members alone |
| `Session.SymbolicEpochSecretsDistinct` | crates/trelis-cocoa/src/key_schedule.rs:242-256 | symbolically the four secrets of an epoch are pairwise distinct |
| `Session.EpochSecretsSeparate` | crates/trelis-cocoa/src/key_schedule.rs:242-256 | two equal derived secrets of one epoch are a BLAKE3 collision under two distinct contexts |
| `Session.RunTracksMembers` | crates/trelis-cocoa/src/session.rs:340-358 | after any run a member is known exactly if it was last inserted, or was known before and never touched |
| `Session.DecryptRefuses` | crates/trelis-cocoa/src/session.rs:485-570 | too large, then another epoch, then shorter than a tag, each with its own error; what passes is the cipher's answer |
| `Session.AadInjective` | crates/trelis-cocoa/src/session.rs:432-462 | the associated data determines group, epoch, sender and counter |
| `Session.AadLayout` | crates/trelis-cocoa/src/session.rs:432-462 | where the fields of the associated data lie |
| `Session.HeaderIsBound` | crates/trelis-cocoa/src/session.rs:485-570 | one ciphertext opens in one group under one header, whatever the secrets, or the cipher opens it under two associated data |
| `Session.RunKeepsCoherence` | crates/trelis-cocoa/src/session.rs:573-581 | session and epoch transcript hashes coincide, and all four secrets derive from the epoch secret, through every run |
| `Session.ReachableIsCoherent` | crates/trelis-cocoa/src/session.rs:63-216 | every session from create, join or restore is coherent after every run |
| `Session.RestoreIsBisimulation` | crates/trelis-cocoa/src/session.rs:187-216 | a coherent session restored from its own blob answers every later operation sequence with the same outputs and reaches the same state, up to the member registry |
| `Session.CoherenceIsNeeded` | crates/trelis-cocoa/src/session.rs:187-216 | the reload equals the original exactly when the session was coherent |
| `Session.RunFollowsCommits` | crates/trelis-cocoa/src/session.rs:573-581 | the epoch number and secrets after a run depend on the commits alone, whatever is interleaved |
| `Session.LockstepMembersDecrypt` | crates/trelis-cocoa/src/session.rs:432-516 | two members with the same start and commits decrypt each other off the wire; exactly the plaintexts within one tag of the size limit are sealed but refused |
| `Session.LockstepMembersDeliver` | crates/trelis-cocoa/src/session.rs:432-516 | every plaintext of at most MAX_MESSAGE_SIZE - 16 bytes is sealed and delivered between members in lockstep, at any counter but the last |
| `Session.OtherEpochsRefuse` | crates/trelis-cocoa/src/session.rs:485-516 | a member at any other epoch refuses the message and names both epochs |
| `Session.SavedSecretDecryptsHistory` | crates/trelis-cocoa/src/session.rs:538-570 | a receiver that saved its epoch secret reads the message after any further run, and exactly the admissible plaintexts are sealed |
| `Session.LargestMessagesAreLost` | crates/trelis-cocoa/src/session.rs:432-570 | the sixteen largest plaintext lengths that encryption accepts are sealed by a cipher that never fails and refused by both ways of decrypting |
| `Session.SealedOpens` | crates/trelis-cocoa/src/session.rs:432-462 | what a session seals opens under the secrets of its position, one tag longer than the plaintext |
| `GroupMessage.ParsesExactlyPrinted` | crates/trelis-cocoa/src/session.rs:638-702 | for 32- and 64-bit usize: parsing yields a message exactly when the bytes start with its printed form |
| `SessionWatermark.AdvancedGatesBoth` | crates/trelis-cocoa/src/session_watermark.rs:108-121 | an advanced watermark admits exactly the pairs that the old one and the new pair both admit |
| `SessionWatermark.WatermarkCodec` | crates/trelis-cocoa/src/session_watermark.rs:125-159 | the parser reads the first 16 bytes and inverts the printer, both directions |
| `KeySchedule.EpochSecretsDistinct` | crates/trelis-cocoa/src/key_schedule.rs:228-256 | two epochs share a secret only through a collision of a derivation on the chain's own inputs or a return to the first secret |
| `KeySchedule.MessageKeysDistinct` | crates/trelis-cocoa/src/key_schedule.rs:268-278 | two (epoch, leaf, counter) triples share a key only through a message-key collision or a chain fault |
| `KeySchedule.MessageNoncesDistinct` | crates/trelis-cocoa/src/key_schedule.rs:292-305 | two triples share a nonce only through a nonce collision or a chain fault |
| `KeySchedule.SymbolicChainSound` | crates/trelis-cocoa/src/key_schedule.rs:228-256 | in the free algebra the chain has no fault at any length |
| `KeySchedule.SymbolicMessageKeysDistinct` | crates/trelis-cocoa/src/key_schedule.rs:268-278 | symbolic keys are equal exactly when the triples are |
| `KeySchedule.SymbolicMessageNoncesDistinct` | crates/trelis-cocoa/src/key_schedule.rs:292-305 | symbolic nonces are equal exactly when the triples are, and no nonce is a key |
| `KeySchedule.ContextsDistinct` | crates/trelis-cocoa/src/key_schedule.rs:14-60 | the eight modelled derivations have pairwise distinct contexts |
| `KeySchedule.PreimageLayout` | crates/trelis-cocoa/src/key_schedule.rs:228-305 | where the fields of the 44-byte and 96-byte inputs lie |
| `KeySchedule.MessagePreimageInjective` | crates/trelis-cocoa/src/key_schedule.rs:268-305 | the 44-byte layout determines secret, leaf and counter |
| `KeySchedule.ByteChainFault` | crates/trelis-cocoa/src/key_schedule.rs:228-256 | a fault of the byte chain is a BLAKE3 collision between two of its links or a return |
| `KeySchedule.ByteMessageKeyCollision` | crates/trelis-cocoa/src/key_schedule.rs:268-278 | a key collision of the byte schedule is a BLAKE3 collision on two distinct preimages |
| `KeySchedule.ByteMessageNonceCollision` | crates/trelis-cocoa/src/key_schedule.rs:292-305 | a nonce collision of the byte schedule is one of truncated BLAKE3 on two distinct preimages |
| `KeySchedule.AdvanceSeedChain` | crates/trelis-cocoa/src/key_schedule.rs:312-318 | the loop computes the iterated derivation |
| `KeySchedule.SeedChainComposes` | crates/trelis-cocoa/src/key_schedule.rs:312-318 | climbing a levels and then b is climbing a + b |
| `KeySchedule.SeedChainSteps` | crates/trelis-cocoa/src/key_schedule.rs:312-318 | zero levels leave the leaf seed, and one more level starts with one H1 derivation |
| `KeySchedule.SeedChainBinds` | crates/trelis-cocoa/src/key_schedule.rs:312-318 | two leaf seeds with one node seed at some level are equal or collide under H1 on the way |
| `KeySchedule.RoundHash` | crates/trelis-cocoa/src/key_schedule.rs:139-162 | the two hashing loops absorb exactly the framed preimage |
| `KeySchedule.RoundPreimageInjective` | crates/trelis-cocoa/src/key_schedule.rs:139-162 | the framed preimage determines root label, removed and added users |
| `KeyStore.ThreadKeyStore.BinarySearch` | crates/trelis-multidevice/src/settings.rs:134-142 | a hit at the sequence number, or the one place where it belongs |
| `KeyStore.ThreadKeyStore.RetainKey` | crates/trelis-multidevice/src/settings.rs:134-142 | inserts in order, then keeps the newest up to the cap |
| `KeyStore.ThreadKeyStore.Merge` | crates/trelis-multidevice/src/settings.rs:230-245 | offers each key unless its message id is present, then enforces the cap once |
| `KeyStore.MergeExact` | crates/trelis-multidevice/src/settings.rs:230-245 | any merge of any batch: the store holds the largest sequence numbers of the held keys and of the first key of each new message id, counted with repetition, and drops the rest |
| `KeyStore.MergeKeepsHeldKeys` | crates/trelis-multidevice/src/settings.rs:230-245 | a held key survives unless the cap evicts it, a key that is new in the store comes from the batch under an id that was not held, and below the cap every id of the batch arrives |
| `KeyStore.ThreadKeyStore.PruneBefore` | crates/trelis-multidevice/src/settings.rs:214-216 | keeps exactly the keys not older than the timestamp, in order |
| `KeyStore.ThreadKeyStore.GetKeyBySequence` | crates/trelis-multidevice/src/settings.rs:181-186 | a hit exactly when a linear scan would find one |
| `KeyStore.KeepFromSelects` | crates/trelis-multidevice/src/settings.rs:214-216 | pruning an ascending store keeps it ascending and keeps exactly the recent keys |
| `KeyStore.RunKeepsStore` | crates/trelis-multidevice/src/settings.rs:134-245 | over every run of retain, merge, prune and clear the store is ascending and within the cap, duplicates allowed |
| `KeyStore.RetainRunKeepsLargest` | crates/trelis-multidevice/src/settings.rs:134-165 | a retain-only run holds the N largest inserted sequences as a multiset; the evicted rest accounts for all others |
| `KeyStore.RetainOrderIrrelevant` | crates/trelis-multidevice/src/settings.rs:134-165 | two retain-only runs over one multiset of keys end with the same sequence list |
| `KeyStore.MergeRunHoldsNewest` | crates/trelis-multidevice/src/settings.rs:157-245 | merges of consistent keys, in any batching with evictions between, hold exactly the N highest-sequence keys of everything seen |
| `KeyStore.NewestUnique` | crates/trelis-multidevice/src/settings.rs:157-165 | there is one ascending list of the N newest keys of a consistent set |
| `KeyStore.MergesConverge` | crates/trelis-multidevice/src/settings.rs:230-245 | two devices that saw the same consistent keys, in any order and batching, hold identical stores |
| `KeyStore.OffersConverge` | crates/trelis-multidevice/src/settings.rs:134-245 | two devices that were offered the same consistent keys, any of them retained or merged, hold identical stores, as long as neither retains a message id it holds |
| `KeyStore.OffersHoldNewest` | crates/trelis-multidevice/src/settings.rs:134-245 | such a mixed run holds exactly the N newest of everything offered |
| `KeyStore.RetainHoldsNewestIff` | crates/trelis-multidevice/src/settings.rs:134-142 | one retain keeps the store the newest of everything seen exactly when its message id is not held, or the store is full and the key is its oldest |
| `KeyStore.RetainingTwiceDiverges` | crates/trelis-multidevice/src/settings.rs:134-142 | retaining one key twice ends with two copies, retaining and merging it with one |
| `HybridSignatures.SignedVerifies` | crates/trelis-hybrid/src/signature.rs:448-508 | in all three modes, whatever is signed survives the byte round trip and verifies; only a context over 255 bytes is refused for its length |
| `HybridSignatures.SignOutcome` | crates/trelis-hybrid/src/signature.rs:448-508 | signing fails exactly for a context over 255 bytes, or when ML-DSA does on the digest; its signature is the second half |
| `HybridSignatures.ChallengeFixesHalf` | crates/trelis-hybrid/src/signature.rs:191-197 | two ML-DSA halves with one challenge are equal, or the 114-byte derivation collides on them |
| `HybridSignatures.HalvesHaveOwnChallenges` | crates/trelis-hybrid/src/signature.rs:641-662 | one response under two ML-DSA halves that verify has two challenges, or that collision is named |
| `HybridSignatures.TwoAnswersBalance` | crates/trelis-primitives/src/ed448.rs:392-407 | special soundness: two answers to two challenges for one commitment satisfy n B + k' A = n' B + k A |
| `HybridSignatures.SharedCommitmentBalances` | crates/trelis-hybrid/src/signature.rs:641-662 | two verifying signatures with one commitment are one signature, or name a challenge collision, or satisfy that equation |
| `HybridSignatures.PublicKeyFixesScalar` | crates/trelis-primitives/src/ed448.rs:515-535 | two key pairs have one Ed448 key exactly when their clamped expansions are congruent modulo the order |
| `HybridSignatures.CommitmentFixesNonce` | crates/trelis-primitives/src/ed448.rs:208-223 | two nonce draws make one commitment exactly when they are congruent modulo the order |
| `HybridSignatures.ExtractsCommitment` | crates/trelis-primitives/src/ed448.rs:392-407 | the verifier's rsp*B - chl*A is the very commitment the signer made |
| `HybridSignatures.SchnorrIdentity` | crates/trelis-primitives/src/ed448.rs:651-656 | the identity behind it, with every scalar reduced modulo the order |
| `HybridSignatures.ResponseUnique` | crates/trelis-primitives/src/ed448.rs:392-407 | for one key and challenge, equal extracted commitments mean equal response bytes |
| `HybridSignatures.UniqueResponses` | crates/trelis-hybrid/src/signature.rs:641-662 | two signatures sharing the ML-DSA half that verify for one key, mode and message are identical, or H1 collides, or ML-DSA accepts that half on two digests |
| `HybridSignatures.SignatureBindsKeyModeMessage` | crates/trelis-hybrid/src/signature.rs:641-710 | a signature verifying under two (key, mode, context, message) tuples proves them equal, or names an H1 collision, a prehash collision or two digests ML-DSA accepts |
| `HybridSignatures.H1PreimageInjective` | crates/trelis-hybrid/src/signature.rs:170-183 | pkID, pkSig, region and commitment are determined by their concatenation |
| `HybridSignatures.ContextRegionInjective` | crates/trelis-hybrid/src/signature.rs:209-219 | the length byte separates context from message |
| `HybridSignatures.RegionBinds` | crates/trelis-hybrid/src/signature.rs:148-219 | one region under one H1 domain comes from one mode and message, or a prehash collides |
| `HybridSignatures.SignatureCodec` | crates/trelis-hybrid/src/signature.rs:762-792 | the parser accepts exactly the printed signatures with a canonical response |
| `EdCurve.ScalarCodec` | crates/trelis-primitives/src/ed448.rs:582-629 | one accepted 57-byte encoding per residue below the order |
| `EdCurve.MulBaseInjective` | crates/trelis-primitives/src/ed448.rs:392-407 | canonical scalars and their multiples of the base correspond one to one |
| `EdCurve.ClampShape` | crates/trelis-primitives/src/ed448.rs:515-535 | a clamped secret is a multiple of four whose highest bit is bit 447 |
| `EdCurve.ClampExact` | crates/trelis-primitives/src/ed448.rs:515-535 | the clamp as arithmetic: bit 447 on top of the low 447 bits with the lowest two cleared |
| `EdCurve.ReduceWideCongruent` | crates/trelis-primitives/src/ed448.rs:543-546 | the reduced scalar is the one below the order that the bytes are congruent to |
| `EdCurve.ScalarsFit` | crates/trelis-primitives/src/ed448.rs:599-603 | the Ed448 order fits the 56 bytes the encoding uses |
| `EdCurve.CurveHypothesesConsistent` | crates/trelis-primitives/src/ed448.rs:392-407 | the hypotheses made about the curve have an instance, the residues modulo the Ed448 order |
| `Ed448B.SignedVerifies` | crates/trelis-primitives/src/ed448b.rs:112-350 | for every seed, message and context up to 255 bytes, the signature verifies after signature and key went through their byte forms |
| `Ed448B.ResponseUnique` | crates/trelis-primitives/src/ed448b.rs:352-405 | for a fixed key, R, context and message at most one 57-byte s is accepted |
| `Ed448B.PublicApiNeverPanics` | crates/trelis-primitives/src/ed448b.rs:210-350 | no public entry point reaches the internal length expect; a long context is an error instead |
| `Ed448B.SignatureCodec` | crates/trelis-primitives/src/ed448b.rs:448-493 | the parser accepts exactly the printed signatures with a canonical s |
| `Ed448B.ChallengePreimageInjective` | crates/trelis-primitives/src/ed448b.rs:352-405 | the challenge input determines context, R, key and message |
| `Ed448B.ChallengeFixesInput` | crates/trelis-primitives/src/ed448b.rs:352-405 | two equal challenge scalars cover one context, R, key and message, or the derivation collides on the two inputs, or two draws are congruent |
| `Ed448B.NoncePreimageInjective` | crates/trelis-primitives/src/ed448b.rs:112-128 | the nonce input determines context, prefix and message |
| `Ed448B.CommonCommitmentIff` | crates/trelis-primitives/src/ed448b.rs:112-158 | two signatures have one R exactly when their nonce draws are congruent modulo the order |
| `Ed448B.NonceBindsMessage` | crates/trelis-primitives/src/ed448b.rs:112-158 | two signatures with one R sign one context and message under one expansion half, or the nonce derivation collides on the two inputs, or two draws are congruent |
| `Ed448B.TwoAnswersBalance` | crates/trelis-primitives/src/ed448b.rs:352-405 | special soundness: two accepted signatures with one R satisfy s B + k' A = s' B + k A |
| `Ed448B.PublicKeyFixesScalar` | crates/trelis-primitives/src/ed448b.rs:65-100 | two seeds have one public key exactly when the clamped lower halves of their expansions are congruent |
| `SafetyNumbers.FingerprintIsInvariant` | crates/trelis-hybrid/src/safety_number.rs:185-245 | swapping the users or reordering their devices never changes the safety number |
| `SafetyNumbers.FingerprintBindsPair` | crates/trelis-hybrid/src/safety_number.rs:185-245 | equal safety numbers mean the same unordered pair of (identity, multiset of devices), or a collision on inputs the two computations themselves hash |
| `SafetyNumbers.DigestBindsParty` | crates/trelis-hybrid/src/safety_number.rs:221-245 | one user digest means one identity and one multiset of devices, or such a collision |
| `SafetyNumbers.HashIdentityWithDevices` | crates/trelis-hybrid/src/safety_number.rs:221-245 | the fingerprint, sort and append loops compute the digest |
| `SafetyNumbers.IdentityFingerprintBinds` | crates/trelis-hybrid/src/safety_number.rs:89-109 | the identity-only number forgets argument order and binds all keys, up to an exhibited collision |
| `SafetyNumbers.KindsSeparate` | crates/trelis-hybrid/src/safety_number.rs:89-212 | a number with device sets equals one without only through a BLAKE3 collision under two contexts |
| `SafetyNumbers.PairPreimageSorted` | crates/trelis-hybrid/src/safety_number.rs:185-212 | the pair enters in ascending order |
| `SafetyNumbers.GroupedInOrder` | crates/trelis-hybrid/src/safety_number.rs:298-319 | the display shows the digits in order, with a separator after every fifth and a line break in the middle |
| `SafetyNumbers.Display` | crates/trelis-hybrid/src/safety_number.rs:298-319 | two rows of six groups of the sixty digits of the first thirty bytes |
| `SafetyNumbers.DisplayedAlikeIff` | crates/trelis-hybrid/src/safety_number.rs:298-319 | two fingerprints display alike exactly when their first thirty bytes agree modulo 10^60 |
| `ByteOrder.SortIsCanonical` | crates/trelis-hybrid/src/safety_number.rs:221-245 | two digest lists sort alike exactly when they are permutations of each other |
| `ByteOrder.SortedUnique` | crates/trelis-hybrid/src/safety_number.rs:221-245 | there is one ascending arrangement, so the choice of sorting routine does not matter |
| `Decimal.DivideByTen` | crates/trelis-hybrid/src/safety_number.rs:331-339 | one in-place pass divides by ten, returns the remainder, stays within u16 (at most 2559) and keeps every limb a byte |
| `Decimal.BytesToDecimal` | crates/trelis-hybrid/src/safety_number.rs:325-345 | the nested loops yield exactly the n low decimal digits of the big-endian integer |
| `Decimal.ShiftIsQuotient` | crates/trelis-hybrid/src/safety_number.rs:331-339 | k divisions by ten, which is what the limbs hold after k rounds, are one division by 10^k |
| `Decimal.DigitsDenote` | crates/trelis-hybrid/src/safety_number.rs:325-345 | reading the n digits back gives the integer modulo 10^n |
| `Decimal.DigitsEqualIffCongruent` | crates/trelis-hybrid/src/safety_number.rs:325-345 | digit strings are equal exactly when the integers agree modulo 10^n |
| `Base64Url.Encode` | crates/trelis-hybrid/src/safety_number.rs:397-425 | the encoder loop computes the block-wise encoding |
| `Base64Url.Decode` | crates/trelis-hybrid/src/safety_number.rs:429-471 | the decoder loop, byte shifts included, computes the block-wise decoding |
| `Base64Url.EncodeThenDecode` | crates/trelis-hybrid/src/safety_number.rs:397-471 | decoding inverts encoding on every byte string, and the length is the ceiling of 4n/3 |
| `Base64Url.DecodeThenEncode` | crates/trelis-hybrid/src/safety_number.rs:429-471 | a decodable text is re-encoded to itself exactly when its tail is canonical |
| `Base64Url.LoneCharacterIgnored` | crates/trelis-hybrid/src/safety_number.rs:429-471 | a lone trailing character is dropped unread |
| `Base64Url.DecodedLength` | crates/trelis-hybrid/src/safety_number.rs:429-471 | the decoded length is the floor of 3n/4 |
| `Base64Url.QrStringExact` | crates/trelis-hybrid/src/safety_number.rs:353-381 | from_qr_string accepts exactly the 44 printed characters, or those and one more |
| `Base64Url.QrStringCarries` | crates/trelis-hybrid/src/safety_number.rs:353-381 | a QR string carries one version byte and the fingerprint |
| `Base64Url.AlphabetInOrder` | crates/trelis-hybrid/src/safety_number.rs:397-425 | the characters are those of the RFC's URL-safe table, in its order |
| `Base64Url.DecoderShifts` | crates/trelis-hybrid/src/safety_number.rs:429-471 | the shift and or expressions on bytes give the three integers that the decoder model computes |
| `Base64Url.EncoderShifts` | crates/trelis-hybrid/src/safety_number.rs:397-425 | the shifts and masks of the 24-bit word give the four sextets of the encoded block |
| `CommittingAead.CommitsToEverything` | crates/trelis-primitives/src/aead.rs:459-477 | a ciphertext opening under two (key, nonce, aad) triples proves them equal or exhibits a BLAKE3 collision on the two commitments |
| `CommittingAead.FramingInjective` | crates/trelis-primitives/src/aead.rs:401-411 | the length framing determines nonce, associated data and ciphertext |
| `CommittingAead.DecryptInvertsEncrypt` | crates/trelis-primitives/src/aead.rs:429-477 | opening returns the plaintext; the output is 48 bytes longer |
| `CommittingAead.OpensOnlyCommitted` | crates/trelis-primitives/src/aead.rs:459-477 | a ciphertext opens exactly when its last 32 bytes are the commitment to the rest and the cipher opens the rest |
| `CommittingAead.FailuresLookAlike` | crates/trelis-primitives/src/aead.rs:443-477 | a wrong commitment and a wrong tag give the same error; only a short input gives another |
| `CommittingAead.SealOutcome` | crates/trelis-primitives/src/aead.rs:429-439 | sealing succeeds exactly when the cipher does |
| `CommittingAead.CommitInputLayout` | crates/trelis-primitives/src/aead.rs:401-411 | where the fields of the commitment input lie |
| `HybridKem.DecapsulateAgrees` | crates/trelis-hybrid/src/kem.rs:258-470 | sender and recipient derive one shared secret |
| `HybridKem.EncapsulateOutcome` | crates/trelis-hybrid/src/kem.rs:443-470 | encapsulation succeeds exactly when both halves do, and each failure keeps its error |
| `HybridKem.SecretBindsBothHalves` | crates/trelis-hybrid/src/kem.rs:443-470 | two encapsulations with one shared secret agree on both component secrets, encapsulation and recipient, or a BLAKE3 collision is named |
| `HybridKem.CombineInputLayout` | crates/trelis-hybrid/src/combiner.rs:124-144 | where the regions of the 184-byte input lie |
| `HybridKem.CombineV2` | crates/trelis-hybrid/src/combiner.rs:124-144 | filling the 184-byte buffer region by region yields the combined derivation |
| `HybridKem.CombinerBinds` | crates/trelis-hybrid/src/combiner.rs:124-144 | equal combined secrets bind both shared secrets, ciphertext, ephemeral key and public key, up to an exhibited collision |
| `HybridKem.EncapsulationCodec` | crates/trelis-hybrid/src/kem.rs:507-530 | the encapsulation codec is a bijection on 1095-byte strings |
| `DeviceKeyWraps.WrapEndToEnd` | crates/trelis-multidevice/src/device_key_wrap.rs:185-345 | wrap, serialise, parse and unwrap returns the secret, and the payload always fits its field |
| `DeviceKeyWraps.WrapOutcome` | crates/trelis-multidevice/src/device_key_wrap.rs:185-230 | a wrap is made exactly when the KEM encapsulates and the cipher seals |
| `DeviceKeyWraps.OtherRecipientRefused` | crates/trelis-multidevice/src/device_key_wrap.rs:243-284 | a wrap whose header names another recipient than the context is refused |
| `DeviceKeyWraps.HeaderRewriteRefused` | crates/trelis-multidevice/src/device_key_wrap.rs:243-284 | rewriting the header of a wrap that opens makes it fail, though the seal does not cover the header |
| `DeviceKeyWraps.AadLayout` | crates/trelis-multidevice/src/device_key_wrap.rs:138-146 | where the fields of the context lie; the purposes are 1, 2 and 3 |
| `DeviceKeyWraps.WrongContextFails` | crates/trelis-multidevice/src/device_key_wrap.rs:243-284 | a fresh wrap fails in every other context, or a commitment collision is exhibited |
| `DeviceKeyWraps.WrapBindsContext` | crates/trelis-multidevice/src/device_key_wrap.rs:243-284 | any wrap, honest or not, opens in one context and under one wrapping key, or a commitment collision is exhibited |
| `DeviceKeyWraps.WrapBindsDevice` | crates/trelis-multidevice/src/device_key_wrap.rs:243-290 | no wrap opens for two device public keys, or a collision in commitment, derivation, combiner or key hash is exhibited |
| `DeviceKeyWraps.AadInjective` | crates/trelis-multidevice/src/device_key_wrap.rs:138-146 | the 81 bytes determine the context |
| `DeviceKeyWraps.WrapCodec` | crates/trelis-multidevice/src/device_key_wrap.rs:295-345 | the wire form is a bijection on 1207-byte strings |
| `HistoryShare.FromBytes` | crates/trelis-multidevice/src/history.rs:188-251 | total on every byte string for 32- and 64-bit usize: returns the framed message, and fails with MalformedMessage exactly when the bytes frame none |
| `HistoryShare.ToBytes` | crates/trelis-multidevice/src/history.rs:155-180 | the append loop prints the wire form |
| `HistoryShare.FrameUnique` | crates/trelis-multidevice/src/history.rs:188-251 | a byte string frames at most one message |
| `HistoryShare.ParsesExactlyPrinted` | crates/trelis-multidevice/src/history.rs:155-251 | print and parse are exact inverses on canonical signatures, given 64-bit usize or a wire count that fits it |
| `HistoryShare.TruncatedCountStillFrames` | crates/trelis-multidevice/src/history.rs:198-206 | where the 32-bit cast truncates the count, a second byte string parses as every printable message |
| `HistoryShare.SigningData` | crates/trelis-multidevice/src/history.rs:120-137 | the hashing and append loops build the signed data |
| `HistoryShare.VerifiedSurvivesWire` | crates/trelis-multidevice/src/history.rs:102-251 | a message that verifies parses back from its bytes as itself and as nothing else |
| `HistoryShare.WireKeepsVerdict` | crates/trelis-multidevice/src/history.rs:102-251 | what parses back verifies exactly as the original did |
| `HistoryShare.CreatedVerifies` | crates/trelis-multidevice/src/history.rs:72-105 | a created message verifies, before and after the wire |
| `HistoryShare.SigningDataBinds` | crates/trelis-multidevice/src/history.rs:120-137 | equal signed data means equal thread, keys and time, or a hash collision of the two key lists |
| `HistoryShare.SigningLayout` | crates/trelis-multidevice/src/history.rs:120-137 | 107 bytes that start with the context, then thread, count, time and hash |
| `HistoryShare.CreateOutcome` | crates/trelis-multidevice/src/history.rs:72-90 | creation fails only if signing does, and takes over everything it is given |
| `HistoryShare.SignatureFixesKeys` | crates/trelis-multidevice/src/history.rs:102-137 | two messages under one signature that both verify are equal with one sender, or a named collision is exhibited |
| `RetainedKeys.RecordCodec` | crates/trelis-multidevice/src/retained_key.rs:60-99 | the record codec is a bijection on 80-byte strings |
| `RetainedKeys.ToBytes` | crates/trelis-multidevice/src/retained_key.rs:60-69 | filling the fixed buffer prints the record |
| `Welcomes.Process` | crates/trelis-cocoa/src/operations/init.rs:407-529 | size gate, signature, decapsulation, seal, length and tree checks in order, then a join and the loop of zero-seed advances, equal to the value-level function |
| `Welcomes.ProcessRefuses` | crates/trelis-cocoa/src/operations/init.rs:407-512 | sizes, then signature, then content, then tree information: which error comes when, and success exactly past the last |
| `Welcomes.InitialWelcomeJoins` | crates/trelis-cocoa/src/operations/init.rs:170-265 | processing the welcome of a new group puts its recipient into lockstep with the creator: same group, same position, its own leaf |
| `Welcomes.WelcomedMemberJoins` | crates/trelis-cocoa/src/operations/init.rs:407-529 | whoever is welcomed to a new group can join it |
| `Welcomes.FoundedGroupStarts` | crates/trelis-cocoa/src/operations/init.rs:170-265 | the sessions of the creator and of the members that process their welcomes hold the leaves 0, 1, 2 and so on, and satisfy the start condition of the key-reuse theorems |
| `Welcomes.FoundedGroupKeyReuse` | crates/trelis-cocoa/src/operations/init.rs:170-265 | so from its founding on, through every lockstep and careful run, a group seals two messages under one key only through a key collision or a chain fault |
| `Welcomes.InitialWelcomeOutcome` | crates/trelis-cocoa/src/operations/init.rs:170-265 | a welcome is made exactly when sizes, KEM, cipher and signer allow it |
| `Welcomes.AddWelcomeRefused` | crates/trelis-cocoa/src/operations/add.rs:401-465 | processing a welcome of the add path fails for every recipient and committer, or a commitment collision is exhibited: it is sealed under one associated data and opened under another |
| `Welcomes.AddWelcomeCarries` | crates/trelis-cocoa/src/operations/add.rs:401-465 | an add-path welcome announces the next epoch and carries, for its member and under its own associated data, the current init secret, the new transcript, the root seed and the tree information |
| `Welcomes.ContentOpensOnce` | crates/trelis-cocoa/src/operations/init.rs:424-469 | a welcome opens for one shared secret and one group, or the key derivation or the commitments collide |
| `Welcomes.AdoptedPosition` | crates/trelis-cocoa/src/operations/init.rs:482-529 | an adopted content leads to the welcome's epoch, on the chain of zero-seed commits from the adopted secret |
| `Welcomes.AdoptedAgreement` | crates/trelis-cocoa/src/operations/init.rs:482-529 | for any key schedule: the group's first epoch secret, in a group whose commits all had a zero root seed and the adopted transcript, agrees with the group at that epoch; any other content needs a colliding link of the two chains |
| `Welcomes.AdoptedAgreesIff` | crates/trelis-cocoa/src/operations/init.rs:482-529 | symbolically, the adopted content agrees with the group at that epoch exactly when it is the group's first epoch secret and every commit so far had a zero root seed and the adopted transcript |
| `Welcomes.AddContentNeverAgrees` | crates/trelis-cocoa/src/operations/add.rs:547-570 | the add-path content, which starts with the previous epoch's init secret, reaches the group's epoch number but never its secret |
| `Welcomes.SignBodyInjective` | crates/trelis-cocoa/src/operations/init.rs:80-116 | the signed body determines every field of the welcome |
| `Welcomes.SignatureFixesWelcome` | crates/trelis-cocoa/src/operations/init.rs:407-446 | two accepted welcomes under one signature have one committer and one body, or a named collision is exhibited |
| `Welcomes.WelcomeSignatureIsItsOwn` | crates/trelis-cocoa/src/operations/init.rs:436-446 | a signature on an accepted welcome that also verifies in another mode or context names a collision or two digests |
| `Welcomes.SignBodyLayout` | crates/trelis-cocoa/src/operations/init.rs:80-90 | where the fixed fields of the signed body lie |
| `CommittingAead.SealBinds` | crates/trelis-primitives/src/aead.rs:429-477 | what was sealed opens under no other key or associated data, or the commitments collide |

## Left out

- The ratchet tree, path and view code and the commit operations built on it; the tree information in a welcome is an opaque check.
- Session.CocoaSession.Create: does not model the tree view and the keypair of the session, because no modelled operation reads them; likewise the size of the tree that the entry takes only to build the view.
- Session.CocoaSession.Join: does not model the tree view and the keypair of the session, for the same reason.
- Session.CocoaSession.Restore: does not model the tree view and the keypair of the session, for the same reason; the view is rebuilt empty and so would differ from the one before.
- The point arithmetic, field arithmetic and ciphers themselves; zeroisation, memory locking, constant-time comparison, debug redaction and thread stack sizes.
- `trelis-wire`, the KEM ratchet and X3DH-PQ, whose implementations are not part of this model, as are certificates and prekey bundles of fixed layout.
- The in-place AEAD variants, which overwrite a caller's buffer with the same ciphertext and a detached tag.
- The history-sync safety number and the accessors.
- Byte layouts that are built by straight-line appends (associated data, commitment input, wire headers) are concatenations, not buffers; the ones filled region by region are arrays.
- KeyStore.ThreadKeyStore.BinarySearch: which of several equal sequence numbers is found is left open, as the standard library's search leaves it; no result depends on it.
- KeyStore.ThreadKeyStore.Clear: does not model the wiping of the dropped keys, nor EnforceCap that of the evicted ones.
- Session.CocoaSession.EncryptMessage: the wire form's debug-build assertion on ciphertexts over 4 GiB is not modelled; sealed messages are far below it.
- HybridSignatures.SignatureCodec: ML-DSA key and signature decoding is taken to be the length check of FIPS 204; ML-DSA verification stays a black box.
- CommittingAead.FramingInjective: lengths of associated data are taken to fit 64 bits, as they do on every target.
- EdCurve.CurveHypothesesConsistent: shows the curve hypotheses consistent on the residues modulo the order of Ed448; that the curve's own points meet them is not proved.
- Retries and failures of the operating system's random generator; draws are parameters.
