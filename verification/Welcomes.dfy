/** Welcome messages: how a creator or an adder hands a group's state to a new member, and how
    the member turns it into a session. */
module Welcomes {
  import opened Octets
  import opened Outcomes
  import opened Primitives
  import opened KeySchedule
  import opened Session
  import opened CommittingAead
  import opened HybridKem
  import opened EdCurve
  import opened SessionWatermark
  import opened RollbackGuard
  import Signatures = HybridSignatures

  const WELCOME_KEY_CONTEXT := "cocoa-sa-welcome-key-v1"
  const WELCOME_SIGN_CONTEXT := "cocoa-sa-welcome-sign-v1"
  const ADD_PATH_AAD := "cocoa-welcome-add"
  const WELCOME_INFO_PLAINTEXT_SIZE: nat := 64
  const MAX_GROUP_SIZE: nat := 1048576
  const MAX_TREE_DEPTH: nat := 20

  datatype WelcomeBody = WelcomeBody(
    groupId: Bytes32,
    epoch: U64,
    leaf: U32,
    treeDepth: U32,
    memberCount: U32,
    encryptedInfo: Bytes,
    encapsulation: Bytes)

  datatype Welcome = Welcome(body: WelcomeBody, signature: Signatures.HybridSignature)

  /** Everything an endpoint runs on. `treeInfo` is the verification of the tree information that a
      welcome may carry after its first 64 bytes: `None` when it passes. */
  datatype Endpoint<!P, !G, !X, !S> = Endpoint(
    session: Suite<Bytes32, Bytes24>,
    kem: Kem<X, S>,
    aead: BaseAead,
    sig: Signatures.SigSuite<P, G>,
    treeInfo: (Bytes, U32) -> Option<CryptoError>)

  ghost predicate EndpointCorrect<P(!new), G(!new), X(!new), S(!new)>(l: Endpoint<P, G, X, S>) {
    KemCorrect(l.kem) && AeadCorrect(l.aead) && CurveOk(l.sig.curve) && Signatures.MlDsaCorrect(l.sig.mldsa)
  }

  function WelcomeKey(h: Blake3, shared: Bytes32): Bytes32 {
    h.deriveKey(WELCOME_KEY_CONTEXT, shared)
  }

  /** A length as a 32-bit field; a longer field clamps instead of wrapping. */
  function Length32(b: Bytes): U32 {
    if |b| <= U32_MAX then |b| else U32_MAX
  }

  function SignBody(w: WelcomeBody): Bytes {
    w.groupId + Le64(w.epoch) + Le32(w.leaf) + Le32(w.treeDepth) + Le32(w.memberCount)
    + Le32(Length32(w.encapsulation)) + w.encapsulation + Le32(Length32(w.encryptedInfo)) + w.encryptedInfo
  }

  function SignMode(): Signatures.Mode {
    Signatures.WithContext(Ascii(WELCOME_SIGN_CONTEXT))
  }

  function CheckSizes(messageLength: nat, treeDepth: U32, groupSize: U32): Result<()> {
    if messageLength > MAX_MESSAGE_SIZE then Err(MessageTooLarge)
    else if groupSize > MAX_GROUP_SIZE || treeDepth > MAX_TREE_DEPTH then Err(TreeDepthExceeded)
    else Ok(())
  }

  // ----- making welcomes

  /** The draws of one welcome: ephemeral key and coins of the KEM, AEAD nonce, and those of the signature. */
  datatype Draws<+X> = Draws(ephemeral: X, coins: Bytes, nonce: Bytes24, commitNonce: Bytes114, entropy: Bytes)

  /** Encapsulates, seals the content under the given associated data, and prepends the nonce. */
  function SealInfo<P, G, X, S>(l: Endpoint<P, G, X, S>, pk: KemPublicKey, content: Bytes, aad: Bytes, r: Draws<X>): Result<(Bytes, Bytes)> {
    var (shared, e) :- Encapsulate(l.kem, l.sig.h, pk, r.ephemeral, r.coins);
    var ct :- EncryptCommitting(l.aead, l.sig.h, WelcomeKey(l.sig.h, shared), r.nonce, content, aad);
    Ok((r.nonce + ct, EncapsulationBytes(e)))
  }

  function Signed<P, G, X, S>(l: Endpoint<P, G, X, S>, signer: Signatures.HybridKeypair<G>, body: WelcomeBody, r: Draws<X>): Result<Welcome>
    requires l.sig.curve.order > 0
  {
    var signature :- Signatures.Sign(l.sig, signer, SignMode(), SignBody(body), r.commitNonce, r.entropy);
    Ok(Welcome(body, signature))
  }

  function Zero32(): Bytes32 { seq(32, _ => 0) }

  /** The welcome of `create_group` for the member at `leaf`: the epoch secret itself and a zero
      transcript, bound to the group. */
  function InitialWelcome<P, G, X, S>(l: Endpoint<P, G, X, S>, signer: Signatures.HybridKeypair<G>, groupId: Bytes32,
                                      epochSecret: Bytes32, leaf: U32, treeDepth: U32, memberCount: U32,
                                      pk: KemPublicKey, r: Draws<X>): Result<Welcome>
    requires l.sig.curve.order > 0
  {
    var _ :- CheckSizes(0, treeDepth, memberCount);
    var (info, encap) :- SealInfo(l, pk, epochSecret + Zero32(), groupId, r);
    Signed(l, signer, WelcomeBody(groupId, 0, leaf, treeDepth, memberCount, info, encap), r)
  }

  /** The content of the add path: the init secret of the epoch before the add, the new transcript,
      the commit's root seed and the tree information. */
  function AddContent(initSecret: Bytes32, c: Commit, treeInfo: Bytes): Bytes {
    initSecret + c.transcriptHash + c.deltaRoot + treeInfo
  }

  /** The welcome of `add_member`, made before the adder's own epoch moves on. */
  function AddWelcome<P, G, X, S>(l: Endpoint<P, G, X, S>, signer: Signatures.HybridKeypair<G>, s: SessionState<Bytes32>,
                                  c: Commit, treeInfo: Bytes, leaf: U32, treeDepth: U32, memberCount: U32,
                                  pk: KemPublicKey, r: Draws<X>): Result<Welcome>
    requires l.sig.curve.order > 0
  {
    if s.epoch.number == U64_MAX then Err(Panicked)
    else
      var (info, encap) :- SealInfo(l, pk, AddContent(s.epoch.secrets.initSecret, c, treeInfo), Ascii(ADD_PATH_AAD), r);
      Signed(l, signer, WelcomeBody(s.groupId, s.epoch.number + 1, leaf, treeDepth, memberCount, info, encap), r)
  }

  // ----- processing a welcome

  /** Opens the welcome's content: decapsulation, then the committing AEAD under the group id. */
  function OpenInfo<P, G, X, S>(l: Endpoint<P, G, X, S>, kp: KemKeypair<X, S>, w: WelcomeBody): Result<Bytes> {
    var shared :- DecapsulateBytes(l.kem, l.sig.h, kp, w.encapsulation);
    if |w.encryptedInfo| < NONCE_SIZE then Err(MalformedMessage)
    else DecryptCommitting(l.aead, l.sig.h, WelcomeKey(l.sig.h, shared), w.encryptedInfo[..NONCE_SIZE],
                           w.encryptedInfo[NONCE_SIZE..], w.groupId)
  }

  /** All checks up to the content: sizes, the committer's signature, the seal and the tree information. */
  function Content<P, G, X, S>(l: Endpoint<P, G, X, S>, kp: KemKeypair<X, S>, committer: Signatures.HybridPublicKey, w: Welcome): (c: Result<Bytes>)
    requires l.sig.curve.order > 0
    ensures c.Ok? ==> |c.value| >= WELCOME_INFO_PLAINTEXT_SIZE
  {
    var b := w.body;
    var _ :- CheckSizes(|b.encryptedInfo| + |b.encapsulation|, b.treeDepth, b.memberCount);
    var _ :- Signatures.Verify(l.sig, committer, SignMode(), SignBody(b), w.signature);
    var plaintext :- OpenInfo(l, kp, b);
    var _ :- CheckContent(l, plaintext, b.treeDepth);
    Ok(plaintext)
  }

  function CheckContent<P, G, X, S>(l: Endpoint<P, G, X, S>, plaintext: Bytes, treeDepth: U32): Result<()> {
    if |plaintext| < WELCOME_INFO_PLAINTEXT_SIZE then Err(MalformedMessage)
    else if |plaintext| == WELCOME_INFO_PLAINTEXT_SIZE then Ok(())
    else
      match l.treeInfo(plaintext[WELCOME_INFO_PLAINTEXT_SIZE..], treeDepth)
      case Some(e) => Err(e)
      case None => Ok(())
  }

  /** Joins at epoch 0 with the given secret, then advances `n` times with a zero root seed. */
  function Adopt<K, N>(suite: Suite<K, N>, groupId: Bytes32, userId: Bytes32, leaf: U32, secret: K, transcript: Bytes32, n: nat): SessionState<K> {
    AdvancedBy(suite, JoinGroup(suite, groupId, userId, leaf, secret, transcript), ZeroCommit(transcript), n)
  }

  function ZeroCommit(transcript: Bytes32): Commit {
    Commit(Zero32(), transcript)
  }

  function ProcessWelcome<P, G, X, S>(l: Endpoint<P, G, X, S>, userId: Bytes32, kp: KemKeypair<X, S>,
                                      committer: Signatures.HybridPublicKey, w: Welcome): Result<SessionState<Bytes32>>
    requires l.sig.curve.order > 0
  {
    var content :- Content(l, kp, committer, w);
    Ok(Adopt(l.session, w.body.groupId, userId, w.body.leaf, content[..32], content[32..64], w.body.epoch))
  }

  /** The loop that brings a joined session to the welcome's epoch. */
  method AdvanceTimes<K, N>(s: CocoaSession<K, N>, c: Commit, n: nat)
    modifies s`epoch, s`transcriptHash
    ensures s.State() == AdvancedBy(s.suite, old(s.State()), c, n)
  {
    for i := 0 to n
      invariant AdvancedBy(s.suite, s.State(), c, n - i) == AdvancedBy(s.suite, old(s.State()), c, n)
    {
      var _ := s.Advance(c);
    }
  }

  method Process<P, G, X, S>(l: Endpoint<P, G, X, S>, userId: Bytes32, kp: KemKeypair<X, S>,
                             committer: Signatures.HybridPublicKey, w: Welcome) returns (r: Result<CocoaSession<Bytes32, Bytes24>>)
    requires l.sig.curve.order > 0
    ensures r.Ok? <==> ProcessWelcome(l, userId, kp, committer, w).Ok?
    ensures r.Err? ==> r.error == ProcessWelcome(l, userId, kp, committer, w).error
    ensures r.Ok? ==> fresh(r.value) && r.value.suite == l.session
                      && Ok(r.value.State()) == ProcessWelcome(l, userId, kp, committer, w)
  {
    var content :- Content(l, kp, committer, w);
    var s := CocoaSession.Join(l.session, w.body.groupId, userId, w.body.leaf, content[..32], content[32..64]);
    AdvanceTimes(s, ZeroCommit(content[32..64]), w.body.epoch);
    return Ok(s);
  }

  // ----- the welcome of a new group

  lemma SealedInfoOpens<P(!new), G(!new), X(!new), S(!new)>(l: Endpoint<P, G, X, S>, kp: KemKeypair<X, S>, content: Bytes, r: Draws<X>, w: WelcomeBody)
    requires EndpointCorrect(l)
    requires SealInfo(l, PublicKey(l.kem, kp), content, w.groupId, r) == Ok((w.encryptedInfo, w.encapsulation))
    ensures OpenInfo(l, kp, w) == Ok(content)
    ensures |w.encryptedInfo| == NONCE_SIZE + |content| + TAG_SIZE + COMMITMENT_SIZE && |w.encapsulation| == ENCAPSULATION_SIZE
  {
    var (shared, e) := Encapsulate(l.kem, l.sig.h, PublicKey(l.kem, kp), r.ephemeral, r.coins).value;
    var ct := EncryptCommitting(l.aead, l.sig.h, WelcomeKey(l.sig.h, shared), r.nonce, content, w.groupId).value;
    DecapsulateAgrees(l.kem, l.sig.h, kp, r.ephemeral, r.coins);
    EncapsulationCodec(e, EncapsulationBytes(e));
    DecryptInvertsEncrypt(l.aead, l.sig.h, WelcomeKey(l.sig.h, shared), r.nonce, content, w.groupId);
    assert (r.nonce + ct)[..NONCE_SIZE] == r.nonce && (r.nonce + ct)[NONCE_SIZE..] == ct;
  }

  lemma InitialContentOpens<P(!new), G(!new), X(!new), S(!new)>(l: Endpoint<P, G, X, S>, signer: Signatures.HybridKeypair<G>,
      groupId: Bytes32, epochSecret: Bytes32, leaf: U32, treeDepth: U32, memberCount: U32, kp: KemKeypair<X, S>, r: Draws<X>)
    requires EndpointCorrect(l)
    requires InitialWelcome(l, signer, groupId, epochSecret, leaf, treeDepth, memberCount, PublicKey(l.kem, kp), r).Ok?
    ensures var w := InitialWelcome(l, signer, groupId, epochSecret, leaf, treeDepth, memberCount, PublicKey(l.kem, kp), r).value;
            && w.body.groupId == groupId && w.body.epoch == 0 && w.body.leaf == leaf
            && Content(l, kp, Signatures.PublicKey(l.sig, signer), w) == Ok(epochSecret + Zero32())
  {
    var content := epochSecret + Zero32();
    var (info, encap) := SealInfo(l, PublicKey(l.kem, kp), content, groupId, r).value;
    var b := WelcomeBody(groupId, 0, leaf, treeDepth, memberCount, info, encap);
    SealedInfoOpens(l, kp, content, r, b);
    Signatures.SignedVerifies(l.sig, signer, SignMode(), SignBody(b), r.commitNonce, r.entropy);
  }

  /** What a processed initial welcome leads to: the start of the group's chain at the own leaf. */
  lemma InitialWelcomeStarts<P(!new), G(!new), X(!new), S(!new)>(l: Endpoint<P, G, X, S>, signer: Signatures.HybridKeypair<G>,
      groupId: Bytes32, epochSecret: Bytes32, leaf: U32, treeDepth: U32, memberCount: U32,
      userId: Bytes32, kp: KemKeypair<X, S>, r: Draws<X>)
    requires EndpointCorrect(l)
    requires InitialWelcome(l, signer, groupId, epochSecret, leaf, treeDepth, memberCount, PublicKey(l.kem, kp), r).Ok?
    ensures var w := InitialWelcome(l, signer, groupId, epochSecret, leaf, treeDepth, memberCount, PublicKey(l.kem, kp), r).value;
            ProcessWelcome(l, userId, kp, Signatures.PublicKey(l.sig, signer), w)
              == Ok(JoinGroup(l.session, groupId, userId, leaf, epochSecret, Zero32()))
  {
    InitialContentOpens(l, signer, groupId, epochSecret, leaf, treeDepth, memberCount, kp, r);
    var content := epochSecret + Zero32();
    assert content[..32] == epochSecret && content[32..64] == Zero32();
  }

  /** A welcome of a new group brings the member it was made for into lockstep with the creator:
      same group, same position, its own leaf. */
  lemma InitialWelcomeJoins<P(!new), G(!new), X(!new), S(!new)>(l: Endpoint<P, G, X, S>, signer: Signatures.HybridKeypair<G>,
      groupId: Bytes32, creatorId: Bytes32, epochSecret: Bytes32, leaf: U32, treeDepth: U32, memberCount: U32,
      userId: Bytes32, kp: KemKeypair<X, S>, r: Draws<X>)
    requires EndpointCorrect(l)
    requires InitialWelcome(l, signer, groupId, epochSecret, leaf, treeDepth, memberCount, PublicKey(l.kem, kp), r).Ok?
    requires CreateGroup(l.session, groupId, creatorId, memberCount, epochSecret).Ok?
    ensures
      var w := InitialWelcome(l, signer, groupId, epochSecret, leaf, treeDepth, memberCount, PublicKey(l.kem, kp), r).value;
      var creator := CreateGroup(l.session, groupId, creatorId, memberCount, epochSecret).value;
      var joined := ProcessWelcome(l, userId, kp, Signatures.PublicKey(l.sig, signer), w);
      && joined.Ok?
      && joined.value.groupId == creator.groupId && joined.value.leaf == leaf
      && PositionOf(joined.value) == PositionOf(creator) && Coherent(l.session, joined.value)
  {
    InitialWelcomeStarts(l, signer, groupId, epochSecret, leaf, treeDepth, memberCount, userId, kp, r);
  }

  // ----- a founded group

  datatype Founding<+G> = Founding(signer: Signatures.HybridKeypair<G>, groupId: Bytes32, creatorId: Bytes32, epochSecret: Bytes32, treeDepth: U32)

  datatype Member<+X, +S> = Member(userId: Bytes32, keys: KemKeypair<X, S>, draws: Draws<X>)

  /** The welcome for the `i`-th bundle; the creator is not among them. */
  function WelcomeFor<P, G, X, S>(l: Endpoint<P, G, X, S>, f: Founding<G>, members: seq<Member<X, S>>, i: nat): Result<Welcome>
    requires l.sig.curve.order > 0 && i < |members| < MAX_GROUP_SIZE
  {
    InitialWelcome(l, f.signer, f.groupId, f.epochSecret, i + 1, f.treeDepth, |members| + 1,
                   PublicKey(l.kem, members[i].keys), members[i].draws)
  }

  /** What member `i` makes of the welcome `w`. */
  function Processed<P, G, X, S>(l: Endpoint<P, G, X, S>, f: Founding<G>, m: Member<X, S>, w: Welcome): Result<SessionState<Bytes32>>
    requires l.sig.curve.order > 0
  {
    ProcessWelcome(l, m.userId, m.keys, Signatures.PublicKey(l.sig, f.signer), w)
  }

  function Founder<P, G, X, S>(l: Endpoint<P, G, X, S>, f: Founding<G>, memberCount: U32): Result<SessionState<Bytes32>> {
    CreateGroup(l.session, f.groupId, f.creatorId, memberCount, f.epochSecret)
  }

  /** Member `i` got a welcome and made the session `s` of it. */
  predicate JoinedAs<P, G, X, S>(l: Endpoint<P, G, X, S>, f: Founding<G>, members: seq<Member<X, S>>, i: nat, s: SessionState<Bytes32>)
    requires l.sig.curve.order > 0 && i < |members| < MAX_GROUP_SIZE
  {
    WelcomeFor(l, f, members, i).Ok? && Processed(l, f, members[i], WelcomeFor(l, f, members, i).value) == Ok(s)
  }

  /** `founder` and `joined` are the sessions of the creator and of the members, each from its own welcome. */
  predicate Founded<P, G, X, S>(l: Endpoint<P, G, X, S>, f: Founding<G>, members: seq<Member<X, S>>,
                                founder: SessionState<Bytes32>, joined: seq<SessionState<Bytes32>>)
    requires l.sig.curve.order > 0 && |members| < MAX_GROUP_SIZE
  {
    && Founder(l, f, |members| + 1) == Ok(founder)
    && |joined| == |members|
    && forall i :: 0 <= i < |members| ==> JoinedAs(l, f, members, i, joined[i])
  }

  function FreshDevice(s: SessionState<Bytes32>): Device<Bytes32, Bytes24> {
    Device([s], [], [], Watermark(0, 0), [])
  }

  /** The creator's device and those of the members, in order. */
  function GroupOf(founder: SessionState<Bytes32>, joined: seq<SessionState<Bytes32>>): (g: seq<Device<Bytes32, Bytes24>>)
    ensures |g| == |joined| + 1
  {
    [FreshDevice(founder)] + seq(|joined|, i requires 0 <= i < |joined| => FreshDevice(joined[i]))
  }

  /** The leaves the sessions themselves hold. */
  function LeavesOf(founder: SessionState<Bytes32>, joined: seq<SessionState<Bytes32>>): (leaves: seq<U32>)
    ensures |leaves| == |joined| + 1
  {
    [founder.leaf] + seq(|joined|, i requires 0 <= i < |joined| => joined[i].leaf)
  }

  /** A session at the start of the group's chain, at leaf `i`. */
  predicate StartsAt(suite: Suite<Bytes32, Bytes24>, secret: Bytes32, s: SessionState<Bytes32>, i: nat) {
    s.leaf == i && s.epoch.number == 0 && s.epoch.secrets == DeriveSecrets(suite.schedule, secret)
  }

  /** The session of member `i`: joined at its leaf with the founding's secret. */
  function MemberSession<P, G, X, S>(l: Endpoint<P, G, X, S>, f: Founding<G>, m: Member<X, S>, i: nat): SessionState<Bytes32>
    requires i < MAX_GROUP_SIZE
  {
    JoinGroup(l.session, f.groupId, m.userId, i + 1, f.epochSecret, Zero32())
  }

  lemma MemberSessionStarts<P, G, X, S>(l: Endpoint<P, G, X, S>, f: Founding<G>, m: Member<X, S>, i: nat)
    requires i < MAX_GROUP_SIZE
    ensures StartsAt(l.session, f.epochSecret, MemberSession(l, f, m, i), i + 1)
  {}

  lemma WelcomedMemberStarts<P(!new), G(!new), X(!new), S(!new)>(l: Endpoint<P, G, X, S>, f: Founding<G>, members: seq<Member<X, S>>, i: nat)
    requires EndpointCorrect(l) && i < |members| < MAX_GROUP_SIZE && WelcomeFor(l, f, members, i).Ok?
    ensures Processed(l, f, members[i], WelcomeFor(l, f, members, i).value) == Ok(MemberSession(l, f, members[i], i))
  {
    InitialWelcomeStarts(l, f.signer, f.groupId, f.epochSecret, i + 1, f.treeDepth, |members| + 1,
                         members[i].userId, members[i].keys, members[i].draws);
  }

  /** Whoever is welcomed to a new group can join it. */
  lemma WelcomedMemberJoins<P(!new), G(!new), X(!new), S(!new)>(l: Endpoint<P, G, X, S>, f: Founding<G>, members: seq<Member<X, S>>, i: nat)
      returns (s: SessionState<Bytes32>)
    requires EndpointCorrect(l) && i < |members| < MAX_GROUP_SIZE && WelcomeFor(l, f, members, i).Ok?
    ensures JoinedAs(l, f, members, i, s)
  {
    WelcomedMemberStarts(l, f, members, i);
    s := MemberSession(l, f, members[i], i);
  }

  lemma DeviceStarts(suite: Suite<Bytes32, Bytes24>, secret: Bytes32, commits: nat -> Commit, s: SessionState<Bytes32>, i: nat)
    requires StartsAt(suite, secret, s, i)
    ensures Started(FreshDevice(s)) && OnChain(suite, secret, commits, s.leaf, FreshDevice(s))
  {
    assert Chain(suite.schedule, secret, commits, 0) == secret;
  }

  lemma StartingGroup(suite: Suite<Bytes32, Bytes24>, secret: Bytes32, commits: nat -> Commit,
                      founder: SessionState<Bytes32>, joined: seq<SessionState<Bytes32>>)
    requires StartsAt(suite, secret, founder, 0)
    requires forall i :: 0 <= i < |joined| ==> StartsAt(suite, secret, joined[i], i + 1)
    ensures GroupStarted(suite, secret, commits, LeavesOf(founder, joined), GroupOf(founder, joined))
    ensures forall i :: 0 <= i <= |joined| ==> LeavesOf(founder, joined)[i] == i
  {
    var g, leaves := GroupOf(founder, joined), LeavesOf(founder, joined);
    DeviceStarts(suite, secret, commits, founder, 0);
    forall i | 0 <= i < |g|
      ensures Started(g[i]) && OnChain(suite, secret, commits, leaves[i], g[i]) && leaves[i] == i
    {
      if i > 0 {
        assert StartsAt(suite, secret, joined[i - 1], i - 1 + 1);
        DeviceStarts(suite, secret, commits, joined[i - 1], i);
      }
    }
  }

  /** Founding a group gives it the start that the key-reuse theorems ask for: the sessions of the
      creator and of the members hold the leaves 0, 1, 2 and so on, and every device stands on the
      group's chain. */
  lemma FoundedGroupStarts<P(!new), G(!new), X(!new), S(!new)>(l: Endpoint<P, G, X, S>, f: Founding<G>, members: seq<Member<X, S>>,
      founder: SessionState<Bytes32>, joined: seq<SessionState<Bytes32>>, commits: nat -> Commit)
    requires EndpointCorrect(l) && |members| < MAX_GROUP_SIZE && Founded(l, f, members, founder, joined)
    ensures GroupStarted(l.session, f.epochSecret, commits, LeavesOf(founder, joined), GroupOf(founder, joined))
    ensures forall i :: 0 <= i <= |joined| ==> LeavesOf(founder, joined)[i] == i
  {
    forall i | 0 <= i < |joined| ensures StartsAt(l.session, f.epochSecret, joined[i], i + 1) {
      assert JoinedAs(l, f, members, i, joined[i]);
      WelcomedMemberStarts(l, f, members, i);
      MemberSessionStarts(l, f, members[i], i);
    }
    StartingGroup(l.session, f.epochSecret, commits, founder, joined);
  }

  /** So from its founding on, whatever its devices do in lockstep and with care, a group seals two
      messages under one key only through a key collision or a chain fault. */
  lemma FoundedGroupKeyReuse<P(!new), G(!new), X(!new), S(!new)>(l: Endpoint<P, G, X, S>, f: Founding<G>, members: seq<Member<X, S>>,
      founder: SessionState<Bytes32>, joined: seq<SessionState<Bytes32>>, commits: nat -> Commit, steps: seq<GroupStep>,
      i: nat, a: nat, j: nat, b: nat)
    requires EndpointCorrect(l) && |members| < MAX_GROUP_SIZE && Founded(l, f, members, founder, joined)
    requires InLockstep(l.session, commits, GroupOf(founder, joined), steps)
    requires i <= |joined| && j <= |joined| && (i, a) != (j, b)
    requires var g' := RunGroup(l.session, GroupOf(founder, joined), steps); a < |g'[i].released| && b < |g'[j].released|
    ensures
      var g' := RunGroup(l.session, GroupOf(founder, joined), steps);
      var (x, y) := (g'[i].released[a], g'[j].released[b]);
      var (m, m') := (x.message, y.message);
      var sch := l.session.schedule;
      && SealedAsRecorded(l.session, x) && SealedAsRecorded(l.session, y)
      && (x.key.key == y.key.key ==>
            || MessageKeyCollision(sch, sch.appSecret(Chain(sch, f.epochSecret, commits, m.epoch)), m.senderLeaf, m.counter,
                                   sch.appSecret(Chain(sch, f.epochSecret, commits, m'.epoch)), m'.senderLeaf, m'.counter)
            || ChainFault(sch, f.epochSecret, commits, if m.epoch < m'.epoch then m'.epoch else m.epoch))
  {
    FoundedGroupStarts(l, f, members, founder, joined, commits);
    GroupKeyReuseIsCollision(l.session, f.epochSecret, commits, LeavesOf(founder, joined), GroupOf(founder, joined), steps, i, a, j, b);
  }

  // ----- what processing refuses

  /** Sizes come first, then the signature, then the content; the tree information has the last word. */
  lemma ProcessRefuses<P, G, X, S>(l: Endpoint<P, G, X, S>, userId: Bytes32, kp: KemKeypair<X, S>, committer: Signatures.HybridPublicKey, w: Welcome)
    requires l.sig.curve.order > 0
    ensures
      var b := w.body;
      var r := ProcessWelcome(l, userId, kp, committer, w);
      var verified := Signatures.Verify(l.sig, committer, SignMode(), SignBody(b), w.signature);
      var content := OpenInfo(l, kp, b);
      if |b.encryptedInfo| + |b.encapsulation| > MAX_MESSAGE_SIZE then r == Err(MessageTooLarge)
      else if b.memberCount > MAX_GROUP_SIZE || b.treeDepth > MAX_TREE_DEPTH then r == Err(TreeDepthExceeded)
      else if verified.Err? then r == Err(verified.error)
      else if content.Err? then r == Err(content.error)
      else if |content.value| < WELCOME_INFO_PLAINTEXT_SIZE then r == Err(MalformedMessage)
      else
        var tail := content.value[WELCOME_INFO_PLAINTEXT_SIZE..];
        (r.Ok? <==> tail == [] || l.treeInfo(tail, b.treeDepth).None?)
        && (r.Err? ==> r.error == l.treeInfo(tail, b.treeDepth).value)
  {}

  /** A welcome is made exactly when the sizes allow it, the KEM encapsulates, the cipher seals and
      the signer signs. */
  lemma InitialWelcomeOutcome<P(!new), G(!new), X, S>(l: Endpoint<P, G, X, S>, signer: Signatures.HybridKeypair<G>, groupId: Bytes32,
      epochSecret: Bytes32, leaf: U32, treeDepth: U32, memberCount: U32, pk: KemPublicKey, r: Draws<X>)
    requires l.sig.curve.order > 0
    ensures
      var w := InitialWelcome(l, signer, groupId, epochSecret, leaf, treeDepth, memberCount, pk, r);
      var sealed := SealInfo(l, pk, epochSecret + Zero32(), groupId, r);
      if memberCount > MAX_GROUP_SIZE || treeDepth > MAX_TREE_DEPTH then w == Err(TreeDepthExceeded)
      else if sealed.Err? then w == Err(sealed.error)
      else
        var b := WelcomeBody(groupId, 0, leaf, treeDepth, memberCount, sealed.value.0, sealed.value.1);
        var signature := Signatures.Sign(l.sig, signer, SignMode(), SignBody(b), r.commitNonce, r.entropy);
        if signature.Err? then w == Err(signature.error) else w.Ok? && w.value.body == b
  {}

  // ----- the welcome of an addition

  /** The new member's side never accepts a welcome of the add path: it is sealed under one
      associated data and opened under another, so success would exhibit a commitment collision. */
  lemma AddWelcomeRefused<P(!new), G(!new), X(!new), S(!new)>(l: Endpoint<P, G, X, S>, signer: Signatures.HybridKeypair<G>,
      s: SessionState<Bytes32>, c: Commit, treeInfo: Bytes, leaf: U32, treeDepth: U32, memberCount: U32, pk: KemPublicKey, r: Draws<X>,
      userId: Bytes32, kp: KemKeypair<X, S>, committer: Signatures.HybridPublicKey)
    requires l.sig.curve.order > 0
    requires AddWelcome(l, signer, s, c, treeInfo, leaf, treeDepth, memberCount, pk, r).Ok?
    ensures
      var b := AddWelcome(l, signer, s, c, treeInfo, leaf, treeDepth, memberCount, pk, r).value;
      var h := l.sig.h;
      ProcessWelcome(l, userId, kp, committer, b).Ok? ==>
        var k := WelcomeKey(h, Encapsulate(l.kem, h, pk, r.ephemeral, r.coins).value.0);
        var k' := WelcomeKey(h, DecapsulateBytes(l.kem, h, kp, b.body.encapsulation).value);
        var sealed := b.body.encryptedInfo[NONCE_SIZE..];
        CommitmentCollision(h, k, r.nonce, Ascii(ADD_PATH_AAD), k', r.nonce, s.groupId, sealed[..|sealed| - COMMITMENT_SIZE])
  {
    var w := AddWelcome(l, signer, s, c, treeInfo, leaf, treeDepth, memberCount, pk, r).value;
    if ProcessWelcome(l, userId, kp, committer, w).Ok? {
      RefusedInfo(l, pk, AddContent(s.epoch.secrets.initSecret, c, treeInfo), r, kp, w.body);
    }
  }

  /** The entry point that does open an add-path welcome's content, under its own associated data. */
  function OpenAddInfo<P, G, X, S>(l: Endpoint<P, G, X, S>, kp: KemKeypair<X, S>, w: WelcomeBody): Result<Bytes> {
    if |w.encryptedInfo| < NONCE_SIZE then Err(MalformedMessage)
    else
      var shared :- DecapsulateBytes(l.kem, l.sig.h, kp, w.encapsulation);
      DecryptCommitting(l.aead, l.sig.h, WelcomeKey(l.sig.h, shared), w.encryptedInfo[..NONCE_SIZE],
                        w.encryptedInfo[NONCE_SIZE..], Ascii(ADD_PATH_AAD))
  }

  /** What an add-path welcome announces and carries: the next epoch, and, for the member it was made
      for, the current init secret, the new transcript, the root seed and the tree information. */
  lemma AddWelcomeCarries<P(!new), G(!new), X(!new), S(!new)>(l: Endpoint<P, G, X, S>, signer: Signatures.HybridKeypair<G>,
      s: SessionState<Bytes32>, c: Commit, treeInfo: Bytes, leaf: U32, treeDepth: U32, memberCount: U32, kp: KemKeypair<X, S>, r: Draws<X>)
    requires EndpointCorrect(l)
    requires AddWelcome(l, signer, s, c, treeInfo, leaf, treeDepth, memberCount, PublicKey(l.kem, kp), r).Ok?
    ensures
      var b := AddWelcome(l, signer, s, c, treeInfo, leaf, treeDepth, memberCount, PublicKey(l.kem, kp), r).value.body;
      var content := OpenAddInfo(l, kp, b);
      && (b.groupId, b.epoch, b.leaf, b.treeDepth, b.memberCount) == (s.groupId, s.epoch.number + 1, leaf, treeDepth, memberCount)
      && content.Ok? && |content.value| >= 96
      && content.value[..32] == s.epoch.secrets.initSecret && content.value[32..64] == c.transcriptHash
      && content.value[64..96] == c.deltaRoot && content.value[96..] == treeInfo
  {
    var w := AddWelcome(l, signer, s, c, treeInfo, leaf, treeDepth, memberCount, PublicKey(l.kem, kp), r).value;
    SealedAddInfoOpens(l, kp, AddContent(s.epoch.secrets.initSecret, c, treeInfo), r, w.body);
    FourParts(s.epoch.secrets.initSecret, c.transcriptHash, c.deltaRoot, treeInfo);
  }

  lemma FourParts(a: Bytes32, b: Bytes32, c: Bytes32, d: Bytes)
    ensures var x := a + b + c + d; x[..32] == a && x[32..64] == b && x[64..96] == c && x[96..] == d
  {}

  lemma SealedAddInfoOpens<P(!new), G(!new), X(!new), S(!new)>(l: Endpoint<P, G, X, S>, kp: KemKeypair<X, S>, content: Bytes, r: Draws<X>, w: WelcomeBody)
    requires EndpointCorrect(l)
    requires SealInfo(l, PublicKey(l.kem, kp), content, Ascii(ADD_PATH_AAD), r) == Ok((w.encryptedInfo, w.encapsulation))
    ensures OpenAddInfo(l, kp, w) == Ok(content)
  {
    var (shared, e) := Encapsulate(l.kem, l.sig.h, PublicKey(l.kem, kp), r.ephemeral, r.coins).value;
    var ct := EncryptCommitting(l.aead, l.sig.h, WelcomeKey(l.sig.h, shared), r.nonce, content, Ascii(ADD_PATH_AAD)).value;
    DecapsulateAgrees(l.kem, l.sig.h, kp, r.ephemeral, r.coins);
    EncapsulationCodec(e, EncapsulationBytes(e));
    DecryptInvertsEncrypt(l.aead, l.sig.h, WelcomeKey(l.sig.h, shared), r.nonce, content, Ascii(ADD_PATH_AAD));
    assert (r.nonce + ct)[..NONCE_SIZE] == r.nonce && (r.nonce + ct)[NONCE_SIZE..] == ct;
  }

  /** Two openings of one sealed content, under the secrets `s` and `s'` and for the groups `g` and
      `g'`, are one; or the key derivation collides on the secrets, or the two commitments collide. */
  predicate OneOpening(h: Blake3, s: Bytes32, g: Bytes32, s': Bytes32, g': Bytes32, nonce: Bytes24, sealed: Bytes)
    requires |sealed| >= COMMITMENT_SIZE
  {
    || (s == s' && g == g')
    || DeriveKeyCollision(h, WELCOME_KEY_CONTEXT, s, WELCOME_KEY_CONTEXT, s')
    || CommitmentCollision(h, WelcomeKey(h, s), nonce, g, WelcomeKey(h, s'), nonce, g', sealed[..|sealed| - COMMITMENT_SIZE])
  }

  lemma SealOpensOnce(a: BaseAead, h: Blake3, s: Bytes32, g: Bytes32, s': Bytes32, g': Bytes32, nonce: Bytes24, sealed: Bytes)
    requires DecryptCommitting(a, h, WelcomeKey(h, s), nonce, sealed, g).Ok?
    requires DecryptCommitting(a, h, WelcomeKey(h, s'), nonce, sealed, g').Ok?
    ensures |sealed| >= COMMITMENT_SIZE && OneOpening(h, s, g, s', g', nonce, sealed)
  {
    CommitsToEverything(a, h, sealed, WelcomeKey(h, s), nonce, g, WelcomeKey(h, s'), nonce, g');
  }

  /** The secret a keypair decapsulates from a welcome. */
  function OpeningSecret<P, G, X, S>(l: Endpoint<P, G, X, S>, kp: KemKeypair<X, S>, w: WelcomeBody): Result<Bytes32> {
    DecapsulateBytes(l.kem, l.sig.h, kp, w.encapsulation)
  }

  lemma OpensUnderSecret<P, G, X, S>(l: Endpoint<P, G, X, S>, kp: KemKeypair<X, S>, w: WelcomeBody)
    requires OpenInfo(l, kp, w).Ok?
    ensures OpeningSecret(l, kp, w).Ok? && |w.encryptedInfo| >= NONCE_SIZE
    ensures DecryptCommitting(l.aead, l.sig.h, WelcomeKey(l.sig.h, OpeningSecret(l, kp, w).value), w.encryptedInfo[..NONCE_SIZE],
                              w.encryptedInfo[NONCE_SIZE..], w.groupId).Ok?
  {}

  /** A welcome's content opens for one shared secret and one group, short of a collision. */
  lemma ContentOpensOnce<P, G, X, S>(l: Endpoint<P, G, X, S>, kp: KemKeypair<X, S>, w: WelcomeBody, kp': KemKeypair<X, S>, w': WelcomeBody)
    requires w.encryptedInfo == w'.encryptedInfo && OpenInfo(l, kp, w).Ok? && OpenInfo(l, kp', w').Ok?
    ensures OpeningSecret(l, kp, w).Ok? && OpeningSecret(l, kp', w').Ok? && |w.encryptedInfo| >= NONCE_SIZE + COMMITMENT_SIZE
    ensures OneOpening(l.sig.h, OpeningSecret(l, kp, w).value, w.groupId, OpeningSecret(l, kp', w').value, w'.groupId,
                       w.encryptedInfo[..NONCE_SIZE], w.encryptedInfo[NONCE_SIZE..])
  {
    OpensUnderSecret(l, kp, w);
    OpensUnderSecret(l, kp', w');
    SealOpensOnce(l.aead, l.sig.h, OpeningSecret(l, kp, w).value, w.groupId, OpeningSecret(l, kp', w').value, w'.groupId,
                  w.encryptedInfo[..NONCE_SIZE], w.encryptedInfo[NONCE_SIZE..]);
  }

  lemma RefusedInfo<P, G, X, S>(l: Endpoint<P, G, X, S>, pk: KemPublicKey, content: Bytes, r: Draws<X>, kp: KemKeypair<X, S>, b: WelcomeBody)
    requires SealInfo(l, pk, content, Ascii(ADD_PATH_AAD), r) == Ok((b.encryptedInfo, b.encapsulation))
    requires OpenInfo(l, kp, b).Ok?
    ensures
      var h := l.sig.h;
      var k := WelcomeKey(h, Encapsulate(l.kem, h, pk, r.ephemeral, r.coins).value.0);
      var k' := WelcomeKey(h, DecapsulateBytes(l.kem, h, kp, b.encapsulation).value);
      var sealed := b.encryptedInfo[NONCE_SIZE..];
      CommitmentCollision(h, k, r.nonce, Ascii(ADD_PATH_AAD), k', r.nonce, b.groupId, sealed[..|sealed| - COMMITMENT_SIZE])
  {
    var h := l.sig.h;
    var k := WelcomeKey(h, Encapsulate(l.kem, h, pk, r.ephemeral, r.coins).value.0);
    var k' := WelcomeKey(h, DecapsulateBytes(l.kem, h, kp, b.encapsulation).value);
    var ct := EncryptCommitting(l.aead, h, k, r.nonce, content, Ascii(ADD_PATH_AAD)).value;
    assert (r.nonce + ct)[..NONCE_SIZE] == r.nonce && (r.nonce + ct)[NONCE_SIZE..] == ct;
    assert |ADD_PATH_AAD| == 17;
    SealBinds(l.aead, h, k, r.nonce, content, Ascii(ADD_PATH_AAD), k', b.groupId);
  }

  // ----- what adopting a content leads to

  /** The chain may start one commit later. */
  lemma {:induction false} ChainFromNext<K, N>(s: Schedule<K, N>, first: K, commits: nat -> Commit, c: Commit, n: nat)
    requires forall k :: commits(k) == c
    ensures Chain(s, s.epochSecret(s.initSecret(first), c.deltaRoot, c.transcriptHash), commits, n) == Chain(s, first, commits, n + 1)
  {
    if n == 0 {
      assert Chain(s, first, commits, 0) == first;
    } else {
      ChainFromNext(s, first, commits, c, n - 1);
    }
  }

  lemma OneAdvance<K, N>(suite: Suite<K, N>, s: SessionState<K>, secret: K, c: Commit)
    requires s.epoch.secrets == DeriveSecrets(suite.schedule, secret) && s.epoch.number < U64_MAX
    ensures var next := suite.schedule.epochSecret(suite.schedule.initSecret(secret), c.deltaRoot, c.transcriptHash);
            var t := AdvanceEpoch(suite, s, c).1;
            && t.epoch.secrets == DeriveSecrets(suite.schedule, next) && t.epoch.number == s.epoch.number + 1
            && t.transcriptHash == t.epoch.transcriptHash && t.groupId == s.groupId && t.leaf == s.leaf
  {}

  lemma {:induction false} AdvancedByFollowsChain<K, N>(suite: Suite<K, N>, s: SessionState<K>, secret: K, commits: nat -> Commit, c: Commit, n: nat)
    requires s.epoch.secrets == DeriveSecrets(suite.schedule, secret) && s.transcriptHash == s.epoch.transcriptHash
    requires s.epoch.number + n <= U64_MAX && forall k :: commits(k) == c
    ensures var t := AdvancedBy(suite, s, c, n);
            && PositionOf(t) == Position(s.epoch.number + n, DeriveSecrets(suite.schedule, Chain(suite.schedule, secret, commits, n)))
            && t.groupId == s.groupId && t.leaf == s.leaf && Coherent(suite, t)
    decreases n
  {
    if n == 0 {
    } else {
      var next := suite.schedule.epochSecret(suite.schedule.initSecret(secret), c.deltaRoot, c.transcriptHash);
      OneAdvance(suite, s, secret, c);
      AdvancedByFollowsChain(suite, AdvanceEpoch(suite, s, c).1, next, commits, c, n - 1);
      ChainFromNext(suite.schedule, secret, commits, c, n - 1);
    }
  }

  /** An adopted session stands at epoch `n`, on the chain of zero commits from the adopted secret. */
  lemma AdoptedPosition<K, N>(suite: Suite<K, N>, groupId: Bytes32, userId: Bytes32, leaf: U32, secret: K, transcript: Bytes32, n: U64,
                              zeros: nat -> Commit)
    requires forall k :: zeros(k) == ZeroCommit(transcript)
    ensures var t := Adopt(suite, groupId, userId, leaf, secret, transcript, n);
            && PositionOf(t) == Position(n, DeriveSecrets(suite.schedule, Chain(suite.schedule, secret, zeros, n)))
            && t.groupId == groupId && t.leaf == leaf && Coherent(suite, t)
  {
    AdvancedByFollowsChain(suite, JoinGroup(suite, groupId, userId, leaf, secret, transcript), secret, zeros, ZeroCommit(transcript), n);
  }

  /** Link `k` of two chains feeds two distinct inputs to one derivation that maps them to one output. */
  ghost predicate LinksCollide<K, N>(s: Schedule<K, N>, x: K, a: nat -> Commit, y: K, b: nat -> Commit, k: nat) {
    var e, f := Chain(s, x, a, k), Chain(s, y, b, k);
    || (e != f && s.initSecret(e) == s.initSecret(f))
    || ((s.initSecret(e), a(k)) != (s.initSecret(f), b(k)) && Chain(s, x, a, k + 1) == Chain(s, y, b, k + 1))
  }

  /** Two chains meet at one length only if they started alike and went alike, or some link collides. */
  lemma {:induction false} ChainsMeet<K, N>(s: Schedule<K, N>, x: K, a: nat -> Commit, y: K, b: nat -> Commit, n: nat)
    requires Chain(s, x, a, n) == Chain(s, y, b, n)
    ensures
      || (x == y && forall k :: 0 <= k < n ==> a(k) == b(k))
      || exists k :: 0 <= k < n && LinksCollide(s, x, a, y, b, k)
  {
    if n == 0 {
    } else if LinksCollide(s, x, a, y, b, n - 1) {
    } else {
      ChainsMeet(s, x, a, y, b, n - 1);
      if k :| 0 <= k < n - 1 && LinksCollide(s, x, a, y, b, k) {
        assert k < n;
      }
    }
  }

  lemma {:induction false} SameCommitsSameChain<K, N>(s: Schedule<K, N>, x: K, a: nat -> Commit, b: nat -> Commit, n: nat)
    requires forall k :: 0 <= k < n ==> a(k) == b(k)
    ensures Chain(s, x, a, n) == Chain(s, x, b, n)
  {
    if n == 0 {
    } else {
      SameCommitsSameChain(s, x, a, b, n - 1);
    }
  }

  /** What an adopted session shares with a group at epoch `n`. */
  ghost predicate InLockstepWith<K, N>(suite: Suite<K, N>, t: SessionState<K>, first: K, commits: nat -> Commit, n: U64) {
    PositionOf(t) == Position(n, DeriveSecrets(suite.schedule, Chain(suite.schedule, first, commits, n)))
  }

  /** For any key schedule: the contents that bring a new member into lockstep with a group at epoch
      `n` are the group's very first epoch secret, in a group all of whose commits so far had a zero
      root seed and the adopted transcript. Any other content needs a colliding link. */
  lemma AdoptedAgreement<K, N>(suite: Suite<K, N>, groupId: Bytes32, userId: Bytes32, leaf: U32, secret: K, transcript: Bytes32, n: U64,
                               first: K, commits: nat -> Commit, zeros: nat -> Commit)
    requires forall k :: zeros(k) == ZeroCommit(transcript)
    ensures var agrees := InLockstepWith(suite, Adopt(suite, groupId, userId, leaf, secret, transcript, n), first, commits, n);
            var exact := secret == first && forall k :: 0 <= k < n ==> commits(k) == ZeroCommit(transcript);
            && (exact ==> agrees)
            && (agrees ==> exact || exists k :: 0 <= k < n && LinksCollide(suite.schedule, secret, zeros, first, commits, k))
  {
    AdoptedPosition(suite, groupId, userId, leaf, secret, transcript, n, zeros);
    if secret == first && forall k :: 0 <= k < n ==> commits(k) == ZeroCommit(transcript) {
      SameCommitsSameChain(suite.schedule, first, zeros, commits, n);
    }
    if Chain(suite.schedule, secret, zeros, n) == Chain(suite.schedule, first, commits, n) {
      ChainsMeet(suite.schedule, secret, zeros, first, commits, n);
    }
  }

  /** Symbolically no link collides, and the contents are exact. */
  lemma AdoptedAgreesIff(suite: Suite<Term, Term>, groupId: Bytes32, userId: Bytes32, leaf: U32, secret: Term, transcript: Bytes32, n: U64,
                         first: Term, commits: nat -> Commit)
    requires suite.schedule == SymbolicSchedule()
    ensures InLockstepWith(suite, Adopt(suite, groupId, userId, leaf, secret, transcript, n), first, commits, n)
       <==> secret == first && forall k :: 0 <= k < n ==> commits(k) == ZeroCommit(transcript)
  {
    var zeros: nat -> Commit := _ => ZeroCommit(transcript);
    AdoptedAgreement(suite, groupId, userId, leaf, secret, transcript, n, first, commits, zeros);
    forall k | 0 <= k < n
      ensures !LinksCollide(SymbolicSchedule(), secret, zeros, first, commits, k)
    {}
  }

  /** So the content of the add path, which starts with the init secret of the epoch before, never
      does: whoever adopts it stands at the group's epoch with other secrets. */
  lemma AddContentNeverAgrees(suite: Suite<Term, Term>, groupId: Bytes32, userId: Bytes32, leaf: U32, transcript: Bytes32, n: U64,
                              first: Term, commits: nat -> Commit)
    requires suite.schedule == SymbolicSchedule() && n > 0
    ensures var initSecret := suite.schedule.initSecret(Chain(suite.schedule, first, commits, n - 1));
            var joined := Adopt(suite, groupId, userId, leaf, initSecret, transcript, n);
            && joined.epoch.number == n
            && joined.epoch.secrets.epochSecret != Chain(suite.schedule, first, commits, n)
  {
    var before := Chain(suite.schedule, first, commits, n - 1);
    var initSecret := suite.schedule.initSecret(before);
    var zeros: nat -> Commit := _ => ZeroCommit(transcript);
    AdoptedPosition(suite, groupId, userId, leaf, initSecret, transcript, n, zeros);
    SymbolicChainGrows(first, commits, n - 1);
    SymbolicChainGrows(first, commits, n);
    SymbolicChainGrows(initSecret, zeros, n);
  }

  // ----- what the committer's signature covers

  function FixedFields(w: WelcomeBody): (b: Bytes)
    ensures |b| == 52
  {
    w.groupId + Le64(w.epoch) + Le32(w.leaf) + Le32(w.treeDepth) + Le32(w.memberCount)
  }

  lemma FixedFieldsInjective(w: WelcomeBody, v: WelcomeBody)
    requires FixedFields(w) == FixedFields(v)
    ensures w.groupId == v.groupId && w.epoch == v.epoch && w.leaf == v.leaf && w.treeDepth == v.treeDepth && w.memberCount == v.memberCount
  {
    SplitEqual(w.groupId + Le64(w.epoch) + Le32(w.leaf) + Le32(w.treeDepth), Le32(w.memberCount),
               v.groupId + Le64(v.epoch) + Le32(v.leaf) + Le32(v.treeDepth), Le32(v.memberCount));
    SplitEqual(w.groupId + Le64(w.epoch) + Le32(w.leaf), Le32(w.treeDepth), v.groupId + Le64(v.epoch) + Le32(v.leaf), Le32(v.treeDepth));
    SplitEqual(w.groupId + Le64(w.epoch), Le32(w.leaf), v.groupId + Le64(v.epoch), Le32(v.leaf));
    SplitEqual(w.groupId, Le64(w.epoch), v.groupId, Le64(v.epoch));
    Le64Injective(w.epoch, v.epoch);
    Le32Injective(w.leaf, v.leaf);
    Le32Injective(w.treeDepth, v.treeDepth);
    Le32Injective(w.memberCount, v.memberCount);
  }

  lemma FramedPairInjective(a: Bytes, b: Bytes, c: Bytes, d: Bytes)
    requires |a| <= U32_MAX && |b| <= U32_MAX && |c| <= U32_MAX && |d| <= U32_MAX
    requires Le32(|a|) + (a + (Le32(|b|) + b)) == Le32(|c|) + (c + (Le32(|d|) + d))
    ensures a == c && b == d
  {
    SplitEqual(Le32(|a|), a + (Le32(|b|) + b), Le32(|c|), c + (Le32(|d|) + d));
    Le32Injective(|a|, |c|);
    SplitEqual(a, Le32(|b|) + b, c, Le32(|d|) + d);
    SplitEqual(Le32(|b|), b, Le32(|d|), d);
  }

  lemma SignBodyParts(w: WelcomeBody)
    ensures SignBody(w) == FixedFields(w)
      + (Le32(Length32(w.encapsulation)) + (w.encapsulation + (Le32(Length32(w.encryptedInfo)) + w.encryptedInfo)))
  {}

  /** The signed body determines every field of a welcome whose parts have exact 32-bit lengths. */
  lemma SignBodyInjective(w: WelcomeBody, v: WelcomeBody)
    requires |w.encapsulation| <= U32_MAX && |w.encryptedInfo| <= U32_MAX
    requires |v.encapsulation| <= U32_MAX && |v.encryptedInfo| <= U32_MAX
    requires SignBody(w) == SignBody(v)
    ensures w == v
  {
    SignBodyParts(w);
    SignBodyParts(v);
    SplitEqual(FixedFields(w), Le32(|w.encapsulation|) + (w.encapsulation + (Le32(|w.encryptedInfo|) + w.encryptedInfo)),
               FixedFields(v), Le32(|v.encapsulation|) + (v.encapsulation + (Le32(|v.encryptedInfo|) + v.encryptedInfo)));
    FixedFieldsInjective(w, v);
    FramedPairInjective(w.encapsulation, w.encryptedInfo, v.encapsulation, v.encryptedInfo);
  }

  /** Two accepted welcomes under one signature have one committer and one body, or H1 collides, or
      ML-DSA accepts one signature on two digests. */
  lemma SignatureFixesWelcome<P(!new), G(!new), X, S>(l: Endpoint<P, G, X, S>, kp: KemKeypair<X, S>, pk: Signatures.HybridPublicKey, w: Welcome,
                                                      kp': KemKeypair<X, S>, pk': Signatures.HybridPublicKey, w': Welcome)
    requires l.sig.curve.order > 0 && w.signature == w'.signature
    requires Content(l, kp, pk, w).Ok? && Content(l, kp', pk', w').Ok?
    ensures
      var mode := SignMode();
      var (x, x') := (Signatures.Region(l.sig.h, mode, SignBody(w.body)).value, Signatures.Region(l.sig.h, mode, SignBody(w'.body)).value);
      var (r, r') := (Signatures.CommitmentOf(l.sig, pk, w.signature).value, Signatures.CommitmentOf(l.sig, pk', w.signature).value);
      var (d, d') := (Signatures.MPrime(l.sig.h, mode, pk, x, r), Signatures.MPrime(l.sig.h, mode, pk', x', r'));
      var h1 := Signatures.H1Context(mode);
      || (pk == pk' && w == w')
      || DeriveKeyCollision(l.sig.h, h1, Signatures.H1Preimage(pk, x, r), h1, Signatures.H1Preimage(pk', x', r'))
      || Signatures.AcceptsTwoDigests(l.sig.mldsa, pk.mldsa, d, pk'.mldsa, d', w.signature.mldsa)
  {
    Signatures.SignatureBindsKeyModeMessage(l.sig, w.signature, pk, SignMode(), SignBody(w.body), pk', SignMode(), SignBody(w'.body));
    if SignBody(w.body) == SignBody(w'.body) {
      SignBodyInjective(w.body, w'.body);
    }
  }

  /** A committer's signature on a welcome serves nothing else: if it also verifies in another mode or
      under another context, H1 or a prehash collides, or ML-DSA accepts it on two digests. */
  lemma WelcomeSignatureIsItsOwn<P(!new), G(!new), X, S>(l: Endpoint<P, G, X, S>, kp: KemKeypair<X, S>, pk: Signatures.HybridPublicKey, w: Welcome,
                                                         mode: Signatures.Mode, message: Bytes)
    requires l.sig.curve.order > 0 && Content(l, kp, pk, w).Ok?
    requires mode != Signatures.WithContext(Ascii("cocoa-sa-welcome-sign-v1"))
    requires Signatures.Verify(l.sig, pk, mode, message, w.signature).Ok?
    ensures
      var (x, x') := (Signatures.Region(l.sig.h, SignMode(), SignBody(w.body)).value, Signatures.Region(l.sig.h, mode, message).value);
      var r := Signatures.CommitmentOf(l.sig, pk, w.signature).value;
      var (h1, h1') := (Signatures.H1Context(SignMode()), Signatures.H1Context(mode));
      || DeriveKeyCollision(l.sig.h, h1, Signatures.H1Preimage(pk, x, r), h1', Signatures.H1Preimage(pk, x', r))
      || Signatures.AcceptsTwoDigests(l.sig.mldsa, pk.mldsa, Signatures.MPrime(l.sig.h, SignMode(), pk, x, r),
                                      pk.mldsa, Signatures.MPrime(l.sig.h, mode, pk, x', r), w.signature.mldsa)
  {
    Signatures.SignatureBindsKeyModeMessage(l.sig, w.signature, pk, SignMode(), SignBody(w.body), pk, mode, message);
  }

  /** Where the fixed fields of the signed body lie. */
  lemma SignBodyLayout(w: WelcomeBody)
    ensures var b := SignBody(w);
            && b[..32] == w.groupId && b[32..40] == Le64(w.epoch) && b[40..44] == Le32(w.leaf)
            && b[44..48] == Le32(w.treeDepth) && b[48..52] == Le32(w.memberCount)
  {
    SignBodyParts(w);
    FixedLayout(w);
    var b, f := SignBody(w), FixedFields(w);
    assert b[..52] == f;
    assert b[..32] == f[..32] && b[32..40] == f[32..40] && b[40..44] == f[40..44] && b[44..48] == f[44..48] && b[48..52] == f[48..52];
  }

  lemma FixedLayout(w: WelcomeBody)
    ensures var f := FixedFields(w);
            && f[..32] == w.groupId && f[32..40] == Le64(w.epoch) && f[40..44] == Le32(w.leaf)
            && f[44..48] == Le32(w.treeDepth) && f[48..52] == Le32(w.memberCount)
  {}
}
