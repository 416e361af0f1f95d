/** The CoCoA group session: epoch state, message encryption and decryption, epoch advance and
    restore. Each operation is a function on session values; the class runs the same operations
    by updating its fields and is proved against those functions. */
module Session {
  import opened Octets
  import opened Outcomes
  import opened Primitives
  import opened KeySchedule
  import opened GroupMessage
  import opened SessionWatermark

  const MAX_MESSAGE_SIZE: nat := 64 * 1024 * 1024

  datatype Suite<!K, !N> = Suite(schedule: Schedule<K, N>, aead: Aead<K, N>)

  datatype EpochSecrets<+K> = EpochSecrets(epochSecret: K, appSecret: K, confKey: K, initSecret: K)

  datatype MessageKey<+K, +N> = MessageKey(key: K, nonce: N, senderLeaf: U32, counter: U64)

  datatype Epoch<+K> = Epoch(number: U64, secrets: EpochSecrets<K>, messageCounter: U64, transcriptHash: Bytes32)

  datatype SessionState<+K> = SessionState(
    groupId: Bytes32,
    userId: Bytes32,
    leaf: U32,
    epoch: Epoch<K>,
    transcriptHash: Bytes32,
    members: set<Bytes32>)

  /** What a serialised session carries. */
  datatype Blob<+K> = Blob(
    groupId: Bytes32,
    userId: Bytes32,
    leaf: U32,
    epochSecret: K,
    transcriptHash: Bytes32,
    epochNumber: U64,
    messageCounter: U64)

  // ----- epoch operations

  function DeriveSecrets<K, N>(s: Schedule<K, N>, epochSecret: K): EpochSecrets<K> {
    EpochSecrets(epochSecret, s.appSecret(epochSecret), s.confKey(epochSecret), s.initSecret(epochSecret))
  }

  function DeriveMessageKey<K, N>(s: Schedule<K, N>, secrets: EpochSecrets<K>, leaf: U32, counter: U64): MessageKey<K, N> {
    MessageKey(s.messageKey(secrets.appSecret, leaf, counter), s.messageNonce(secrets.appSecret, leaf, counter), leaf, counter)
  }

  function InitialEpoch<K, N>(s: Schedule<K, N>, epochSecret: K, transcriptHash: Bytes32): Epoch<K> {
    Epoch(0, DeriveSecrets(s, epochSecret), 0, transcriptHash)
  }

  function RestoredEpoch<K, N>(s: Schedule<K, N>, epochSecret: K, transcriptHash: Bytes32, number: U64): Epoch<K> {
    Epoch(number, DeriveSecrets(s, epochSecret), 0, transcriptHash)
  }

  /** The epoch number is advanced by a checked addition whose failure aborts. */
  function AdvancedEpoch<K, N>(s: Schedule<K, N>, prevInit: K, c: Commit, prevNumber: U64): Result<Epoch<K>> {
    if prevNumber == U64_MAX then Err(Panicked)
    else
      var epochSecret := s.epochSecret(prevInit, c.deltaRoot, c.transcriptHash);
      Ok(Epoch(prevNumber + 1, DeriveSecrets(s, epochSecret), 0, c.transcriptHash))
  }

  // ----- session operations on values

  function CreateGroup<K, N>(suite: Suite<K, N>, groupId: Bytes32, userId: Bytes32, initialMembers: U32, epochSecret: K):
      Result<SessionState<K>>
  {
    if initialMembers == 0 then Err(InvalidGroupSize)
    else
      var zero: Bytes32 := seq(32, _ => 0);
      Ok(SessionState(groupId, userId, 0, InitialEpoch(suite.schedule, epochSecret, zero), zero, {userId}))
  }

  function JoinGroup<K, N>(suite: Suite<K, N>, groupId: Bytes32, userId: Bytes32, leaf: U32, epochSecret: K,
                           transcriptHash: Bytes32): SessionState<K>
  {
    SessionState(groupId, userId, leaf, InitialEpoch(suite.schedule, epochSecret, transcriptHash), transcriptHash, {userId})
  }

  function Serialise<K>(s: SessionState<K>): Blob<K> {
    Blob(s.groupId, s.userId, s.leaf, s.epoch.secrets.epochSecret, s.transcriptHash, s.epoch.number, s.epoch.messageCounter)
  }

  /** The raw restore: the counter starts at zero and only our own membership is known. */
  function RestoreSession<K, N>(suite: Suite<K, N>, b: Blob<K>): SessionState<K> {
    SessionState(b.groupId, b.userId, b.leaf, RestoredEpoch(suite.schedule, b.epochSecret, b.transcriptHash, b.epochNumber),
                 b.transcriptHash, {b.userId})
  }

  function SetMessageCounter<K>(s: SessionState<K>, counter: U64): (Result<()>, SessionState<K>) {
    if counter < s.epoch.messageCounter then (Err(MessageCounterTooOld), s)
    else (Ok(()), s.(epoch := s.epoch.(messageCounter := counter)))
  }

  /** The checked door: the watermark is consulted before anything is rebuilt, then the counter
      is set forward on the rebuilt session. */
  function RestoreSessionChecked<K, N>(suite: Suite<K, N>, w: Watermark, b: Blob<K>): Result<SessionState<K>> {
    var _ :- w.Check(b.epochNumber, b.messageCounter);
    var (r, s) := SetMessageCounter(RestoreSession(suite, b), b.messageCounter);
    var _ :- r;
    Ok(s)
  }

  function Aad(groupId: Bytes32, epoch: U64, leaf: U32, counter: U64): (b: Bytes)
    ensures |b| == 52
  {
    groupId + Le64(epoch) + Le32(leaf) + Le64(counter)
  }

  /** Encryption gates the plaintext, takes the next counter, then seals. The counter is spent
      even when the cipher reports a failure. */
  function Encrypt<K, N>(suite: Suite<K, N>, s: SessionState<K>, plaintext: Bytes):
      (Result<EncryptedMessage>, SessionState<K>)
  {
    if |plaintext| > MAX_MESSAGE_SIZE then (Err(MessageTooLarge), s)
    else if s.epoch.messageCounter == U64_MAX then (Err(Panicked), s)
    else
      var counter := s.epoch.messageCounter;
      var key := DeriveMessageKey(suite.schedule, s.epoch.secrets, s.leaf, counter);
      var s' := s.(epoch := s.epoch.(messageCounter := counter + 1));
      match AeadEncrypt(suite.aead, key.key, key.nonce, plaintext, Aad(s.groupId, s.epoch.number, s.leaf, counter))
      case Err(e) => (Err(e), s')
      case Ok(ct) => (Ok(EncryptedMessage(s.epoch.number, s.leaf, counter, ct)), s')
  }

  function OpenWith<K, N>(suite: Suite<K, N>, groupId: Bytes32, secrets: EpochSecrets<K>, m: EncryptedMessage): Result<Bytes> {
    var key := DeriveMessageKey(suite.schedule, secrets, m.senderLeaf, m.counter);
    AeadDecrypt(suite.aead, key.key, key.nonce, m.ciphertext, Aad(groupId, m.epoch, m.senderLeaf, m.counter))
  }

  function Decrypt<K, N>(suite: Suite<K, N>, s: SessionState<K>, m: EncryptedMessage): Result<Bytes> {
    if |m.ciphertext| > MAX_MESSAGE_SIZE then Err(MessageTooLarge)
    else if m.epoch != s.epoch.number then Err(EpochMismatch(s.epoch.number, m.epoch))
    else OpenWith(suite, s.groupId, s.epoch.secrets, m)
  }

  function DecryptWithEpochSecret<K, N>(suite: Suite<K, N>, s: SessionState<K>, epochSecret: K, m: EncryptedMessage): Result<Bytes> {
    if |m.ciphertext| > MAX_MESSAGE_SIZE then Err(MessageTooLarge)
    else OpenWith(suite, s.groupId, DeriveSecrets(suite.schedule, epochSecret), m)
  }

  function AdvanceEpoch<K, N>(suite: Suite<K, N>, s: SessionState<K>, c: Commit): (Result<()>, SessionState<K>) {
    match AdvancedEpoch(suite.schedule, s.epoch.secrets.initSecret, c, s.epoch.number)
    case Err(e) => (Err(e), s)
    case Ok(epoch) => (Ok(()), s.(epoch := epoch, transcriptHash := c.transcriptHash))
  }

  // ----- the mutable session

  class CocoaSession<K, N> {
    const suite: Suite<K, N>
    const groupId: Bytes32
    const userId: Bytes32
    const leaf: U32
    var epoch: Epoch<K>
    var transcriptHash: Bytes32
    var members: set<Bytes32>

    function State(): SessionState<K>
      reads this
    {
      SessionState(groupId, userId, leaf, epoch, transcriptHash, members)
    }

    constructor (suite: Suite<K, N>, groupId: Bytes32, userId: Bytes32, leaf: U32, epoch: Epoch<K>, transcriptHash: Bytes32)
      ensures this.suite == suite
      ensures State() == SessionState(groupId, userId, leaf, epoch, transcriptHash, {userId})
    {
      this.suite, this.groupId, this.userId, this.leaf := suite, groupId, userId, leaf;
      this.epoch, this.transcriptHash, this.members := epoch, transcriptHash, {userId};
    }

    static method Create(suite: Suite<K, N>, groupId: Bytes32, userId: Bytes32, initialMembers: U32, epochSecret: K)
        returns (r: Result<CocoaSession<K, N>>)
      ensures r.Ok? <==> CreateGroup(suite, groupId, userId, initialMembers, epochSecret).Ok?
      ensures r.Err? ==> r.error == CreateGroup(suite, groupId, userId, initialMembers, epochSecret).error
      ensures r.Ok? ==> fresh(r.value) && r.value.suite == suite
                        && Ok(r.value.State()) == CreateGroup(suite, groupId, userId, initialMembers, epochSecret)
    {
      if initialMembers == 0 {
        return Err(InvalidGroupSize);
      }
      var zero: Bytes32 := seq(32, _ => 0);
      var s := new CocoaSession(suite, groupId, userId, 0, InitialEpoch(suite.schedule, epochSecret, zero), zero);
      return Ok(s);
    }

    static method Join(suite: Suite<K, N>, groupId: Bytes32, userId: Bytes32, leaf: U32, epochSecret: K, transcriptHash: Bytes32)
        returns (s: CocoaSession<K, N>)
      ensures fresh(s) && s.suite == suite
      ensures s.State() == JoinGroup(suite, groupId, userId, leaf, epochSecret, transcriptHash)
    {
      s := new CocoaSession(suite, groupId, userId, leaf, InitialEpoch(suite.schedule, epochSecret, transcriptHash), transcriptHash);
    }

    static method Restore(suite: Suite<K, N>, b: Blob<K>) returns (s: CocoaSession<K, N>)
      ensures fresh(s) && s.suite == suite && s.State() == RestoreSession(suite, b)
    {
      var epoch := RestoredEpoch(suite.schedule, b.epochSecret, b.transcriptHash, b.epochNumber);
      s := new CocoaSession(suite, b.groupId, b.userId, b.leaf, epoch, b.transcriptHash);
    }

    static method RestoreChecked(suite: Suite<K, N>, w: Watermark, b: Blob<K>) returns (r: Result<CocoaSession<K, N>>)
      ensures r.Ok? <==> RestoreSessionChecked(suite, w, b).Ok?
      ensures r.Err? ==> r.error == RestoreSessionChecked(suite, w, b).error
      ensures r.Ok? ==> fresh(r.value) && r.value.suite == suite
                        && Ok(r.value.State()) == RestoreSessionChecked(suite, w, b)
    {
      var _ :- w.Check(b.epochNumber, b.messageCounter);
      var s := Restore(suite, b);
      var _ :- s.SetCounter(b.messageCounter);
      return Ok(s);
    }

    /** Takes the key at the current counter and moves the counter on. */
    method NextMessageKey() returns (r: Result<MessageKey<K, N>>)
      modifies this`epoch
      ensures r.Err? <==> old(epoch.messageCounter) == U64_MAX
      ensures r.Err? ==> r.error == Panicked && epoch == old(epoch)
      ensures r.Ok? ==> r.value == DeriveMessageKey(suite.schedule, old(epoch.secrets), leaf, old(epoch.messageCounter))
      ensures r.Ok? ==> epoch == old(epoch).(messageCounter := old(epoch.messageCounter) + 1)
    {
      var key := DeriveMessageKey(suite.schedule, epoch.secrets, leaf, epoch.messageCounter);
      if epoch.messageCounter == U64_MAX {
        return Err(Panicked);
      }
      epoch := epoch.(messageCounter := epoch.messageCounter + 1);
      return Ok(key);
    }

    method EncryptMessage(plaintext: Bytes) returns (r: Result<EncryptedMessage>)
      modifies this`epoch
      ensures (r, State()) == Encrypt(suite, old(State()), plaintext)
    {
      if |plaintext| > MAX_MESSAGE_SIZE {
        return Err(MessageTooLarge);
      }
      var key :- NextMessageKey();
      var aad := Aad(groupId, epoch.number, leaf, key.counter);
      var ct :- AeadEncrypt(suite.aead, key.key, key.nonce, plaintext, aad);
      return Ok(EncryptedMessage(epoch.number, leaf, key.counter, ct));
    }

    method DecryptMessage(m: EncryptedMessage) returns (r: Result<Bytes>)
      ensures r == Decrypt(suite, State(), m)
    {
      if |m.ciphertext| > MAX_MESSAGE_SIZE {
        return Err(MessageTooLarge);
      }
      if m.epoch != epoch.number {
        return Err(EpochMismatch(epoch.number, m.epoch));
      }
      var key := DeriveMessageKey(suite.schedule, epoch.secrets, m.senderLeaf, m.counter);
      r := AeadDecrypt(suite.aead, key.key, key.nonce, m.ciphertext, Aad(groupId, m.epoch, m.senderLeaf, m.counter));
    }

    method DecryptHistorical(epochSecret: K, m: EncryptedMessage) returns (r: Result<Bytes>)
      ensures r == DecryptWithEpochSecret(suite, State(), epochSecret, m)
    {
      if |m.ciphertext| > MAX_MESSAGE_SIZE {
        return Err(MessageTooLarge);
      }
      var secrets := DeriveSecrets(suite.schedule, epochSecret);
      var key := DeriveMessageKey(suite.schedule, secrets, m.senderLeaf, m.counter);
      r := AeadDecrypt(suite.aead, key.key, key.nonce, m.ciphertext, Aad(groupId, m.epoch, m.senderLeaf, m.counter));
    }

    method Advance(c: Commit) returns (r: Result<()>)
      modifies this`epoch, this`transcriptHash
      ensures (r, State()) == AdvanceEpoch(suite, old(State()), c)
    {
      var next :- AdvancedEpoch(suite.schedule, epoch.secrets.initSecret, c, epoch.number);
      epoch := next;
      transcriptHash := c.transcriptHash;
      return Ok(());
    }

    method SetCounter(counter: U64) returns (r: Result<()>)
      modifies this`epoch
      ensures (r, State()) == SetMessageCounter(old(State()), counter)
    {
      if counter < epoch.messageCounter {
        return Err(MessageCounterTooOld);
      }
      epoch := epoch.(messageCounter := counter);
      return Ok(());
    }

    method InsertMember(id: Bytes32)
      modifies this`members
      ensures State() == old(State()).(members := old(members) + {id})
    {
      members := members + {id};
    }

    method RemoveMember(id: Bytes32)
      modifies this`members
      ensures State() == old(State()).(members := old(members) - {id})
    {
      members := members - {id};
    }
  }

  // ----- runs of operations

  datatype Op<+K> =
    | EncryptOp(plaintext: Bytes)
    | DecryptOp(message: EncryptedMessage)
    | DecryptWithOp(epochSecret: K, message: EncryptedMessage)
    | AdvanceOp(commit: Commit)
    | SetCounterOp(counter: U64)
    | InsertMemberOp(id: Bytes32)
    | RemoveMemberOp(id: Bytes32)

  datatype Output = Sealed(message: Result<EncryptedMessage>) | Opened(plaintext: Result<Bytes>) | Done(outcome: Result<()>)

  function Step<K, N>(suite: Suite<K, N>, s: SessionState<K>, op: Op<K>): (Output, SessionState<K>) {
    match op
    case EncryptOp(p) => var (r, s') := Encrypt(suite, s, p); (Sealed(r), s')
    case DecryptOp(m) => (Opened(Decrypt(suite, s, m)), s)
    case DecryptWithOp(e, m) => (Opened(DecryptWithEpochSecret(suite, s, e, m)), s)
    case AdvanceOp(c) => var (r, s') := AdvanceEpoch(suite, s, c); (Done(r), s')
    case SetCounterOp(n) => var (r, s') := SetMessageCounter(s, n); (Done(r), s')
    case InsertMemberOp(id) => (Done(Ok(())), s.(members := s.members + {id}))
    case RemoveMemberOp(id) => (Done(Ok(())), s.(members := s.members - {id}))
  }

  function Run<K, N>(suite: Suite<K, N>, s: SessionState<K>, ops: seq<Op<K>>): (seq<Output>, SessionState<K>)
    decreases |ops|
  {
    if ops == [] then ([], s)
    else
      var (o, s') := Step(suite, s, ops[0]);
      var (os, s'') := Run(suite, s', ops[1..]);
      ([o] + os, s'')
  }

  /** The checked restore succeeds exactly when the blob is not below the watermark, and then
      stands at the blob's own epoch and counter. */
  lemma CheckedRestoreExact<K, N>(suite: Suite<K, N>, w: Watermark, b: Blob<K>)
    ensures var r := RestoreSessionChecked(suite, w, b);
            if Below(b.epochNumber, b.messageCounter, w.epochNumber, w.messageCounter) then r == Err(MessageCounterTooOld)
            else r.Ok? && Serialise(r.value) == b
  {}

  /** What the three ways in start from, as it would be saved: a created group at leaf 0, epoch 0 and
      counter 0 with a zero transcript; a joined one likewise at its own leaf; a raw restore at the
      blob with its counter forgotten. */
  lemma SessionsStartAt<K, N>(suite: Suite<K, N>, groupId: Bytes32, userId: Bytes32, leaf: U32, initialMembers: U32,
                              epochSecret: K, transcriptHash: Bytes32, b: Blob<K>)
    ensures var c := CreateGroup(suite, groupId, userId, initialMembers, epochSecret);
            if initialMembers == 0 then c == Err(InvalidGroupSize)
            else c.Ok? && c.value.members == {userId}
                 && Serialise(c.value) == Blob(groupId, userId, 0, epochSecret, seq(32, _ => 0), 0, 0)
    ensures var j := JoinGroup(suite, groupId, userId, leaf, epochSecret, transcriptHash);
            Serialise(j) == Blob(groupId, userId, leaf, epochSecret, transcriptHash, 0, 0) && j.members == {userId}
    ensures var r := RestoreSession(suite, b);
            Serialise(r) == b.(messageCounter := 0) && r.members == {b.userId}
  {}

  /** Encryption, exactly. An oversize plaintext is refused and the last counter aborts, and both
      leave the state alone. Otherwise the counter is spent, whether or not the cipher seals. */
  lemma EncryptExact<K, N>(suite: Suite<K, N>, s: SessionState<K>, plaintext: Bytes)
    ensures var (r, s') := Encrypt(suite, s, plaintext);
            if |plaintext| > MAX_MESSAGE_SIZE then r == Err(MessageTooLarge) && s' == s
            else if s.epoch.messageCounter == U64_MAX then r == Err(Panicked) && s' == s
            else
              && s' == s.(epoch := s'.epoch) && s'.epoch == s.epoch.(messageCounter := s.epoch.messageCounter + 1)
              && (r.Err? ==> r.error == DecryptionFailed)
              && (r.Ok? ==> r.value.epoch == s.epoch.number && r.value.senderLeaf == s.leaf && r.value.counter == s.epoch.messageCounter)
  {}

  /** Over a cipher that seals every admissible plaintext, and short of the last counter, exactly the
      plaintexts of at most the limit are sealed. */
  lemma SealedIffAdmissible<K(!new), N(!new)>(suite: Suite<K, N>, s: SessionState<K>, plaintext: Bytes)
    requires SealsUpTo(suite.aead, MAX_MESSAGE_SIZE) && s.epoch.messageCounter < U64_MAX
    ensures Encrypt(suite, s, plaintext).0.Ok? <==> |plaintext| <= MAX_MESSAGE_SIZE
    ensures |plaintext| > MAX_MESSAGE_SIZE ==> Encrypt(suite, s, plaintext) == (Err(MessageTooLarge), s)
  {
    var counter := s.epoch.messageCounter;
    var key := DeriveMessageKey(suite.schedule, s.epoch.secrets, s.leaf, counter);
    assert |plaintext| <= MAX_MESSAGE_SIZE ==>
      suite.aead.seal(key.key, key.nonce, plaintext, Aad(s.groupId, s.epoch.number, s.leaf, counter)).Some?;
  }

  /** Advancing, exactly: the last epoch aborts and changes nothing; any other moves to the next
      number with a fresh counter, both transcript hashes and all secrets from the commit, and
      leaves identity and members alone. */
  lemma AdvanceExact<K, N>(suite: Suite<K, N>, s: SessionState<K>, c: Commit)
    ensures var (r, s') := AdvanceEpoch(suite, s, c);
            if s.epoch.number == U64_MAX then r == Err(Panicked) && s' == s
            else
              && r.Ok? && Coherent(suite, s') && s'.members == s.members
              && Serialise(s') == Blob(s.groupId, s.userId, s.leaf,
                                       suite.schedule.epochSecret(s.epoch.secrets.initSecret, c.deltaRoot, c.transcriptHash),
                                       c.transcriptHash, s.epoch.number + 1, 0)
  {}

  /** Symbolically, the four secrets of an epoch are pairwise distinct. */
  lemma SymbolicEpochSecretsDistinct(e: Term)
    ensures var s := DeriveSecrets(SymbolicSchedule(), e);
            && s.epochSecret == e
            && s.appSecret != s.confKey && s.appSecret != s.initSecret && s.confKey != s.initSecret
            && e != s.appSecret && e != s.confKey && e != s.initSecret
  {
    assert TermSize(AppTerm(e)) > TermSize(e) && TermSize(ConfTerm(e)) > TermSize(e) && TermSize(InitTerm(e)) > TermSize(e);
  }

  /** On bytes, two equal derived secrets are a BLAKE3 collision under two distinct contexts. */
  lemma EpochSecretsSeparate(h: Blake3, e: Bytes32)
    ensures var s := DeriveSecrets(Blake3Schedule(h), e);
            && (s.appSecret == s.confKey ==> DeriveKeyCollision(h, APP_SECRET_CONTEXT, e, CONF_KEY_CONTEXT, e))
            && (s.appSecret == s.initSecret ==> DeriveKeyCollision(h, APP_SECRET_CONTEXT, e, INIT_SECRET_CONTEXT, e))
            && (s.confKey == s.initSecret ==> DeriveKeyCollision(h, CONF_KEY_CONTEXT, e, INIT_SECRET_CONTEXT, e))
  {
    ContextsDistinct(3, 4);
    ContextsDistinct(3, 5);
    ContextsDistinct(4, 5);
  }

  /** The last operation of a run that touched a member: `true` for an insertion. */
  function LastTouch<K>(ops: seq<Op<K>>, id: Bytes32): Option<bool> {
    if ops == [] then None
    else
      var later := LastTouch(ops[1..], id);
      if later.Some? then later
      else if ops[0].InsertMemberOp? && ops[0].id == id then Some(true)
      else if ops[0].RemoveMemberOp? && ops[0].id == id then Some(false)
      else None
  }

  /** Who is known as a member after a run: whoever was last inserted rather than removed, or was
      known before and never touched. */
  lemma {:induction false} RunTracksMembers<K, N>(suite: Suite<K, N>, s: SessionState<K>, ops: seq<Op<K>>, id: Bytes32)
    ensures id in Run(suite, s, ops).1.members <==>
      LastTouch(ops, id) == Some(true) || (LastTouch(ops, id).None? && id in s.members)
    decreases |ops|
  {
    if ops == [] {
    } else {
      RunTracksMembers(suite, Step(suite, s, ops[0]).1, ops[1..], id);
    }
  }

  // ----- what a message is bound to

  /** The associated data determines group, epoch, sender and counter. */
  lemma AadInjective(groupId: Bytes32, epoch: U64, leaf: U32, counter: U64, groupId': Bytes32, epoch': U64, leaf': U32, counter': U64)
    requires Aad(groupId, epoch, leaf, counter) == Aad(groupId', epoch', leaf', counter')
    ensures (groupId, epoch, leaf, counter) == (groupId', epoch', leaf', counter')
  {
    SplitEqual(groupId + Le64(epoch) + Le32(leaf), Le64(counter), groupId' + Le64(epoch') + Le32(leaf'), Le64(counter'));
    SplitEqual(groupId + Le64(epoch), Le32(leaf), groupId' + Le64(epoch'), Le32(leaf'));
    SplitEqual(groupId, Le64(epoch), groupId', Le64(epoch'));
    Le64Injective(epoch, epoch');
    Le32Injective(leaf, leaf');
    Le64Injective(counter, counter');
  }

  /** Where the fields of the associated data lie. */
  lemma AadLayout(groupId: Bytes32, epoch: U64, leaf: U32, counter: U64)
    ensures var b := Aad(groupId, epoch, leaf, counter);
            b[..32] == groupId && b[32..40] == Le64(epoch) && b[40..44] == Le32(leaf) && b[44..] == Le64(counter)
  {}

  /** One ciphertext opens in one group under one header, whatever the secrets, or the cipher opens
      it under two associated data. */
  lemma HeaderIsBound<K, N>(suite: Suite<K, N>, groupId: Bytes32, secrets: EpochSecrets<K>, m: EncryptedMessage,
                            groupId': Bytes32, secrets': EpochSecrets<K>, m': EncryptedMessage)
    requires m.ciphertext == m'.ciphertext
    requires OpenWith(suite, groupId, secrets, m).Ok? && OpenWith(suite, groupId', secrets', m').Ok?
    ensures
      var (k, k') := (DeriveMessageKey(suite.schedule, secrets, m.senderLeaf, m.counter),
                      DeriveMessageKey(suite.schedule, secrets', m'.senderLeaf, m'.counter));
      || (groupId == groupId' && m == m')
      || OpensTwice(suite.aead, k.key, k.nonce, Aad(groupId, m.epoch, m.senderLeaf, m.counter),
                    k'.key, k'.nonce, Aad(groupId', m'.epoch, m'.senderLeaf, m'.counter), m.ciphertext)
  {
    if Aad(groupId, m.epoch, m.senderLeaf, m.counter) == Aad(groupId', m'.epoch, m'.senderLeaf, m'.counter) {
      AadInjective(groupId, m.epoch, m.senderLeaf, m.counter, groupId', m'.epoch, m'.senderLeaf, m'.counter);
    }
  }

  /** What decryption refuses before the cipher decides: too large, then another epoch, then shorter
      than a tag. Whatever passes is the cipher's own answer. */
  lemma DecryptRefuses<K, N>(suite: Suite<K, N>, s: SessionState<K>, m: EncryptedMessage, epochSecret: K)
    ensures |m.ciphertext| > MAX_MESSAGE_SIZE ==> Decrypt(suite, s, m) == Err(MessageTooLarge)
    ensures |m.ciphertext| <= MAX_MESSAGE_SIZE && m.epoch != s.epoch.number ==>
              Decrypt(suite, s, m) == Err(EpochMismatch(s.epoch.number, m.epoch))
    ensures m.epoch == s.epoch.number && |m.ciphertext| < TAG_SIZE ==> Decrypt(suite, s, m) == Err(InvalidCiphertext)
    ensures m.epoch == s.epoch.number && TAG_SIZE <= |m.ciphertext| <= MAX_MESSAGE_SIZE ==>
              Decrypt(suite, s, m).Ok? || Decrypt(suite, s, m) == Err(AeadAuthenticationFailed)
    ensures |m.ciphertext| > MAX_MESSAGE_SIZE ==> DecryptWithEpochSecret(suite, s, epochSecret, m) == Err(MessageTooLarge)
  {}

  // ----- the session invariant

  /** The session's transcript hash is the epoch's, and all four secrets come from the epoch secret. */
  predicate Coherent<K(==), N>(suite: Suite<K, N>, s: SessionState<K>) {
    && s.transcriptHash == s.epoch.transcriptHash
    && s.epoch.secrets == DeriveSecrets(suite.schedule, s.epoch.secrets.epochSecret)
  }

  lemma {:induction false} RunKeepsCoherence<K, N>(suite: Suite<K, N>, s: SessionState<K>, ops: seq<Op<K>>)
    requires Coherent(suite, s)
    ensures Coherent(suite, Run(suite, s, ops).1)
    decreases |ops|
  {
    if ops == [] {
    } else {
      RunKeepsCoherence(suite, Step(suite, s, ops[0]).1, ops[1..]);
    }
  }

  /** Every session the library hands out is coherent, and stays so through every run. */
  lemma ReachableIsCoherent<K, N>(suite: Suite<K, N>, groupId: Bytes32, userId: Bytes32, leaf: U32, initialMembers: U32,
                                  epochSecret: K, transcriptHash: Bytes32, b: Blob<K>, ops: seq<Op<K>>)
    ensures var c := CreateGroup(suite, groupId, userId, initialMembers, epochSecret);
            c.Ok? ==> Coherent(suite, Run(suite, c.value, ops).1)
    ensures Coherent(suite, Run(suite, JoinGroup(suite, groupId, userId, leaf, epochSecret, transcriptHash), ops).1)
    ensures Coherent(suite, Run(suite, RestoreSession(suite, b), ops).1)
  {
    var c := CreateGroup(suite, groupId, userId, initialMembers, epochSecret);
    if c.Ok? {
      RunKeepsCoherence(suite, c.value, ops);
    }
    RunKeepsCoherence(suite, JoinGroup(suite, groupId, userId, leaf, epochSecret, transcriptHash), ops);
    RunKeepsCoherence(suite, RestoreSession(suite, b), ops);
  }

  // ----- restore is a bisimulation

  /** Restoring a session from its own blob and setting its counter forward. */
  function Reload<K, N>(suite: Suite<K, N>, s: SessionState<K>): (Result<()>, SessionState<K>) {
    SetMessageCounter(RestoreSession(suite, Serialise(s)), s.epoch.messageCounter)
  }

  /** Equal up to the registry of known members, which the blob does not carry. */
  predicate SameButMembers<K(==)>(s: SessionState<K>, t: SessionState<K>) {
    s == t.(members := s.members)
  }

  lemma {:induction false} RunsAgree<K, N>(suite: Suite<K, N>, s: SessionState<K>, t: SessionState<K>, ops: seq<Op<K>>)
    requires SameButMembers(s, t)
    ensures Run(suite, s, ops).0 == Run(suite, t, ops).0
    ensures SameButMembers(Run(suite, s, ops).1, Run(suite, t, ops).1)
    decreases |ops|
  {
    if ops == [] {
    } else {
      RunsAgree(suite, Step(suite, s, ops[0]).1, Step(suite, t, ops[0]).1, ops[1..]);
    }
  }

  /** A reloaded session answers every later operation sequence exactly as the original would. */
  lemma RestoreIsBisimulation<K, N>(suite: Suite<K, N>, s: SessionState<K>, ops: seq<Op<K>>)
    requires Coherent(suite, s)
    ensures Reload(suite, s).0 == Ok(())
    ensures Run(suite, Reload(suite, s).1, ops).0 == Run(suite, s, ops).0
    ensures SameButMembers(Run(suite, Reload(suite, s).1, ops).1, Run(suite, s, ops).1)
  {
    RunsAgree(suite, Reload(suite, s).1, s, ops);
  }

  /** The original and the reloaded session are indistinguishable only if coherence held: an
      incoherent session reloads to a different one. */
  lemma CoherenceIsNeeded<K, N>(suite: Suite<K, N>, s: SessionState<K>)
    ensures SameButMembers(Reload(suite, s).1, s) <==> Coherent(suite, s)
  {}

  // ----- several advances

  /** `n` epochs further, each by the commit `c`. */
  function AdvancedBy<K, N>(suite: Suite<K, N>, s: SessionState<K>, c: Commit, n: nat): SessionState<K>
    decreases n
  {
    if n == 0 then s else AdvancedBy(suite, AdvanceEpoch(suite, s, c).1, c, n - 1)
  }

  lemma {:induction false} AdvancedByPosition<K, N>(suite: Suite<K, N>, s: SessionState<K>, c: Commit, n: nat)
    requires s.epoch.number + n <= U64_MAX
    ensures var t := AdvancedBy(suite, s, c, n).epoch;
            t.number == s.epoch.number + n && t.messageCounter == if n == 0 then s.epoch.messageCounter else 0
    decreases n
  {
    if n == 0 {
    } else {
      AdvancedByPosition(suite, AdvanceEpoch(suite, s, c).1, c, n - 1);
    }
  }

  // ----- lockstep members

  /** What two members in lockstep share. */
  datatype Position<+K> = Position(number: U64, secrets: EpochSecrets<K>)

  function PositionOf<K>(s: SessionState<K>): Position<K> {
    Position(s.epoch.number, s.epoch.secrets)
  }

  function AdvancePosition<K, N>(suite: Suite<K, N>, p: Position<K>, c: Commit): Position<K> {
    match AdvancedEpoch(suite.schedule, p.secrets.initSecret, c, p.number)
    case Err(_) => p
    case Ok(e) => Position(e.number, e.secrets)
  }

  function FoldCommits<K, N>(suite: Suite<K, N>, p: Position<K>, commits: seq<Commit>): Position<K>
    decreases |commits|
  {
    if commits == [] then p else FoldCommits(suite, AdvancePosition(suite, p, commits[0]), commits[1..])
  }

  function CommitsOf<K>(ops: seq<Op<K>>): seq<Commit> {
    if ops == [] then []
    else (if ops[0].AdvanceOp? then [ops[0].commit] else []) + CommitsOf(ops[1..])
  }

  /** Only an epoch advance moves the position, and nothing moves the group id or the leaf. */
  lemma StepFollowsCommit<K, N>(suite: Suite<K, N>, s: SessionState<K>, op: Op<K>)
    ensures var s' := Step(suite, s, op).1;
            && PositionOf(s') == (if op.AdvanceOp? then AdvancePosition(suite, PositionOf(s), op.commit) else PositionOf(s))
            && s'.groupId == s.groupId && s'.leaf == s.leaf
  {}

  /** Whatever is interleaved, the position after a run depends on the commits alone. */
  lemma {:induction false} RunFollowsCommits<K, N>(suite: Suite<K, N>, s: SessionState<K>, ops: seq<Op<K>>)
    ensures PositionOf(Run(suite, s, ops).1) == FoldCommits(suite, PositionOf(s), CommitsOf(ops))
    ensures Run(suite, s, ops).1.groupId == s.groupId && Run(suite, s, ops).1.leaf == s.leaf
    decreases |ops|
  {
    if ops == [] {
    } else {
      var s' := Step(suite, s, ops[0]).1;
      StepFollowsCommit(suite, s, ops[0]);
      RunFollowsCommits(suite, s', ops[1..]);
      var rest := CommitsOf(ops[1..]);
      if ops[0].AdvanceOp? {
        assert CommitsOf(ops) == [ops[0].commit] + rest;
        assert CommitsOf(ops)[1..] == rest;
      } else {
        assert CommitsOf(ops) == rest;
      }
    }
  }

  /** What the receiver gets: the plaintext, unless the tag pushed the ciphertext over the gate. */
  function Delivered(plaintext: Bytes): Result<Bytes> {
    if |plaintext| + TAG_SIZE <= MAX_MESSAGE_SIZE then Ok(plaintext) else Err(MessageTooLarge)
  }

  /** A message sealed at a position opens under the secrets of that position. */
  lemma SealedOpens<K(!new), N(!new)>(suite: Suite<K, N>, s: SessionState<K>, plaintext: Bytes)
    requires AeadCorrect(suite.aead)
    requires Encrypt(suite, s, plaintext).0.Ok?
    ensures var m := Encrypt(suite, s, plaintext).0.value;
            && |m.ciphertext| == |plaintext| + TAG_SIZE <= U32_MAX
            && m.epoch == s.epoch.number
            && OpenWith(suite, s.groupId, s.epoch.secrets, m) == Ok(plaintext)
  {}

  lemma WireKeepsMessage(w: UsizeWidth, m: EncryptedMessage)
    requires |m.ciphertext| <= U32_MAX && |m.ToBytes()| < w.Limit()
    ensures GroupMessage.FromBytes(w, m.ToBytes()) == Ok(m)
  {
    ParsesExactlyPrinted(w, m.ToBytes(), m);
  }

  /** Two members that start together and apply the same commits, with anything interleaved,
      read each other's current messages off the wire; the only messages lost are those within
      one tag of the size limit, which encryption accepts and decryption refuses. */
  lemma LockstepMembersDecrypt<K(!new), N(!new)>(suite: Suite<K, N>, w: UsizeWidth, a: SessionState<K>, b: SessionState<K>,
                                     opsA: seq<Op<K>>, opsB: seq<Op<K>>, plaintext: Bytes)
    requires AeadCorrect(suite.aead)
    requires a.groupId == b.groupId && PositionOf(a) == PositionOf(b)
    requires CommitsOf(opsA) == CommitsOf(opsB)
    ensures
      var (sA, sB) := (Run(suite, a, opsA).1, Run(suite, b, opsB).1);
      var sealed := Encrypt(suite, sA, plaintext).0;
      sealed.Ok? ==>
        && |sealed.value.ToBytes()| < w.Limit()
        && GroupMessage.FromBytes(w, sealed.value.ToBytes()) == Ok(sealed.value)
        && Decrypt(suite, sB, sealed.value) == Delivered(plaintext)
  {
    var (sA, sB) := (Run(suite, a, opsA).1, Run(suite, b, opsB).1);
    RunFollowsCommits(suite, a, opsA);
    RunFollowsCommits(suite, b, opsB);
    var sealed := Encrypt(suite, sA, plaintext).0;
    if sealed.Ok? {
      SealedOpens(suite, sA, plaintext);
      WireKeepsMessage(w, sealed.value);
      assert sB.epoch.secrets == PositionOf(sB).secrets == PositionOf(sA).secrets == sA.epoch.secrets;
    }
  }

  /** Nothing admissible is refused: over a cipher that seals what it should, every plaintext that
      leaves room for the tag is sealed and delivered, at any counter but the last. */
  lemma LockstepMembersDeliver<K(!new), N(!new)>(suite: Suite<K, N>, w: UsizeWidth, a: SessionState<K>, b: SessionState<K>,
                                     opsA: seq<Op<K>>, opsB: seq<Op<K>>, plaintext: Bytes)
    requires AeadCorrect(suite.aead) && SealsUpTo(suite.aead, MAX_MESSAGE_SIZE)
    requires a.groupId == b.groupId && PositionOf(a) == PositionOf(b)
    requires CommitsOf(opsA) == CommitsOf(opsB)
    requires Run(suite, a, opsA).1.epoch.messageCounter < U64_MAX && |plaintext| <= MAX_MESSAGE_SIZE - TAG_SIZE
    ensures
      var (sA, sB) := (Run(suite, a, opsA).1, Run(suite, b, opsB).1);
      var sealed := Encrypt(suite, sA, plaintext).0;
      && sealed.Ok?
      && GroupMessage.FromBytes(w, sealed.value.ToBytes()) == Ok(sealed.value)
      && Decrypt(suite, sB, sealed.value) == Ok(plaintext)
  {
    SealedIffAdmissible(suite, Run(suite, a, opsA).1, plaintext);
    LockstepMembersDecrypt(suite, w, a, b, opsA, opsB, plaintext);
  }

  /** A receiver at any other epoch refuses the message, and says both epochs. */
  lemma OtherEpochsRefuse<K(!new), N(!new)>(suite: Suite<K, N>, s: SessionState<K>, t: SessionState<K>, plaintext: Bytes)
    requires AeadCorrect(suite.aead) && |plaintext| <= MAX_MESSAGE_SIZE - TAG_SIZE
    requires s.epoch.number != t.epoch.number && Encrypt(suite, s, plaintext).0.Ok?
    ensures Decrypt(suite, t, Encrypt(suite, s, plaintext).0.value) == Err(EpochMismatch(t.epoch.number, s.epoch.number))
  {
    SealedOpens(suite, s, plaintext);
  }

  /** The gap is real: over a cipher that never fails, each of the sixteen largest lengths that
      encryption accepts is sealed, and refused by every member in the sender's epoch. */
  lemma LargestMessagesAreLost<K(!new), N(!new)>(sch: Schedule<K, N>, s: SessionState<K>, t: SessionState<K>, plaintext: Bytes)
    requires MAX_MESSAGE_SIZE - TAG_SIZE < |plaintext| <= MAX_MESSAGE_SIZE && s.epoch.messageCounter < U64_MAX
    ensures var suite := Suite(sch, PaddingAead());
            var sealed := Encrypt(suite, s, plaintext).0;
            && AeadCorrect(suite.aead)
            && sealed.Ok?
            && Decrypt(suite, t, sealed.value) == Err(MessageTooLarge)
            && DecryptWithEpochSecret(suite, t, s.epoch.secrets.epochSecret, sealed.value) == Err(MessageTooLarge)
  {
    AeadHypothesesConsistent<K, N>();
  }

  /** A receiver that kept its own epoch secret from the time of sending still reads the message
      after any further run, through the history entry point. */
  lemma SavedSecretDecryptsHistory<K(!new), N(!new)>(suite: Suite<K, N>, a: SessionState<K>, b: SessionState<K>,
                                         opsA: seq<Op<K>>, opsB: seq<Op<K>>, later: seq<Op<K>>, plaintext: Bytes)
    requires AeadCorrect(suite.aead)
    requires Coherent(suite, b)
    requires a.groupId == b.groupId && PositionOf(a) == PositionOf(b)
    requires CommitsOf(opsA) == CommitsOf(opsB)
    ensures
      var (sA, sB) := (Run(suite, a, opsA).1, Run(suite, b, opsB).1);
      var saved := sB.epoch.secrets.epochSecret;
      var sealed := Encrypt(suite, sA, plaintext).0;
      && (sealed.Ok? ==> DecryptWithEpochSecret(suite, Run(suite, sB, later).1, saved, sealed.value) == Delivered(plaintext))
      && (SealsUpTo(suite.aead, MAX_MESSAGE_SIZE) && sA.epoch.messageCounter < U64_MAX ==>
            (sealed.Ok? <==> |plaintext| <= MAX_MESSAGE_SIZE))
  {
    var (sA, sB) := (Run(suite, a, opsA).1, Run(suite, b, opsB).1);
    RunFollowsCommits(suite, a, opsA);
    RunFollowsCommits(suite, b, opsB);
    RunFollowsCommits(suite, sB, later);
    RunKeepsCoherence(suite, b, opsB);
    if SealsUpTo(suite.aead, MAX_MESSAGE_SIZE) && sA.epoch.messageCounter < U64_MAX {
      SealedIffAdmissible(suite, sA, plaintext);
    }
    if Encrypt(suite, sA, plaintext).0.Ok? {
      SealedOpens(suite, sA, plaintext);
      assert sB.epoch.secrets == PositionOf(sB).secrets == PositionOf(sA).secrets == sA.epoch.secrets;
    }
  }
}
