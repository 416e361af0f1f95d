/** The CoCoA epoch key schedule: the H5/init chain of epoch secrets and the per-sender message
    keys. The schedule is a record over a key type, with two instances: the BLAKE3 one on bytes,
    which the library runs, and a symbolic one in which every derivation is a free constructor. */
module KeySchedule {
  import opened Octets
  import opened Primitives

  const H1_CONTEXT := "cocoa-sa-seed-derive-v1"
  const H5_CONTEXT := "cocoa-sa-epoch-secret-v1"
  const ROUND_HASH_CONTEXT := "cocoa-sa-round-hash-v1"
  const APP_SECRET_CONTEXT := "cocoa-sa-app-secret-v1"
  const CONF_KEY_CONTEXT := "cocoa-sa-conf-key-v1"
  const INIT_SECRET_CONTEXT := "cocoa-sa-init-secret-v1"
  const MESSAGE_KEY_CONTEXT := "cocoa-sa-message-key-v1"
  const MESSAGE_NONCE_CONTEXT := "cocoa-sa-message-nonce-v1"

  datatype Schedule<!K, !N> = Schedule(
    epochSecret: (K, Bytes32, Bytes32) -> K,
    appSecret: K -> K,
    confKey: K -> K,
    initSecret: K -> K,
    messageKey: (K, U32, U64) -> K,
    messageNonce: (K, U32, U64) -> N)

  /** One commit: the root seed and the transcript hash that enter H5. */
  datatype Commit = Commit(deltaRoot: Bytes32, transcriptHash: Bytes32)

  // ----- the two instances

  /** `app_secret || leaf || counter`, the preimage of message keys and nonces. */
  function MessagePreimage(app: Bytes32, leaf: U32, counter: U64): (b: Bytes)
    ensures |b| == 44
  {
    app + Le32(leaf) + Le64(counter)
  }

  function EpochPreimage(init: Bytes32, delta: Bytes32, transcript: Bytes32): (b: Bytes)
    ensures |b| == 96
  {
    init + delta + transcript
  }

  function First24(b: Bytes32): Bytes24 { b[..24] }

  function Blake3Schedule(h: Blake3): Schedule<Bytes32, Bytes24> {
    Schedule(
      (init, delta, transcript) => h.deriveKey(H5_CONTEXT, EpochPreimage(init, delta, transcript)),
      e => h.deriveKey(APP_SECRET_CONTEXT, e),
      e => h.deriveKey(CONF_KEY_CONTEXT, e),
      e => h.deriveKey(INIT_SECRET_CONTEXT, e),
      (app, leaf, counter) => h.deriveKey(MESSAGE_KEY_CONTEXT, MessagePreimage(app, leaf, counter)),
      (app, leaf, counter) => First24(h.deriveKey(MESSAGE_NONCE_CONTEXT, MessagePreimage(app, leaf, counter))))
  }

  datatype Term =
    | Seed(id: nat)
    | EpochTerm(init: Term, delta: Bytes32, transcript: Bytes32)
    | AppTerm(epoch: Term)
    | ConfTerm(epoch: Term)
    | InitTerm(epoch: Term)
    | KeyTerm(app: Term, leaf: U32, counter: U64)
    | NonceTerm(app: Term, leaf: U32, counter: U64)

  function SymbolicSchedule(): Schedule<Term, Term> {
    Schedule(
      (init, delta, transcript) => EpochTerm(init, delta, transcript),
      e => AppTerm(e),
      e => ConfTerm(e),
      e => InitTerm(e),
      (app, leaf, counter) => KeyTerm(app, leaf, counter),
      (app, leaf, counter) => NonceTerm(app, leaf, counter))
  }

  /** The 44-byte layout is injective, so distinct senders or counters never share a preimage. */
  lemma MessagePreimageInjective(app: Bytes32, leaf: U32, counter: U64, app': Bytes32, leaf': U32, counter': U64)
    requires MessagePreimage(app, leaf, counter) == MessagePreimage(app', leaf', counter')
    ensures app == app' && leaf == leaf' && counter == counter'
  {
    SplitEqual(app + Le32(leaf), Le64(counter), app' + Le32(leaf'), Le64(counter'));
    SplitEqual(app, Le32(leaf), app', Le32(leaf'));
    Le32Injective(leaf, leaf');
    Le64Injective(counter, counter');
  }

  lemma EpochPreimageInjective(i: Bytes32, d: Bytes32, t: Bytes32, i': Bytes32, d': Bytes32, t': Bytes32)
    requires EpochPreimage(i, d, t) == EpochPreimage(i', d', t')
    ensures i == i' && d == d' && t == t'
  {
    SplitEqual(i + d, t, i' + d', t');
    SplitEqual(i, d, i', d');
  }

  // ----- the epoch chain

  /** The epoch secret after `n` commits, starting from `first`. */
  function Chain<K, N>(s: Schedule<K, N>, first: K, commits: nat -> Commit, n: nat): K {
    if n == 0 then first
    else
      var c := commits(n - 1);
      s.epochSecret(s.initSecret(Chain(s, first, commits, n - 1)), c.deltaRoot, c.transcriptHash)
  }

  /** The key that the sender at `leaf` uses in epoch `n` for message `counter`. */
  function KeyAt<K, N>(s: Schedule<K, N>, first: K, commits: nat -> Commit, n: nat, leaf: U32, counter: U64): K {
    s.messageKey(s.appSecret(Chain(s, first, commits, n)), leaf, counter)
  }

  /** Links `i` and `j` of the chain feed two distinct inputs to one derivation that maps them
      to one output. */
  ghost predicate LinkCollision<K, N>(s: Schedule<K, N>, first: K, commits: nat -> Commit, i: nat, j: nat) {
    var e, f := Chain(s, first, commits, i), Chain(s, first, commits, j);
    || (e != f && s.appSecret(e) == s.appSecret(f))
    || (e != f && s.initSecret(e) == s.initSecret(f))
    || ((s.initSecret(e), commits(i)) != (s.initSecret(f), commits(j))
        && Chain(s, first, commits, i + 1) == Chain(s, first, commits, j + 1))
  }

  /** The chain meets its own first secret again. */
  ghost predicate Returns<K, N>(s: Schedule<K, N>, first: K, commits: nat -> Commit, i: nat) {
    0 < i && Chain(s, first, commits, i) == first
  }

  ghost predicate ChainFault<K, N>(s: Schedule<K, N>, first: K, commits: nat -> Commit, bound: nat) {
    || (exists i :: 0 <= i <= bound && Returns(s, first, commits, i))
    || (exists i, j :: 0 <= i < j <= bound && LinkCollision(s, first, commits, i, j))
  }

  lemma ChainFaultMonotone<K, N>(s: Schedule<K, N>, first: K, commits: nat -> Commit, m: nat, n: nat)
    requires m <= n && ChainFault(s, first, commits, m)
    ensures ChainFault(s, first, commits, n)
  {
    if i :| 0 <= i <= m && Returns(s, first, commits, i) {
      assert i <= n;
    } else {
      var i, j :| 0 <= i < j <= m && LinkCollision(s, first, commits, i, j);
      assert j <= n;
    }
  }

  /** Two epochs share a secret only if a derivation collides on the chain's own inputs, or the
      chain comes back to where it started. */
  lemma {:induction false} EpochSecretsDistinct<K, N>(s: Schedule<K, N>, first: K, commits: nat -> Commit, i: nat, j: nat)
    requires i < j
    ensures Chain(s, first, commits, i) != Chain(s, first, commits, j) || ChainFault(s, first, commits, j)
    decreases i
  {
    if Chain(s, first, commits, i) == Chain(s, first, commits, j) {
      if i == 0 {
        assert Returns(s, first, commits, j);
      } else if LinkCollision(s, first, commits, i - 1, j - 1) {
      } else {
        EpochSecretsDistinct(s, first, commits, i - 1, j - 1);
        ChainFaultMonotone(s, first, commits, j - 1, j);
      }
    }
  }

  /** Two distinct inputs of the message-key derivation with one output. */
  predicate MessageKeyCollision<K(==), N>(s: Schedule<K, N>, app: K, leaf: U32, counter: U64,
                                          app': K, leaf': U32, counter': U64)
  {
    (app, leaf, counter) != (app', leaf', counter') && s.messageKey(app, leaf, counter) == s.messageKey(app', leaf', counter')
  }

  /** Over all epochs, senders and counters of a group in lockstep, two messages share a key only
      if the message-key derivation collides on their inputs or the epoch chain is faulty. */
  lemma MessageKeysDistinct<K, N>(s: Schedule<K, N>, first: K, commits: nat -> Commit,
                                  n: nat, leaf: U32, counter: U64, n': nat, leaf': U32, counter': U64)
    requires (n, leaf, counter) != (n', leaf', counter')
    requires KeyAt(s, first, commits, n, leaf, counter) == KeyAt(s, first, commits, n', leaf', counter')
    ensures
      || MessageKeyCollision(s, s.appSecret(Chain(s, first, commits, n)), leaf, counter,
                             s.appSecret(Chain(s, first, commits, n')), leaf', counter')
      || ChainFault(s, first, commits, if n < n' then n' else n)
  {
    var e, e' := Chain(s, first, commits, n), Chain(s, first, commits, n');
    if s.appSecret(e) == s.appSecret(e') && leaf == leaf' && counter == counter' {
      var lo, hi := if n < n' then n else n', if n < n' then n' else n;
      EpochSecretsDistinct(s, first, commits, lo, hi);
      if e != e' {
        assert LinkCollision(s, first, commits, lo, hi);
      }
    }
  }

  /** The nonce that goes with `KeyAt`. */
  function NonceAt<K, N>(s: Schedule<K, N>, first: K, commits: nat -> Commit, n: nat, leaf: U32, counter: U64): N {
    s.messageNonce(s.appSecret(Chain(s, first, commits, n)), leaf, counter)
  }

  predicate MessageNonceCollision<K(==), N(==)>(s: Schedule<K, N>, app: K, leaf: U32, counter: U64,
                                                app': K, leaf': U32, counter': U64)
  {
    (app, leaf, counter) != (app', leaf', counter') && s.messageNonce(app, leaf, counter) == s.messageNonce(app', leaf', counter')
  }

  /** Nonces repeat only if the nonce derivation collides on its inputs or the chain is faulty. */
  lemma MessageNoncesDistinct<K, N>(s: Schedule<K, N>, first: K, commits: nat -> Commit,
                                    n: nat, leaf: U32, counter: U64, n': nat, leaf': U32, counter': U64)
    requires (n, leaf, counter) != (n', leaf', counter')
    requires NonceAt(s, first, commits, n, leaf, counter) == NonceAt(s, first, commits, n', leaf', counter')
    ensures
      || MessageNonceCollision(s, s.appSecret(Chain(s, first, commits, n)), leaf, counter,
                               s.appSecret(Chain(s, first, commits, n')), leaf', counter')
      || ChainFault(s, first, commits, if n < n' then n' else n)
  {
    var e, e' := Chain(s, first, commits, n), Chain(s, first, commits, n');
    if s.appSecret(e) == s.appSecret(e') && leaf == leaf' && counter == counter' {
      var lo, hi := if n < n' then n else n', if n < n' then n' else n;
      EpochSecretsDistinct(s, first, commits, lo, hi);
      if e != e' {
        assert LinkCollision(s, first, commits, lo, hi);
      }
    }
  }

  // ----- what the results mean for each instance

  function TermSize(t: Term): nat {
    match t
    case Seed(_) => 0
    case EpochTerm(i, _, _) => 1 + TermSize(i)
    case AppTerm(e) => 1 + TermSize(e)
    case ConfTerm(e) => 1 + TermSize(e)
    case InitTerm(e) => 1 + TermSize(e)
    case KeyTerm(a, _, _) => 1 + TermSize(a)
    case NonceTerm(a, _, _) => 1 + TermSize(a)
  }

  lemma {:induction false} SymbolicChainGrows(first: Term, commits: nat -> Commit, n: nat)
    ensures TermSize(Chain(SymbolicSchedule(), first, commits, n)) == TermSize(first) + 2 * n
  {
    if n == 0 {
    } else {
      SymbolicChainGrows(first, commits, n - 1);
    }
  }

  /** In the free algebra the chain never revisits a secret and no derivation collides. */
  lemma SymbolicChainSound(first: Term, commits: nat -> Commit, bound: nat)
    ensures !ChainFault(SymbolicSchedule(), first, commits, bound)
  {
    forall i | 0 <= i <= bound
      ensures !Returns(SymbolicSchedule(), first, commits, i)
    {
      SymbolicChainGrows(first, commits, i);
    }
    forall i, j | 0 <= i < j <= bound
      ensures !LinkCollision(SymbolicSchedule(), first, commits, i, j)
    {}
  }

  /** Symbolically, all message nonces of the group are pairwise distinct, and none is a message key. */
  lemma SymbolicMessageNoncesDistinct(first: Term, commits: nat -> Commit,
                                      n: nat, leaf: U32, counter: U64, n': nat, leaf': U32, counter': U64)
    ensures NonceAt(SymbolicSchedule(), first, commits, n, leaf, counter)
              == NonceAt(SymbolicSchedule(), first, commits, n', leaf', counter')
       <==> (n, leaf, counter) == (n', leaf', counter')
    ensures NonceAt(SymbolicSchedule(), first, commits, n, leaf, counter)
              != KeyAt(SymbolicSchedule(), first, commits, n', leaf', counter')
  {
    if (n, leaf, counter) != (n', leaf', counter')
      && NonceAt(SymbolicSchedule(), first, commits, n, leaf, counter)
           == NonceAt(SymbolicSchedule(), first, commits, n', leaf', counter')
    {
      MessageNoncesDistinct(SymbolicSchedule(), first, commits, n, leaf, counter, n', leaf', counter');
      SymbolicChainSound(first, commits, if n < n' then n' else n);
    }
  }

  /** Symbolically, all message keys of the group are pairwise distinct. */
  lemma SymbolicMessageKeysDistinct(first: Term, commits: nat -> Commit,
                                    n: nat, leaf: U32, counter: U64, n': nat, leaf': U32, counter': U64)
    ensures KeyAt(SymbolicSchedule(), first, commits, n, leaf, counter)
              == KeyAt(SymbolicSchedule(), first, commits, n', leaf', counter')
       <==> (n, leaf, counter) == (n', leaf', counter')
  {
    if (n, leaf, counter) != (n', leaf', counter')
      && KeyAt(SymbolicSchedule(), first, commits, n, leaf, counter)
           == KeyAt(SymbolicSchedule(), first, commits, n', leaf', counter')
    {
      MessageKeysDistinct(SymbolicSchedule(), first, commits, n, leaf, counter, n', leaf', counter');
      SymbolicChainSound(first, commits, if n < n' then n' else n);
    }
  }

  /** BLAKE3 key derivation collides on the preimages of links `i` and `j`, under one context. */
  ghost predicate Blake3LinkCollision(h: Blake3, first: Bytes32, commits: nat -> Commit, i: nat, j: nat) {
    var s := Blake3Schedule(h);
    var e, f := Chain(s, first, commits, i), Chain(s, first, commits, j);
    || DeriveKeyCollision(h, APP_SECRET_CONTEXT, e, APP_SECRET_CONTEXT, f)
    || DeriveKeyCollision(h, INIT_SECRET_CONTEXT, e, INIT_SECRET_CONTEXT, f)
    || DeriveKeyCollision(h,
         H5_CONTEXT, EpochPreimage(s.initSecret(e), commits(i).deltaRoot, commits(i).transcriptHash),
         H5_CONTEXT, EpochPreimage(s.initSecret(f), commits(j).deltaRoot, commits(j).transcriptHash))
  }

  lemma ByteLinkCollision(h: Blake3, first: Bytes32, commits: nat -> Commit, i: nat, j: nat)
    requires LinkCollision(Blake3Schedule(h), first, commits, i, j)
    ensures Blake3LinkCollision(h, first, commits, i, j)
  {
    var s := Blake3Schedule(h);
    var e, f := Chain(s, first, commits, i), Chain(s, first, commits, j);
    var p := EpochPreimage(s.initSecret(e), commits(i).deltaRoot, commits(i).transcriptHash);
    var q := EpochPreimage(s.initSecret(f), commits(j).deltaRoot, commits(j).transcriptHash);
    if p == q {
      EpochPreimageInjective(s.initSecret(e), commits(i).deltaRoot, commits(i).transcriptHash,
                             s.initSecret(f), commits(j).deltaRoot, commits(j).transcriptHash);
    }
  }

  /** A fault of the byte chain is a BLAKE3 collision between two of its links, or a return of the
      chain to its first secret. */
  lemma ByteChainFault(h: Blake3, first: Bytes32, commits: nat -> Commit, bound: nat)
    requires ChainFault(Blake3Schedule(h), first, commits, bound)
    ensures (exists i :: 0 <= i <= bound && Returns(Blake3Schedule(h), first, commits, i))
         || (exists i, j :: 0 <= i < j <= bound && Blake3LinkCollision(h, first, commits, i, j))
  {
    if i, j :| 0 <= i < j <= bound && LinkCollision(Blake3Schedule(h), first, commits, i, j) {
      ByteLinkCollision(h, first, commits, i, j);
    }
  }

  /** A message-key collision of the byte schedule is one of BLAKE3, by injectivity of the layout. */
  lemma ByteMessageKeyCollision(h: Blake3, app: Bytes32, leaf: U32, counter: U64, app': Bytes32, leaf': U32, counter': U64)
    requires MessageKeyCollision(Blake3Schedule(h), app, leaf, counter, app', leaf', counter')
    ensures DeriveKeyCollision(h, MESSAGE_KEY_CONTEXT, MessagePreimage(app, leaf, counter),
                                  MESSAGE_KEY_CONTEXT, MessagePreimage(app', leaf', counter'))
  {
    if MessagePreimage(app, leaf, counter) == MessagePreimage(app', leaf', counter') {
      MessagePreimageInjective(app, leaf, counter, app', leaf', counter');
    }
  }

  /** The 24 bytes of a nonce agree for two distinct preimages. */
  predicate NonceCollision(h: Blake3, x: Bytes, y: Bytes) {
    x != y && h.deriveKey(MESSAGE_NONCE_CONTEXT, x)[..24] == h.deriveKey(MESSAGE_NONCE_CONTEXT, y)[..24]
  }

  /** A nonce collision of the byte schedule is one of truncated BLAKE3 on two distinct preimages. */
  lemma ByteMessageNonceCollision(h: Blake3, app: Bytes32, leaf: U32, counter: U64, app': Bytes32, leaf': U32, counter': U64)
    requires MessageNonceCollision(Blake3Schedule(h), app, leaf, counter, app', leaf', counter')
    ensures NonceCollision(h, MessagePreimage(app, leaf, counter), MessagePreimage(app', leaf', counter'))
  {
    if MessagePreimage(app, leaf, counter) == MessagePreimage(app', leaf', counter') {
      MessagePreimageInjective(app, leaf, counter, app', leaf', counter');
    }
  }

  /** No two derivations of the schedule share a context. */
  lemma ContextsDistinct(i: nat, j: nat)
    requires i < j < 8
    ensures var contexts := [H1_CONTEXT, H5_CONTEXT, ROUND_HASH_CONTEXT, APP_SECRET_CONTEXT, CONF_KEY_CONTEXT, INIT_SECRET_CONTEXT,
                             MESSAGE_KEY_CONTEXT, MESSAGE_NONCE_CONTEXT];
            contexts[i] != contexts[j]
  {
    assert |H1_CONTEXT| == 23 && |H5_CONTEXT| == 24 && |ROUND_HASH_CONTEXT| == 22 && |APP_SECRET_CONTEXT| == 22;
    assert |CONF_KEY_CONTEXT| == 20 && |INIT_SECRET_CONTEXT| == 23 && |MESSAGE_KEY_CONTEXT| == 23 && |MESSAGE_NONCE_CONTEXT| == 25;
    assert ROUND_HASH_CONTEXT[9] != APP_SECRET_CONTEXT[9];
    assert H1_CONTEXT[9] != INIT_SECRET_CONTEXT[9] && H1_CONTEXT[9] != MESSAGE_KEY_CONTEXT[9] && INIT_SECRET_CONTEXT[9] != MESSAGE_KEY_CONTEXT[9];
  }

  /** Where the fields of the two preimages lie. */
  lemma PreimageLayout(app: Bytes32, leaf: U32, counter: U64, init: Bytes32, delta: Bytes32, transcript: Bytes32)
    ensures var m := MessagePreimage(app, leaf, counter);
            m[..32] == app && m[32..36] == Le32(leaf) && m[36..] == Le64(counter)
    ensures var e := EpochPreimage(init, delta, transcript);
            e[..32] == init && e[32..64] == delta && e[64..] == transcript
  {}

  // ----- seed chain and round hash

  function SeedChain(h: Blake3, leafSeed: Bytes32, levels: nat): Bytes32 {
    if levels == 0 then leafSeed else h.deriveKey(H1_CONTEXT, SeedChain(h, leafSeed, levels - 1))
  }

  method AdvanceSeedChain(h: Blake3, leafSeed: Bytes32, levels: U32) returns (seed: Bytes32)
    ensures seed == SeedChain(h, leafSeed, levels)
  {
    seed := leafSeed;
    for i := 0 to levels
      invariant seed == SeedChain(h, leafSeed, i)
    {
      seed := h.deriveKey(H1_CONTEXT, seed);
    }
  }

  /** Climbing `a` levels and then `b` more is climbing `a + b`: nodes on one path agree. */
  lemma {:induction false} SeedChainComposes(h: Blake3, leafSeed: Bytes32, a: nat, b: nat)
    ensures SeedChain(h, SeedChain(h, leafSeed, a), b) == SeedChain(h, leafSeed, a + b)
  {
    if b == 0 {
    } else {
      SeedChainComposes(h, leafSeed, a, b - 1);
    }
  }

  /** No levels leave the leaf seed, and one more level starts with one H1 derivation. */
  lemma SeedChainSteps(h: Blake3, leafSeed: Bytes32, levels: nat)
    ensures SeedChain(h, leafSeed, 0) == leafSeed
    ensures SeedChain(h, leafSeed, levels + 1) == SeedChain(h, h.deriveKey(H1_CONTEXT, leafSeed), levels)
  {
    assert SeedChain(h, leafSeed, 1) == h.deriveKey(H1_CONTEXT, SeedChain(h, leafSeed, 0));
    SeedChainComposes(h, leafSeed, 1, levels);
  }

  /** Two leaf seeds with one node seed at some level collide under H1 on the way, or are the same. */
  lemma {:induction false} SeedChainBinds(h: Blake3, a: Bytes32, b: Bytes32, levels: nat)
    requires SeedChain(h, a, levels) == SeedChain(h, b, levels)
    ensures
      || a == b
      || exists k :: 0 <= k < levels && DeriveKeyCollision(h, H1_CONTEXT, SeedChain(h, a, k), H1_CONTEXT, SeedChain(h, b, k))
  {
    if levels == 0 {
    } else if SeedChain(h, a, levels - 1) == SeedChain(h, b, levels - 1) {
      SeedChainBinds(h, a, b, levels - 1);
    } else {
      assert DeriveKeyCollision(h, H1_CONTEXT, SeedChain(h, a, levels - 1), H1_CONTEXT, SeedChain(h, b, levels - 1));
    }
  }

  /** The round-hash preimage: rootLabel, then both user lists, each behind its 32-bit count. */
  function RoundPreimage(rootLabel: Bytes32, removed: seq<Bytes32>, added: seq<Bytes32>): Bytes {
    rootLabel + Le(|removed|, 4) + Flatten(removed) + Le(|added|, 4) + Flatten(added)
  }

  /** Where the label, the counts and the lists lie. */
  lemma RoundLayout(l: Bytes32, removed: seq<Bytes32>, added: seq<Bytes32>)
    ensures var x := RoundPreimage(l, removed, added); var k := 36 + |Flatten(removed)|;
            && x[..32] == l && x[32..36] == Le(|removed|, 4) && x[36..k] == Flatten(removed)
            && x[k..k + 4] == Le(|added|, 4) && x[k + 4..] == Flatten(added)
  {
    RoundParts(l, Le(|removed|, 4), Flatten(removed), Le(|added|, 4), Flatten(added));
  }

  lemma RoundParts(l: Bytes32, m: Bytes, r: Bytes, n: Bytes, a: Bytes)
    requires |m| == |n| == 4
    ensures var x := l + m + r + n + a; var k := 36 + |r|;
            x[..32] == l && x[32..36] == m && x[36..k] == r && x[k..k + 4] == n && x[k + 4..] == a
  {}

  /** `h3_round_hash`, feeding the hasher piece by piece. */
  method RoundHash(h: Blake3, rootLabel: Bytes32, removed: seq<Bytes32>, added: seq<Bytes32>) returns (digest: Bytes32)
    ensures digest == h.deriveKey(ROUND_HASH_CONTEXT, RoundPreimage(rootLabel, removed, added))
  {
    var input: Bytes := rootLabel + Le(|removed|, 4);
    ghost var head := input;
    for i := 0 to |removed|
      invariant input == head + Flatten(removed[..i])
    {
      assert removed[..i + 1] == removed[..i] + [removed[i]];
      FlattenAppend(removed[..i], removed[i]);
      input := input + removed[i];
    }
    assert removed[..|removed|] == removed;
    input := input + Le(|added|, 4);
    ghost var mid := input;
    for i := 0 to |added|
      invariant input == mid + Flatten(added[..i])
    {
      assert added[..i + 1] == added[..i] + [added[i]];
      FlattenAppend(added[..i], added[i]);
      input := input + added[i];
    }
    assert added[..|added|] == added;
    digest := h.deriveKey(ROUND_HASH_CONTEXT, input);
  }

  /** The counts delimit the lists, so no user can move between "removed" and "added". */
  lemma RoundPreimageInjective(l: Bytes32, r: seq<Bytes32>, a: seq<Bytes32>, l': Bytes32, r': seq<Bytes32>, a': seq<Bytes32>)
    requires |r| <= U32_MAX && |a| <= U32_MAX && |r'| <= U32_MAX && |a'| <= U32_MAX
    requires RoundPreimage(l, r, a) == RoundPreimage(l', r', a')
    ensures l == l' && r == r' && a == a'
  {
    var x, x' := Flatten(r) + Le32(|a|) + Flatten(a), Flatten(r') + Le32(|a'|) + Flatten(a');
    assert RoundPreimage(l, r, a) == (l + Le32(|r|)) + x;
    assert RoundPreimage(l', r', a') == (l' + Le32(|r'|)) + x';
    SplitEqual(l + Le32(|r|), x, l' + Le32(|r'|), x');
    SplitEqual(l, Le32(|r|), l', Le32(|r'|));
    Le32Injective(|r|, |r'|);
    FlattenLength(r, 32); FlattenLength(r', 32);
    var y, y' := Le32(|a|) + Flatten(a), Le32(|a'|) + Flatten(a');
    assert x == Flatten(r) + y && x' == Flatten(r') + y';
    SplitEqual(Flatten(r), y, Flatten(r'), y');
    SplitEqual(Le32(|a|), Flatten(a), Le32(|a'|), Flatten(a'));
    FlattenInjective(r, r', 32);
    FlattenInjective(a, a', 32);
  }
}
