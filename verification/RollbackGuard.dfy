/** A device that can crash, hold several sessions of one identity and restore from any blob it
    ever wrote, and a group of such devices. The caller has two duties: a ciphertext leaves the
    device only once the persisted watermark covers the state after its emission, and a blob is
    restored only when no session is live and nothing pending reaches it. */
module RollbackGuard {
  import opened Octets
  import opened Outcomes
  import opened Primitives
  import opened KeySchedule
  import opened GroupMessage
  import opened SessionWatermark
  import opened Session

  /** A message with what went into it: the group, the plaintext and the key. */
  datatype Emission<+K, +N> = Emission(message: EncryptedMessage, groupId: Bytes32, plaintext: Bytes, key: MessageKey<K, N>)

  /** `handles` and `pending` are in memory; `blobs`, `watermark` and `released` outlive a crash.
      The library keeps no registry of sessions, so any number of handles may be live. */
  datatype Device<+K, +N> = Device(
    handles: seq<SessionState<K>>,
    pending: seq<Emission<K, N>>,
    blobs: seq<Blob<K>>,
    watermark: Watermark,
    released: seq<Emission<K, N>>)

  datatype DeviceStep =
    | DoEncrypt(handle: nat, plaintext: Bytes)
    | DoAdvance(handle: nat, commit: Commit)
    | DoSetCounter(handle: nat, counter: U64)
    | DoSerialise(handle: nat)
    | DoPersist(handle: nat)
    | DoDrop(handle: nat)
    | DoRelease(index: nat)
    | DoRestore(index: nat)
    | DoCrash

  /** The guarded policy waits for the watermark; the eager one does not. */
  datatype Policy = Guarded | Eager

  predicate MayRelease(policy: Policy, w: Watermark, m: EncryptedMessage) {
    policy.Guarded? ==> !Below(w.epochNumber, w.messageCounter, m.epoch, m.counter + 1)
  }

  function WithoutIndex<T>(s: seq<T>, i: nat): seq<T>
    requires i < |s|
  {
    s[..i] + s[i + 1..]
  }

  /** What an encryption puts on the pending list: nothing if it failed. */
  function Sent<K, N>(suite: Suite<K, N>, s: SessionState<K>, p: Bytes): seq<Emission<K, N>> {
    match Encrypt(suite, s, p).0
    case Err(_) => []
    case Ok(m) => [Emission(m, s.groupId, p, DeriveMessageKey(suite.schedule, s.epoch.secrets, s.leaf, s.epoch.messageCounter))]
  }

  function Restored<K, N>(suite: Suite<K, N>, w: Watermark, b: Blob<K>): seq<SessionState<K>> {
    match RestoreSessionChecked(suite, w, b)
    case Err(_) => []
    case Ok(s) => [s]
  }

  /** A step of handle `h`. */
  function NextOfHandle<K, N>(suite: Suite<K, N>, d: Device<K, N>, h: nat, step: DeviceStep): Device<K, N>
    requires h < |d.handles|
  {
    var s := d.handles[h];
    match step
    case DoEncrypt(_, p) => d.(handles := d.handles[h := Encrypt(suite, s, p).1], pending := d.pending + Sent(suite, s, p))
    case DoAdvance(_, c) => d.(handles := d.handles[h := AdvanceEpoch(suite, s, c).1])
    case DoSetCounter(_, n) => d.(handles := d.handles[h := SetMessageCounter(s, n).1])
    case DoSerialise(_) => d.(blobs := d.blobs + [Serialise(s)])
    case DoPersist(_) => d.(watermark := d.watermark.Advanced(s.epoch.number, s.epoch.messageCounter))
    case DoDrop(_) => d.(handles := WithoutIndex(d.handles, h))
    case _ => d
  }

  /** One step; a step that is not enabled changes nothing. */
  function Next<K, N>(suite: Suite<K, N>, policy: Policy, d: Device<K, N>, step: DeviceStep): Device<K, N> {
    match step
    case DoRelease(i) =>
      if i < |d.pending| && MayRelease(policy, d.watermark, d.pending[i].message)
      then d.(released := d.released + [d.pending[i]], pending := WithoutIndex(d.pending, i))
      else d
    case DoCrash => d.(handles := [], pending := [])
    case DoRestore(i) => if i < |d.blobs| then d.(handles := d.handles + Restored(suite, d.watermark, d.blobs[i])) else d
    case _ => if step.handle < |d.handles| then NextOfHandle(suite, d, step.handle, step) else d
  }

  function RunDevice<K, N>(suite: Suite<K, N>, policy: Policy, d: Device<K, N>, steps: seq<DeviceStep>): Device<K, N>
    decreases |steps|
  {
    if steps == [] then d else RunDevice(suite, policy, Next(suite, policy, d, steps[0]), steps[1..])
  }

  // ----- no pair is released twice

  predicate SamePair<K, N>(a: Emission<K, N>, b: Emission<K, N>) {
    a.message.epoch == b.message.epoch && a.message.counter == b.message.counter
  }

  predicate PairsDistinct<K, N>(es: seq<Emission<K, N>>) {
    forall i, j :: 0 <= i < j < |es| ==> !SamePair(es[i], es[j])
  }

  predicate AllBelow<K, N>(es: seq<Emission<K, N>>, e: nat, c: nat) {
    forall i :: 0 <= i < |es| ==> Below(es[i].message.epoch, es[i].message.counter, e, c)
  }

  /** The watermark lets blob `i` through. */
  predicate Admitted<K, N>(d: Device<K, N>, i: nat) {
    i < |d.blobs| && d.watermark.Check(d.blobs[i].epochNumber, d.blobs[i].messageCounter).Ok?
  }

  /** The second duty, which the caller can check before the call: no handle is live, and every
      ciphertext still waiting lies below the blob. */
  predicate Careful<K, N>(d: Device<K, N>, step: DeviceStep) {
    step.DoRestore? && Admitted(d, step.index) ==>
      && d.handles == []
      && AllBelow(d.pending, d.blobs[step.index].epochNumber, d.blobs[step.index].messageCounter)
  }

  predicate CarefulRun<K, N>(suite: Suite<K, N>, d: Device<K, N>, steps: seq<DeviceStep>)
    decreases |steps|
  {
    steps != [] ==> Careful(d, steps[0]) && CarefulRun(suite, Next(suite, Guarded, d, steps[0]), steps[1..])
  }

  /** A handle at epoch state `e` stands at or above the watermark and above all that is pending. */
  predicate InOrder<K, N>(d: Device<K, N>, e: Epoch<K>) {
    && !Below(e.number, e.messageCounter, d.watermark.epochNumber, d.watermark.messageCounter)
    && AllBelow(d.pending, e.number, e.messageCounter)
  }

  /** Released pairs lie below the watermark; there is at most one handle, and it is in order. */
  ghost predicate DeviceInv<K, N>(d: Device<K, N>) {
    && AllBelow(d.released, d.watermark.epochNumber, d.watermark.messageCounter)
    && PairsDistinct(d.released + d.pending)
    && (forall i :: 0 <= i < |d.pending| ==> d.pending[i].message.counter < U64_MAX)
    && |d.handles| <= 1
    && (d.handles != [] ==> InOrder(d, d.handles[0].epoch))
  }

  lemma ReleaseKeepsDistinct<K, N>(released: seq<Emission<K, N>>, pending: seq<Emission<K, N>>, i: nat)
    requires i < |pending| && PairsDistinct(released + pending)
    ensures PairsDistinct(released + [pending[i]] + WithoutIndex(pending, i))
  {
    var all := released + pending;
    var n := |released|;
    var moved := released + [pending[i]] + WithoutIndex(pending, i);
    forall p, q | 0 <= p < q < |moved|
      ensures !SamePair(moved[p], moved[q])
    {
      var from := (k: int) => if k < n then k else if k == n then n + i else if k <= n + i then k - 1 else k;
      assert moved[p] == all[from(p)] && moved[q] == all[from(q)];
      assert from(p) != from(q);
      if from(p) < from(q) {
        assert !SamePair(all[from(p)], all[from(q)]);
      } else {
        assert !SamePair(all[from(q)], all[from(p)]);
      }
    }
  }

  lemma ReleaseKeepsInv<K, N>(suite: Suite<K, N>, d: Device<K, N>, i: nat)
    requires DeviceInv(d)
    ensures DeviceInv(Next(suite, Guarded, d, DoRelease(i)))
  {
    if i < |d.pending| {
      ReleaseKeepsDistinct(d.released, d.pending, i);
    }
  }

  lemma EncryptKeepsInv<K, N>(suite: Suite<K, N>, d: Device<K, N>, h: nat, p: Bytes)
    requires DeviceInv(d)
    ensures DeviceInv(Next(suite, Guarded, d, DoEncrypt(h, p)))
  {
    if h < |d.handles| {
      var d' := Next(suite, Guarded, d, DoEncrypt(h, p));
      assert d'.released + d'.pending == d.released + d.pending + Sent(suite, d.handles[h], p);
    }
  }

  lemma CrashKeepsInv<K, N>(suite: Suite<K, N>, d: Device<K, N>)
    requires DeviceInv(d)
    ensures DeviceInv(Next(suite, Guarded, d, DoCrash))
  {
    var d' := Next(suite, Guarded, d, DoCrash);
    assert forall k :: 0 <= k < |d.released| ==> d'.released[k] == (d.released + d.pending)[k];
    assert d'.released + d'.pending == d'.released;
  }

  /** Every careful step of a guarded device keeps the invariant. */
  lemma NextKeepsInv<K, N>(suite: Suite<K, N>, d: Device<K, N>, step: DeviceStep)
    requires DeviceInv(d) && Careful(d, step)
    ensures DeviceInv(Next(suite, Guarded, d, step))
  {
    match step
    case DoEncrypt(h, p) =>
      EncryptKeepsInv(suite, d, h, p);
    case DoRelease(i) =>
      ReleaseKeepsInv(suite, d, i);
    case DoCrash =>
      CrashKeepsInv(suite, d);
    case _ =>
  }

  lemma {:induction false} RunKeepsInv<K, N>(suite: Suite<K, N>, d: Device<K, N>, steps: seq<DeviceStep>)
    requires DeviceInv(d) && CarefulRun(suite, d, steps)
    ensures DeviceInv(RunDevice(suite, Guarded, d, steps))
    decreases |steps|
  {
    if steps == [] {
    } else {
      NextKeepsInv(suite, d, steps[0]);
      RunKeepsInv(suite, Next(suite, Guarded, d, steps[0]), steps[1..]);
    }
  }

  /** A device that has sent nothing yet, with one session at or above its watermark. */
  predicate Started<K(==), N(==)>(d: Device<K, N>) {
    && |d.handles| == 1 && d.pending == [] && d.released == [] && d.blobs == []
    && !Below(d.handles[0].epoch.number, d.handles[0].epoch.messageCounter, d.watermark.epochNumber, d.watermark.messageCounter)
  }

  lemma ReleasedDistinct<K, N>(d: Device<K, N>)
    requires DeviceInv(d)
    ensures PairsDistinct(d.released)
  {
    forall i, j | 0 <= i < j < |d.released|
      ensures !SamePair(d.released[i], d.released[j])
    {
      var all := d.released + d.pending;
      assert all[i] == d.released[i] && all[j] == d.released[j];
    }
  }

  /** In every careful run of encryptions, epoch changes, counter moves, saves, drops, crashes and
      restores from any earlier blob, no two released ciphertexts carry one (epoch, counter) pair. */
  lemma NoPairReleasedTwice<K, N>(suite: Suite<K, N>, d: Device<K, N>, steps: seq<DeviceStep>)
    requires Started(d) && CarefulRun(suite, d, steps)
    ensures PairsDistinct(RunDevice(suite, Guarded, d, steps).released)
  {
    RunKeepsInv(suite, d, steps);
    ReleasedDistinct(RunDevice(suite, Guarded, d, steps));
  }

  /** A crash silences the device: until something is restored, whatever is tried, nothing more is
      released and nothing new is saved. */
  lemma {:induction false} CrashSilences<K, N>(suite: Suite<K, N>, policy: Policy, d: Device<K, N>, steps: seq<DeviceStep>)
    requires d.handles == [] && d.pending == []
    requires forall i :: 0 <= i < |steps| ==> !steps[i].DoRestore?
    ensures RunDevice(suite, policy, d, steps) == d
    decreases |steps|
  {
    if steps == [] {
    } else {
      assert Next(suite, policy, d, steps[0]) == d;
      CrashSilences(suite, policy, d, steps[1..]);
    }
  }

  lemma CrashLosesMemory<K, N>(suite: Suite<K, N>, policy: Policy, d: Device<K, N>, steps: seq<DeviceStep>)
    requires forall i :: 0 <= i < |steps| ==> !steps[i].DoRestore?
    ensures RunDevice(suite, policy, d, [DoCrash] + steps) == d.(handles := [], pending := [])
  {
    assert ([DoCrash] + steps)[1..] == steps;
    CrashSilences(suite, policy, Next(suite, policy, d, DoCrash), steps);
  }

  // ----- both duties are needed

  lemma {:induction false} RunAppend<K, N>(suite: Suite<K, N>, policy: Policy, d: Device<K, N>, a: seq<DeviceStep>, b: seq<DeviceStep>)
    ensures RunDevice(suite, policy, d, a + b) == RunDevice(suite, policy, RunDevice(suite, policy, d, a), b)
    decreases |a|
  {
    if a == [] {
      assert a + b == b;
    } else {
      assert (a + b)[1..] == a[1..] + b;
      RunAppend(suite, policy, Next(suite, policy, d, a[0]), a[1..], b);
    }
  }

  lemma RunSnoc<K, N>(suite: Suite<K, N>, policy: Policy, d: Device<K, N>, steps: seq<DeviceStep>, last: DeviceStep)
    ensures RunDevice(suite, policy, d, steps + [last]) == Next(suite, policy, RunDevice(suite, policy, d, steps), last)
  {
    RunAppend(suite, policy, d, steps, [last]);
    RunOne(suite, policy, RunDevice(suite, policy, d, steps), last);
  }

  lemma RunOne<K, N>(suite: Suite<K, N>, policy: Policy, d: Device<K, N>, step: DeviceStep)
    ensures RunDevice(suite, policy, d, [step]) == Next(suite, policy, d, step)
  {
    assert [step][1..] == [];
  }

  /** Saves, then sends one message eagerly. */
  function EagerPrefix(p: Bytes): seq<DeviceStep> {
    [] + [DoSerialise(0)] + [DoEncrypt(0, p)] + [DoRelease(0)]
  }

  /** Then loses memory and reloads the blob saved before. */
  function LossyPrefix(p: Bytes): seq<DeviceStep> {
    EagerPrefix(p) + [DoCrash] + [DoRestore(0)]
  }

  lemma EagerPrefixState<K, N>(suite: Suite<K, N>, d: Device<K, N>, p: Bytes)
    requires Started(d) && Encrypt(suite, d.handles[0], p).0.Ok?
    ensures var d' := RunDevice(suite, Eager, d, EagerPrefix(p));
            && d'.blobs == [Serialise(d.handles[0])] && d'.watermark == d.watermark
            && d'.pending == [] && d'.released == Sent(suite, d.handles[0], p)
  {
    var s1: seq<DeviceStep> := [] + [DoSerialise(0)];
    var s2 := s1 + [DoEncrypt(0, p)];
    RunSnoc(suite, Eager, d, [], DoSerialise(0));
    RunSnoc(suite, Eager, d, s1, DoEncrypt(0, p));
    RunSnoc(suite, Eager, d, s2, DoRelease(0));
  }

  lemma LossyPrefixState<K, N>(suite: Suite<K, N>, d: Device<K, N>, p: Bytes)
    requires Started(d) && Encrypt(suite, d.handles[0], p).0.Ok?
    ensures var d' := RunDevice(suite, Eager, d, LossyPrefix(p));
            && d'.handles == [Reload(suite, d.handles[0]).1]
            && d'.pending == [] && d'.released == Sent(suite, d.handles[0], p)
  {
    EagerPrefixState(suite, d, p);
    RunSnoc(suite, Eager, d, EagerPrefix(p), DoCrash);
    RunSnoc(suite, Eager, d, EagerPrefix(p) + [DoCrash], DoRestore(0));
  }

  /** The first duty: a device that releases before it persists sends two messages under one pair
      after a crash, through the checked restore itself and with one handle at a time. */
  lemma EagerReleaseRepeatsPair<K, N>(suite: Suite<K, N>, d: Device<K, N>, p: Bytes, q: Bytes)
    requires Started(d)
    requires Encrypt(suite, d.handles[0], p).0.Ok?
    requires Encrypt(suite, Reload(suite, d.handles[0]).1, q).0.Ok?
    ensures !PairsDistinct(RunDevice(suite, Eager, d, LossyPrefix(p) + [DoEncrypt(0, q)] + [DoRelease(0)]).released)
  {
    var pre := LossyPrefix(p);
    LossyPrefixState(suite, d, p);
    RunSnoc(suite, Eager, d, pre, DoEncrypt(0, q));
    RunSnoc(suite, Eager, d, pre + [DoEncrypt(0, q)], DoRelease(0));
    var d' := RunDevice(suite, Eager, d, pre + [DoEncrypt(0, q)] + [DoRelease(0)]);
    assert |d'.released| == 2 && SamePair(d'.released[0], d'.released[1]);
  }

  /** Restores the live session's own blob beside it and encrypts on both. */
  function TwinPrefix(p: Bytes, q: Bytes): seq<DeviceStep> {
    [] + [DoSerialise(0)] + [DoRestore(0)] + [DoEncrypt(0, p)] + [DoEncrypt(1, q)]
  }

  lemma TwinPrefixState<K, N>(suite: Suite<K, N>, d: Device<K, N>, p: Bytes, q: Bytes)
    requires Started(d)
    ensures var (s, t) := (d.handles[0], Reload(suite, d.handles[0]).1);
            var d' := RunDevice(suite, Guarded, d, TwinPrefix(p, q));
            && d'.handles == [Encrypt(suite, s, p).1, Encrypt(suite, t, q).1]
            && d'.pending == Sent(suite, s, p) + Sent(suite, t, q)
            && d'.released == [] && d'.watermark == d.watermark
  {
    var s1: seq<DeviceStep> := [] + [DoSerialise(0)];
    var s2 := s1 + [DoRestore(0)];
    var s3 := s2 + [DoEncrypt(0, p)];
    RunSnoc(suite, Guarded, d, [], DoSerialise(0));
    RunSnoc(suite, Guarded, d, s1, DoRestore(0));
    RunSnoc(suite, Guarded, d, s2, DoEncrypt(0, p));
    RunSnoc(suite, Guarded, d, s3, DoEncrypt(1, q));
  }

  /** The second duty: a device that restores beside a live session sends two messages under one
      key and nonce, though it persists before each release and the restore is the checked one. */
  lemma SecondHandleRepeatsKey<K, N>(suite: Suite<K, N>, d: Device<K, N>, p: Bytes, q: Bytes)
    requires Started(d) && Coherent(suite, d.handles[0])
    requires Encrypt(suite, d.handles[0], p).0.Ok?
    requires Encrypt(suite, Reload(suite, d.handles[0]).1, q).0.Ok?
    ensures var r := RunDevice(suite, Guarded, d,
                       TwinPrefix(p, q) + [DoPersist(0)] + [DoRelease(0)] + [DoPersist(1)] + [DoRelease(0)]).released;
            |r| == 2 && SamePair(r[0], r[1]) && r[0].key == r[1].key && r[0].plaintext == p && r[1].plaintext == q
  {
    var s0 := TwinPrefix(p, q);
    var s1 := s0 + [DoPersist(0)];
    var s2 := s1 + [DoRelease(0)];
    var s3 := s2 + [DoPersist(1)];
    TwinPrefixState(suite, d, p, q);
    RunSnoc(suite, Guarded, d, s0, DoPersist(0));
    RunSnoc(suite, Guarded, d, s1, DoRelease(0));
    RunSnoc(suite, Guarded, d, s2, DoPersist(1));
    RunSnoc(suite, Guarded, d, s3, DoRelease(0));
  }

  // ----- the second duty is exact

  /** Some epoch is left above both positions. */
  predicate EpochsLeft<K, N>(d: Device<K, N>, i: nat)
    requires i < |d.blobs|
  {
    d.blobs[i].epochNumber < U64_MAX && forall h :: 0 <= h < |d.handles| ==> d.handles[h].epoch.number < U64_MAX
  }

  function Climb(h: nat, c: Commit, n: nat): (steps: seq<DeviceStep>)
    ensures RestoresNothing(steps)
  {
    if n == 0 then [] else [DoAdvance(h, c)] + Climb(h, c, n - 1)
  }

  lemma {:induction false} ClimbRuns<K, N>(suite: Suite<K, N>, d: Device<K, N>, h: nat, c: Commit, n: nat)
    requires h < |d.handles|
    ensures RunDevice(suite, Guarded, d, Climb(h, c, n)) == d.(handles := d.handles[h := AdvancedBy(suite, d.handles[h], c, n)])
    decreases n
  {
    if n == 0 {
    } else {
      assert Climb(h, c, n)[1..] == Climb(h, c, n - 1);
      ClimbRuns(suite, Next(suite, Guarded, d, DoAdvance(h, c)), h, c, n - 1);
    }
  }

  predicate RestoresNothing(steps: seq<DeviceStep>) {
    forall i :: 0 <= i < |steps| ==> !steps[i].DoRestore?
  }

  lemma {:induction false} RestoringNothingIsCareful<K, N>(suite: Suite<K, N>, d: Device<K, N>, steps: seq<DeviceStep>)
    requires RestoresNothing(steps)
    ensures CarefulRun(suite, d, steps)
    decreases |steps|
  {
    if steps == [] {
    } else {
      RestoringNothingIsCareful(suite, Next(suite, Guarded, d, steps[0]), steps[1..]);
    }
  }

  /** Two pending messages with one pair are both released once some handle stands above it. */
  lemma BothReleased<K, N>(suite: Suite<K, N>, d: Device<K, N>, h: nat, a: nat, b: nat) returns (steps: seq<DeviceStep>)
    requires h < |d.handles| && a < b < |d.pending| && SamePair(d.pending[a], d.pending[b])
    requires Below(d.pending[a].message.epoch, d.pending[a].message.counter, d.handles[h].epoch.number, d.handles[h].epoch.messageCounter)
    ensures RestoresNothing(steps) && !PairsDistinct(RunDevice(suite, Guarded, d, steps).released)
  {
    var x, y := d.pending[a], d.pending[b];
    var s1: seq<DeviceStep> := [DoPersist(h)];
    var s2 := s1 + [DoRelease(b)];
    steps := s2 + [DoRelease(a)];
    RunOne(suite, Guarded, d, DoPersist(h));
    RunSnoc(suite, Guarded, d, s1, DoRelease(b));
    RunSnoc(suite, Guarded, d, s2, DoRelease(a));
    var d2 := RunDevice(suite, Guarded, d, s2);
    assert d2.released == d.released + [y] && d2.pending[a] == x;
    var r := RunDevice(suite, Guarded, d, steps).released;
    assert r == d.released + [y] + [x];
    assert SamePair(r[|d.released|], r[|d.released| + 1]);
  }

  /** A handle at `(e, c)` with room adds a message of that pair to the pending list. */
  lemma EmptyMessageSent<K(!new), N(!new)>(suite: Suite<K, N>, d: Device<K, N>, h: nat)
    requires h < |d.handles| && d.handles[h].epoch.messageCounter < U64_MAX && SealsEmpty(suite.aead)
    ensures var d' := Next(suite, Guarded, d, DoEncrypt(h, []));
            var e := d.handles[h].epoch;
            && |d'.pending| == |d.pending| + 1 && d'.pending[..|d.pending|] == d.pending
            && d'.pending[|d.pending|].message.epoch == e.number
            && d'.pending[|d.pending|].message.counter == e.messageCounter
            && d'.handles == d.handles[h := d'.handles[h]]
            && d'.handles[h].epoch.number == e.number && d'.handles[h].epoch.messageCounter == e.messageCounter + 1
  {}

  /** Two handles can always be brought to one pair, whatever their positions. */
  lemma TwoHandlesRepeat<K(!new), N(!new)>(suite: Suite<K, N>, d: Device<K, N>, c: Commit) returns (steps: seq<DeviceStep>)
    requires |d.handles| == 2 && SealsEmpty(suite.aead)
    requires d.handles[0].epoch.number < U64_MAX && d.handles[1].epoch.number < U64_MAX
    ensures RestoresNothing(steps) && !PairsDistinct(RunDevice(suite, Guarded, d, steps).released)
  {
    var s, t := d.handles[0], d.handles[1];
    var top: nat := 1 + if s.epoch.number < t.epoch.number then t.epoch.number else s.epoch.number;
    var m, n := top - s.epoch.number, top - t.epoch.number;
    ClimbRuns(suite, d, 0, c, m);
    AdvancedByPosition(suite, s, c, m);
    var d1 := RunDevice(suite, Guarded, d, Climb(0, c, m));
    ClimbRuns(suite, d1, 1, c, n);
    AdvancedByPosition(suite, t, c, n);
    var d2 := RunDevice(suite, Guarded, d1, Climb(1, c, n));
    var rest := TwoAtOnePositionRepeat(suite, d2);
    RunAppend(suite, Guarded, d1, Climb(1, c, n), rest);
    RunAppend(suite, Guarded, d, Climb(0, c, m), Climb(1, c, n) + rest);
    steps := Climb(0, c, m) + (Climb(1, c, n) + rest);
  }

  lemma TwoAtOnePositionRepeat<K(!new), N(!new)>(suite: Suite<K, N>, d: Device<K, N>) returns (steps: seq<DeviceStep>)
    requires |d.handles| == 2 && SealsEmpty(suite.aead)
    requires d.handles[0].epoch.number == d.handles[1].epoch.number
    requires d.handles[0].epoch.messageCounter == d.handles[1].epoch.messageCounter < U64_MAX
    ensures RestoresNothing(steps) && !PairsDistinct(RunDevice(suite, Guarded, d, steps).released)
  {
    var n := |d.pending|;
    EmptyMessageSent(suite, d, 0);
    var d1 := Next(suite, Guarded, d, DoEncrypt(0, []));
    EmptyMessageSent(suite, d1, 1);
    var d2 := Next(suite, Guarded, d1, DoEncrypt(1, []));
    assert d2.pending[n] == d2.pending[..n + 1][n] == d1.pending[n];
    var rest := BothReleased(suite, d2, 0, n, n + 1);
    steps := [DoEncrypt(0, [])] + ([DoEncrypt(1, [])] + rest);
    RunOne(suite, Guarded, d, DoEncrypt(0, []));
    RunOne(suite, Guarded, d1, DoEncrypt(1, []));
    RunAppend(suite, Guarded, d1, [DoEncrypt(1, [])], rest);
    RunAppend(suite, Guarded, d, [DoEncrypt(0, [])], [DoEncrypt(1, [])] + rest);
  }

  /** A lone handle below something pending can be brought to its pair. */
  lemma PendingRepeats<K(!new), N(!new)>(suite: Suite<K, N>, d: Device<K, N>, c: Commit, j: nat) returns (steps: seq<DeviceStep>)
    requires |d.handles| == 1 && j < |d.pending| && SealsEmpty(suite.aead)
    requires d.pending[j].message.counter < U64_MAX
    requires !Below(d.pending[j].message.epoch, d.pending[j].message.counter, d.handles[0].epoch.number, d.handles[0].epoch.messageCounter)
    ensures RestoresNothing(steps) && !PairsDistinct(RunDevice(suite, Guarded, d, steps).released)
  {
    var t, m := d.handles[0], d.pending[j].message;
    var n := m.epoch - t.epoch.number;
    ClimbRuns(suite, d, 0, c, n);
    AdvancedByPosition(suite, t, c, n);
    var d1 := RunDevice(suite, Guarded, d, Climb(0, c, n));
    var d2 := Next(suite, Guarded, d1, DoSetCounter(0, m.counter));
    EmptyMessageSent(suite, d2, 0);
    var d3 := Next(suite, Guarded, d2, DoEncrypt(0, []));
    assert d3.pending[j] == d3.pending[..|d.pending|][j] == d.pending[j];
    var rest := BothReleased(suite, d3, 0, j, |d.pending|);
    RunOne(suite, Guarded, d1, DoSetCounter(0, m.counter));
    RunOne(suite, Guarded, d2, DoEncrypt(0, []));
    RunAppend(suite, Guarded, d2, [DoEncrypt(0, [])], rest);
    RunAppend(suite, Guarded, d1, [DoSetCounter(0, m.counter)], [DoEncrypt(0, [])] + rest);
    RunAppend(suite, Guarded, d, Climb(0, c, n), [DoSetCounter(0, m.counter)] + ([DoEncrypt(0, [])] + rest));
    steps := Climb(0, c, n) + ([DoSetCounter(0, m.counter)] + ([DoEncrypt(0, [])] + rest));
  }

  /** A careless restore can be continued, with no further restore, to a repeated pair. */
  lemma CarelessRestoreRepeats<K(!new), N(!new)>(suite: Suite<K, N>, d: Device<K, N>, c: Commit, i: nat) returns (steps: seq<DeviceStep>)
    requires DeviceInv(d) && Admitted(d, i) && EpochsLeft(d, i) && SealsEmpty(suite.aead)
    requires !Careful(d, DoRestore(i))
    ensures RestoresNothing(steps)
    ensures !PairsDistinct(RunDevice(suite, Guarded, Next(suite, Guarded, d, DoRestore(i)), steps).released)
  {
    var d' := Next(suite, Guarded, d, DoRestore(i));
    if d.handles != [] {
      steps := TwoHandlesRepeat(suite, d', c);
    } else {
      var b := d.blobs[i];
      var j :| 0 <= j < |d.pending|
        && !Below(d.pending[j].message.epoch, d.pending[j].message.counter, b.epochNumber, b.messageCounter);
      steps := PendingRepeats(suite, d', c, j);
    }
  }

  /** After any careful run, restoring an admitted blob is safe, in that every careful continuation
      releases distinct pairs, exactly when that restore is careful too. */
  lemma SafeIffCareful<K(!new), N(!new)>(suite: Suite<K, N>, start: Device<K, N>, past: seq<DeviceStep>, i: nat)
    requires Started(start) && CarefulRun(suite, start, past) && SealsEmpty(suite.aead)
    requires var d := RunDevice(suite, Guarded, start, past); Admitted(d, i) && EpochsLeft(d, i)
    ensures var d := RunDevice(suite, Guarded, start, past);
            var d' := Next(suite, Guarded, d, DoRestore(i));
            Careful(d, DoRestore(i)) <==>
            forall steps :: CarefulRun(suite, d', steps) ==> PairsDistinct(RunDevice(suite, Guarded, d', steps).released)
  {
    RunKeepsInv(suite, start, past);
    var d := RunDevice(suite, Guarded, start, past);
    var d' := Next(suite, Guarded, d, DoRestore(i));
    if Careful(d, DoRestore(i)) {
      NextKeepsInv(suite, d, DoRestore(i));
      forall steps | CarefulRun(suite, d', steps)
        ensures PairsDistinct(RunDevice(suite, Guarded, d', steps).released)
      {
        RunKeepsInv(suite, d', steps);
        ReleasedDistinct(RunDevice(suite, Guarded, d', steps));
      }
    } else {
      var zero: Bytes32 := seq(32, _ => 0);
      var steps := CarelessRestoreRepeats(suite, d, Commit(zero, zero), i);
      RestoringNothingIsCareful(suite, d', steps);
    }
  }

  // ----- a whole group never reuses a key

  /** The recorded key, nonce and plaintext are what the ciphertext was sealed from. */
  predicate SealedAsRecorded<K, N>(suite: Suite<K, N>, e: Emission<K, N>) {
    var m := e.message;
    AeadEncrypt(suite.aead, e.key.key, e.key.nonce, e.plaintext, Aad(e.groupId, m.epoch, m.senderLeaf, m.counter)) == Ok(m.ciphertext)
  }

  /** The message key of one (epoch, leaf, counter) triple of the group. */
  function ChainKey<K, N>(sch: Schedule<K, N>, first: K, commits: nat -> Commit, epoch: nat, leaf: U32, counter: U64): (k: MessageKey<K, N>)
    ensures k.key == KeyAt(sch, first, commits, epoch, leaf, counter)
    ensures k.nonce == NonceAt(sch, first, commits, epoch, leaf, counter)
  {
    DeriveMessageKey(sch, DeriveSecrets(sch, Chain(sch, first, commits, epoch)), leaf, counter)
  }

  ghost predicate SentOnChain<K, N>(suite: Suite<K, N>, first: K, commits: nat -> Commit, leaf: U32, es: seq<Emission<K, N>>) {
    forall i :: 0 <= i < |es| ==>
      var m := es[i].message;
      && SealedAsRecorded(suite, es[i])
      && m.senderLeaf == leaf
      && es[i].key == ChainKey(suite.schedule, first, commits, m.epoch, leaf, m.counter)
  }

  /** Everything this device holds or sent comes from the group's one epoch chain and its leaf. */
  ghost predicate OnChain<K, N>(suite: Suite<K, N>, first: K, commits: nat -> Commit, leaf: U32, d: Device<K, N>) {
    && (forall h :: 0 <= h < |d.handles| ==>
          var s := d.handles[h];
          s.leaf == leaf && s.epoch.secrets == DeriveSecrets(suite.schedule, Chain(suite.schedule, first, commits, s.epoch.number)))
    && (forall i :: 0 <= i < |d.blobs| ==>
          d.blobs[i].leaf == leaf && d.blobs[i].epochSecret == Chain(suite.schedule, first, commits, d.blobs[i].epochNumber))
    && SentOnChain(suite, first, commits, leaf, d.pending)
    && SentOnChain(suite, first, commits, leaf, d.released)
  }

  /** Lockstep: a handle that leaves epoch `n` does so by the group's `n`-th commit. */
  predicate FollowsCommits<K, N>(commits: nat -> Commit, d: Device<K, N>, step: DeviceStep) {
    step.DoAdvance? && step.handle < |d.handles| ==> step.commit == commits(d.handles[step.handle].epoch.number)
  }

  lemma EncryptStaysOnChain<K, N>(suite: Suite<K, N>, first: K, commits: nat -> Commit, leaf: U32, d: Device<K, N>, h: nat, p: Bytes)
    requires OnChain(suite, first, commits, leaf, d) && h < |d.handles|
    ensures SentOnChain(suite, first, commits, leaf, Sent(suite, d.handles[h], p))
    ensures OnChain(suite, first, commits, leaf, Next(suite, Guarded, d, DoEncrypt(h, p)))
  {
    assert Encrypt(suite, d.handles[h], p).1.epoch.secrets == d.handles[h].epoch.secrets;
  }

  lemma AdvanceStaysOnChain<K, N>(suite: Suite<K, N>, first: K, commits: nat -> Commit, leaf: U32, d: Device<K, N>, h: nat, c: Commit)
    requires OnChain(suite, first, commits, leaf, d) && FollowsCommits(commits, d, DoAdvance(h, c))
    ensures OnChain(suite, first, commits, leaf, Next(suite, Guarded, d, DoAdvance(h, c)))
  {
    if h < |d.handles| {
      var s := d.handles[h];
      var s' := AdvanceEpoch(suite, s, c).1;
      assert s'.epoch.secrets == DeriveSecrets(suite.schedule, Chain(suite.schedule, first, commits, s'.epoch.number));
    }
  }

  lemma RestoreStaysOnChain<K, N>(suite: Suite<K, N>, first: K, commits: nat -> Commit, leaf: U32, d: Device<K, N>, i: nat)
    requires OnChain(suite, first, commits, leaf, d)
    ensures OnChain(suite, first, commits, leaf, Next(suite, Guarded, d, DoRestore(i)))
  {
    if i < |d.blobs| {
      var b := d.blobs[i];
      assert b.leaf == leaf && b.epochSecret == Chain(suite.schedule, first, commits, b.epochNumber);
    }
  }

  lemma ReleaseStaysOnChain<K, N>(suite: Suite<K, N>, first: K, commits: nat -> Commit, leaf: U32, d: Device<K, N>, i: nat)
    requires OnChain(suite, first, commits, leaf, d)
    ensures OnChain(suite, first, commits, leaf, Next(suite, Guarded, d, DoRelease(i)))
  {}

  /** Whether or not it is careful, a step in lockstep keeps the device on the chain. */
  lemma NextStaysOnChain<K, N>(suite: Suite<K, N>, first: K, commits: nat -> Commit, leaf: U32, d: Device<K, N>, step: DeviceStep)
    requires OnChain(suite, first, commits, leaf, d)
    requires FollowsCommits(commits, d, step)
    ensures OnChain(suite, first, commits, leaf, Next(suite, Guarded, d, step))
  {
    match step
    case DoEncrypt(h, p) =>
      if h < |d.handles| {
        EncryptStaysOnChain(suite, first, commits, leaf, d, h, p);
      }
    case DoAdvance(h, c) =>
      AdvanceStaysOnChain(suite, first, commits, leaf, d, h, c);
    case DoRestore(i) =>
      RestoreStaysOnChain(suite, first, commits, leaf, d, i);
    case DoRelease(i) =>
      ReleaseStaysOnChain(suite, first, commits, leaf, d, i);
    case _ =>
      OtherStepsStayOnChain(suite, first, commits, leaf, d, step);
  }

  lemma OtherStepsStayOnChain<K, N>(suite: Suite<K, N>, first: K, commits: nat -> Commit, leaf: U32, d: Device<K, N>, step: DeviceStep)
    requires OnChain(suite, first, commits, leaf, d)
    requires step.DoSetCounter? || step.DoSerialise? || step.DoPersist? || step.DoDrop? || step.DoCrash?
    ensures OnChain(suite, first, commits, leaf, Next(suite, Guarded, d, step))
  {}

  datatype GroupStep = GroupStep(member: nat, step: DeviceStep)

  function NextGroup<K, N>(suite: Suite<K, N>, g: seq<Device<K, N>>, gs: GroupStep): (g': seq<Device<K, N>>)
    ensures |g'| == |g|
  {
    if gs.member < |g| then g[gs.member := Next(suite, Guarded, g[gs.member], gs.step)] else g
  }

  function RunGroup<K, N>(suite: Suite<K, N>, g: seq<Device<K, N>>, steps: seq<GroupStep>): (g': seq<Device<K, N>>)
    ensures |g'| == |g|
    decreases |steps|
  {
    if steps == [] then g else RunGroup(suite, NextGroup(suite, g, steps[0]), steps[1..])
  }

  predicate Allowed<K, N>(commits: nat -> Commit, d: Device<K, N>, step: DeviceStep) {
    FollowsCommits(commits, d, step) && Careful(d, step)
  }

  /** Every device is in lockstep with the commits and careful with its restores. */
  predicate InLockstep<K, N>(suite: Suite<K, N>, commits: nat -> Commit, g: seq<Device<K, N>>, steps: seq<GroupStep>)
    decreases |steps|
  {
    steps != [] ==>
      && (steps[0].member < |g| ==> Allowed(commits, g[steps[0].member], steps[0].step))
      && InLockstep(suite, commits, NextGroup(suite, g, steps[0]), steps[1..])
  }

  ghost predicate GroupInv<K, N>(suite: Suite<K, N>, first: K, commits: nat -> Commit, leaves: seq<U32>, g: seq<Device<K, N>>) {
    && |leaves| == |g|
    && forall i :: 0 <= i < |g| ==> DeviceInv(g[i]) && OnChain(suite, first, commits, leaves[i], g[i])
  }

  lemma {:induction false} RunGroupKeepsInv<K, N>(suite: Suite<K, N>, first: K, commits: nat -> Commit, leaves: seq<U32>,
                                                  g: seq<Device<K, N>>, steps: seq<GroupStep>)
    requires GroupInv(suite, first, commits, leaves, g)
    requires InLockstep(suite, commits, g, steps)
    ensures GroupInv(suite, first, commits, leaves, RunGroup(suite, g, steps))
    decreases |steps|
  {
    if steps == [] {
    } else {
      var i := steps[0].member;
      if i < |g| {
        NextKeepsInv(suite, g[i], steps[0].step);
        NextStaysOnChain(suite, first, commits, leaves[i], g[i], steps[0].step);
      }
      RunGroupKeepsInv(suite, first, commits, leaves, NextGroup(suite, g, steps[0]), steps[1..]);
    }
  }

  /** A group at its start: distinct leaves, every device fresh and somewhere on the chain. */
  ghost predicate GroupStarted<K, N>(suite: Suite<K, N>, first: K, commits: nat -> Commit, leaves: seq<U32>, g: seq<Device<K, N>>) {
    && |leaves| == |g|
    && (forall i, j :: 0 <= i < j < |leaves| ==> leaves[i] != leaves[j])
    && (forall i :: 0 <= i < |g| ==> Started(g[i]) && OnChain(suite, first, commits, leaves[i], g[i]))
  }

  /** Under the invariant, two released messages differ in epoch, sender or counter, and each was
      sealed under the key and nonce of its own triple. */
  lemma EmissionsDiffer<K, N>(suite: Suite<K, N>, first: K, commits: nat -> Commit, leaves: seq<U32>,
                              g: seq<Device<K, N>>, i: nat, a: nat, j: nat, b: nat)
    requires GroupInv(suite, first, commits, leaves, g)
    requires forall p, q :: 0 <= p < q < |leaves| ==> leaves[p] != leaves[q]
    requires i < |g| && j < |g| && (i, a) != (j, b) && a < |g[i].released| && b < |g[j].released|
    ensures
      var (x, y) := (g[i].released[a], g[j].released[b]);
      var (m, m') := (x.message, y.message);
      && (m.epoch, m.senderLeaf, m.counter) != (m'.epoch, m'.senderLeaf, m'.counter)
      && SealedAsRecorded(suite, x) && x.key == ChainKey(suite.schedule, first, commits, m.epoch, m.senderLeaf, m.counter)
      && SealedAsRecorded(suite, y) && y.key == ChainKey(suite.schedule, first, commits, m'.epoch, m'.senderLeaf, m'.counter)
  {
    var (x, y) := (g[i].released[a], g[j].released[b]);
    assert OnChain(suite, first, commits, leaves[i], g[i]) && OnChain(suite, first, commits, leaves[j], g[j]);
    if i == j {
      var all := g[i].released + g[i].pending;
      assert all[a] == x && all[b] == y;
      assert !SamePair(all[if a < b then a else b], all[if a < b then b else a]);
    } else {
      assert leaves[if i < j then i else j] != leaves[if i < j then j else i];
    }
  }

  /** In every run of the whole group, through any crashes and careful restores, each released
      message is sealed under its recorded key, and two different ones share a key only if the
      key schedule collides on their own inputs. */
  lemma GroupKeyReuseIsCollision<K, N>(suite: Suite<K, N>, first: K, commits: nat -> Commit, leaves: seq<U32>,
                                       g: seq<Device<K, N>>, steps: seq<GroupStep>, i: nat, a: nat, j: nat, b: nat)
    requires GroupStarted(suite, first, commits, leaves, g)
    requires InLockstep(suite, commits, g, steps)
    requires i < |g| && j < |g| && (i, a) != (j, b)
    requires a < |RunGroup(suite, g, steps)[i].released| && b < |RunGroup(suite, g, steps)[j].released|
    ensures
      var (x, y) := (RunGroup(suite, g, steps)[i].released[a], RunGroup(suite, g, steps)[j].released[b]);
      var (m, m') := (x.message, y.message);
      var sch := suite.schedule;
      && SealedAsRecorded(suite, x) && SealedAsRecorded(suite, y)
      && (x.key.key == y.key.key ==>
            || MessageKeyCollision(sch, sch.appSecret(Chain(sch, first, commits, m.epoch)), m.senderLeaf, m.counter,
                                   sch.appSecret(Chain(sch, first, commits, m'.epoch)), m'.senderLeaf, m'.counter)
            || ChainFault(sch, first, commits, if m.epoch < m'.epoch then m'.epoch else m.epoch))
  {
    RunGroupKeepsInv(suite, first, commits, leaves, g, steps);
    var g' := RunGroup(suite, g, steps);
    var (x, y) := (g'[i].released[a], g'[j].released[b]);
    EmissionsDiffer(suite, first, commits, leaves, g', i, a, j, b);
    if x.key.key == y.key.key {
      MessageKeysDistinct(suite.schedule, first, commits, x.message.epoch, x.message.senderLeaf, x.message.counter,
                          y.message.epoch, y.message.senderLeaf, y.message.counter);
    }
  }

  /** Likewise for the nonces they were sealed with. */
  lemma GroupNonceReuseIsCollision<K, N>(suite: Suite<K, N>, first: K, commits: nat -> Commit, leaves: seq<U32>,
                                         g: seq<Device<K, N>>, steps: seq<GroupStep>, i: nat, a: nat, j: nat, b: nat)
    requires GroupStarted(suite, first, commits, leaves, g)
    requires InLockstep(suite, commits, g, steps)
    requires i < |g| && j < |g| && (i, a) != (j, b)
    requires a < |RunGroup(suite, g, steps)[i].released| && b < |RunGroup(suite, g, steps)[j].released|
    ensures
      var (x, y) := (RunGroup(suite, g, steps)[i].released[a], RunGroup(suite, g, steps)[j].released[b]);
      var (m, m') := (x.message, y.message);
      var sch := suite.schedule;
      x.key.nonce == y.key.nonce ==>
        || MessageNonceCollision(sch, sch.appSecret(Chain(sch, first, commits, m.epoch)), m.senderLeaf, m.counter,
                                 sch.appSecret(Chain(sch, first, commits, m'.epoch)), m'.senderLeaf, m'.counter)
        || ChainFault(sch, first, commits, if m.epoch < m'.epoch then m'.epoch else m.epoch)
  {
    RunGroupKeepsInv(suite, first, commits, leaves, g, steps);
    var g' := RunGroup(suite, g, steps);
    var (x, y) := (g'[i].released[a], g'[j].released[b]);
    EmissionsDiffer(suite, first, commits, leaves, g', i, a, j, b);
    if x.key.nonce == y.key.nonce {
      MessageNoncesDistinct(suite.schedule, first, commits, x.message.epoch, x.message.senderLeaf, x.message.counter,
                            y.message.epoch, y.message.senderLeaf, y.message.counter);
    }
  }

  /** Symbolically the group never reuses a key or a nonce at all. */
  lemma SymbolicGroupNeverReusesKey(suite: Suite<Term, Term>, first: Term, commits: nat -> Commit, leaves: seq<U32>,
                                    g: seq<Device<Term, Term>>, steps: seq<GroupStep>, i: nat, a: nat, j: nat, b: nat)
    requires suite.schedule == SymbolicSchedule()
    requires GroupStarted(suite, first, commits, leaves, g)
    requires InLockstep(suite, commits, g, steps)
    requires i < |g| && j < |g| && (i, a) != (j, b)
    requires a < |RunGroup(suite, g, steps)[i].released| && b < |RunGroup(suite, g, steps)[j].released|
    ensures
      var (x, y) := (RunGroup(suite, g, steps)[i].released[a], RunGroup(suite, g, steps)[j].released[b]);
      && SealedAsRecorded(suite, x) && SealedAsRecorded(suite, y)
      && x.key.key != y.key.key && x.key.nonce != y.key.nonce
  {
    var (x, y) := (RunGroup(suite, g, steps)[i].released[a], RunGroup(suite, g, steps)[j].released[b]);
    GroupKeyReuseIsCollision(suite, first, commits, leaves, g, steps, i, a, j, b);
    GroupNonceReuseIsCollision(suite, first, commits, leaves, g, steps, i, a, j, b);
    SymbolicChainSound(first, commits, if x.message.epoch < y.message.epoch then y.message.epoch else x.message.epoch);
  }

  /** On bytes, a reused key names its cause: a BLAKE3 collision on the two message preimages, a
      BLAKE3 collision between two links of the chain, or a chain that met its first secret again. */
  lemma Blake3GroupKeyReuse(suite: Suite<Bytes32, Bytes24>, h: Blake3, first: Bytes32, commits: nat -> Commit, leaves: seq<U32>,
                            g: seq<Device<Bytes32, Bytes24>>, steps: seq<GroupStep>, i: nat, a: nat, j: nat, b: nat)
    requires suite.schedule == Blake3Schedule(h)
    requires GroupStarted(suite, first, commits, leaves, g)
    requires InLockstep(suite, commits, g, steps)
    requires i < |g| && j < |g| && (i, a) != (j, b)
    requires a < |RunGroup(suite, g, steps)[i].released| && b < |RunGroup(suite, g, steps)[j].released|
    ensures
      var (x, y) := (RunGroup(suite, g, steps)[i].released[a], RunGroup(suite, g, steps)[j].released[b]);
      var s := suite.schedule;
      var bound := if x.message.epoch < y.message.epoch then y.message.epoch else x.message.epoch;
      && SealedAsRecorded(suite, x) && SealedAsRecorded(suite, y)
      && (x.key.key == y.key.key ==>
        || DeriveKeyCollision(h,
             MESSAGE_KEY_CONTEXT, MessagePreimage(s.appSecret(Chain(s, first, commits, x.message.epoch)), x.message.senderLeaf, x.message.counter),
             MESSAGE_KEY_CONTEXT, MessagePreimage(s.appSecret(Chain(s, first, commits, y.message.epoch)), y.message.senderLeaf, y.message.counter))
        || (exists m :: 0 <= m <= bound && Returns(s, first, commits, m))
        || (exists m, n :: 0 <= m < n <= bound && Blake3LinkCollision(h, first, commits, m, n)))
  {
    var (x, y) := (RunGroup(suite, g, steps)[i].released[a], RunGroup(suite, g, steps)[j].released[b]);
    var s := suite.schedule;
    var bound := if x.message.epoch < y.message.epoch then y.message.epoch else x.message.epoch;
    GroupKeyReuseIsCollision(suite, first, commits, leaves, g, steps, i, a, j, b);
    if x.key.key == y.key.key {
      if ChainFault(s, first, commits, bound) {
        ByteChainFault(h, first, commits, bound);
      } else {
        ByteMessageKeyCollision(h, s.appSecret(Chain(s, first, commits, x.message.epoch)), x.message.senderLeaf, x.message.counter,
                                s.appSecret(Chain(s, first, commits, y.message.epoch)), y.message.senderLeaf, y.message.counter);
      }
    }
  }
}
