/** The bounded per-thread store of retained message keys: a vector kept ascending by sequence
    number, filled by binary-search insertion, deduplicated on merge and capped at the front. */
module KeyStore {
  import opened Octets
  import opened Outcomes
  import opened RetainedKeys
  import opened Lists

  const MAX_RETAINED_KEYS: nat := 100_000

  type Keys = seq<RetainedKey>

  predicate Ascending(ks: Keys) {
    forall i, j :: 0 <= i < j < |ks| ==> ks[i].sequence <= ks[j].sequence
  }

  /** `t` is `s` with `k` put at some place that keeps the order. Which place among equal
      sequence numbers is left open, as the library's binary search leaves it. */
  ghost predicate Inserted(s: Keys, k: RetainedKey, t: Keys) {
    Ascending(t) && exists pos :: 0 <= pos <= |s| && t == Insert(s, pos, k)
  }

  /** The `n` rightmost keys, or all of them. */
  function Newest(ks: Keys, n: nat): Keys {
    if |ks| > n then ks[|ks| - n..] else ks
  }

  predicate HasId(ks: Keys, id: Bytes32) {
    exists i :: 0 <= i < |ks| && ks[i].messageId == id
  }

  function KeepFrom(ks: Keys, timestamp: U64): Keys {
    if ks == [] then []
    else
      var rest := KeepFrom(Front(ks), timestamp);
      if Last(ks).timestamp >= timestamp then rest + [Last(ks)] else rest
  }

  lemma NewestKeepsOrder(ks: Keys, n: nat)
    requires Ascending(ks)
    ensures Ascending(Newest(ks, n)) && |Newest(ks, n)| <= n
  {}

  // ----- steps, as relations between the key vectors before and after

  ghost predicate RetainStep(s: Keys, k: RetainedKey, t: Keys) {
    exists u :: Inserted(s, k, u) && t == Newest(u, MAX_RETAINED_KEYS)
  }

  ghost predicate MergeOne(s: Keys, k: RetainedKey, t: Keys) {
    if HasId(s, k.messageId) then t == s else Inserted(s, k, t)
  }

  /** `states[i + 1]` follows from `states[i]` by offering the `i`-th key of the batch. */
  ghost predicate MergeTrace(states: seq<Keys>, batch: Keys) {
    && |states| == |batch| + 1
    && forall i :: 0 <= i < |batch| ==> MergeOne(states[i], batch[i], states[i + 1])
  }

  ghost predicate MergeStep(s: Keys, batch: Keys, t: Keys) {
    exists states: seq<Keys> ::
      MergeTrace(states, batch) && states[0] == s && t == Newest(Last(states), MAX_RETAINED_KEYS)
  }

  // ----- the store

  class ThreadKeyStore {
    const threadId: Bytes32
    var keys: Keys

    constructor (threadId: Bytes32)
      ensures this.threadId == threadId && keys == []
    {
      this.threadId, keys := threadId, [];
    }

    /** A hit at `pos`, or the place where the sequence number belongs. */
    method BinarySearch(sequence: U64) returns (found: bool, pos: nat)
      requires Ascending(keys)
      ensures found ==> pos < |keys| && keys[pos].sequence == sequence
      ensures pos <= |keys|
      ensures !found ==> forall i :: 0 <= i < pos ==> keys[i].sequence < sequence
      ensures !found ==> forall i :: pos <= i < |keys| ==> sequence < keys[i].sequence
    {
      var lo, hi := 0, |keys|;
      while lo < hi
        invariant 0 <= lo <= hi <= |keys|
        invariant forall i :: 0 <= i < lo ==> keys[i].sequence < sequence
        invariant forall i :: hi <= i < |keys| ==> sequence < keys[i].sequence
      {
        var mid := lo + (hi - lo) / 2;
        if keys[mid].sequence == sequence {
          return true, mid;
        } else if keys[mid].sequence < sequence {
          lo := mid + 1;
        } else {
          hi := mid;
        }
      }
      return false, lo;
    }

    /** Binary search, then insert there. */
    method InsertSorted(key: RetainedKey)
      requires Ascending(keys)
      modifies this`keys
      ensures Inserted(old(keys), key, keys)
    {
      var found, pos := BinarySearch(key.sequence);
      keys := keys[..pos] + [key] + keys[pos..];
      assert keys == Insert(old(keys), pos, key);
    }

    method EnforceCap()
      modifies this`keys
      ensures keys == Newest(old(keys), MAX_RETAINED_KEYS)
    {
      if |keys| > MAX_RETAINED_KEYS {
        var overflow := |keys| - MAX_RETAINED_KEYS;
        keys := keys[overflow..];
      }
    }

    method RetainKey(key: RetainedKey)
      requires Ascending(keys)
      modifies this`keys
      ensures RetainStep(old(keys), key, keys)
      ensures Ascending(keys) && |keys| <= MAX_RETAINED_KEYS
    {
      InsertSorted(key);
      ghost var u := keys;
      EnforceCap();
      NewestKeepsOrder(u, MAX_RETAINED_KEYS);
      assert Inserted(old(keys), key, u) && keys == Newest(u, MAX_RETAINED_KEYS);
    }

    method Merge(other: Keys)
      requires Ascending(keys)
      modifies this`keys
      ensures MergeStep(old(keys), other, keys)
      ensures Ascending(keys) && |keys| <= MAX_RETAINED_KEYS
    {
      ghost var states := [keys];
      for i := 0 to |other|
        invariant Ascending(keys)
        invariant |states| == i + 1 && states[0] == old(keys) && states[i] == keys
        invariant MergeTrace(states, other[..i])
      {
        var key := other[i];
        var known := false;
        for j := 0 to |keys|
          invariant known <==> exists p :: 0 <= p < j && keys[p].messageId == key.messageId
        {
          if keys[j].messageId == key.messageId {
            known := true;
          }
        }
        if !known {
          InsertSorted(key);
        }
        assert MergeOne(states[i], key, keys);
        assert other[..i + 1] == other[..i] + [key];
        states := states + [keys];
      }
      assert other[..|other|] == other;
      NewestKeepsOrder(keys, MAX_RETAINED_KEYS);
      EnforceCap();
    }

    method PruneBefore(timestamp: U64)
      modifies this`keys
      ensures keys == KeepFrom(old(keys), timestamp)
    {
      var all, kept := keys, [];
      for i := 0 to |all|
        invariant kept == KeepFrom(all[..i], timestamp)
      {
        assert Front(all[..i + 1]) == all[..i] && Last(all[..i + 1]) == all[i];
        if all[i].timestamp >= timestamp {
          kept := kept + [all[i]];
        }
      }
      assert all[..|all|] == all;
      keys := kept;
    }

    method Clear()
      modifies this`keys
      ensures keys == []
    {
      keys := [];
    }

    /** A hit exactly when a scan of the whole vector would find the sequence number. */
    method GetKeyBySequence(sequence: U64) returns (r: Option<RetainedKey>)
      requires Ascending(keys)
      ensures r.Some? <==> exists i :: 0 <= i < |keys| && keys[i].sequence == sequence
      ensures r.Some? ==> r.value in keys && r.value.sequence == sequence
    {
      var found, pos := BinarySearch(sequence);
      if found {
        return Some(keys[pos]);
      }
      return None;
    }
  }

  // ----- what every run keeps

  datatype StoreOp = Retain(key: RetainedKey) | MergeBatch(batch: Keys) | Prune(timestamp: U64) | ClearAll

  ghost predicate StoreStep(s: Keys, op: StoreOp, t: Keys) {
    match op
    case Retain(k) => RetainStep(s, k, t)
    case MergeBatch(b) => MergeStep(s, b, t)
    case Prune(ts) => t == KeepFrom(s, ts)
    case ClearAll => t == []
  }

  /** A run: `states[i + 1]` follows from `states[i]` by `ops[i]`. */
  ghost predicate StoreRun(states: seq<Keys>, ops: seq<StoreOp>) {
    && |states| == |ops| + 1
    && states[0] == []
    && forall i :: 0 <= i < |ops| ==> StoreStep(states[i], ops[i], states[i + 1])
  }

  predicate StoreInv(s: Keys) {
    Ascending(s) && |s| <= MAX_RETAINED_KEYS
  }

  lemma {:induction false} KeepFromSelects(ks: Keys, timestamp: U64)
    requires Ascending(ks)
    ensures var t := KeepFrom(ks, timestamp);
            && Ascending(t) && |t| <= |ks|
            && (forall k :: k in t <==> k in ks && k.timestamp >= timestamp)
  {
    if ks == [] {
    } else {
      var init, last := Front(ks), Last(ks);
      KeepFromSelects(init, timestamp);
      assert ks == init + [last];
      var rest := KeepFrom(init, timestamp);
      forall i | 0 <= i < |rest|
        ensures rest[i].sequence <= last.sequence
      {
        assert rest[i] in init;
      }
    }
  }

  lemma {:induction false} MergeKeepsOrder(states: seq<Keys>, batch: Keys, i: nat)
    requires MergeTrace(states, batch) && Ascending(states[0]) && i < |states|
    ensures Ascending(states[i])
  {
    if i == 0 {
    } else {
      MergeKeepsOrder(states, batch, i - 1);
      assert MergeOne(states[i - 1], batch[i - 1], states[i - 1 + 1]);
    }
  }

  lemma StepKeepsInv(s: Keys, op: StoreOp, t: Keys)
    requires StoreInv(s) && StoreStep(s, op, t)
    ensures StoreInv(t)
  {
    match op
    case Retain(k) =>
    case MergeBatch(b) =>
      var states: seq<Keys> :| MergeTrace(states, b) && states[0] == s && t == Newest(Last(states), MAX_RETAINED_KEYS);
      MergeKeepsOrder(states, b, |b|);
    case Prune(ts) =>
      KeepFromSelects(s, ts);
    case ClearAll =>
  }

  /** Through every run of all operations the store stays ascending and within the cap. */
  lemma {:induction false} RunKeepsStore(states: seq<Keys>, ops: seq<StoreOp>, i: nat)
    requires StoreRun(states, ops) && i < |states|
    ensures StoreInv(states[i])
  {
    if i == 0 {
    } else {
      RunKeepsStore(states, ops, i - 1);
      StepKeepsInv(states[i - 1], ops[i - 1], states[i]);
    }
  }

  // ----- retain-only runs

  /** `s` holds the `n` largest of `all`: with the rest `out`, it accounts for every key given,
      nothing left out is newer than anything kept, and nothing is left out below the cap. */
  ghost predicate HoldsLargest(s: Keys, out: Keys, all: Keys, n: nat) {
    && Ascending(s) && |s| <= n
    && multiset(s + out) == multiset(all)
    && (out != [] ==> |s| == n)
    && forall i, j :: 0 <= i < |out| && 0 <= j < |s| ==> out[i].sequence <= s[j].sequence
  }

  lemma RetainKeepsLargest(s: Keys, out: Keys, all: Keys, k: RetainedKey, t: Keys)
    returns (out': Keys)
    requires HoldsLargest(s, out, all, MAX_RETAINED_KEYS) && RetainStep(s, k, t)
    ensures HoldsLargest(t, out', all + [k], MAX_RETAINED_KEYS)
  {
    var u :| Inserted(s, k, u) && t == Newest(u, MAX_RETAINED_KEYS);
    var pos :| 0 <= pos <= |s| && u == Insert(s, pos, k);
    if |s| < MAX_RETAINED_KEYS {
      out' := [];
      RetainFits(s, out, all, pos, k, MAX_RETAINED_KEYS);
    } else {
      out' := out + [u[0]];
      assert t == u[1..];
      RetainEvicts(s, out, all, pos, k, MAX_RETAINED_KEYS);
    }
  }

  lemma RetainFits(s: Keys, out: Keys, all: Keys, pos: nat, k: RetainedKey, n: nat)
    requires HoldsLargest(s, out, all, n) && pos <= |s| < n && Ascending(Insert(s, pos, k))
    ensures HoldsLargest(Insert(s, pos, k), [], all + [k], n)
  {
    InsertMultiset(s, pos, k);
    assert Insert(s, pos, k) + [] == Insert(s, pos, k) && s + out == s;
  }

  lemma RetainEvicts(s: Keys, out: Keys, all: Keys, pos: nat, k: RetainedKey, n: nat)
    requires HoldsLargest(s, out, all, n) && pos <= |s| == n && Ascending(Insert(s, pos, k))
    ensures HoldsLargest(Insert(s, pos, k)[1..], out + [Insert(s, pos, k)[0]], all + [k], n)
  {
    InsertMultiset(s, pos, k);
    EvictMultiset(s, out, all, k, Insert(s, pos, k));
    EvictedBelowKept(s, out, pos, k);
  }

  /** Nothing left out, old or new, is newer than what stays after one more insertion. */
  lemma EvictedBelowKept(s: Keys, out: Keys, pos: nat, k: RetainedKey)
    requires pos <= |s| && Ascending(Insert(s, pos, k))
    requires forall a, b :: 0 <= a < |out| && 0 <= b < |s| ==> out[a].sequence <= s[b].sequence
    ensures var u := Insert(s, pos, k);
            forall i, j :: 0 <= i < |out| + 1 && 0 <= j < |s| ==> (out + [u[0]])[i].sequence <= u[1..][j].sequence
  {
    var u := Insert(s, pos, k);
    forall i, j | 0 <= i < |out| && 1 <= j < |u|
      ensures out[i].sequence <= u[j].sequence
    {
      assert u[j - 1].sequence <= u[j].sequence;
    }
  }

  /** A retain-only run from the empty store, one key at a time. */
  ghost predicate RetainRun(states: seq<Keys>, ks: Keys) {
    && |states| == |ks| + 1 && states[0] == []
    && forall i :: 0 <= i < |ks| ==> RetainStep(states[i], ks[i], states[i + 1])
  }

  lemma NothingHeld(n: nat)
    ensures HoldsLargest([], [], [], n)
  {
    var none: Keys := [];
    assert none + none == none;
  }

  /** Retaining any keys in any order leaves the largest sequence numbers, counted with
      repetition, and drops the rest. */
  lemma {:induction false} RetainRunKeepsLargest(states: seq<Keys>, ks: Keys, i: nat) returns (out: Keys)
    requires RetainRun(states, ks) && i < |states|
    ensures HoldsLargest(states[i], out, ks[..i], MAX_RETAINED_KEYS)
  {
    if i == 0 {
      out := [];
      NothingHeld(MAX_RETAINED_KEYS);
      assert ks[..0] == [];
    } else {
      var before := RetainRunKeepsLargest(states, ks, i - 1);
      assert RetainStep(states[i - 1], ks[i - 1], states[i - 1 + 1]);
      out := RetainKeepsLargest(states[i - 1], before, ks[..i - 1], ks[i - 1], states[i]);
      assert ks[..i - 1] + [ks[i - 1]] == ks[..i];
    }
  }

  function Sequences(ks: Keys): (r: seq<int>)
    ensures |r| == |ks| && forall i :: 0 <= i < |ks| ==> r[i] == ks[i].sequence
  {
    Image((k: RetainedKey) => k.sequence, ks)
  }

  /** The sequence numbers a retain-only store holds depend only on the keys given to it, not on
      their order. */
  lemma RetainOrderIrrelevant(states: seq<Keys>, ks: Keys, states': seq<Keys>, ks': Keys)
    requires RetainRun(states, ks) && RetainRun(states', ks')
    requires multiset(ks) == multiset(ks')
    ensures Sequences(Last(states)) == Sequences(Last(states'))
  {
    var out := RetainRunKeepsLargest(states, ks, |ks|);
    var out' := RetainRunKeepsLargest(states', ks', |ks'|);
    assert ks[..|ks|] == ks && ks'[..|ks'|] == ks';
    LargestSequencesUnique(Last(states), out, Last(states'), out', MAX_RETAINED_KEYS);
  }

  lemma LargestSequencesUnique(s: Keys, out: Keys, s': Keys, out': Keys, n: nat)
    requires multiset(s + out) == multiset(s' + out')
    requires HoldsLargest(s, out, s + out, n) && HoldsLargest(s', out', s' + out', n)
    ensures Sequences(s) == Sequences(s')
  {
    assert |s + out| == |multiset(s + out)| == |multiset(s' + out')| == |s' + out'|;
    SequenceTotals(s, out, s', out');
    OutDominated(s, out);
    OutDominated(s', out');
    LargestUnique(Sequences(s), multiset(Sequences(out)), Sequences(s'), multiset(Sequences(out')));
  }

  lemma SequenceTotals(s: Keys, out: Keys, s': Keys, out': Keys)
    requires multiset(s + out) == multiset(s' + out')
    ensures multiset(Sequences(s)) + multiset(Sequences(out)) == multiset(Sequences(s')) + multiset(Sequences(out'))
  {
    ImageOfPermutation((k: RetainedKey) => k.sequence, s + out, s' + out');
    assert Sequences(s + out) == Sequences(s) + Sequences(out);
    assert Sequences(s' + out') == Sequences(s') + Sequences(out');
  }

  lemma OutDominated(s: Keys, out: Keys)
    requires forall i, j :: 0 <= i < |out| && 0 <= j < |s| ==> out[i].sequence <= s[j].sequence
    ensures forall x, j :: x in multiset(Sequences(out)) && 0 <= j < |Sequences(s)| ==> x <= Sequences(s)[j]
  {
    forall x, j | x in multiset(Sequences(out)) && 0 <= j < |Sequences(s)|
      ensures x <= Sequences(s)[j]
    {
      assert x in Sequences(out);
      var i :| 0 <= i < |Sequences(out)| && Sequences(out)[i] == x;
    }
  }

  // ----- merges converge

  /** Message id and sequence number each determine the key. */
  predicate Consistent(seen: set<RetainedKey>) {
    forall a, b :: a in seen && b in seen && (a.messageId == b.messageId || a.sequence == b.sequence) ==> a == b
  }

  predicate StrictlyAscending(ks: Keys) {
    forall i, j :: 0 <= i < j < |ks| ==> ks[i].sequence < ks[j].sequence
  }

  /** `s` lists keys of `seen` in order, and misses only keys below its own `n` newest. */
  ghost predicate Covers(s: Keys, seen: set<RetainedKey>, n: nat) {
    && StrictlyAscending(s)
    && (forall i :: 0 <= i < |s| ==> s[i] in seen)
    && forall x :: x in seen && x !in s ==> |s| >= n && (n > 0 ==> x.sequence < s[|s| - n].sequence)
  }

  /** `s` is exactly the `n` newest keys of `seen`, ascending. */
  ghost predicate IsNewest(s: Keys, seen: set<RetainedKey>, n: nat) {
    Covers(s, seen, n) && |s| <= n
  }

  function Elements(ks: Keys): set<RetainedKey> {
    set k | k in ks
  }

  lemma MergeOneCovers(s: Keys, seen: set<RetainedKey>, n: nat, k: RetainedKey, t: Keys)
    requires Covers(s, seen, n) && Consistent(seen + {k}) && MergeOne(s, k, t)
    ensures Covers(t, seen + {k}, n)
  {
    if HasId(s, k.messageId) {
      var i :| 0 <= i < |s| && s[i].messageId == k.messageId;
      assert s[i] in seen + {k} && k in seen + {k};
      assert seen + {k} == seen;
    } else {
      var pos :| 0 <= pos <= |s| && t == Insert(s, pos, k);
      NewKeyKeepsCover(s, seen, n, pos, k, t);
    }
  }

  lemma NewKeyKeepsCover(s: Keys, seen: set<RetainedKey>, n: nat, pos: nat, k: RetainedKey, t: Keys)
    requires Covers(s, seen, n) && Consistent(seen + {k}) && !HasId(s, k.messageId)
    requires InsertedAt(s, pos, k, t) && Ascending(t)
    ensures Covers(t, seen + {k}, n)
  {
    NewKeyIsStrict(s, seen, pos, k, t);
    forall x | x in seen + {k} && x !in t
      ensures |t| >= n && (n > 0 ==> x.sequence < t[|t| - n].sequence)
    {
      NewKeyCovers(s, seen, n, pos, k, t, x);
    }
  }

  lemma NewKeyIsStrict(s: Keys, seen: set<RetainedKey>, pos: nat, k: RetainedKey, t: Keys)
    requires StrictlyAscending(s) && Consistent(seen + {k}) && !HasId(s, k.messageId)
    requires forall i :: 0 <= i < |s| ==> s[i] in seen
    requires InsertedAt(s, pos, k, t) && Ascending(t)
    ensures StrictlyAscending(t)
    ensures forall i :: 0 <= i < |t| ==> t[i] in seen + {k}
  {
    forall i | 0 <= i < |s|
      ensures s[i].sequence != k.sequence
    {
      assert s[i] in seen + {k} && k in seen + {k};
      assert s[i].messageId != k.messageId;
    }
    forall i, j | 0 <= i < j < |t|
      ensures t[i].sequence < t[j].sequence
    {
      assert t[i].sequence <= t[j].sequence;
      if i == pos {
        assert t[j] == s[j - 1];
      } else if j == pos {
        assert t[i] == s[i];
      } else {
        var p, q := if i < pos then i else i - 1, if j < pos then j else j - 1;
        assert t[i] == s[p] && t[j] == s[q] && p < q;
      }
    }
  }

  lemma NewKeyCovers(s: Keys, seen: set<RetainedKey>, n: nat, pos: nat, k: RetainedKey, t: Keys, x: RetainedKey)
    requires Covers(s, seen, n) && InsertedAt(s, pos, k, t) && StrictlyAscending(t)
    requires x in seen + {k} && x !in t
    ensures |t| >= n && (n > 0 ==> x.sequence < t[|t| - n].sequence)
  {
    assert t[pos] == k;
    InsertKeepsMembers(s, pos, k, t, x);
    if n > 0 {
      var m := |s| - n;
      if m < pos {
        assert t[m] == s[m] && t[m].sequence < t[m + 1].sequence;
      } else {
        assert t[m + 1] == s[m];
      }
    }
  }

  lemma {:induction false} MergeTraceCovers(states: seq<Keys>, seen: set<RetainedKey>, n: nat, batch: Keys, i: nat)
    requires MergeTrace(states, batch) && i < |states|
    requires Covers(states[0], seen, n) && Consistent(seen + Elements(batch))
    ensures Covers(states[i], seen + Elements(batch[..i]), n)
  {
    if i == 0 {
      assert seen + Elements(batch[..0]) == seen;
    } else {
      MergeTraceCovers(states, seen, n, batch, i - 1);
      var before, k := seen + Elements(batch[..i - 1]), batch[i - 1];
      assert batch[..i] == batch[..i - 1] + [k];
      assert before + {k} == seen + Elements(batch[..i]);
      assert before + {k} <= seen + Elements(batch);
      assert MergeOne(states[i - 1], k, states[i - 1 + 1]);
      MergeOneCovers(states[i - 1], before, n, k, states[i]);
    }
  }

  lemma NewestOfCover(s: Keys, seen: set<RetainedKey>, n: nat)
    requires Covers(s, seen, n) && n > 0
    ensures IsNewest(Newest(s, n), seen, n)
  {
    var t := Newest(s, n);
    if |s| > n {
      forall x | x in seen && x !in t
        ensures |t| >= n && x.sequence < t[|t| - n].sequence
      {
        assert t[0] == s[|s| - n];
        assert forall i :: |s| - n <= i < |s| ==> s[i] == t[i - (|s| - n)];
      }
    }
  }

  /** Merging batch after batch from the empty store. */
  ghost predicate MergeRun(stores: seq<Keys>, batches: seq<Keys>) {
    && |stores| == |batches| + 1 && stores[0] == []
    && forall i :: 0 <= i < |batches| ==> MergeStep(stores[i], batches[i], stores[i + 1])
  }

  function AllSeen(batches: seq<Keys>): set<RetainedKey> {
    set b, k | b in batches && k in b :: k
  }

  /** Any order and batching of merges ends with exactly the newest keys of everything seen, also
      when keys were evicted in between. */
  lemma {:induction false} MergeRunHoldsNewest(stores: seq<Keys>, batches: seq<Keys>, i: nat)
    requires MergeRun(stores, batches) && i < |stores| && Consistent(AllSeen(batches))
    ensures IsNewest(stores[i], AllSeen(batches[..i]), MAX_RETAINED_KEYS)
  {
    if i == 0 {
    } else {
      MergeRunHoldsNewest(stores, batches, i - 1);
      var seen, batch := AllSeen(batches[..i - 1]), batches[i - 1];
      assert batches[..i] == batches[..i - 1] + [batch];
      assert seen + Elements(batch) == AllSeen(batches[..i]);
      assert seen + Elements(batch) <= AllSeen(batches);
      MergeStepHoldsNewest(stores[i - 1], seen, batch, stores[i]);
    }
  }

  lemma MergeStepHoldsNewest(s: Keys, seen: set<RetainedKey>, batch: Keys, t: Keys)
    requires IsNewest(s, seen, MAX_RETAINED_KEYS) && MergeStep(s, batch, t)
    requires Consistent(seen + Elements(batch))
    ensures IsNewest(t, seen + Elements(batch), MAX_RETAINED_KEYS)
  {
    var states: seq<Keys> :|
      MergeTrace(states, batch) && states[0] == s && t == Newest(Last(states), MAX_RETAINED_KEYS);
    MergeTraceCovers(states, seen, MAX_RETAINED_KEYS, batch, |batch|);
    assert batch[..|batch|] == batch;
    NewestOfCover(Last(states), seen + Elements(batch), MAX_RETAINED_KEYS);
  }

  /** The newest keys of a consistent set are one list. */
  lemma {:induction false} NewestUnique(s: Keys, t: Keys, seen: set<RetainedKey>, n: nat)
    requires Consistent(seen) && IsNewest(s, seen, n) && IsNewest(t, seen, n)
    ensures s == t
    decreases n
  {
    if n == 0 || s == [] || t == [] {
      NewestEmpty(s, t, seen, n);
    } else {
      PeelNewest(s, t, seen, n);
      NewestUnique(Front(s), Front(t), seen - {Last(s)}, n - 1);
      FrontAndLast(s, t);
    }
  }

  /** Two lists of the newest keys end alike, and without their last keys they list the rest. */
  lemma PeelNewest(s: Keys, t: Keys, seen: set<RetainedKey>, n: nat)
    requires Consistent(seen) && IsNewest(s, seen, n) && IsNewest(t, seen, n) && n > 0 && s != [] && t != []
    ensures Last(s) == Last(t)
    ensures var rest := seen - {Last(s)};
            Consistent(rest) && IsNewest(Front(s), rest, n - 1) && IsNewest(Front(t), rest, n - 1)
  {
    SameLast(s, t, seen, n);
    DropLast(s, seen, n);
    DropLast(t, seen, n);
  }

  lemma FrontAndLast(s: Keys, t: Keys)
    requires s != [] && t != [] && Front(s) == Front(t) && Last(s) == Last(t)
    ensures s == t
  {
    assert s == Front(s) + [Last(s)] && t == Front(t) + [Last(t)];
  }

  lemma NewestEmpty(s: Keys, t: Keys, seen: set<RetainedKey>, n: nat)
    requires IsNewest(s, seen, n) && IsNewest(t, seen, n) && (n == 0 || s == [] || t == [])
    ensures s == t == []
  {
    if n > 0 && s == [] && t != [] {
      NotMissed(s, seen, n, t[0]);
    } else if n > 0 && t == [] && s != [] {
      NotMissed(t, seen, n, s[0]);
    }
  }

  lemma NotMissed(s: Keys, seen: set<RetainedKey>, n: nat, x: RetainedKey)
    requires Covers(s, seen, n) && |s| < n && x in seen
    ensures x in s
  {}

  lemma SameLast(s: Keys, t: Keys, seen: set<RetainedKey>, n: nat)
    requires Consistent(seen) && IsNewest(s, seen, n) && IsNewest(t, seen, n) && n > 0 && s != [] && t != []
    ensures Last(s) == Last(t)
  {
    assert Last(s) in seen && Last(t) in seen;
    LastIsMax(s, seen, n, Last(t));
    LastIsMax(t, seen, n, Last(s));
  }

  lemma LastIsMax(s: Keys, seen: set<RetainedKey>, n: nat, x: RetainedKey)
    requires IsNewest(s, seen, n) && n > 0 && s != [] && x in seen
    ensures x.sequence <= Last(s).sequence
  {
    if x in s {
      var i :| 0 <= i < |s| && s[i] == x;
    } else {
      assert s[|s| - n].sequence <= s[|s| - 1].sequence;
    }
  }

  lemma DropLast(s: Keys, seen: set<RetainedKey>, n: nat)
    requires IsNewest(s, seen, n) && n > 0 && s != []
    ensures IsNewest(Front(s), seen - {Last(s)}, n - 1)
  {
    var r, m := Front(s), Last(s);
    assert s == r + [m];
    forall i | 0 <= i < |r|
      ensures r[i] in seen - {m}
    {
      assert r[i] == s[i] && s[i].sequence < s[|s| - 1].sequence;
    }
  }

  /** Two devices that saw the same shares, however ordered and batched, hold identical stores. */
  lemma MergesConverge(stores: seq<Keys>, batches: seq<Keys>, stores': seq<Keys>, batches': seq<Keys>)
    requires MergeRun(stores, batches) && MergeRun(stores', batches')
    requires AllSeen(batches) == AllSeen(batches') && Consistent(AllSeen(batches))
    ensures Last(stores) == Last(stores')
  {
    MergeRunHoldsNewest(stores, batches, |batches|);
    MergeRunHoldsNewest(stores', batches', |batches'|);
    assert batches[..|batches|] == batches && batches'[..|batches'|] == batches';
    NewestUnique(Last(stores), Last(stores'), AllSeen(batches), MAX_RETAINED_KEYS);
  }

  // ----- one merge of any batch

  /** The keys of a batch that a merge takes: the first of each message id that is not held. */
  function Taken(held: set<Bytes32>, batch: Keys): Keys
    decreases |batch|
  {
    if batch == [] then []
    else if batch[0].messageId in held then Taken(held, batch[1..])
    else [batch[0]] + Taken(held + {batch[0].messageId}, batch[1..])
  }

  function Ids(ks: Keys): set<Bytes32> {
    set k | k in ks :: k.messageId
  }

  lemma HasIdIsMember(s: Keys, id: Bytes32)
    ensures HasId(s, id) <==> id in Ids(s)
  {
    if HasId(s, id) {
      var i :| 0 <= i < |s| && s[i].messageId == id;
      assert s[i] in s;
    }
    if id in Ids(s) {
      var k :| k in s && k.messageId == id;
      var i :| 0 <= i < |s| && s[i] == k;
    }
  }

  lemma InsertIds(s: Keys, k: RetainedKey, t: Keys)
    requires Inserted(s, k, t)
    ensures Ids(t) == Ids(s) + {k.messageId}
    ensures multiset(t) == multiset(s) + multiset{k}
  {
    var pos :| 0 <= pos <= |s| && t == Insert(s, pos, k);
    InsertMultiset(s, pos, k);
    IdsOfMultiset(s, k, t);
  }

  lemma IdsOfMultiset(s: Keys, k: RetainedKey, t: Keys)
    requires multiset(t) == multiset(s) + multiset{k}
    ensures Ids(t) == Ids(s) + {k.messageId}
  {
    forall x ensures x in t <==> x in s || x == k {
      assert x in t <==> x in multiset(t);
      assert x in s <==> x in multiset(s);
    }
  }

  /** Through a batch the held keys stay and the taken ones come in, each in its place. */
  lemma {:induction false} MergeTraceTakes(states: seq<Keys>, batch: Keys)
    requires MergeTrace(states, batch) && Ascending(states[0])
    ensures Ascending(Last(states))
    ensures multiset(Last(states)) == multiset(states[0]) + multiset(Taken(Ids(states[0]), batch))
    decreases |batch|
  {
    if batch == [] {
    } else {
      var k := batch[0];
      assert MergeOne(states[0], k, states[0 + 1]);
      HasIdIsMember(states[0], k.messageId);
      MergeTraceTail(states, batch);
      MergeTraceTakes(states[1..], batch[1..]);
      if !HasId(states[0], k.messageId) {
        InsertIds(states[0], k, states[1]);
        ConsMultiset(k, Taken(Ids(states[1]), batch[1..]));
      }
    }
  }

  lemma ConsMultiset(k: RetainedKey, ks: Keys)
    ensures multiset([k] + ks) == multiset{k} + multiset(ks)
  {}

  lemma MergeTraceTail(states: seq<Keys>, batch: Keys)
    requires MergeTrace(states, batch) && batch != []
    ensures MergeTrace(states[1..], batch[1..]) && Last(states[1..]) == Last(states)
  {
    forall i | 0 <= i < |batch[1..]|
      ensures MergeOne(states[1..][i], batch[1..][i], states[1..][i + 1])
    {
      assert MergeOne(states[i + 1], batch[i + 1], states[i + 1 + 1]);
    }
  }

  /** Any merge, of any batch and whatever the keys: the store and the taken keys together are
      accounted for, and the largest sequence numbers up to the cap are kept. In particular no held
      key is replaced by an incoming one. */
  lemma MergeExact(s: Keys, batch: Keys, t: Keys) returns (out: Keys)
    requires Ascending(s) && MergeStep(s, batch, t)
    ensures HoldsLargest(t, out, s + Taken(Ids(s), batch), MAX_RETAINED_KEYS)
  {
    var states: seq<Keys> :| MergeTrace(states, batch) && states[0] == s && t == Newest(Last(states), MAX_RETAINED_KEYS);
    MergeTraceTakes(states, batch);
    var u := Last(states);
    NewestHoldsLargest(u, MAX_RETAINED_KEYS);
    out := u[..|u| - |t|];
    assert multiset(s + Taken(Ids(s), batch)) == multiset(s) + multiset(Taken(Ids(s), batch));
  }

  lemma NewestHoldsLargest(u: Keys, n: nat)
    requires Ascending(u)
    ensures HoldsLargest(Newest(u, n), u[..|u| - |Newest(u, n)|], u, n)
  {
    var cut := |u| - |Newest(u, n)|;
    var out, t := u[..cut], u[cut..];
    assert u == out + t;
    SwapHalves(out, t);
    OrderAcrossCut(u, cut);
  }

  lemma SwapHalves(a: Keys, b: Keys)
    ensures multiset(a + b) == multiset(b + a)
  {
    assert multiset(a + b) == multiset(a) + multiset(b);
    assert multiset(b + a) == multiset(a) + multiset(b);
  }

  lemma OrderAcrossCut(u: Keys, cut: nat)
    requires Ascending(u) && cut <= |u|
    ensures Ascending(u[cut..])
    ensures forall i, j :: 0 <= i < |u[..cut]| && 0 <= j < |u[cut..]| ==> u[..cut][i].sequence <= u[cut..][j].sequence
  {}

  lemma {:induction false} TakenComesFromBatch(held: set<Bytes32>, batch: Keys, k: RetainedKey)
    requires k in Taken(held, batch)
    ensures k in batch && k.messageId !in held
    decreases |batch|
  {
    if batch == [] {
    } else if batch[0].messageId in held {
      TakenComesFromBatch(held, batch[1..], k);
    } else if k != batch[0] {
      TakenComesFromBatch(held + {batch[0].messageId}, batch[1..], k);
    }
  }

  lemma {:induction false} TakenMissesNothing(held: set<Bytes32>, batch: Keys, k: RetainedKey)
    requires k in batch && k.messageId !in held
    ensures exists x :: x in Taken(held, batch) && x.messageId == k.messageId
    decreases |batch|
  {
    if batch == [] {
    } else if batch[0].messageId in held {
      TakenMissesNothing(held, batch[1..], k);
    } else if k.messageId == batch[0].messageId {
      assert batch[0] in Taken(held, batch);
    } else {
      TakenMissesNothing(held + {batch[0].messageId}, batch[1..], k);
      var x :| x in Taken(held + {batch[0].messageId}, batch[1..]) && x.messageId == k.messageId;
      assert x in Taken(held, batch);
    }
  }

  /** Every held key survives a merge unless the cap evicts it; every key that is new in the store
      is in the batch, under a message id that was not held; and every message id that the batch
      brings is in the store afterwards, unless the cap evicts it. */
  lemma MergeKeepsHeldKeys(s: Keys, batch: Keys, t: Keys)
    requires Ascending(s) && MergeStep(s, batch, t)
    ensures forall k :: k in s ==> k in t || (|t| == MAX_RETAINED_KEYS && k.sequence <= t[0].sequence)
    ensures forall k :: k in t ==> k in s || (k in batch && !HasId(s, k.messageId))
    ensures |t| < MAX_RETAINED_KEYS ==> forall k :: k in batch ==> HasId(t, k.messageId)
  {
    var out := MergeExact(s, batch, t);
    var taken := Taken(Ids(s), batch);
    forall k | k in s ensures k in t || (|t| == MAX_RETAINED_KEYS && k.sequence <= t[0].sequence) {
      KeptOrEvicted(t, out, s + taken, k);
    }
    forall k | k in t ensures k in s || (k in batch && !HasId(s, k.messageId)) {
      assert k in multiset(t + out) && k in multiset(s + taken);
      assert k in s + taken;
      if k !in s {
        TakenComesFromBatch(Ids(s), batch, k);
        HasIdIsMember(s, k.messageId);
      }
    }
    if |t| < MAX_RETAINED_KEYS {
      forall k | k in batch ensures HasId(t, k.messageId) {
        BatchIdArrives(s, batch, t, out, k);
      }
    }
  }

  lemma KeptOrEvicted(t: Keys, out: Keys, all: Keys, k: RetainedKey)
    requires HoldsLargest(t, out, all, MAX_RETAINED_KEYS) && k in all
    ensures k in t || (|t| == MAX_RETAINED_KEYS && k.sequence <= t[0].sequence)
  {
    assert k in multiset(all) && k in multiset(t + out);
    assert k in t + out;
    if k !in t {
      var i :| 0 <= i < |out| && out[i] == k;
    }
  }

  lemma BatchIdArrives(s: Keys, batch: Keys, t: Keys, out: Keys, k: RetainedKey)
    requires HoldsLargest(t, out, s + Taken(Ids(s), batch), MAX_RETAINED_KEYS) && |t| < MAX_RETAINED_KEYS && k in batch
    ensures HasId(t, k.messageId)
  {
    var taken := Taken(Ids(s), batch);
    HasIdIsMember(t, k.messageId);
    if k.messageId in Ids(s) {
      var x :| x in s && x.messageId == k.messageId;
      KeptOrEvicted(t, out, s + taken, x);
    } else {
      TakenMissesNothing(Ids(s), batch, k);
      var x :| x in taken && x.messageId == k.messageId;
      KeptOrEvicted(t, out, s + taken, x);
    }
  }

  // ----- retains and merges mixed

  /** A device that retains its own keys and merges the shares of others. */
  datatype Offer = Retained(key: RetainedKey) | Shared(batch: Keys) {
    function Batch(): Keys {
      match this
      case Retained(k) => [k]
      case Shared(b) => b
    }
  }

  ghost predicate OfferStep(s: Keys, o: Offer, t: Keys) {
    match o
    case Retained(k) => RetainStep(s, k, t)
    case Shared(b) => MergeStep(s, b, t)
  }

  ghost predicate OfferRun(stores: seq<Keys>, offers: seq<Offer>) {
    && |stores| == |offers| + 1 && stores[0] == []
    && forall i :: 0 <= i < |offers| ==> OfferStep(stores[i], offers[i], stores[i + 1])
  }

  /** No key is retained while a key of its message id is held. */
  predicate RetainsOnlyNew(stores: seq<Keys>, offers: seq<Offer>)
    requires |stores| == |offers| + 1
  {
    forall i :: 0 <= i < |offers| && offers[i].Retained? ==> !HasId(stores[i], offers[i].key.messageId)
  }

  function Batches(offers: seq<Offer>): (r: seq<Keys>)
    ensures |r| == |offers|
  {
    seq(|offers|, i requires 0 <= i < |offers| => offers[i].Batch())
  }

  /** Retaining a key whose message id is not held is merging it alone. */
  lemma RetainingNewIsMerging(s: Keys, k: RetainedKey, t: Keys)
    requires !HasId(s, k.messageId) && RetainStep(s, k, t)
    ensures MergeStep(s, [k], t)
  {
    var u :| Inserted(s, k, u) && t == Newest(u, MAX_RETAINED_KEYS);
    var states := [s, u];
    assert MergeOne(states[0], [k][0], states[1]);
    assert MergeTrace(states, [k]) && Last(states) == u;
  }

  lemma OfferRunIsMergeRun(stores: seq<Keys>, offers: seq<Offer>)
    requires OfferRun(stores, offers) && RetainsOnlyNew(stores, offers)
    ensures MergeRun(stores, Batches(offers))
  {
    forall i | 0 <= i < |offers|
      ensures MergeStep(stores[i], Batches(offers)[i], stores[i + 1])
    {
      assert OfferStep(stores[i], offers[i], stores[i + 1]);
      if offers[i].Retained? {
        RetainingNewIsMerging(stores[i], offers[i].key, stores[i + 1]);
      }
    }
  }

  /** Retains and merges together hold exactly the newest keys of everything offered, as long as no
      held message is retained again. */
  lemma OffersHoldNewest(stores: seq<Keys>, offers: seq<Offer>)
    requires OfferRun(stores, offers) && RetainsOnlyNew(stores, offers) && Consistent(AllSeen(Batches(offers)))
    ensures IsNewest(Last(stores), AllSeen(Batches(offers)), MAX_RETAINED_KEYS)
  {
    OfferRunIsMergeRun(stores, offers);
    MergeRunHoldsNewest(stores, Batches(offers), |offers|);
    assert Batches(offers)[..|offers|] == Batches(offers);
  }

  /** Two devices offered the same keys, retained by one and shared with the other or both, hold
      identical stores. */
  lemma OffersConverge(stores: seq<Keys>, offers: seq<Offer>, stores': seq<Keys>, offers': seq<Offer>)
    requires OfferRun(stores, offers) && RetainsOnlyNew(stores, offers)
    requires OfferRun(stores', offers') && RetainsOnlyNew(stores', offers')
    requires AllSeen(Batches(offers)) == AllSeen(Batches(offers')) && Consistent(AllSeen(Batches(offers)))
    ensures Last(stores) == Last(stores')
  {
    OffersHoldNewest(stores, offers);
    OffersHoldNewest(stores', offers');
    NewestUnique(Last(stores), Last(stores'), AllSeen(Batches(offers)), MAX_RETAINED_KEYS);
  }

  /** Where it breaks: retaining one key keeps the store the newest of everything seen unless the
      key is held already, and then only if the cap evicts the very duplicate. */
  lemma RetainHoldsNewestIff(s: Keys, seen: set<RetainedKey>, k: RetainedKey, t: Keys)
    requires IsNewest(s, seen, MAX_RETAINED_KEYS) && Consistent(seen + {k}) && RetainStep(s, k, t)
    ensures IsNewest(t, seen + {k}, MAX_RETAINED_KEYS)
       <==> !HasId(s, k.messageId) || (|s| == MAX_RETAINED_KEYS && s[0] == k)
  {
    if !HasId(s, k.messageId) {
      NewRetain(s, seen, k, t);
    } else {
      HeldRetain(s, seen, k, t);
    }
  }

  lemma NewRetain(s: Keys, seen: set<RetainedKey>, k: RetainedKey, t: Keys)
    requires IsNewest(s, seen, MAX_RETAINED_KEYS) && Consistent(seen + {k}) && RetainStep(s, k, t)
    requires !HasId(s, k.messageId)
    ensures IsNewest(t, seen + {k}, MAX_RETAINED_KEYS)
  {
    var u :| Inserted(s, k, u) && t == Newest(u, MAX_RETAINED_KEYS);
    MergeOneCovers(s, seen, MAX_RETAINED_KEYS, k, u);
    NewestOfCover(u, seen + {k}, MAX_RETAINED_KEYS);
  }

  lemma HeldRetain(s: Keys, seen: set<RetainedKey>, k: RetainedKey, t: Keys)
    requires IsNewest(s, seen, MAX_RETAINED_KEYS) && Consistent(seen + {k}) && RetainStep(s, k, t)
    requires HasId(s, k.messageId)
    ensures IsNewest(t, seen + {k}, MAX_RETAINED_KEYS) <==> |s| == MAX_RETAINED_KEYS && s[0] == k
  {
    var h :| 0 <= h < |s| && s[h].messageId == k.messageId;
    assert s[h] in seen + {k} && k in seen + {k};
    assert seen + {k} == seen;
    RepeatedRetain(s, k, h, t);
    TwiceIsNotNewest(s, seen, t);
  }

  lemma TwiceIsNotNewest(s: Keys, seen: set<RetainedKey>, t: Keys)
    requires IsNewest(s, seen, MAX_RETAINED_KEYS) && (t == s || !StrictlyAscending(t))
    ensures IsNewest(t, seen, MAX_RETAINED_KEYS) <==> t == s
  {}

  /** A repeated retain leaves the key twice, or leaves the store as it was. */
  lemma RepeatedRetain(s: Keys, k: RetainedKey, h: nat, t: Keys)
    requires StrictlyAscending(s) && h < |s| <= MAX_RETAINED_KEYS && s[h] == k
    requires RetainStep(s, k, t)
    ensures if |s| == MAX_RETAINED_KEYS && s[0] == k then t == s else t != s && !StrictlyAscending(t)
  {
    assert s[0] == k <==> h == 0;
    var u :| Inserted(s, k, u) && t == Newest(u, MAX_RETAINED_KEYS);
    var pos :| 0 <= pos <= |s| && u == Insert(s, pos, k);
    DuplicateSitsBeside(s, k, h, pos, u);
    NewestAfterDuplicate(s, k, h, pos, u, MAX_RETAINED_KEYS);
  }

  lemma NewestAfterDuplicate(s: Keys, k: RetainedKey, h: nat, pos: nat, u: Keys, n: nat)
    requires h < |s| <= n && s[h] == k && h <= pos <= h + 1 && u == Insert(s, pos, k)
    requires u[h] == u[h + 1] == k
    ensures if |s| == n && h == 0 then Newest(u, n) == s else !StrictlyAscending(Newest(u, n))
  {
    var t := Newest(u, n);
    if |s| < n {
      assert t[h] == t[h + 1];
    } else {
      assert t == u[1..];
      if h == 0 {
        assert u[1..] == s;
      } else {
        assert t[h - 1] == t[h];
      }
    }
  }

  lemma TooEarly(s: Keys, k: RetainedKey, h: nat, pos: nat, u: Keys)
    requires StrictlyAscending(s) && pos < h < |s| && s[h] == k && InsertedAt(s, pos, k, u)
    ensures u[pos + 1].sequence < u[pos].sequence
  {
    assert u[pos] == k && u[pos + 1] == s[pos];
  }

  lemma TooLate(s: Keys, k: RetainedKey, h: nat, pos: nat, u: Keys)
    requires StrictlyAscending(s) && h + 1 < pos <= |s| && s[h] == k && InsertedAt(s, pos, k, u)
    ensures u[pos].sequence < u[pos - 1].sequence
  {
    assert u[pos] == k && u[pos - 1] == s[pos - 1];
  }

  lemma DuplicateSitsBeside(s: Keys, k: RetainedKey, h: nat, pos: nat, u: Keys)
    requires StrictlyAscending(s) && h < |s| && s[h] == k && pos <= |s|
    requires InsertedAt(s, pos, k, u) && Ascending(u)
    ensures h <= pos <= h + 1 && u[h] == u[h + 1] == k
  {
    if pos < h {
      TooEarly(s, k, h, pos, u);
    } else if h + 1 < pos {
      TooLate(s, k, h, pos, u);
    } else {
      assert u[pos] == k;
    }
  }

  /** A device that retains one key twice diverges from one that merges it twice: the one run
      ends with two copies, the other with one. */
  lemma RetainingTwiceDiverges(k: RetainedKey)
    ensures OfferRun([[], [k], [k, k]], [Retained(k), Retained(k)])
    ensures OfferRun([[], [k], [k]], [Retained(k), Shared([k])])
    ensures Consistent({k}) && AllSeen(Batches([Retained(k), Retained(k)])) == AllSeen(Batches([Retained(k), Shared([k])])) == {k}
  {
    RetainOnce([], k, 0, [k]);
    RetainOnce([k], k, 1, [k, k]);
    MergeHeldAlone(k);
    TwoOffers(Retained(k), [k], Retained(k), [k, k]);
    TwoOffers(Retained(k), [k], Shared([k]), [k]);
    OneKeySeen(k, Retained(k));
    OneKeySeen(k, Shared([k]));
  }

  lemma TwoOffers(o: Offer, s: Keys, o': Offer, t: Keys)
    requires OfferStep([], o, s) && OfferStep(s, o', t)
    ensures OfferRun([[], s, t], [o, o'])
  {}

  lemma OneKeySeen(k: RetainedKey, o: Offer)
    requires o.Batch() == [k]
    ensures AllSeen(Batches([Retained(k), o])) == {k}
  {
    assert Batches([Retained(k), o]) == [[k], [k]];
    SeenOnce([[k], [k]], k);
  }

  lemma MergeHeldAlone(k: RetainedKey)
    ensures MergeStep([k], [k], [k])
  {
    var s := [k];
    assert s[0].messageId == k.messageId;
    assert MergeOne(s, k, s);
    var states := [s, s];
    assert MergeTrace(states, [k]) && Last(states) == s;
  }

  lemma SeenOnce(batches: seq<Keys>, k: RetainedKey)
    requires batches != [] && forall b :: b in batches ==> b == [k]
    ensures AllSeen(batches) == {k}
  {
    assert batches[0] in batches && k in batches[0];
  }

  lemma RetainOnce(s: Keys, k: RetainedKey, pos: nat, t: Keys)
    requires pos <= |s| && t == Insert(s, pos, k) && Ascending(t) && |t| <= MAX_RETAINED_KEYS
    ensures RetainStep(s, k, t)
  {
    assert Inserted(s, k, t) && t == Newest(t, MAX_RETAINED_KEYS);
  }
}
