/** Safety numbers: fingerprints of two identities, alone or with their device sets, and their
    decimal display. */
module SafetyNumbers {
  import opened Octets
  import opened Primitives
  import opened Lists
  import opened ByteOrder
  import Decimal

  const SAFETY_NUMBER_CONTEXT := "trelis-safety-number-v1"
  const SAFETY_NUMBER_DEVICE_SET_CONTEXT := "trelis-safety-number-device-set-v1"

  type SigningKeyBytes = b: Bytes | |b| == 2009 witness seq(2009, _ => 0)
  type KemKeyBytes = b: Bytes | |b| == 1214 witness seq(1214, _ => 0)

  datatype IdentityKey = IdentityKey(signing: SigningKeyBytes, kem: KemKeyBytes)

  /** One user: an identity and the current devices. */
  datatype Party = Party(identity: IdentityKey, devices: seq<SigningKeyBytes>)

  // ----- the hashes

  function IdentityPreimage(k: IdentityKey): Bytes {
    k.signing + k.kem
  }

  function DeviceFingerprints(h: Blake3, devices: seq<SigningKeyBytes>): Digests {
    Image((d: SigningKeyBytes) => h.hash(d), devices)
  }

  function DeviceSetPreimage(h: Blake3, p: Party): Bytes {
    Flatten(Sort(DeviceFingerprints(h, p.devices)))
  }

  function PartyPreimage(h: Blake3, p: Party): Bytes {
    h.hash(IdentityPreimage(p.identity)) + h.hash(DeviceSetPreimage(h, p))
  }

  function PartyDigest(h: Blake3, p: Party): Bytes32 {
    h.hash(PartyPreimage(h, p))
  }

  /** The smaller digest first; equal digests come out the same either way. */
  function PairPreimage(a: Bytes32, b: Bytes32): Bytes {
    if Leq(a, b) then a + b else b + a
  }

  function DeviceSetFingerprint(h: Blake3, p: Party, q: Party): Bytes32 {
    h.deriveKey(SAFETY_NUMBER_DEVICE_SET_CONTEXT, PairPreimage(PartyDigest(h, p), PartyDigest(h, q)))
  }

  function IdentityFingerprint(h: Blake3, a: IdentityKey, b: IdentityKey): Bytes32 {
    h.deriveKey(SAFETY_NUMBER_CONTEXT, PairPreimage(h.hash(IdentityPreimage(a)), h.hash(IdentityPreimage(b))))
  }

  /** `hash_identity_with_devices`: fingerprint each device, sort, append, and hash twice. */
  method HashIdentityWithDevices(h: Blake3, p: Party) returns (digest: Bytes32)
    ensures digest == PartyDigest(h, p)
  {
    var fingerprints: Digests := [];
    for i := 0 to |p.devices|
      invariant |fingerprints| == i
      invariant forall j :: 0 <= j < i ==> fingerprints[j] == h.hash(p.devices[j])
    {
      fingerprints := fingerprints + [h.hash(p.devices[i])];
    }
    assert fingerprints == DeviceFingerprints(h, p.devices);
    var sorted := Sort(fingerprints);
    var input: Bytes := [];
    for i := 0 to |sorted|
      invariant input == Flatten(sorted[..i])
    {
      assert sorted[..i + 1] == sorted[..i] + [sorted[i]];
      FlattenAppend(sorted[..i], sorted[i]);
      input := input + sorted[i];
    }
    assert sorted[..|sorted|] == sorted;
    digest := h.hash(h.hash(IdentityPreimage(p.identity)) + h.hash(input));
  }

  /** Where the parts of the two preimages lie: signing key before KEM key, identity before devices. */
  lemma IdentityLayout(h: Blake3, p: Party)
    ensures IdentityPreimage(p.identity)[..2009] == p.identity.signing && IdentityPreimage(p.identity)[2009..] == p.identity.kem
    ensures PartyPreimage(h, p)[..32] == h.hash(IdentityPreimage(p.identity)) && PartyPreimage(h, p)[32..] == h.hash(DeviceSetPreimage(h, p))
  {}

  // ----- canonicity

  /** Same identity and the same devices, in any order, counted with repetition. */
  predicate SameParty(p: Party, q: Party) {
    p.identity == q.identity && multiset(p.devices) == multiset(q.devices)
  }

  predicate SamePairOfParties(p: Party, q: Party, p': Party, q': Party) {
    (SameParty(p, p') && SameParty(q, q')) || (SameParty(p, q') && SameParty(q, p'))
  }

  /** The inputs on which computing one party's digest calls the plain hash. */
  function Queries(h: Blake3, p: Party): set<Bytes> {
    {IdentityPreimage(p.identity), DeviceSetPreimage(h, p), PartyPreimage(h, p)} + set d: Bytes | d in p.devices
  }

  /** The hash collides between an input queried on one side and one queried on the other. */
  ghost predicate CollisionBetween(h: Blake3, xs: set<Bytes>, ys: set<Bytes>) {
    exists x, y :: x in xs && y in ys && HashCollision(h, x, y)
  }

  lemma DigestIgnoresDeviceOrder(h: Blake3, p: Party, q: Party)
    requires SameParty(p, q)
    ensures PartyDigest(h, p) == PartyDigest(h, q)
  {
    ImageOfPermutation((d: SigningKeyBytes) => h.hash(d), p.devices, q.devices);
    SortIsCanonical(DeviceFingerprints(h, p.devices), DeviceFingerprints(h, q.devices));
  }

  lemma SameFingerprintsSameDevices(h: Blake3, p: Party, q: Party)
    requires DeviceSetPreimage(h, p) == DeviceSetPreimage(h, q)
    ensures multiset(p.devices) == multiset(q.devices) || CollisionBetween(h, Queries(h, p), Queries(h, q))
  {
    var f := (d: SigningKeyBytes) => h.hash(d);
    FlattenInjective(Sort(Image(f, p.devices)), Sort(Image(f, q.devices)), 32);
    SortIsCanonical(Image(f, p.devices), Image(f, q.devices));
    if i, j :| 0 <= i < |p.devices| && 0 <= j < |q.devices| && f(p.devices[i]) == f(q.devices[j]) && p.devices[i] != q.devices[j] {
      assert p.devices[i] in Queries(h, p) && q.devices[j] in Queries(h, q);
      assert HashCollision(h, p.devices[i], q.devices[j]);
    } else {
      PreimageOfPermutation(f, p.devices, q.devices);
    }
  }

  /** One digest means one party, or a collision between the queries of the two computations. */
  lemma DigestBindsParty(h: Blake3, p: Party, q: Party)
    requires PartyDigest(h, p) == PartyDigest(h, q)
    ensures SameParty(p, q) || CollisionBetween(h, Queries(h, p), Queries(h, q))
  {
    var x, y := PartyPreimage(h, p), PartyPreimage(h, q);
    var ip, iq := IdentityPreimage(p.identity), IdentityPreimage(q.identity);
    var dp, dq := DeviceSetPreimage(h, p), DeviceSetPreimage(h, q);
    if x != y {
      assert HashCollision(h, x, y) && x in Queries(h, p) && y in Queries(h, q);
    } else {
      SplitEqual(h.hash(ip), h.hash(dp), h.hash(iq), h.hash(dq));
      if ip != iq {
        assert HashCollision(h, ip, iq) && ip in Queries(h, p) && iq in Queries(h, q);
      } else if dp != dq {
        assert HashCollision(h, dp, dq) && dp in Queries(h, p) && dq in Queries(h, q);
      } else {
        SplitEqual(p.identity.signing, p.identity.kem, q.identity.signing, q.identity.kem);
        SameFingerprintsSameDevices(h, p, q);
      }
    }
  }

  /** The pair preimage forgets the order of its arguments and nothing else. */
  lemma PairPreimageUnordered(a: Bytes32, b: Bytes32, c: Bytes32, d: Bytes32)
    ensures PairPreimage(a, b) == PairPreimage(c, d) <==> (a == c && b == d) || (a == d && b == c)
  {
    LeqTotal(a, b);
    LeqTotal(c, d);
    if Leq(a, b) && Leq(b, a) {
      LeqAntisymmetric(a, b);
    }
    SplitEqual(a, b, c, d);
    SplitEqual(a, b, d, c);
    SplitEqual(b, a, c, d);
    SplitEqual(b, a, d, c);
  }

  /** It is the two digests in ascending order. */
  lemma PairPreimageSorted(a: Bytes32, b: Bytes32)
    ensures PairPreimage(a, b) == Flatten(Sort([a, b]))
  {
    var none: Digests := [];
    assert [a, b][1..] == [b] && [b][1..] == none;
    assert SortInsert(none, a) == [a] && SortInsert(none, b) == [b];
    assert Sort([b]) == [b] && Sort([a, b]) == SortInsert([b], a);
    LeqTotal(a, b);
    if Leq(a, b) {
      assert SortInsert([b], a) == [a, b];
      TwoFlattened(a, b);
    } else {
      assert SortInsert([b], a) == [b] + SortInsert(none, a) == [b, a];
      TwoFlattened(b, a);
    }
  }

  lemma TwoFlattened(a: Bytes32, b: Bytes32)
    ensures Flatten([a, b]) == a + b
  {
    assert [a, b][1..] == [b] && [b][1..] == [];
    assert Flatten([b]) == b + [];
  }

  /** The preimages of the two final derivations collide. */
  predicate PairCollision(h: Blake3, context: string, a: Bytes32, b: Bytes32, c: Bytes32, d: Bytes32) {
    DeriveKeyCollision(h, context, PairPreimage(a, b), context, PairPreimage(c, d))
  }

  /** Swapping the arguments or reordering devices never changes a safety number. */
  lemma FingerprintIsInvariant(h: Blake3, p: Party, q: Party, p': Party, q': Party)
    requires SamePairOfParties(p, q, p', q')
    ensures DeviceSetFingerprint(h, p, q) == DeviceSetFingerprint(h, p', q')
  {
    if SameParty(p, p') && SameParty(q, q') {
      DigestIgnoresDeviceOrder(h, p, p');
      DigestIgnoresDeviceOrder(h, q, q');
    } else {
      DigestIgnoresDeviceOrder(h, p, q');
      DigestIgnoresDeviceOrder(h, q, p');
    }
    PairPreimageUnordered(PartyDigest(h, p), PartyDigest(h, q), PartyDigest(h, p'), PartyDigest(h, q'));
  }

  /** Equal safety numbers mean the same unordered pair of users with the same devices, or a
      collision on inputs the two computations themselves hash. */
  lemma FingerprintBindsPair(h: Blake3, p: Party, q: Party, p': Party, q': Party)
    requires DeviceSetFingerprint(h, p, q) == DeviceSetFingerprint(h, p', q')
    ensures
      || SamePairOfParties(p, q, p', q')
      || PairCollision(h, SAFETY_NUMBER_DEVICE_SET_CONTEXT,
           PartyDigest(h, p), PartyDigest(h, q), PartyDigest(h, p'), PartyDigest(h, q'))
      || CollisionBetween(h, Queries(h, p) + Queries(h, q), Queries(h, p') + Queries(h, q'))
  {
    PairPreimageUnordered(PartyDigest(h, p), PartyDigest(h, q), PartyDigest(h, p'), PartyDigest(h, q'));
    var xs, ys := Queries(h, p) + Queries(h, q), Queries(h, p') + Queries(h, q');
    if PartyDigest(h, p) == PartyDigest(h, p') && PartyDigest(h, q) == PartyDigest(h, q') {
      DigestBindsParty(h, p, p');
      DigestBindsParty(h, q, q');
      Widen(h, Queries(h, p), Queries(h, p'), xs, ys);
      Widen(h, Queries(h, q), Queries(h, q'), xs, ys);
    } else if PartyDigest(h, p) == PartyDigest(h, q') && PartyDigest(h, q) == PartyDigest(h, p') {
      DigestBindsParty(h, p, q');
      DigestBindsParty(h, q, p');
      Widen(h, Queries(h, p), Queries(h, q'), xs, ys);
      Widen(h, Queries(h, q), Queries(h, p'), xs, ys);
    }
  }

  lemma Widen(h: Blake3, xs: set<Bytes>, ys: set<Bytes>, xs': set<Bytes>, ys': set<Bytes>)
    requires xs <= xs' && ys <= ys'
    ensures CollisionBetween(h, xs, ys) ==> CollisionBetween(h, xs', ys')
  {
    if CollisionBetween(h, xs, ys) {
      var x, y :| x in xs && y in ys && HashCollision(h, x, y);
      assert x in xs' && y in ys';
    }
  }

  /** The identity-only safety number forgets argument order and binds all four keys of both users. */
  lemma IdentityFingerprintBinds(h: Blake3, a: IdentityKey, b: IdentityKey, c: IdentityKey, d: IdentityKey)
    ensures (a == c && b == d) || (a == d && b == c) ==> IdentityFingerprint(h, a, b) == IdentityFingerprint(h, c, d)
    ensures IdentityFingerprint(h, a, b) == IdentityFingerprint(h, c, d) ==>
      || (a == c && b == d) || (a == d && b == c)
      || PairCollision(h, SAFETY_NUMBER_CONTEXT,
           h.hash(IdentityPreimage(a)), h.hash(IdentityPreimage(b)), h.hash(IdentityPreimage(c)), h.hash(IdentityPreimage(d)))
      || CollisionBetween(h, {IdentityPreimage(a), IdentityPreimage(b)}, {IdentityPreimage(c), IdentityPreimage(d)})
  {
    var (x, y, z, w) := (IdentityPreimage(a), IdentityPreimage(b), IdentityPreimage(c), IdentityPreimage(d));
    PairPreimageUnordered(h.hash(x), h.hash(y), h.hash(z), h.hash(w));
    SplitEqual(a.signing, a.kem, c.signing, c.kem);
    SplitEqual(a.signing, a.kem, d.signing, d.kem);
    SplitEqual(b.signing, b.kem, c.signing, c.kem);
    SplitEqual(b.signing, b.kem, d.signing, d.kem);
    if !CollisionBetween(h, {x, y}, {z, w}) {
      assert forall s, t :: s in {x, y} && t in {z, w} ==> !HashCollision(h, s, t);
      assert !HashCollision(h, x, z) && !HashCollision(h, x, w) && !HashCollision(h, y, z) && !HashCollision(h, y, w);
    }
  }

  /** A number with device sets never equals one without, unless BLAKE3 collides under two contexts. */
  lemma KindsSeparate(h: Blake3, p: Party, q: Party, a: IdentityKey, b: IdentityKey)
    requires DeviceSetFingerprint(h, p, q) == IdentityFingerprint(h, a, b)
    ensures DeriveKeyCollision(h, SAFETY_NUMBER_DEVICE_SET_CONTEXT, PairPreimage(PartyDigest(h, p), PartyDigest(h, q)),
                                  SAFETY_NUMBER_CONTEXT, PairPreimage(h.hash(IdentityPreimage(a)), h.hash(IdentityPreimage(b))))
  {
    assert |SAFETY_NUMBER_DEVICE_SET_CONTEXT| != |SAFETY_NUMBER_CONTEXT|;
  }

  // ----- the decimal display

  /** Six groups of five digits. */
  function Row(digits: string): (row: string)
    requires |digits| == 30
    ensures |row| == 35
  {
    digits[0..5] + " " + digits[5..10] + " " + digits[10..15] + " " +
    digits[15..20] + " " + digits[20..25] + " " + digits[25..30]
  }

  /** Two rows of six groups. */
  function Grouped(digits: string): (text: string)
    requires |digits| == 60
    ensures |text| == 71
  {
    Row(digits[0..30]) + "\n" + Row(digits[30..60])
  }

  /** The sixty digits of the first thirty bytes. */
  function ShownDigits(fingerprint: Bytes32): (digits: string)
    ensures |digits| == 60
  {
    Decimal.DecimalDigits(BeValue(fingerprint[..30]), 60)
  }

  method Display(fingerprint: Bytes32) returns (text: string)
    ensures text == Grouped(ShownDigits(fingerprint))
  {
    var digits := Decimal.BytesToDecimal(fingerprint[..30], 60);
    text := Grouped(digits);
  }

  /** Reading the display left to right and skipping the separators gives the digits in order. */
  lemma GroupedInOrder(d: string)
    requires |d| == 60
    ensures forall i :: 0 <= i < 60 ==> Grouped(d)[i + i / 5] == d[i]
    ensures forall k :: 0 <= k < 11 ==> Grouped(d)[6 * k + 5] == if k == 5 then '\n' else ' '
  {
    var t := Grouped(d);
    RowInOrder(d[0..30]);
    RowInOrder(d[30..60]);
    forall i | 0 <= i < 60 ensures t[i + i / 5] == d[i] {
      if i < 30 {
        assert t[i + i / 5] == Row(d[0..30])[i + i / 5] == d[0..30][i];
      } else {
        var j := i - 30;
        assert i + i / 5 == 36 + (j + j / 5);
        assert t[36 + (j + j / 5)] == Row(d[30..60])[j + j / 5] == d[30..60][j];
      }
    }
    forall k | 0 <= k < 11 ensures t[6 * k + 5] == if k == 5 then '\n' else ' ' {
      if k < 5 {
        assert t[6 * k + 5] == Row(d[0..30])[6 * k + 5];
      } else if k > 5 {
        assert t[6 * k + 5] == Row(d[30..60])[6 * (k - 6) + 5];
      }
    }
  }

  lemma RowSlices(d: string)
    requires |d| == 30
    ensures var r := Row(d);
            && r[0..5] == d[0..5] && r[6..11] == d[5..10] && r[12..17] == d[10..15]
            && r[18..23] == d[15..20] && r[24..29] == d[20..25] && r[30..35] == d[25..30]
    ensures forall k :: 0 <= k < 5 ==> Row(d)[6 * k + 5] == ' '
  {}

  lemma SliceAt(r: string, d: string, k: nat, i: nat)
    requires 5 * k <= i < 5 * k + 5 <= |d| && 6 * k + 5 <= |r|
    requires r[6 * k..6 * k + 5] == d[5 * k..5 * k + 5]
    ensures r[i + k] == d[i]
  {
    assert r[6 * k..6 * k + 5][i - 5 * k] == d[5 * k..5 * k + 5][i - 5 * k];
  }

  lemma RowInOrder(d: string)
    requires |d| == 30
    ensures forall i :: 0 <= i < 30 ==> Row(d)[i + i / 5] == d[i]
    ensures forall k :: 0 <= k < 5 ==> Row(d)[6 * k + 5] == ' '
  {
    RowSlices(d);
    forall i | 0 <= i < 30 ensures Row(d)[i + i / 5] == d[i] {
      SliceAt(Row(d), d, i / 5, i);
    }
  }

  lemma RowInjective(d: string, e: string)
    requires |d| == |e| == 30 && Row(d) == Row(e)
    ensures d == e
  {
    RowSlices(d);
    RowSlices(e);
    Regrouped(d);
    Regrouped(e);
  }

  lemma Regrouped(d: string)
    requires |d| == 30
    ensures d == d[0..5] + d[5..10] + d[10..15] + d[15..20] + d[20..25] + d[25..30]
  {}

  lemma GroupedInjective(d: string, e: string)
    requires |d| == |e| == 60
    ensures Grouped(d) == Grouped(e) <==> d == e
  {
    if Grouped(d) == Grouped(e) {
      var t := Grouped(d);
      assert t[0..35] == Row(d[0..30]) == Row(e[0..30]);
      assert t[36..71] == Row(d[30..60]) == Row(e[30..60]);
      RowInjective(d[0..30], e[0..30]);
      RowInjective(d[30..60], e[30..60]);
      assert d == d[0..30] + d[30..60] && e == e[0..30] + e[30..60];
    }
  }

  /** Two fingerprints display alike exactly when their first thirty bytes agree modulo 10^60. */
  lemma DisplayedAlikeIff(f: Bytes32, g: Bytes32)
    ensures Grouped(ShownDigits(f)) == Grouped(ShownDigits(g))
       <==> BeValue(f[..30]) % Decimal.Pow10(60) == BeValue(g[..30]) % Decimal.Pow10(60)
  {
    GroupedInjective(ShownDigits(f), ShownDigits(g));
    Decimal.DigitsEqualIffCongruent(BeValue(f[..30]), BeValue(g[..30]), 60);
  }
}
