/** Scalars and points as the signature schemes use them. A curve is an abelian group of points
    with a base point of some prime-or-not order, and a 57-byte point encoding; curve arithmetic
    itself is foreign. Points outside the subgroup of the base are allowed throughout. */
module EdCurve {
  import opened Arithmetic
  import opened Octets
  import opened Outcomes

  /** The order of the Ed448 base point, 2^446 - 13818066809895115352007386748515426880336692474882178609894547503885. */
  const ED448_ORDER: nat :=
    0x3fffffffffffffffffffffffffffffffffffffffffffffffffffffff7cca23e9c44edb49aed63690216cc2728dc58f552378c292ab5844f3

  /** 2^448, the number of 56-byte strings. */
  const SCALAR_LIMIT: nat := 0x10000000000000000000000000000000000000000000000000000000000000000000000000000000000000000000000000000000000000000

  datatype Curve<!P> = Curve(
    order: nat,
    zero: P,
    base: P,
    add: (P, P) -> P,
    neg: P -> P,
    compress: P -> Bytes57,
    decompress: Bytes57 -> Option<P>)

  // The group laws, one named instance at a time, so that a proof says which instance it uses.

  predicate Associates<P(==)>(c: Curve<P>, p: P, q: P, r: P) {
    c.add(c.add(p, q), r) == c.add(p, c.add(q, r))
  }

  predicate Commutes<P(==)>(c: Curve<P>, p: P, q: P) {
    c.add(p, q) == c.add(q, p)
  }

  predicate HasUnit<P(==)>(c: Curve<P>, p: P) {
    c.add(p, c.zero) == p
  }

  predicate HasInverse<P(==)>(c: Curve<P>, p: P) {
    c.add(p, c.neg(p)) == c.zero
  }

  ghost predicate IsGroup<P(!new)>(c: Curve<P>) {
    && (forall p, q, r :: Associates(c, p, q, r))
    && (forall p, q :: Commutes(c, p, q))
    && (forall p :: HasUnit(c, p))
    && (forall p :: HasInverse(c, p))
  }

  function Mul<P>(c: Curve<P>, n: nat, p: P): P {
    if n == 0 then c.zero else c.add(Mul(c, n - 1, p), p)
  }

  /** What the proofs need of the curve: the group laws, a base point of exactly the stated
      order, an order that fits 56 bytes, and an encoding that decodes to what was encoded. */
  ghost predicate CurveOk<P(!new)>(c: Curve<P>) {
    && IsGroup(c)
    && 1 < c.order <= SCALAR_LIMIT
    && Mul(c, c.order, c.base) == c.zero
    && (forall k :: 0 < k < c.order ==> Mul(c, k, c.base) != c.zero)
    && (forall p :: c.decompress(c.compress(p)) == Some(p))
  }

  lemma {:induction false} PowAdd(m: nat, n: nat)
    ensures Pow256(m + n) == Pow256(m) * Pow256(n)
    decreases m
  {
    if m == 0 {
    } else {
      PowAdd(m - 1, n);
      var p, q := Pow256(m - 1), Pow256(n);
      assert 256 * (p * q) == (256 * p) * q;
    }
  }

  /** Eight more bytes multiply by 2^64. */
  lemma PowStep(n: nat, p: nat)
    requires Pow256(n) == p
    ensures Pow256(n + 8) == p * 0x1_0000_0000_0000_0000
  {
    Pow256Words();
    PowAdd(n, 8);
  }

  lemma PowTower(n: nat)
    requires n == 48
    ensures Pow256(n + 8) == SCALAR_LIMIT
  {
    Pow256Words();
    var m := 8;
    PowStep(m, 0x10000000000000000);
    PowStep(m + 8, 0x100000000000000000000000000000000);
    PowStep(m + 16, 0x1000000000000000000000000000000000000000000000000);
    PowStep(m + 24, 0x10000000000000000000000000000000000000000000000000000000000000000);
    PowStep(m + 32, 0x100000000000000000000000000000000000000000000000000000000000000000000000000000000);
    PowStep(n, 0x1000000000000000000000000000000000000000000000000000000000000000000000000000000000000000000000000);
  }

  /** The scalars of Ed448 fit 56 bytes. */
  lemma ScalarsFit()
    ensures Pow256(56) == SCALAR_LIMIT && 1 < ED448_ORDER <= SCALAR_LIMIT
  {
    PowTower(48);
  }

  lemma {:induction false} MulAdd<P(!new)>(c: Curve<P>, m: nat, n: nat, p: P)
    requires IsGroup(c)
    ensures Mul(c, m + n, p) == c.add(Mul(c, m, p), Mul(c, n, p))
    decreases n
  {
    if n == 0 {
      assert HasUnit(c, Mul(c, m, p));
    } else {
      MulAdd(c, m, n - 1, p);
      assert Associates(c, Mul(c, m, p), Mul(c, n - 1, p), p);
    }
  }

  lemma {:induction false} MulMul<P(!new)>(c: Curve<P>, m: nat, n: nat, p: P)
    requires IsGroup(c)
    ensures Mul(c, m * n, p) == Mul(c, m, Mul(c, n, p))
    decreases m
  {
    if m == 0 {
    } else {
      MulMul(c, m - 1, n, p);
      assert m * n == (m - 1) * n + n && (m - 1) * n >= 0;
      MulAdd(c, (m - 1) * n, n, p);
    }
  }

  lemma {:induction false} MulZero<P(!new)>(c: Curve<P>, n: nat)
    requires IsGroup(c)
    ensures Mul(c, n, c.zero) == c.zero
  {
    if n == 0 {
    } else {
      MulZero(c, n - 1);
      assert HasUnit(c, c.zero);
    }
  }

  lemma ZeroAdd<P(!new)>(c: Curve<P>, p: P)
    requires IsGroup(c)
    ensures c.add(c.zero, p) == p
  {
    assert Commutes(c, c.zero, p) && HasUnit(c, p);
  }

  /** A whole number of turns around the base adds nothing. */
  lemma MulTurns<P(!new)>(c: Curve<P>, q: nat, r: nat)
    requires CurveOk(c)
    ensures Mul(c, q * c.order + r, c.base) == Mul(c, r, c.base)
  {
    assert q * c.order >= 0;
    MulAdd(c, q * c.order, r, c.base);
    MulMul(c, q, c.order, c.base);
    MulZero(c, q);
    ZeroAdd(c, Mul(c, r, c.base));
  }

  /** Reducing a scalar by the order does not move a multiple of the base. */
  lemma MulReduce<P(!new)>(c: Curve<P>, n: nat)
    requires CurveOk(c)
    ensures Mul(c, n % c.order, c.base) == Mul(c, n, c.base)
  {
    var q, r := n / c.order, n % c.order;
    assert n == q * c.order + r;
    MulTurns(c, q, r);
  }

  lemma Cancel<P(!new)>(c: Curve<P>, p: P, q: P, r: P)
    requires IsGroup(c)
    requires c.add(p, r) == c.add(q, r)
    ensures p == q
  {
    assert Associates(c, p, r, c.neg(r)) && Associates(c, q, r, c.neg(r)) && HasInverse(c, r);
    assert HasUnit(c, p) && HasUnit(c, q);
  }

  /** Subtracting what was added gives back the other summand. */
  lemma AddThenSubtract<P(!new)>(c: Curve<P>, p: P, q: P)
    requires IsGroup(c)
    ensures c.add(c.add(p, q), c.neg(q)) == p
  {
    assert Associates(c, p, q, c.neg(q)) && HasInverse(c, q) && HasUnit(c, p);
  }

  /** Distinct canonical scalars give distinct multiples of the base. */
  lemma MulBaseDistinct<P(!new)>(c: Curve<P>, m: nat, n: nat)
    requires CurveOk(c)
    requires m < n < c.order
    ensures Mul(c, m, c.base) != Mul(c, n, c.base)
  {
    var d := n - m;
    MulAdd(c, d, m, c.base);
    ZeroAdd(c, Mul(c, m, c.base));
    assert Mul(c, d, c.base) != c.zero;
    if c.add(Mul(c, d, c.base), Mul(c, m, c.base)) == c.add(c.zero, Mul(c, m, c.base)) {
      Cancel(c, Mul(c, d, c.base), c.zero, Mul(c, m, c.base));
    }
  }

  lemma MulBaseInjective<P(!new)>(c: Curve<P>, m: nat, n: nat)
    requires CurveOk(c)
    requires m < c.order && n < c.order
    ensures Mul(c, m, c.base) == Mul(c, n, c.base) <==> m == n
  {
    if m < n {
      MulBaseDistinct(c, m, n);
    } else if n < m {
      MulBaseDistinct(c, n, m);
    }
  }

  /** `(r + p) + q = (r + q) + p`. */
  lemma SwapSummands<P(!new)>(c: Curve<P>, r: P, p: P, q: P)
    requires IsGroup(c)
    ensures c.add(c.add(r, p), q) == c.add(c.add(r, q), p)
  {
    assert Associates(c, r, p, q) && Associates(c, r, q, p) && Commutes(c, p, q);
  }

  lemma SubtractThenAdd<P(!new)>(c: Curve<P>, p: P, q: P)
    requires IsGroup(c)
    ensures c.add(c.add(p, c.neg(q)), q) == p
  {
    assert Associates(c, p, c.neg(q), q) && Commutes(c, c.neg(q), q) && HasInverse(c, q) && HasUnit(c, p);
  }

  /** Two equal differences: `p - q = p' - q'` gives `p + q' = p' + q`. */
  lemma CrossDifferences<P(!new)>(c: Curve<P>, p: P, q: P, p': P, q': P)
    requires IsGroup(c) && c.add(p, c.neg(q)) == c.add(p', c.neg(q'))
    ensures c.add(p, q') == c.add(p', q)
  {
    var d := c.add(p, c.neg(q));
    SubtractThenAdd(c, p, q);
    SubtractThenAdd(c, p', q');
    SwapSummands(c, d, q, q');
  }

  lemma ProductNonNegative(m: nat, n: nat)
    ensures m * n >= 0
  {}

  /** `m B + k a = n B + j a`: what two responses `m`, `n` to the challenges `j`, `k` for one commitment
      say of a key `a`. If `a` is a multiple of the base, they fix it up to `k - j`. */
  predicate Balanced<P(==)>(c: Curve<P>, m: nat, j: nat, n: nat, k: nat, a: P) {
    c.add(Mul(c, m, c.base), Mul(c, k, a)) == c.add(Mul(c, n, c.base), Mul(c, j, a))
  }

  lemma CompressInjective<P(!new)>(c: Curve<P>, p: P, q: P)
    requires CurveOk(c) && c.compress(p) == c.compress(q)
    ensures p == q
  {
    assert c.decompress(c.compress(p)) == Some(p) && c.decompress(c.compress(q)) == Some(q);
  }

  lemma Decodes<P(!new)>(c: Curve<P>, p: P)
    requires CurveOk(c)
    ensures c.decompress(c.compress(p)) == Some(p)
  {}

  // ----- scalars and their 57-byte form

  function ReduceWide<P>(c: Curve<P>, b: Bytes): (n: nat)
    requires c.order > 0
    ensures n < c.order
  {
    LeValue(b) % c.order
  }

  /** The reduced scalar is the one below the order that the bytes are congruent to. */
  lemma ReduceWideCongruent<P>(c: Curve<P>, b: Bytes)
    requires c.order > 0
    ensures ReduceWide(c, b) < c.order && (LeValue(b) - ReduceWide(c, b)) % c.order == 0
  {
    RemainderCongruent(LeValue(b), c.order);
  }

  /** 56 canonical little-endian bytes and a zero byte. */
  function ScalarBytes(n: nat): Bytes57 {
    Le(n, 56) + [0]
  }

  /** `Some` exactly for the bytes of a scalar below the order; byte 56 is checked on its own
      because the scalar decoder reads only the first 56. */
  function DecodeScalar<P>(c: Curve<P>, b: Bytes57): Option<nat> {
    if b[56] != 0 then None
    else if LeValue(b[..56]) < c.order then Some(LeValue(b[..56]))
    else None
  }

  /** Byte `i` of an encoded scalar is its `i`-th base-256 digit, and the last byte is zero. */
  lemma ScalarDigit(n: nat, i: nat)
    requires i < 56
    ensures ScalarBytes(n)[i] == n / Pow256(i) % 256 && ScalarBytes(n)[56] == 0
  {
    LeDigit(n, 56, i);
  }

  /** One accepted encoding per residue: decoding succeeds with `n` on the bytes of `n` alone. */
  lemma ScalarCodec<P>(c: Curve<P>, b: Bytes57, n: nat)
    requires c.order <= SCALAR_LIMIT
    ensures DecodeScalar(c, b) == Some(n) <==> n < c.order && b == ScalarBytes(n)
  {
    if n < c.order && b == ScalarBytes(n) {
      assert b[..56] == Le(n, 56);
      ScalarsFit();
      LeRoundTrip(n, 56);
    }
    if DecodeScalar(c, b) == Some(n) {
      LeOfValue(b[..56]);
      assert b == b[..56] + [b[56]];
    }
  }

  // ----- an instance

  /** Scalars modulo the Ed448 order. */
  type Residue = n: nat | n < ED448_ORDER

  function AddResidues(p: Residue, q: Residue): Residue {
    if p + q < ED448_ORDER then p + q else p + q - ED448_ORDER
  }

  function NegateResidue(p: Residue): Residue {
    if p == 0 then 0 else ED448_ORDER - p
  }

  function DecodeResidue(b: Bytes57): Option<Residue> {
    var n := LeValue(b[..56]);
    if n < ED448_ORDER then Some(n) else None
  }

  function ResidueCurve(): Curve<Residue> {
    Curve(ED448_ORDER, 0, 1, (p, q) => AddResidues(p, q), p => NegateResidue(p), p => ScalarBytes(p), b => DecodeResidue(b))
  }

  lemma {:induction false} ResidueMultiples(k: nat)
    requires k <= ED448_ORDER
    ensures Mul(ResidueCurve(), k, 1) == if k == ED448_ORDER then 0 else k
  {
    if k == 0 {
    } else {
      ResidueMultiples(k - 1);
    }
  }

  lemma ResidueRoundTrip(p: Residue)
    ensures DecodeResidue(ScalarBytes(p)) == Some(p)
  {
    assert ScalarBytes(p)[..56] == Le(p, 56);
    ScalarsFit();
    LeRoundTrip(p, 56);
  }

  lemma ResiduesAssociate(p: Residue, q: Residue, r: Residue)
    ensures AddResidues(AddResidues(p, q), r) == AddResidues(p, AddResidues(q, r))
  {}

  lemma ResiduesFormGroup()
    ensures IsGroup(ResidueCurve())
  {
    var c := ResidueCurve();
    forall p, q, r ensures Associates(c, p, q, r) {
      ResiduesAssociate(p, q, r);
    }
  }

  lemma ResidueBaseOrder()
    ensures var c := ResidueCurve();
            Mul(c, c.order, c.base) == c.zero && forall k :: 0 < k < c.order ==> Mul(c, k, c.base) != c.zero
  {
    forall k | 0 < k <= ED448_ORDER
      ensures Mul(ResidueCurve(), k, 1) == if k == ED448_ORDER then 0 else k
    {
      ResidueMultiples(k);
    }
  }

  lemma ResiduesDecode()
    ensures var c := ResidueCurve(); forall p: Residue :: c.decompress(c.compress(p)) == Some(p)
  {
    forall p: Residue
      ensures ResidueCurve().decompress(ResidueCurve().compress(p)) == Some(p)
    {
      ResidueRoundTrip(p);
    }
  }

  /** The hypotheses on curves can be met, at the order of Ed448 itself: by the residues modulo it. */
  lemma CurveHypothesesConsistent()
    ensures CurveOk(ResidueCurve())
  {
    ResiduesFormGroup();
    ResidueBaseOrder();
    ResiduesDecode();
    ScalarsFit();
  }

  // ----- the clamp

  /** The RFC 8032 clamp of section 5.2.5: clear the two low bits, clear byte 56, set the top bit
      of byte 55. */
  function Clamp(b: Bytes57): Bytes57 {
    b[0 := b[0] / 4 * 4][56 := 0][55 := if b[55] < 128 then b[55] + 128 else b[55]]
  }

  lemma {:induction false} LeValueSplit(a: Bytes, b: Bytes)
    ensures LeValue(a + b) == LeValue(a) + Pow256(|a|) * LeValue(b)
  {
    if a == [] {
      assert a + b == b;
    } else {
      LeValueSplit(a[1..], b);
      LeValueCons(a[0], a[1..] + b);
      assert a + b == [a[0]] + (a[1..] + b);
      TimesAssociates(Pow256(|a| - 1), LeValue(b));
    }
  }

  lemma LeValueCons(x: Byte, b: Bytes)
    ensures LeValue([x] + b) == x + 256 * LeValue(b)
  {
    assert ([x] + b)[1..] == b;
  }

  lemma TimesAssociates(p: nat, v: nat)
    ensures 256 * (p * v) == (256 * p) * v
  {}

  lemma LeValueTop(low: Bytes, top: Byte)
    ensures LeValue(low + [top, 0]) == LeValue(low) + Pow256(|low|) * top
  {
    LeValueSplit(low, [top, 0]);
    TopValue(top);
  }

  lemma TopValue(top: Byte)
    ensures LeValue([top, 0]) == top
  {
    LeValueCons(top, [0]);
    LeValueCons(0, []);
    assert [top] + [0] == [top, 0] && [0] + [] == [0];
  }

  /** A clamped secret is a multiple of four with bit 447 its highest. */
  lemma ClampShape(b: Bytes57)
    ensures LeValue(Clamp(b)) % 4 == 0
    ensures SCALAR_LIMIT / 2 <= LeValue(Clamp(b)) < SCALAR_LIMIT
  {
    var k := Clamp(b);
    ghost var low, top := k[..55], k[55];
    assert LeValue(k) % 4 == 0 by {
      LeValueCons(k[0], k[1..]);
      assert k == [k[0]] + k[1..] && k[0] == b[0] / 4 * 4;
    }
    assert k == low + [top, 0];
    LeValueTop(low, top);
    LeValueBound(low);
    ClampRange(LeValue(low), top);
  }

  lemma ClampParts(b: Bytes57)
    ensures var k := Clamp(b);
            k == k[..55] + [k[55], 0] && k[55] == 128 + b[55] % 128 && LeValue(k[..55]) == LeValue(b[..55]) / 4 * 4
  {
    LowBitsCleared(b[..55], Clamp(b)[..55]);
  }

  lemma OneByte(x: Byte)
    ensures LeValue([x]) == x
  {
    LeValueCons(x, []);
    assert [x] + [] == [x];
  }

  lemma AppendTop(low: Bytes, top: Byte)
    ensures LeValue(low + [top]) == LeValue(low) + Pow256(|low|) * top
  {
    LeValueSplit(low, [top]);
    OneByte(top);
  }

  lemma LowWhole(b: Bytes57, n: nat)
    requires n == 55
    ensures LeValue(b[..n + 1]) == LeValue(b[..n]) + Pow256(n) * b[n]
  {
    assert b[..n + 1] == b[..n] + [b[n]];
    AppendTop(b[..n], b[n]);
  }

  lemma ClampedWhole(b: Bytes57, n: nat)
    requires n == 55
    ensures LeValue(Clamp(b)) == LeValue(b[..n]) / 4 * 4 + Pow256(n) * (128 + b[n] % 128)
  {
    var k := Clamp(b);
    ClampParts(b);
    LeValueTop(k[..n], k[n]);
  }

  lemma TopPower(n: nat)
    requires n == 54
    ensures Pow256(n + 1) == 256 * Pow256(n) && 128 * Pow256(n + 1) == SCALAR_LIMIT / 2
  {
    ScalarsFit();
    assert Pow256(n + 2) == 256 * Pow256(n + 1);
  }

  lemma ClampedTogether(clamped: nat, whole: nat, low: nat, p: nat, q: nat, top: Byte, half: nat)
    requires low < p && p == 256 * q && half == 128 * p
    requires clamped == low / 4 * 4 + p * (128 + top % 128) && whole == low + p * top
    ensures clamped == half + whole % half / 4 * 4
  {
    ClampedValue(low, p, q, top);
  }

  /** The clamp as arithmetic: bit 447 set on top of the low 447 bits with the lowest two cleared. */
  lemma ClampExact(b: Bytes57)
    ensures LeValue(Clamp(b)) == SCALAR_LIMIT / 2 + LeValue(b[..56]) % (SCALAR_LIMIT / 2) / 4 * 4
  {
    var n := 54;
    ClampedWhole(b, n + 1);
    LowWhole(b, n + 1);
    LeValueBound(b[..n + 1]);
    TopPower(n);
    ClampedTogether(LeValue(Clamp(b)), LeValue(b[..n + 2]), LeValue(b[..n + 1]), Pow256(n + 1), Pow256(n), b[n + 1], SCALAR_LIMIT / 2);
  }

  lemma LowBitsCleared(low: Bytes, low': Bytes)
    requires |low| == |low'| > 0 && low'[0] == low[0] / 4 * 4 && low'[1..] == low[1..]
    ensures LeValue(low') == LeValue(low) / 4 * 4
  {
    RoundBeside(low[0], 64 * LeValue(low[1..]));
  }

  lemma TopSplits(p: nat, top: Byte)
    ensures p * top == (top / 128) * (128 * p) + p * (top as int % 128)
  {
    var e, t := top / 128, top as int % 128;
    assert top == 128 * e + t;
    assert p * (128 * e + t) == p * (128 * e) + p * t;
    assert p * (128 * e) == e * (128 * p);
  }

  lemma LowHalf(low: nat, p: nat, top: Byte)
    requires low < p
    ensures (low + p * top) % (128 * p) == low + p * (top as int % 128)
  {
    var t := top as int % 128;
    TopSplits(p, top);
    TimesMonotone(p, t, 127);
    assert p * t >= 0;
    Quotient(low + p * top, 128 * p, top / 128, low + p * t);
  }

  lemma ClampedValue(low: nat, p: nat, q: nat, top: Byte)
    requires low < p && p == 256 * q
    ensures low / 4 * 4 + p * (128 + top % 128) == 128 * p + (low + p * top) % (128 * p) / 4 * 4
  {
    var t := top as int % 128;
    LowHalf(low, p, top);
    FourDivides(p, q, t);
    RoundBeside(low, 64 * (q * t));
    assert p * (128 + t) == 128 * p + p * t;
  }

  lemma FourDivides(p: nat, q: nat, t: nat)
    requires p == 256 * q
    ensures p * t == 4 * (64 * (q * t)) && q * t >= 0
  {
    assert (256 * q) * t == 256 * (q * t);
  }

  lemma ClampRange(low: nat, top: Byte)
    requires 128 <= top && low < Pow256(55)
    ensures SCALAR_LIMIT / 2 <= low + Pow256(55) * top < SCALAR_LIMIT
  {
    ScalarsFit();
    var n := 55;
    assert Pow256(n + 1) == 256 * Pow256(n);
    TimesMonotone(Pow256(n), 128, top);
    TimesMonotone(Pow256(n), top, 255);
  }
}
