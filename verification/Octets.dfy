/** Byte strings, fixed-width words and the little- and big-endian integer codecs that every
    wire format and hash preimage of the library is built from. */
module Octets {
  import opened Arithmetic

  type Byte = x: int | 0 <= x < 256
  type Bytes = seq<Byte>

  type U16 = x: int | 0 <= x < 0x1_0000
  type U32 = x: int | 0 <= x < 0x1_0000_0000
  type U64 = x: int | 0 <= x < 0x1_0000_0000_0000_0000

  const U32_MAX: U32 := 0xFFFF_FFFF
  const U64_MAX: U64 := 0xFFFF_FFFF_FFFF_FFFF

  // Fixed-size byte arrays.
  type Bytes8 = b: Bytes | |b| == 8 witness seq(8, _ => 0)
  type Bytes24 = b: Bytes | |b| == 24 witness seq(24, _ => 0)
  type Bytes32 = b: Bytes | |b| == 32 witness seq(32, _ => 0)
  type Bytes56 = b: Bytes | |b| == 56 witness seq(56, _ => 0)
  type Bytes57 = b: Bytes | |b| == 57 witness seq(57, _ => 0)
  type Bytes114 = b: Bytes | |b| == 114 witness seq(114, _ => 0)

  /** The bytes of an ASCII string. */
  function Ascii(s: string): (b: Bytes)
    ensures |b| == |s|
  {
    seq(|s|, i requires 0 <= i < |s| => s[i] as int % 128)
  }

  /** Distinct ASCII strings have distinct bytes. */
  lemma AsciiInjective(s: string, t: string)
    requires forall i :: 0 <= i < |s| ==> s[i] as int < 128
    requires forall i :: 0 <= i < |t| ==> t[i] as int < 128
    ensures Ascii(s) == Ascii(t) <==> s == t
  {
    if Ascii(s) == Ascii(t) {
      forall i | 0 <= i < |s| ensures s[i] == t[i] {
        assert Ascii(s)[i] == Ascii(t)[i];
      }
    }
  }

  function Pow256(n: nat): (p: nat)
    ensures p >= 1
  {
    if n == 0 then 1 else 256 * Pow256(n - 1)
  }

  /** `width` little-endian bytes of `n`; higher bytes are dropped, as an `as`-cast drops them. */
  function Le(n: nat, width: nat): (b: Bytes)
    ensures |b| == width
  {
    if width == 0 then [] else [n % 256] + Le(n / 256, width - 1)
  }

  function LeValue(b: Bytes): nat {
    if b == [] then 0 else b[0] + 256 * LeValue(b[1..])
  }

  /** The big-endian base-256 integer held by a list of limbs. */
  function BeValue(b: seq<nat>): nat {
    if b == [] then 0 else BeValue(b[..|b| - 1]) * 256 + b[|b| - 1]
  }

  lemma {:induction false} LeValueBound(b: Bytes)
    ensures LeValue(b) < Pow256(|b|)
  {
    if b == [] {
    } else {
      LeValueBound(b[1..]);
    }
  }

  /** Decoding what was encoded gives back the integer, reduced to the width. */
  lemma {:induction false} LeRoundTrip(n: nat, width: nat)
    requires n < Pow256(width)
    ensures LeValue(Le(n, width)) == n
  {
    if width == 0 {
    } else {
      assert Le(n, width)[1..] == Le(n / 256, width - 1);
      LeRoundTrip(n / 256, width - 1);
    }
  }

  /** Encoding what was decoded gives back the bytes. */
  lemma {:induction false} LeOfValue(b: Bytes)
    ensures Le(LeValue(b), |b|) == b
  {
    if b == [] {
    } else {
      LeOfValue(b[1..]);
      assert LeValue(b) / 256 == LeValue(b[1..]);
      assert b == [b[0]] + b[1..];
    }
  }

  /** Byte `i` of an encoding is the `i`-th base-256 digit, lowest first. */
  lemma {:induction false} LeDigit(n: nat, width: nat, i: nat)
    requires i < width
    ensures Le(n, width)[i] == n / Pow256(i) % 256
  {
    if i == 0 {
    } else {
      LeDigit(n / 256, width - 1, i - 1);
      DivideAgain(n, 256, Pow256(i - 1));
      assert Pow256(i) == Pow256(i - 1) * 256;
    }
  }

  lemma Pow256Words()
    ensures Pow256(4) == 0x1_0000_0000
    ensures Pow256(8) == 0x1_0000_0000_0000_0000
  {}

  function Le32(n: U32): (b: Bytes)
    ensures |b| == 4
  {
    Le(n, 4)
  }

  function Le64(n: U64): (b: Bytes8) {
    Le(n, 8)
  }

  function FromLe32(b: Bytes): (n: U32)
    requires |b| == 4
    ensures Le32(n) == b
  {
    LeValueBound(b); Pow256Words(); LeOfValue(b);
    LeValue(b)
  }

  function FromLe64(b: Bytes): (n: U64)
    requires |b| == 8
    ensures Le64(n) == b
  {
    LeValueBound(b); Pow256Words(); LeOfValue(b);
    LeValue(b)
  }

  lemma Le32RoundTrip(n: U32)
    ensures FromLe32(Le32(n)) == n
  {
    Pow256Words(); LeRoundTrip(n, 4);
  }

  lemma Le64RoundTrip(n: U64)
    ensures FromLe64(Le64(n)) == n
  {
    Pow256Words(); LeRoundTrip(n, 8);
  }

  lemma Le32Injective(m: U32, n: U32)
    requires Le32(m) == Le32(n)
    ensures m == n
  {
    Le32RoundTrip(m); Le32RoundTrip(n);
  }

  lemma Le64Injective(m: U64, n: U64)
    requires Le64(m) == Le64(n)
    ensures m == n
  {
    Le64RoundTrip(m); Le64RoundTrip(n);
  }

  /** Two concatenations whose first parts have one length agree exactly part by part. */
  lemma SplitEqual(a: Bytes, b: Bytes, c: Bytes, d: Bytes)
    requires |a| == |c|
    ensures a + b == c + d <==> a == c && b == d
  {
    if a + b == c + d {
      assert a == (a + b)[..|a|] == (c + d)[..|c|] == c;
      assert b == (a + b)[|a|..] == (c + d)[|c|..] == d;
    }
  }

  /** Concatenation of a list of byte strings, as a loop of appends produces it. */
  function Flatten(parts: seq<Bytes>): Bytes {
    if parts == [] then [] else parts[0] + Flatten(parts[1..])
  }

  lemma {:induction false} FlattenAppend(parts: seq<Bytes>, last: Bytes)
    ensures Flatten(parts + [last]) == Flatten(parts) + last
  {
    if parts == [] {
      assert parts + [last] == [last];
      assert Flatten([last][1..]) == [];
    } else {
      assert (parts + [last])[1..] == parts[1..] + [last];
      FlattenAppend(parts[1..], last);
    }
  }

  lemma {:induction false} FlattenLength(parts: seq<Bytes>, size: nat)
    requires forall i :: 0 <= i < |parts| ==> |parts[i]| == size
    ensures |Flatten(parts)| == size * |parts|
  {
    if parts == [] {
    } else {
      FlattenLength(parts[1..], size);
      assert |Flatten(parts)| == size + size * (|parts| - 1);
      assert size + size * (|parts| - 1) == size * |parts|;
    }
  }

  /** A concatenation of equal-sized records determines the records. */
  lemma {:induction false} FlattenInjective(p: seq<Bytes>, q: seq<Bytes>, size: nat)
    requires size > 0
    requires forall i :: 0 <= i < |p| ==> |p[i]| == size
    requires forall i :: 0 <= i < |q| ==> |q[i]| == size
    requires Flatten(p) == Flatten(q)
    ensures p == q
  {
    if p == [] || q == [] {
      FlattenLength(p, size);
      FlattenLength(q, size);
      SameMultiple(size, |p|, |q|);
    } else {
      SplitEqual(p[0], Flatten(p[1..]), q[0], Flatten(q[1..]));
      FlattenInjective(p[1..], q[1..], size);
      assert p == [p[0]] + p[1..] && q == [q[0]] + q[1..];
    }
  }

  lemma SameMultiple(size: nat, m: nat, n: nat)
    requires size > 0 && size * m == size * n
    ensures m == n
  {}
}
