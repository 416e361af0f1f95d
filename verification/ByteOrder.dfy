/** The lexicographic order on byte strings, and sorting by it. */
module ByteOrder {
  import opened Octets
  import opened Lists

  predicate Leq(a: Bytes, b: Bytes) {
    a == [] || (b != [] && (a[0] < b[0] || (a[0] == b[0] && Leq(a[1..], b[1..]))))
  }

  lemma {:induction false} LeqTotal(a: Bytes, b: Bytes)
    ensures Leq(a, b) || Leq(b, a)
  {
    if a == [] || b == [] || a[0] != b[0] {
    } else {
      LeqTotal(a[1..], b[1..]);
    }
  }

  lemma {:induction false} LeqAntisymmetric(a: Bytes, b: Bytes)
    requires Leq(a, b) && Leq(b, a)
    ensures a == b
  {
    if a == [] || b == [] {
    } else {
      LeqAntisymmetric(a[1..], b[1..]);
      assert a == [a[0]] + a[1..] && b == [b[0]] + b[1..];
    }
  }

  lemma {:induction false} LeqTransitive(a: Bytes, b: Bytes, c: Bytes)
    requires Leq(a, b) && Leq(b, c)
    ensures Leq(a, c)
  {
    if a == [] || a[0] != b[0] || b[0] != c[0] {
    } else {
      LeqTransitive(a[1..], b[1..], c[1..]);
    }
  }

  type Digests = seq<Bytes32>

  predicate Sorted(s: Digests) {
    forall i, j :: 0 <= i < j < |s| ==> Leq(s[i], s[j])
  }

  /** Puts `x` before the first element that is not below it. */
  function SortInsert(s: Digests, x: Bytes32): (t: Digests)
    ensures |t| == |s| + 1
  {
    if s == [] || Leq(x, s[0]) then [x] + s else [s[0]] + SortInsert(s[1..], x)
  }

  function Sort(s: Digests): (t: Digests)
    ensures |t| == |s|
  {
    if s == [] then [] else SortInsert(Sort(s[1..]), s[0])
  }

  lemma {:induction false} SortInsertMultiset(s: Digests, x: Bytes32)
    ensures multiset(SortInsert(s, x)) == multiset(s) + multiset{x}
  {
    if s == [] || Leq(x, s[0]) {
    } else {
      SortInsertMultiset(s[1..], x);
      assert s == [s[0]] + s[1..];
    }
  }

  lemma {:induction false} SortInsertSorted(s: Digests, x: Bytes32)
    requires Sorted(s)
    ensures Sorted(SortInsert(s, x))
  {
    if s == [] {
    } else if Leq(x, s[0]) {
      forall j | 0 <= j < |s|
        ensures Leq(x, s[j])
      {
        if j > 0 {
          LeqTransitive(x, s[0], s[j]);
        }
      }
    } else {
      var rest := SortInsert(s[1..], x);
      SortInsertSorted(s[1..], x);
      SortInsertMultiset(s[1..], x);
      forall j | 0 <= j < |rest|
        ensures Leq(s[0], rest[j])
      {
        LeqTotal(x, s[0]);
        assert rest[j] in multiset(rest);
        if rest[j] != x {
          assert rest[j] in s[1..];
        }
      }
    }
  }

  /** Sorting yields an ascending rearrangement. */
  lemma {:induction false} SortCorrect(s: Digests)
    ensures Sorted(Sort(s)) && multiset(Sort(s)) == multiset(s)
  {
    if s == [] {
    } else {
      SortCorrect(s[1..]);
      SortInsertSorted(Sort(s[1..]), s[0]);
      SortInsertMultiset(Sort(s[1..]), s[0]);
      assert s == [s[0]] + s[1..];
    }
  }

  /** There is one ascending arrangement, so every sorting routine computes the same list. */
  lemma {:induction false} SortedUnique(s: Digests, t: Digests)
    requires Sorted(s) && Sorted(t) && multiset(s) == multiset(t)
    ensures s == t
    decreases |s|
  {
    if s == [] || t == [] {
      assert |s| == |multiset(s)| == |multiset(t)| == |t|;
    } else {
      HeadLeast(s, t[0]);
      HeadLeast(t, s[0]);
      LeqAntisymmetric(s[0], t[0]);
      var x := s[0];
      assert s == [x] + s[1..] && t == [x] + t[1..];
      assert multiset(s) == multiset(s[1..]) + multiset{x};
      assert multiset(t) == multiset(t[1..]) + multiset{x};
      CancelOne(multiset(s[1..]), multiset(t[1..]), x);
      SortedUnique(s[1..], t[1..]);
    }
  }

  lemma HeadLeast(s: Digests, x: Bytes32)
    requires s != [] && Sorted(s)
    ensures x in multiset(s) ==> Leq(s[0], x)
  {
    LeqTotal(s[0], s[0]);
    if x in multiset(s) {
      assert x in s;
      var i :| 0 <= i < |s| && s[i] == x;
    }
  }

  /** Two lists sort alike exactly when they hold the same elements equally often. */
  lemma SortIsCanonical(s: Digests, t: Digests)
    ensures Sort(s) == Sort(t) <==> multiset(s) == multiset(t)
  {
    SortCorrect(s);
    SortCorrect(t);
    if multiset(s) == multiset(t) {
      SortedUnique(Sort(s), Sort(t));
    }
  }
}
