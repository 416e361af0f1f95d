/** Facts about lists and their multisets, for any element type. */
module Lists {
  function Front<T>(s: seq<T>): seq<T>
    requires s != []
  {
    s[..|s| - 1]
  }

  function Last<T>(s: seq<T>): T
    requires s != []
  {
    s[|s| - 1]
  }

  function Insert<T>(s: seq<T>, pos: nat, x: T): (t: seq<T>)
    requires pos <= |s|
    ensures |t| == |s| + 1 && t[pos] == x
    ensures forall i :: 0 <= i < pos ==> t[i] == s[i]
    ensures forall i :: pos < i < |t| ==> t[i] == s[i - 1]
  {
    s[..pos] + [x] + s[pos..]
  }

  /** The insertion, place by place. */
  predicate InsertedAt<T(==)>(s: seq<T>, pos: nat, x: T, t: seq<T>) {
    && pos <= |s| && |t| == |s| + 1 && t[pos] == x
    && (forall i :: 0 <= i < pos ==> t[i] == s[i])
    && (forall i :: pos < i < |t| ==> t[i] == s[i - 1])
  }

  lemma InsertKeepsMembers<T>(s: seq<T>, pos: nat, x: T, t: seq<T>, y: T)
    requires InsertedAt(s, pos, x, t)
    ensures y in s ==> y in t
  {
    if y in s {
      var i :| 0 <= i < |s| && s[i] == y;
      assert t[if i < pos then i else i + 1] == y;
    }
  }

  function Image<S, T>(f: S -> T, s: seq<S>): (r: seq<T>)
    ensures |r| == |s| && forall i :: 0 <= i < |s| ==> r[i] == f(s[i])
  {
    seq(|s|, i requires 0 <= i < |s| => f(s[i]))
  }

  lemma InsertMultiset<T>(s: seq<T>, pos: nat, x: T)
    requires pos <= |s|
    ensures multiset(Insert(s, pos, x)) == multiset(s) + multiset{x}
  {
    assert s == s[..pos] + s[pos..];
  }

  /** Moving the head of an extended list to the evicted ones keeps the total. */
  lemma EvictMultiset<T>(s: seq<T>, out: seq<T>, all: seq<T>, x: T, u: seq<T>)
    requires multiset(s + out) == multiset(all)
    requires multiset(u) == multiset(s) + multiset{x} && u != []
    ensures multiset(u[1..] + (out + [u[0]])) == multiset(all + [x])
  {
    assert u == [u[0]] + u[1..];
    assert u[1..] + (out + [u[0]]) == u[1..] + out + [u[0]];
    assert multiset(u[1..] + out + [u[0]]) == multiset(u) + multiset(out);
  }

  lemma CancelOne<T>(a: multiset<T>, b: multiset<T>, x: T)
    requires a + multiset{x} == b + multiset{x}
    ensures a == b
  {
    assert a == a + multiset{x} - multiset{x};
    assert b == b + multiset{x} - multiset{x};
  }

  lemma SnocMultiset<T>(s: seq<T>)
    requires s != []
    ensures multiset(s) == multiset(Front(s)) + multiset{Last(s)}
  {
    assert s == Front(s) + [Last(s)];
  }

  lemma ImageOfInsert<S, T>(f: S -> T, s: seq<S>, pos: nat, x: S)
    requires pos <= |s|
    ensures multiset(Image(f, Insert(s, pos, x))) == multiset(Image(f, s)) + multiset{f(x)}
  {
    assert Image(f, Insert(s, pos, x)) == Insert(Image(f, s), pos, f(x));
    InsertMultiset(Image(f, s), pos, f(x));
  }

  lemma ImageOfSnoc<S, T>(f: S -> T, s: seq<S>)
    requires s != []
    ensures multiset(Image(f, s)) == multiset(Image(f, Front(s))) + multiset{f(Last(s))}
  {
    assert Image(f, s) == Image(f, Front(s)) + [f(Last(s))];
  }

  /** The list around one occurrence of `x`. */
  lemma Occurrence<T>(s: seq<T>, x: T) returns (rest: seq<T>, pos: nat)
    requires x in multiset(s)
    ensures pos <= |rest| && s == Insert(rest, pos, x)
    ensures multiset(s) == multiset(rest) + multiset{x}
  {
    assert x in s;
    pos :| 0 <= pos < |s| && s[pos] == x;
    rest := s[..pos] + s[pos + 1..];
    assert rest[..pos] == s[..pos] && rest[pos..] == s[pos + 1..];
    InsertMultiset(rest, pos, x);
  }

  lemma {:induction false} ImageOfPermutation<S, T>(f: S -> T, a: seq<S>, b: seq<S>)
    requires multiset(a) == multiset(b)
    ensures multiset(Image(f, a)) == multiset(Image(f, b))
    decreases |a|
  {
    if a == [] {
      assert |b| == |multiset(b)| == 0;
    } else {
      var x := Last(a);
      SnocMultiset(a);
      assert x in multiset(b);
      var rest, pos := Occurrence(b, x);
      CancelOne(multiset(Front(a)), multiset(rest), x);
      ImageOfPermutation(f, Front(a), rest);
      ImageOfInsert(f, rest, pos, x);
      ImageOfSnoc(f, a);
    }
  }

  /** Equal images come from equal multisets when the map separates the two lists. */
  lemma {:induction false} PreimageOfPermutation<S, T>(f: S -> T, a: seq<S>, b: seq<S>)
    requires multiset(Image(f, a)) == multiset(Image(f, b))
    requires forall i, j :: 0 <= i < |a| && 0 <= j < |b| && f(a[i]) == f(b[j]) ==> a[i] == b[j]
    ensures multiset(a) == multiset(b)
    decreases |a|
  {
    if a == [] {
      assert |Image(f, b)| == |multiset(Image(f, b))| == 0;
    } else {
      ImageOfSnoc(f, a);
      assert f(Last(a)) in multiset(Image(f, b));
      var rest, pos := PreimageOccurrence(f, b, Last(a));
      ImageOfInsert(f, rest, pos, Last(a));
      CancelOne(multiset(Image(f, Front(a))), multiset(Image(f, rest)), f(Last(a)));
      PreimageOfPermutation(f, Front(a), rest);
      SnocMultiset(a);
    }
  }

  lemma PreimageOccurrence<S, T>(f: S -> T, b: seq<S>, x: S) returns (rest: seq<S>, pos: nat)
    requires f(x) in multiset(Image(f, b))
    requires forall j :: 0 <= j < |b| && f(x) == f(b[j]) ==> x == b[j]
    ensures pos <= |rest| && b == Insert(rest, pos, x)
    ensures multiset(b) == multiset(rest) + multiset{x}
    ensures forall j :: 0 <= j < |rest| ==> rest[j] in b
  {
    assert f(x) in Image(f, b);
    var j :| 0 <= j < |b| && Image(f, b)[j] == f(x);
    assert b[j] == x;
    rest, pos := Occurrence(b, x);
    forall i | 0 <= i < |rest|
      ensures rest[i] in b
    {
      assert b[if i < pos then i else i + 1] == rest[i];
    }
  }

  predicate AscendingInts(s: seq<int>) {
    forall i, j :: 0 <= i < j < |s| ==> s[i] <= s[j]
  }

  /** Two ascending lists of one length that each dominate the rest of one multiset are equal. */
  lemma {:induction false} LargestUnique(s: seq<int>, out: multiset<int>, t: seq<int>, out': multiset<int>)
    requires |s| == |t| && AscendingInts(s) && AscendingInts(t)
    requires multiset(s) + out == multiset(t) + out'
    requires forall x, j :: x in out && 0 <= j < |s| ==> x <= s[j]
    requires forall x, j :: x in out' && 0 <= j < |t| ==> x <= t[j]
    ensures s == t
    decreases |s|
  {
    if s == [] {
    } else {
      LargestStep(s, out, t, out');
      LargestUnique(Front(s), out, Front(t), out');
      assert s == Front(s) + [Last(s)] && t == Front(t) + [Last(t)];
    }
  }

  lemma LargestStep(s: seq<int>, out: multiset<int>, t: seq<int>, out': multiset<int>)
    requires s != [] && t != [] && AscendingInts(s) && AscendingInts(t)
    requires multiset(s) + out == multiset(t) + out'
    requires forall x, j :: x in out && 0 <= j < |s| ==> x <= s[j]
    requires forall x, j :: x in out' && 0 <= j < |t| ==> x <= t[j]
    ensures Last(s) == Last(t)
    ensures multiset(Front(s)) + out == multiset(Front(t)) + out'
  {
    DominatesAll(s, out, Last(t));
    DominatesAll(t, out', Last(s));
    assert Last(s) in multiset(s) + out && Last(t) in multiset(t) + out';
    SnocMultiset(s);
    SnocMultiset(t);
    var m, m' := multiset(Front(s)), multiset(Front(t));
    assert m + out + multiset{Last(s)} == multiset(s) + out;
    assert m' + out' + multiset{Last(t)} == multiset(t) + out';
    CancelOne(m + out, m' + out', Last(s));
  }

  lemma DominatesAll(s: seq<int>, out: multiset<int>, x: int)
    requires s != [] && AscendingInts(s)
    requires forall y, j :: y in out && 0 <= j < |s| ==> y <= s[j]
    ensures x in multiset(s) + out ==> x <= Last(s)
  {
    if x in multiset(s) {
      assert x in s;
    }
  }
}
