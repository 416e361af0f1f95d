/** The decimal form of a safety number: repeated in-place division of a big-endian base-256
    integer by ten. */
module Decimal {
  import opened Octets
  import opened Arithmetic

  function Pow10(n: nat): (p: nat)
    ensures p >= 1
  {
    if n == 0 then 1 else 10 * Pow10(n - 1)
  }

  function Digit(d: nat): char
    requires d < 10
  {
    (d + 48) as char
  }

  /** The `n` low decimal digits of `v`, most significant first. */
  function DecimalDigits(v: nat, n: nat): (s: string)
    ensures |s| == n
  {
    if n == 0 then "" else DecimalDigits(v / 10, n - 1) + [Digit(v % 10)]
  }

  /** The integer a digit string denotes. */
  function DecimalValue(s: string): int {
    if s == "" then 0 else 10 * DecimalValue(s[..|s| - 1]) + (s[|s| - 1] as int - 48)
  }

  /** `v / 10^k`, one division at a time. */
  function Shift10(v: nat, k: nat): nat {
    if k == 0 then v else Shift10(v, k - 1) / 10
  }

  lemma {:induction false} ShiftAhead(v: nat, k: nat)
    ensures Shift10(v / 10, k) == Shift10(v, k + 1)
  {
    if k == 0 {
    } else {
      ShiftAhead(v, k - 1);
    }
  }

  lemma {:induction false} DigitAt(v: nat, n: nat, i: nat)
    requires i < n
    ensures DecimalDigits(v, n)[n - 1 - i] == Digit(Shift10(v, i) % 10)
  {
    if i == 0 {
    } else {
      DigitAt(v / 10, n - 1, i - 1);
      ShiftAhead(v, i - 1);
    }
  }

  /** Dividing by ten `k` times is dividing by `10^k`. */
  lemma {:induction false} ShiftIsQuotient(v: nat, k: nat)
    ensures Shift10(v, k) == v / Pow10(k)
  {
    if k == 0 {
    } else {
      ShiftIsQuotient(v, k - 1);
      DivideAgain(v, Pow10(k - 1), 10);
    }
  }

  lemma ModStep(v: nat, p: nat)
    requires p >= 1
    ensures v % (10 * p) == 10 * ((v / 10) % p) + v % 10
  {
    var w, d := v / 10, v % 10;
    var q, r := w / p, w % p;
    assert w == q * p + r;
    var m := 10 * r + d;
    assert v == q * (10 * p) + m;
    Quotient(v, 10 * p, q, m);
  }

  /** Reading the digits back gives the integer modulo 10^n. */
  lemma {:induction false} DigitsDenote(v: nat, n: nat)
    ensures DecimalValue(DecimalDigits(v, n)) == v % Pow10(n)
  {
    if n == 0 {
    } else {
      DigitsDenote(v / 10, n - 1);
      ModStep(v, Pow10(n - 1));
      var s := DecimalDigits(v, n);
      assert s[..n - 1] == DecimalDigits(v / 10, n - 1);
    }
  }

  /** `DecimalDigits` depends on the integer modulo 10^n, and on nothing less. */
  lemma DigitsEqualIffCongruent(v: nat, w: nat, n: nat)
    ensures DecimalDigits(v, n) == DecimalDigits(w, n) <==> v % Pow10(n) == w % Pow10(n)
  {
    DigitsDenote(v, n);
    DigitsDenote(w, n);
    if v % Pow10(n) == w % Pow10(n) {
      SameResidueSameDigits(v, w, n);
    }
  }

  lemma {:induction false} SameResidueSameDigits(v: nat, w: nat, n: nat)
    requires v % Pow10(n) == w % Pow10(n)
    ensures DecimalDigits(v, n) == DecimalDigits(w, n)
  {
    if n == 0 {
    } else {
      ModStep(v, Pow10(n - 1));
      ModStep(w, Pow10(n - 1));
      SameResidueSameDigits(v / 10, w / 10, n - 1);
    }
  }

  lemma BeValueSnoc(b: seq<nat>, x: nat)
    ensures BeValue(b + [x]) == 256 * BeValue(b) + x
  {
    assert (b + [x])[..|b|] == b;
  }

  function Reversed(s: string): (r: string)
    ensures |r| == |s| && forall i :: 0 <= i < |s| ==> r[i] == s[|s| - 1 - i]
  {
    seq(|s|, i requires 0 <= i < |s| => s[|s| - 1 - i])
  }

  /** One pass over the limbs: divides the integer by ten in place and yields the remainder. No
      intermediate value exceeds 2559, and every limb stays a byte. */
  method DivideByTen(data: array<U16>) returns (remainder: U16)
    requires forall i :: 0 <= i < data.Length ==> data[i] < 256
    modifies data
    ensures forall i :: 0 <= i < data.Length ==> data[i] < 256
    ensures BeValue(data[..]) == BeValue(old(data[..])) / 10
    ensures remainder == BeValue(old(data[..])) % 10
  {
    var carry: U16 := 0;
    ghost var before := data[..];
    for i := 0 to data.Length
      invariant carry < 10
      invariant forall j :: 0 <= j < data.Length ==> data[j] < 256
      invariant data[i..] == before[i..]
      invariant BeValue(before[..i]) == 10 * BeValue(data[..i]) + carry
    {
      assert data[i] == before[i];
      var value: U16 := carry * 256 + data[i];
      assert value <= 2559;
      ghost var done := data[..i];
      data[i] := value / 10;
      carry := value % 10;
      assert data[..i] == done;
      assert before[..i + 1] == before[..i] + [before[i]];
      assert data[..i + 1] == done + [value / 10];
      BeValueSnoc(before[..i], before[i]);
      BeValueSnoc(done, value / 10);
    }
    assert before[..data.Length] == before && data[..data.Length] == data[..];
    remainder := carry;
  }

  /** The decimal conversion yields exactly the low digits of the big-endian integer. */
  method BytesToDecimal(bytes: Bytes, numDigits: nat) returns (s: string)
    ensures s == DecimalDigits(BeValue(bytes), numDigits)
  {
    var data := new U16[|bytes|](i requires 0 <= i < |bytes| => bytes[i]);
    assert data[..] == bytes;
    ghost var v := BeValue(bytes);
    var digits: string := "";
    for k := 0 to numDigits
      invariant forall i :: 0 <= i < data.Length ==> data[i] < 256
      invariant BeValue(data[..]) == Shift10(v, k) == v / Pow10(k)
      invariant LowDigits(digits, v, k)
    {
      var remainder := DivideByTen(data);
      digits := digits + [Digit(remainder)];
      ShiftIsQuotient(v, k + 1);
    }
    ReversedLowDigits(digits, v, numDigits);
    s := Reversed(digits);
  }

  /** The `k` low digits of `v`, least significant first. */
  predicate LowDigits(digits: string, v: nat, k: nat) {
    |digits| == k && forall i :: 0 <= i < k ==> digits[i] == Digit(Shift10(v, i) % 10)
  }

  lemma ReversedLowDigits(digits: string, v: nat, n: nat)
    requires LowDigits(digits, v, n)
    ensures Reversed(digits) == DecimalDigits(v, n)
  {
    forall j | 0 <= j < n
      ensures Reversed(digits)[j] == DecimalDigits(v, n)[j]
    {
      DigitAt(v, n, n - 1 - j);
    }
  }
}
