/** SNAFU numbers (day 25): balanced base five, written most significant
    digit first with the digits '=' (-2), '-' (-1), '0', '1' and '2'. */
module Day25 {
  import opened Common

  predicate IsSnafuDigit(c: char)
  {
    c == '=' || c == '-' || c == '0' || c == '1' || c == '2'
  }

  predicate IsSnafu(s: string)
  {
    forall i :: 0 <= i < |s| ==> IsSnafuDigit(s[i])
  }

  function DigitOf(c: char): (d: int)
    requires IsSnafuDigit(c)
    ensures -2 <= d <= 2
  {
    match c
    case '=' => -2
    case '-' => -1
    case '0' => 0
    case '1' => 1
    case '2' => 2
  }

  function Pow5(n: nat): (p: nat)
    ensures p >= 1
  {
    if n == 0 then 1 else 5 * Pow5(n - 1)
  }

  /** The value of a SNAFU string: Horner's rule in base five. */
  function Value(s: string): int
    requires IsSnafu(s)
  {
    if s == [] then 0 else Value(s[..|s| - 1]) * 5 + DigitOf(s[|s| - 1])
  }

  /** `snafu_to_num`: one multiply-and-add per character; any character other
      than a SNAFU digit is a panic (None). */
  method SnafuToNum(s: string) returns (r: Option<int>)
    ensures r.Some? <==> IsSnafu(s)
    ensures r.Some? ==> r.value == Value(s)
  {
    var res := 0;
    for i := 0 to |s|
      invariant IsSnafu(s[..i])
      invariant res == Value(s[..i])
    {
      var c := s[i];
      if !IsSnafuDigit(c) {
        return None;
      }
      assert s[..i + 1][..i] == s[..i];
      res := res * 5 + DigitOf(c);
    }
    assert s[..|s|] == s;
    return Some(res);
  }

  /** A digit written in front weighs five to the power of the length behind it. */
  lemma {:induction false} ValuePrepend(c: char, t: string)
    requires IsSnafuDigit(c) && IsSnafu(t)
    ensures IsSnafu([c] + t) && Value([c] + t) == DigitOf(c) * Pow5(|t|) + Value(t)
  {
    if t != [] {
      var u := [c] + t;
      assert u[..|u| - 1] == [c] + t[..|t| - 1];
      ValuePrepend(c, t[..|t| - 1]);
    }
  }

  /** The digit emitted for a remainder in 0..4 and the amount added to make
      the number divisible by five. */
  function DigitFor(rest: int): (cy: (char, int))
    requires 0 <= rest < 5
    ensures IsSnafuDigit(cy.0) && DigitOf(cy.0) == -cy.1
    ensures rest + cy.1 == 0 || rest + cy.1 == 5
  {
    match rest
    case 0 => ('0', 0)
    case 1 => ('1', -1)
    case 2 => ('2', -2)
    case 3 => ('=', 2)
    case 4 => ('-', 1)
  }

  /** The printed form of a number: "0" for zero, otherwise no leading '0'. */
  predicate Canonical(s: string)
  {
    s == "0" || (s != [] && s[0] != '0')
  }

  /** `num_to_snafu`: emit the least significant digit, make the number
      divisible by five, divide, and finally reverse the digits. The result
      reads back as `x` and is in canonical form. */
  method NumToSnafu(x: int) returns (r: string)
    ensures IsSnafu(r) && Value(r) == x
    ensures Canonical(r)
    ensures x == 0 ==> r == "0"
  {
    if x == 0 {
      return "0";
    }
    var reverseRes: string := [];
    var n := x;
    Started(x);
    while n != 0
      invariant Progress(x, n, reverseRes)
      invariant n == 0 ==> reverseRes != [] && reverseRes[|reverseRes| - 1] != '0'
      decreases Abs(n)
    {
      var rest := (RustRem(n, 5) + 5) % 5;
      RemainderAgrees(n);
      var cy := DigitFor(rest);
      ghost var before := reverseRes;
      reverseRes := reverseRes + [cy.0];
      ExactDivision(n, cy.1);
      var n' := RustDiv(n + cy.1, 5);
      SnafuStep(x, n, before, cy.0, cy.1, n');
      n := n';
    }
    r := Reverse(reverseRes);
    Finished(x, reverseRes);
  }

  /** The loop of `num_to_snafu` part way: the digits emitted so far, read
      backwards, plus the number left over at their weight, make up `x`. */
  ghost predicate Progress(x: int, n: int, rr: string)
  {
    IsSnafu(rr) && x == n * Pow5(|rr|) + Value(Reverse(rr))
  }

  lemma Started(x: int)
    ensures Progress(x, x, [])
  {
    assert Reverse<char>([]) == [];
    assert Pow5(0) == 1;
  }

  /** With nothing left over, the reversed digits are the answer. */
  lemma Finished(x: int, rr: string)
    requires Progress(x, 0, rr) && rr != [] && rr[|rr| - 1] != '0'
    ensures IsSnafu(Reverse(rr)) && Value(Reverse(rr)) == x && Canonical(Reverse(rr))
  {
    assert 0 * Pow5(|rr|) == 0;
  }

  /** Rust's `((x % 5) + 5) % 5` is the Euclidean remainder. */
  lemma RemainderAgrees(n: int)
    ensures (RustRem(n, 5) + 5) % 5 == n % 5
  {
  }

  /** Adding the amount for the remainder makes the number divisible by
      five, so the truncating division is exact. */
  lemma ExactDivision(n: int, y: int)
    requires n % 5 + y == 0 || n % 5 + y == 5
    ensures RustDiv(n + y, 5) * 5 == n + y
  {
    var a := n + y;
    var k := if n % 5 + y == 0 then n / 5 else n / 5 + 1;
    assert a == 5 * k;
    if a >= 0 {
      ModUnique(a, 5, k, 0);
    } else {
      ModUnique(-a, 5, -k, 0);
    }
  }

  /** One loop step of `num_to_snafu`: the digit emitted plus five times the
      new number accounts for the old number, and the number shrinks. */
  lemma SnafuStep(x: int, n: int, rr: string, c: char, y: int, n': int)
    requires Progress(x, n, rr)
    requires IsSnafuDigit(c) && DigitOf(c) == -y && n' * 5 == n + y && n != 0
    ensures Progress(x, n', rr + [c])
    ensures Abs(n') < Abs(n)
    ensures n' == 0 ==> c != '0'
  {
    var p, v := Pow5(|rr|), Value(Reverse(rr));
    ReverseSnoc(rr, c);
    ValuePrepend(c, Reverse(rr));
    assert Value(Reverse(rr + [c])) == (-y) * p + v;
    assert Pow5(|rr| + 1) == 5 * p;
    WeightStep(n, y, n', p);
    Shrink(n, y, n');
  }

  lemma WeightStep(n: int, y: int, n': int, p: int)
    requires n' * 5 == n + y
    ensures n' * (5 * p) + (-y) * p == n * p
  {
    assert n' * (5 * p) == (n + y) * p;
  }

  lemma Shrink(n: int, y: int, n': int)
    requires -2 <= y <= 2 && n' * 5 == n + y && n != 0
    ensures Abs(n') < Abs(n)
    ensures n' == 0 ==> y == -n
  {
  }

  /** The largest magnitude a SNAFU string of length n can have is
      (5^n - 1) / 2. */
  lemma {:induction false} ValueRange(s: string)
    requires IsSnafu(s)
    ensures 2 * Abs(Value(s)) <= Pow5(|s|) - 1
  {
    if s != [] {
      ValueRange(s[..|s| - 1]);
    }
  }

  /** A string with a non-zero leading digit has a non-zero value. */
  lemma LeadingDigitNonZero(s: string)
    requires IsSnafu(s) && s != [] && s[0] != '0'
    ensures Value(s) != 0
  {
    var t := s[1..];
    assert s == [s[0]] + t;
    ValuePrepend(s[0], t);
    ValueRange(t);
    assert Abs(DigitOf(s[0]) * Pow5(|t|)) >= Pow5(|t|);
  }

  /** Balanced base five has one representation per length: equal values of
      equally long strings mean equal strings. */
  lemma {:induction false} SameLengthUnique(a: string, b: string)
    requires IsSnafu(a) && IsSnafu(b) && |a| == |b| && Value(a) == Value(b)
    ensures a == b
  {
    if a != [] {
      var a', b' := a[..|a| - 1], b[..|b| - 1];
      var da, db := DigitOf(a[|a| - 1]), DigitOf(b[|b| - 1]);
      assert Value(a') * 5 + da == Value(b') * 5 + db;
      assert (da - db) % 5 == 0 by {
        assert da - db == (Value(b') - Value(a')) * 5;
      }
      assert da == db;
      assert a[|a| - 1] == b[|b| - 1];
      SameLengthUnique(a', b');
      assert a == a' + [a[|a| - 1]] && b == b' + [b[|b| - 1]];
    }
  }

  /** The canonical form is unique, so `num_to_snafu` and `snafu_to_num` agree
      on every canonical string, in both directions. */
  lemma {:induction false} CanonicalUnique(a: string, b: string)
    requires IsSnafu(a) && IsSnafu(b) && Canonical(a) && Canonical(b) && Value(a) == Value(b)
    ensures a == b
  {
    if a == "0" && b == "0" {
    } else if a == "0" {
      LeadingDigitNonZero(b);
    } else if b == "0" {
      LeadingDigitNonZero(a);
    } else if |a| == |b| {
      SameLengthUnique(a, b);
    } else if |a| < |b| {
      LongerIsLarger(a, b);
    } else {
      LongerIsLarger(b, a);
    }
  }

  /** A canonical string with a non-zero leading digit outweighs any shorter one. */
  lemma LongerIsLarger(a: string, b: string)
    requires IsSnafu(a) && IsSnafu(b) && |a| < |b| && b[0] != '0'
    ensures Value(a) != Value(b)
  {
    var t := b[1..];
    var n := |t|;
    var lead := LeadingTerm(b, t, n);
    ValueRange(t);
    ShorterRange(a, n);
    Outweighs(lead, Value(t), Value(a), Pow5(n));
  }

  /** A string with a non-zero leading digit is that digit's term, at least
      `5^n` in size, plus the value of the rest. */
  lemma LeadingTerm(b: string, t: string, n: nat) returns (lead: int)
    requires IsSnafu(b) && |b| > 0 && b[0] != '0' && t == b[1..] && n == |t|
    ensures IsSnafu(t) && Value(b) == lead + Value(t)
    ensures lead >= Pow5(n) || lead + Pow5(n) <= 0
  {
    assert b == [b[0]] + t;
    ValuePrepend(b[0], t);
    var p := Pow5(n);
    var d := DigitOf(b[0]);
    lead := d * p;
    MulAwayFromZero(p, d);
    assert lead == p * d;
  }

  /** A string no longer than `n` has less than half of `5^n` in size. */
  lemma ShorterRange(a: string, n: nat)
    requires IsSnafu(a) && |a| <= n
    ensures 2 * Abs(Value(a)) <= Pow5(n) - 1
  {
    ValueRange(a);
    PowMonotone(|a|, n);
  }

  /** A leading term of at least `p` in size outweighs two values of less
      than half of `p`. */
  lemma Outweighs(lead: int, rest: int, other: int, p: int)
    requires lead >= p || lead <= -p
    requires 2 * Abs(rest) <= p - 1 && 2 * Abs(other) <= p - 1
    ensures lead + rest != other
  {
  }

  lemma {:induction false} PowMonotone(m: nat, n: nat)
    requires m <= n
    ensures Pow5(m) <= Pow5(n)
    decreases n
  {
    if m < n {
      PowMonotone(m, n - 1);
    }
  }
}
