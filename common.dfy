/** Helpers shared by the solvers: an Option type for the source's `Option` and
    for its panics, Rust's truncating integer remainder, sums and maxima of
    sequences, decimal number parsing as `str::parse` does it, and a sort. */
module Common {

  datatype Option<T> = None | Some(value: T)

  function Abs(x: int): (r: nat)
    ensures r == x || r == -x
  {
    if x < 0 then -x else x
  }

  /** Rust's `signum` on integers. */
  function Sign(x: int): (r: int)
    ensures r in {-1, 0, 1}
    ensures r * Abs(x) == x
  {
    if x < 0 then -1 else if x > 0 then 1 else 0
  }

  function Max(a: int, b: int): int { if a < b then b else a }

  function Min(a: int, b: int): int { if a < b then a else b }

  /** Rust's `%` on signed integers: the remainder takes the sign of the
      dividend (truncating division), unlike Dafny's Euclidean `%`. */
  function RustRem(a: int, b: int): (r: int)
    requires b != 0
    ensures a >= 0 ==> 0 <= r < Abs(b)
    ensures a < 0 ==> -(Abs(b) as int) < r <= 0
  {
    if a >= 0 then a % Abs(b) else -((-a) % Abs(b))
  }

  /** Rust's `/` on signed integers: the quotient is truncated toward zero. */
  function RustDiv(a: int, b: int): (q: int)
    requires b != 0
    ensures q * b + RustRem(a, b) == a
  {
    if a >= 0 then
      (if b > 0 then a / b else -(a / -b))
    else
      (if b > 0 then -((-a) / b) else (-a) / -b)
  }

  /** A positive multiple of a positive `b` is at least `b`. */
  lemma MulGrows(b: int, d: int)
    requires b > 0 && d >= 1
    ensures b * d >= b
  {
  }

  lemma MulAwayFromZero(b: int, d: int)
    requires b > 0 && d != 0
    ensures b * d >= b || b * d <= -b
  {
    if d > 0 {
      MulGrows(b, d);
    } else {
      MulGrows(b, -d);
      assert b * d == -(b * -d);
    }
  }

  /** The Euclidean remainder is the only remainder in 0..b-1. */
  lemma ModUnique(x: int, b: int, q: int, r: int)
    requires b > 0 && 0 <= r < b && x == b * q + r
    ensures x % b == r && x / b == q
  {
    var q', r' := x / b, x % b;
    assert x == b * q' + r';
    assert b * (q - q') == r' - r;
    if q != q' {
      MulAwayFromZero(b, q - q');
    }
  }

  /** A multiple of `b` leaves no Euclidean remainder. */
  lemma MultipleMod(q: int, b: int)
    requires b > 0
    ensures (q * b) % b == 0
  {
    ModUnique(q * b, b, q, 0);
  }

  /** Rust's remainder differs from the dividend by a multiple of the divisor. */
  lemma RustRemCongruent(a: int, b: int)
    requires b > 0
    ensures (a - RustRem(a, b)) % b == 0
  {
    var q := RustDiv(a, b);
    assert a - RustRem(a, b) == q * b;
    MultipleMod(q, b);
  }

  function Sum(s: seq<int>): int
  {
    if s == [] then 0 else s[0] + Sum(s[1..])
  }

  lemma {:induction false} SumAppend(a: seq<int>, b: seq<int>)
    ensures Sum(a + b) == Sum(a) + Sum(b)
  {
    if a == [] {
      assert a + b == b;
    } else {
      assert (a + b)[1..] == a[1..] + b;
      SumAppend(a[1..], b);
    }
  }

  lemma {:induction false} SumNonNegative(s: seq<int>)
    requires forall i :: 0 <= i < |s| ==> s[i] >= 0
    ensures Sum(s) >= 0
  {
    if s != [] {
      SumNonNegative(s[1..]);
    }
  }

  /** The largest element of a non-empty sequence. */
  function MaxOf(s: seq<int>): (m: int)
    requires s != []
    ensures m in s
    ensures forall i :: 0 <= i < |s| ==> s[i] <= m
  {
    if |s| == 1 then s[0] else Max(s[0], MaxOf(s[1..]))
  }

  // ---------------------------------------------------------------------------
  // Decimal numbers, as Rust's `str::parse` reads them

  predicate IsDigit(c: char) { '0' <= c <= '9' }

  predicate AllDigits(s: string) { forall i :: 0 <= i < |s| ==> IsDigit(s[i]) }

  function DigitValue(c: char): nat
    requires IsDigit(c)
  {
    (c as int) - ('0' as int)
  }

  function DigitChar(d: nat): (c: char)
    requires d < 10
    ensures IsDigit(c) && DigitValue(c) == d
  {
    ('0' as int + d) as char
  }

  /** The value of a string of decimal digits, most significant first. */
  function DigitsValue(s: string): nat
    requires AllDigits(s)
  {
    if s == [] then 0 else DigitsValue(s[..|s| - 1]) * 10 + DigitValue(s[|s| - 1])
  }

  /** `str::parse::<usize>()`: an optional `+` and at least one digit. */
  function ParseNat(s: string): (r: Option<nat>)
    ensures r.Some? ==> |s| > 0
  {
    var t := if |s| > 0 && s[0] == '+' then s[1..] else s;
    if |t| > 0 && AllDigits(t) then Some(DigitsValue(t)) else None
  }

  /** `str::parse::<i32>()` / `::<i64>()`: an optional sign and at least one digit. */
  function ParseInt(s: string): (r: Option<int>)
    ensures r.Some? ==> |s| > 0
  {
    if |s| > 0 && s[0] == '-' then
      var t := s[1..];
      if |t| > 0 && AllDigits(t) then Some(-(DigitsValue(t) as int)) else None
    else
      match ParseNat(s)
      case Some(n) => Some(n)
      case None => None
  }

  /** The decimal digits of `n`, without leading zeros. */
  function ShowNat(n: nat): (s: string)
    ensures |s| > 0 && AllDigits(s)
    ensures s[0] != '+' && s[0] != '-'
  {
    if n < 10 then [DigitChar(n)] else ShowNat(n / 10) + [DigitChar(n % 10)]
  }

  function ShowInt(i: int): string
  {
    if i < 0 then "-" + ShowNat(-i) else ShowNat(i)
  }

  lemma {:induction false} DigitsValueOfShow(n: nat)
    ensures DigitsValue(ShowNat(n)) == n
  {
    var s := ShowNat(n);
    if n >= 10 {
      DigitsValueOfShow(n / 10);
      assert s[..|s| - 1] == ShowNat(n / 10);
    }
  }

  /** Reading back a printed natural number gives the number. */
  lemma ParseShowNat(n: nat)
    ensures ParseNat(ShowNat(n)) == Some(n)
  {
    DigitsValueOfShow(n);
  }

  /** Reading back a printed integer gives the integer. */
  lemma ParseShowInt(i: int)
    ensures ParseInt(ShowInt(i)) == Some(i)
  {
    if i < 0 {
      DigitsValueOfShow(-i);
      assert ShowInt(i)[1..] == ShowNat(-i);
    } else {
      DigitsValueOfShow(i);
    }
  }

  // ---------------------------------------------------------------------------
  // Sorting (the standard library's `sort`, by value)

  predicate SortedAsc(s: seq<int>)
  {
    forall i, j :: 0 <= i < j < |s| ==> s[i] <= s[j]
  }

  function InsertAsc(x: int, s: seq<int>): (r: seq<int>)
    requires SortedAsc(s)
    ensures SortedAsc(r)
    ensures multiset(r) == multiset(s) + multiset{x}
    ensures |r| == |s| + 1
  {
    if s == [] || x <= s[0] then
      PrependSorted(x, s);
      [x] + s
    else
      var rest := InsertAsc(x, s[1..]);
      assert s == [s[0]] + s[1..];
      LowerBoundOfInsert(s[0], x, s[1..], rest);
      PrependSorted(s[0], rest);
      [s[0]] + rest
  }

  lemma PrependSorted(x: int, s: seq<int>)
    requires SortedAsc(s)
    requires forall i :: 0 <= i < |s| ==> x <= s[i]
    ensures SortedAsc([x] + s)
  {
  }

  lemma LowerBoundOfInsert(lo: int, x: int, s: seq<int>, r: seq<int>)
    requires lo < x && forall i :: 0 <= i < |s| ==> lo <= s[i]
    requires multiset(r) == multiset(s) + multiset{x}
    ensures forall i :: 0 <= i < |r| ==> lo <= r[i]
  {
    forall i | 0 <= i < |r|
      ensures lo <= r[i]
    {
      assert r[i] in multiset(r);
      if r[i] != x {
        assert r[i] in multiset(s);
      }
    }
  }

  /** The elements of `s` in ascending order. */
  function SortAsc(s: seq<int>): (r: seq<int>)
    ensures SortedAsc(r)
    ensures multiset(r) == multiset(s)
    ensures |r| == |s|
  {
    if s == [] then []
    else
      assert s == [s[0]] + s[1..];
      InsertAsc(s[0], SortAsc(s[1..]))
  }

  function Reverse<T>(s: seq<T>): (r: seq<T>)
    ensures |r| == |s|
    ensures forall i :: 0 <= i < |s| ==> r[i] == s[|s| - 1 - i]
  {
    if s == [] then [] else Reverse(s[1..]) + [s[0]]
  }

  lemma ReverseSnoc<T>(s: seq<T>, x: T)
    ensures Reverse(s + [x]) == [x] + Reverse(s)
  {
    var r := Reverse(s + [x]);
    assert r[0] == x;
    assert r[1..] == Reverse(s);
  }
}
