/** Positional numerals as JavaScript writes them: `Number.prototype.toString(radix)`
    for non-negative integers (lower-case digits, most significant first) and
    `toFixed(2)` for a non-negative amount held as whole cents. `ValueOf` reads a
    numeral back and is the reference every writer is checked against. */
module Numerals {
  import opened Text

  function Pow(b: nat, k: nat): (r: nat)
    ensures b > 0 ==> r > 0
  {
    if k == 0 then 1 else b * Pow(b, k - 1)
  }

  lemma {:induction false} PowMonotone(b: nat, j: nat, k: nat)
    requires b >= 1 && j <= k
    ensures Pow(b, j) <= Pow(b, k)
  {
    if j < k {
      PowMonotone(b, j, k - 1);
      assert Pow(b, k) == b * Pow(b, k - 1);
    }
  }

  predicate IsRadix(b: nat) { 2 <= b <= 36 }

  /** The value of one digit character, case-insensitively; 36 for a
      character that is no digit in any radix. */
  function DigitValue(c: char): nat
  {
    if IsAsciiDigit(c) then c as int - '0' as int
    else if IsAsciiLower(c) then c as int - 'a' as int + 10
    else if IsAsciiUpper(c) then c as int - 'A' as int + 10
    else 36
  }

  /** The digit JavaScript writes for `d`: 0-9, then a-z. */
  function DigitChar(d: nat): (c: char)
    requires d < 36
    ensures IsAsciiDigit(c) || IsAsciiLower(c)
    ensures IsAsciiDigit(c) <==> d < 10
    ensures DigitValue(c) == d
  {
    if d < 10 then ('0' as int + d) as char else ('a' as int + d - 10) as char
  }

  predicate IsNumeral(s: string, b: nat) {
    forall i :: 0 <= i < |s| ==> DigitValue(s[i]) < b
  }

  /** A numeral written with the digits 0-9 and a-z only. */
  predicate IsLowerNumeral(s: string, b: nat) {
    forall i :: 0 <= i < |s| ==> (IsAsciiDigit(s[i]) || IsAsciiLower(s[i])) && DigitValue(s[i]) < b
  }

  /** A numeral written with the digits 0-9 and A-Z only. */
  predicate IsUpperNumeral(s: string, b: nat) {
    forall i :: 0 <= i < |s| ==> (IsAsciiDigit(s[i]) || IsAsciiUpper(s[i])) && DigitValue(s[i]) < b
  }

  /** The value a numeral denotes in radix `b`. */
  function ValueOf(s: string, b: nat): nat
  {
    if s == [] then 0 else ValueOf(s[..|s| - 1], b) * b + DigitValue(s[|s| - 1])
  }

  /** `n.toString(b)`. */
  function ToRadix(n: nat, b: nat): (s: string)
    requires IsRadix(b)
    ensures |s| >= 1
    decreases n
  {
    if n < b then [DigitChar(n)]
    else DivFacts(n, b); ToRadix(n / b, b) + [DigitChar(n % b)]
  }

  lemma MulAtLeast(a: nat, m: nat)
    requires a >= 1
    ensures a * m >= m
  {
  }

  lemma DivModUnique(x: nat, m: nat, q: nat, r: nat)
    requires m > 0 && r < m && x == q * m + r
    ensures x / m == q && x % m == r
  {
    var q', r' := x / m, x % m;
    assert x == q' * m + r';
    if q' < q {
      var d := q - q';
      assert q * m == q' * m + d * m;
      MulAtLeast(d, m);
      assert false;
    } else if q' > q {
      var d := q' - q;
      assert q' * m == q * m + d * m;
      MulAtLeast(d, m);
      assert false;
    }
  }

  /** Euclidean division by a positive radix, as the digit writers use it. */
  lemma DivFacts(n: nat, b: nat)
    requires b >= 2
    ensures n == (n / b) * b + n % b && n % b < b
    ensures n >= b ==> 1 <= n / b < n
  {
  }

  /** Writing a number and reading it back gives the number. */
  lemma {:induction false} ToRadixValue(n: nat, b: nat)
    requires IsRadix(b)
    ensures ValueOf(ToRadix(n, b), b) == n
  {
    if n < b {
      assert ToRadix(n, b)[..0] == [];
    } else {
      DivFacts(n, b);
      ToRadixValue(n / b, b);
      assert ToRadix(n, b) == ToRadix(n / b, b) + [DigitChar(n % b)];
      assert ToRadix(n, b)[..|ToRadix(n, b)| - 1] == ToRadix(n / b, b);
    }
  }

  /** The numeral uses only lower-case digits of the radix ... */
  lemma {:induction false} ToRadixDigits(n: nat, b: nat)
    requires IsRadix(b)
    ensures IsLowerNumeral(ToRadix(n, b), b)
  {
    if n >= b {
      DivFacts(n, b);
      ToRadixDigits(n / b, b);
      assert ToRadix(n, b) == ToRadix(n / b, b) + [DigitChar(n % b)];
    }
  }

  /** ... and it has no leading zero. */
  lemma {:induction false} ToRadixLeading(n: nat, b: nat)
    requires IsRadix(b)
    ensures ToRadix(n, b)[0] == '0' <==> n == 0
    ensures n == 0 ==> ToRadix(n, b) == "0"
  {
    if n >= b {
      DivFacts(n, b);
      ToRadixLeading(n / b, b);
      assert ToRadix(n, b)[0] == ToRadix(n / b, b)[0];
    }
  }

  lemma ShiftArith(vx: nat, p: nat, v: nat, b: nat, d: nat)
    ensures (vx * p + v) * b + d == vx * (b * p) + (v * b + d)
  {
    calc {
      (vx * p + v) * b + d;
      (vx * p) * b + v * b + d;
      vx * (b * p) + (v * b + d);
    }
  }

  lemma BoundArith(v: nat, p: nat, b: nat, d: nat)
    requires v < p && d < b
    ensures v * b + d < b * p
  {
    assert v * b <= (p - 1) * b by {
      MulMonotone(v, p - 1, b);
    }
    assert (p - 1) * b == b * p - b;
  }

  lemma MulMonotone(x: nat, y: nat, m: nat)
    requires x <= y
    ensures x * m <= y * m
  {
    var d := y - x;
    assert y * m == x * m + d * m;
  }

  /** Reading a concatenation: the left part is shifted by the length of the
      right part. */
  lemma {:induction false} ValueConcat(x: string, y: string, b: nat)
    ensures ValueOf(x + y, b) == ValueOf(x, b) * Pow(b, |y|) + ValueOf(y, b)
  {
    if y == [] {
      assert x + y == x;
    } else {
      var y' := y[..|y| - 1];
      assert (x + y)[..|x + y| - 1] == x + y';
      assert (x + y)[|x + y| - 1] == y[|y| - 1];
      ValueConcat(x, y', b);
      ShiftArith(ValueOf(x, b), Pow(b, |y'|), ValueOf(y', b), b, DigitValue(y[|y| - 1]));
    }
  }

  /** A numeral of `k` digits denotes less than `b` to the `k`. */
  lemma {:induction false} ValueBound(s: string, b: nat)
    requires b >= 1 && IsNumeral(s, b)
    ensures ValueOf(s, b) < Pow(b, |s|)
  {
    if s != [] {
      var t := s[..|s| - 1];
      assert IsNumeral(t, b);
      ValueBound(t, b);
      BoundArith(ValueOf(t, b), Pow(b, |t|), b, DigitValue(s[|s| - 1]));
    }
  }

  /** The last `k` digits of a numeral denote its value modulo `b` to the `k`. */
  lemma LastDigits(s: string, b: nat, k: nat)
    requires b >= 1 && IsNumeral(s, b) && k <= |s|
    ensures ValueOf(s[|s| - k..], b) == ValueOf(s, b) % Pow(b, k)
  {
    var hi, lo := s[..|s| - k], s[|s| - k..];
    assert s == hi + lo;
    assert IsNumeral(lo, b);
    ValueConcat(hi, lo, b);
    ValueBound(lo, b);
    DivModUnique(ValueOf(s, b), Pow(b, k), ValueOf(hi, b), ValueOf(lo, b));
  }

  /** Upper-casing a numeral does not change its value. */
  lemma {:induction false} UpperValue(s: string, b: nat)
    ensures ValueOf(UpperAscii(s), b) == ValueOf(s, b)
  {
    if s != [] {
      var t, c := s[..|s| - 1], s[|s| - 1];
      assert s == t + [c];
      UpperAsciiConcat(t, [c]);
      var u := UpperAscii(t) + UpperAscii([c]);
      assert u[..|u| - 1] == UpperAscii(t);
      assert DigitValue(u[|u| - 1]) == DigitValue(c);
      UpperValue(t, b);
    }
  }

  /** Upper-casing a lower-case numeral gives an upper-case numeral of the
      same radix. */
  lemma UpperOfLowerNumeral(s: string, b: nat)
    requires IsLowerNumeral(s, b)
    ensures IsUpperNumeral(UpperAscii(s), b)
  {
    var u := UpperAscii(s);
    forall i | 0 <= i < |u|
      ensures (IsAsciiDigit(u[i]) || IsAsciiUpper(u[i])) && DigitValue(u[i]) < b
    {
      if IsAsciiLower(s[i]) {
        assert u[i] as int == s[i] as int - 32;
      } else {
        assert u[i] == s[i];
      }
    }
  }

  /** Two upper-case numerals of the same length that denote the same value
      are the same text. */
  lemma {:induction false} UpperNumeralInjective(x: string, y: string, b: nat)
    requires b >= 1 && IsUpperNumeral(x, b) && IsUpperNumeral(y, b)
    requires |x| == |y| && ValueOf(x, b) == ValueOf(y, b)
    ensures x == y
  {
    if x != [] {
      var x', y' := x[..|x| - 1], y[..|y| - 1];
      var cx, cy := x[|x| - 1], y[|y| - 1];
      DivModUnique(ValueOf(x, b), b, ValueOf(x', b), DigitValue(cx));
      DivModUnique(ValueOf(y, b), b, ValueOf(y', b), DigitValue(cy));
      assert cx == cy;
      assert IsUpperNumeral(x', b) && IsUpperNumeral(y', b);
      UpperNumeralInjective(x', y', b);
      assert x == x' + [cx] && y == y' + [cy];
    }
  }

  /** `n.toString(b)` has exactly as many digits as the smallest `k` with
      `n < b^k`: it is below `b` to the power of its length ... */
  lemma ToRadixBelow(n: nat, b: nat)
    requires IsRadix(b)
    ensures n < Pow(b, |ToRadix(n, b)|)
  {
    ToRadixValue(n, b);
    ToRadixDigits(n, b);
    assert IsNumeral(ToRadix(n, b), b);
    ValueBound(ToRadix(n, b), b);
  }

  /** ... and at least `b` to the power of its length less one. */
  lemma {:induction false} ToRadixAbove(n: nat, b: nat)
    requires IsRadix(b)
    ensures Pow(b, |ToRadix(n, b)| - 1) <= n || n == 0
  {
    if n >= b {
      DivFacts(n, b);
      ToRadixAbove(n / b, b);
      assert ToRadix(n, b) == ToRadix(n / b, b) + [DigitChar(n % b)];
      var len := |ToRadix(n / b, b)|;
      MulMonotone(Pow(b, len - 1), n / b, b);
      assert Pow(b, len) == b * Pow(b, len - 1);
    }
  }

  /** `c.toFixed(2)` for an amount of `c` cents: the whole units, a point,
      and exactly two digits of cents. */
  function FixedTwo(c: nat): string
  {
    ToRadix(c / 100, 10) + "." + [DigitChar(c % 100 / 10), DigitChar(c % 10)]
  }

  /** A decimal numeral written by `ToRadix` consists of ASCII digits. */
  lemma DecimalDigits(s: string)
    requires IsLowerNumeral(s, 10)
    ensures AllDigits(s)
  {
  }

  /** `FixedTwo` writes a decimal point followed by exactly two digits, a
      whole part without leading zeros, and the digits read back as the
      amount in cents. */
  lemma FixedTwoValue(c: nat)
    ensures var s := FixedTwo(c);
      && |s| >= 4 && s[|s| - 3] == '.'
      && AllDigits(s[..|s| - 3]) && AllDigits(s[|s| - 2..])
      && ValueOf(s[..|s| - 3] + s[|s| - 2..], 10) == c
      && (s[0] == '0' ==> |s| == 4)
  {
    var w := ToRadix(c / 100, 10);
    var f := [DigitChar(c % 100 / 10), DigitChar(c % 10)];
    ToRadixDigits(c / 100, 10);
    DecimalDigits(w);
    ToRadixLeading(c / 100, 10);
    var s := FixedTwo(c);
    assert s == w + "." + f;
    assert s[..|s| - 3] == w && s[|s| - 2..] == f && s[0] == w[0];
    TwoDigitsValue(c % 100);
    ToRadixValue(c / 100, 10);
    ValueConcat(w, f, 10);
    assert Pow(10, 2) == 100;
  }

  lemma TwoDigitsValue(r: nat)
    requires r < 100
    ensures ValueOf([DigitChar(r / 10), DigitChar(r % 10)], 10) == r
  {
    var f := [DigitChar(r / 10), DigitChar(r % 10)];
    assert f[..1] == [f[0]] && [f[0]][..0] == [];
    assert ValueOf([f[0]], 10) == r / 10;
    assert ValueOf(f, 10) == ValueOf(f[..1], 10) * 10 + r % 10;
  }
}
