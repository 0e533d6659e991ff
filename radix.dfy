/** Python's renderings of a non-negative integer: `str(n)` (base 10) and
    `hex(n)[2:]` (base 16, lower case, no `0x`, no leading zeros), and the
    parse `int(s)` of a decimal digit string. */
module Radix {

  /** The numeral Python prints for a digit value below 16: `0`..`9`, then
      `a`..`f`. */
  function Numeral(v: nat): (c: char)
    requires v < 16
  {
    if v < 10 then (48 + v) as char else (87 + v) as char
  }

  /** A character Python prints as a decimal or lower-case hex digit. */
  predicate IsDigitChar(c: char)
  {
    '0' <= c <= '9' || 'a' <= c <= 'f'
  }

  function Pow(b: nat, k: nat): (p: nat)
    ensures b >= 1 ==> p >= 1
  {
    if k == 0 then 1 else b * Pow(b, k - 1)
  }

  predicate IsNumeral(c: char, base: nat)
  {
    IsDigitChar(c) && NumeralValue(c) < base
  }

  predicate AllNumerals(s: string, base: nat)
  {
    forall i | 0 <= i < |s| :: IsNumeral(s[i], base)
  }

  /** A rendering with no leading zero, as `str` and `hex` print. */
  predicate Canonical(s: string, base: nat)
  {
    |s| >= 1 && AllNumerals(s, base) && (|s| > 1 ==> s[0] != '0')
  }

  lemma DecimalNumeral(c: char)
    ensures IsNumeral(c, 10) <==> '0' <= c <= '9'
  {
  }

  /** A string of ASCII decimal digits, as `int` parses. */
  predicate IsDecimal(s: string)
  {
    forall i | 0 <= i < |s| :: '0' <= s[i] <= '9'
  }

  lemma DecimalString(s: string)
    ensures IsDecimal(s) <==> AllNumerals(s, 10)
  {
    forall i | 0 <= i < |s| {
      DecimalNumeral(s[i]);
    }
  }

  /** The value of one numeral. */
  function NumeralValue(c: char): (v: nat)
    requires IsDigitChar(c)
    ensures v < 16 && Numeral(v) == c
  {
    if '0' <= c <= '9' then (c as int) - ('0' as int) else (c as int) - ('a' as int) + 10
  }

  lemma NumeralValueAt(i: nat)
    requires i < 16
    ensures NumeralValue(Numeral(i)) == i
  {
  }

  lemma NumeralValueBelowBase(c: char, base: nat)
    requires IsNumeral(c, base)
    ensures IsDigitChar(c) && NumeralValue(c) < base
  {
  }

  /** The digits of `n` in `base`, most significant first. */
  function ToRadix(n: nat, base: nat): (s: string)
    requires 2 <= base <= 16
    ensures Canonical(s, base)
    ensures s == "0" <==> n == 0
    decreases n
  {
    if n < base then
      NumeralValueAt(n);
      [Numeral(n)]
    else
      var q, d := n / base, n % base;
      DivStep(n, base);
      var init := ToRadix(q, base);
      NumeralValueAt(d);
      init + [Numeral(d)]
  }

  /** The rendering is worth the number rendered. */
  lemma {:induction false} ToRadixValue(n: nat, base: nat)
    requires 2 <= base <= 16
    ensures FromRadix(ToRadix(n, base), base) == n
    decreases n
  {
    if n < base {
      NumeralValueAt(n);
      assert ToRadix(n, base)[..0] == [];
    } else {
      var q, d := n / base, n % base;
      DivStep(n, base);
      ToRadixValue(q, base);
      var s := ToRadix(n, base);
      assert s == ToRadix(q, base) + [Numeral(d)];
      assert s[..|s| - 1] == ToRadix(q, base);
      NumeralValueAt(d);
    }
  }

  /** The value of a digit string in `base`; `FromRadix("", base) == 0`. */
  function FromRadix(s: string, base: nat): (v: nat)
    requires 2 <= base <= 16 && AllNumerals(s, base)
    decreases |s|
  {
    if s == [] then 0
    else
      var init := s[..|s| - 1];
      var v0 := FromRadix(init, base);
      var d := NumeralValue(s[|s| - 1]);
      ProductNat(v0, base);
      v0 * base + d
  }

  lemma ProductNat(a: nat, b: nat)
    ensures a * b >= 0
  {
  }

  /** A string of `k` digits is worth less than `base^k`. */
  lemma {:induction false} FromRadixBound(s: string, base: nat)
    requires 2 <= base <= 16 && AllNumerals(s, base)
    ensures FromRadix(s, base) < Pow(base, |s|)
    decreases |s|
  {
    if s != [] {
      var init := s[..|s| - 1];
      FromRadixBound(init, base);
      BoundStep(FromRadix(init, base), NumeralValue(s[|s| - 1]), base, Pow(base, |s| - 1));
    }
  }

  lemma BoundStep(v: nat, d: nat, b: nat, p: nat)
    requires v < p && d < b
    ensures v * b + d < b * p
  {
    MulStep(v, p, b);
  }

  lemma DivStep(n: nat, base: nat)
    requires 2 <= base <= n
    ensures 1 <= n / base < n && n % base < base
    ensures n == (n / base) * base + n % base
  {
    var q := n / base;
    MulMono(2, base, q);
    MulStep(0, q, base);
  }

  lemma MulMono(a: nat, b: nat, c: nat)
    requires a <= b
    ensures a * c <= b * c
  {
  }

  lemma FromRadixPositive(s: string, base: nat)
    requires 2 <= base <= 16 && AllNumerals(s, base) && |s| >= 1 && s[0] != '0'
    ensures FromRadix(s, base) >= 1
    decreases |s|
  {
    var init := s[..|s| - 1];
    var v0 := FromRadix(init, base);
    assert FromRadix(s, base) == v0 * base + NumeralValue(s[|s| - 1]);
    if |s| == 1 {
      assert init == [];
      assert NumeralValue(s[0]) != 0;
    } else {
      assert init[0] == s[0];
      FromRadixPositive(init, base);
      MulMono(1, v0, base);
    }
  }

  /** Every canonical rendering is the rendering of its value: together with
      the ensures of `ToRadix`, rendering is a bijection between the naturals
      and the canonical digit strings. */
  lemma {:induction false} CanonicalRoundTrip(s: string, base: nat)
    requires 2 <= base <= 16 && Canonical(s, base)
    ensures ToRadix(FromRadix(s, base), base) == s
    decreases |s|
  {
    var n := FromRadix(s, base);
    var d := NumeralValue(s[|s| - 1]);
    NumeralValueBelowBase(s[|s| - 1], base);
    var init := s[..|s| - 1];
    if |s| == 1 {
      assert init == [];
      assert n == 0 * base + d;
      assert ToRadix(n, base) == [s[0]];
    } else {
      assert init[0] == s[0];
      FromRadixPositive(init, base);
      var m := FromRadix(init, base);
      assert n == m * base + d;
      DivUnique(n, base, m, d);
      MulMono(1, m, base);
      CanonicalRoundTrip(init, base);
      assert ToRadix(n, base) == ToRadix(m, base) + [Numeral(d)];
      assert s == init + [s[|s| - 1]];
    }
  }

  lemma {:induction false} ToRadixInjective(n: nat, m: nat, base: nat)
    requires 2 <= base <= 16
    ensures ToRadix(n, base) == ToRadix(m, base) <==> n == m
  {
    ToRadixValue(n, base);
    ToRadixValue(m, base);
  }

  /** The rendering has more than `k` digits exactly when `n >= base^k`. */
  lemma {:induction false} ToRadixLength(n: nat, base: nat, k: nat)
    requires 2 <= base <= 16 && k >= 1
    ensures |ToRadix(n, base)| > k <==> n >= Pow(base, k)
    decreases n, 1
  {
    if n < base {
      PowAtLeastBase(base, k);
      assert |ToRadix(n, base)| == 1;
    } else if k == 1 {
      LengthStep(n, base);
      PowOne(base);
    } else {
      ToRadixLengthLong(n, base, k);
    }
  }

  lemma {:induction false} ToRadixLengthLong(n: nat, base: nat, k: nat)
    requires 2 <= base <= 16 && k >= 2 && n >= base
    ensures |ToRadix(n, base)| > k <==> n >= Pow(base, k)
    decreases n, 0
  {
    LengthStep(n, base);
    var m := n / base;
    ToRadixLength(m, base, k - 1);
    LengthStepPow(n, base, k);
  }

  lemma LengthStepPow(n: nat, base: nat, k: nat)
    requires 2 <= base <= 16 && base <= n && k >= 2
    ensures n / base >= Pow(base, k - 1) <==> n >= Pow(base, k)
  {
    DivAtLeast(n, base, Pow(base, k - 1));
  }

  lemma PowOne(b: nat)
    ensures Pow(b, 1) == b
  {
    assert Pow(b, 0) == 1;
  }

  lemma LengthStep(n: nat, base: nat)
    requires 2 <= base <= 16 && base <= n
    ensures 1 <= n / base < n
    ensures |ToRadix(n, base)| == |ToRadix(n / base, base)| + 1
  {
    DivStep(n, base);
  }

  lemma PowAtLeastBase(b: nat, k: nat)
    requires b >= 1 && k >= 1
    ensures Pow(b, k) >= b
    decreases k
  {
    if k > 1 {
      PowAtLeastBase(b, k - 1);
      MulMono(1, Pow(b, k - 1), b);
    }
  }

  lemma DivAtLeast(n: nat, b: nat, p: nat)
    requires b >= 1
    ensures n / b >= p <==> n >= b * p
  {
    var q, r := n / b, n % b;
    assert n == q * b + r && r < b;
    if q >= p {
      MulMono(p, q, b);
    } else {
      MulMono(q + 1, p, b);
    }
  }

  lemma AllNumeralsSlice(s: string, base: nat, i: nat, j: nat)
    requires AllNumerals(s, base) && i <= j <= |s|
    ensures AllNumerals(s[i..j], base)
  {
    forall k | 0 <= k < j - i ensures IsNumeral(s[i..j][k], base) {
      assert s[i..j][k] == s[i + k];
    }
  }

  /** A digit string splits into a prefix and a suffix weighted by the base. */
  lemma {:induction false} FromRadixSplit(s: string, base: nat, k: nat)
    requires 2 <= base <= 16 && AllNumerals(s, base) && k <= |s|
    ensures FromRadix(s, base) == FromRadix(s[..k], base) * Pow(base, |s| - k) + FromRadix(s[k..], base)
    decreases |s|
  {
    if k == |s| {
      SplitWhole(s, base);
    } else {
      var init := s[..|s| - 1];
      AllNumeralsSlice(s, base, 0, |s| - 1);
      FromRadixSplit(init, base, k);
      SplitStep(s, base, k);
    }
  }

  lemma SplitWhole(s: string, base: nat)
    requires 2 <= base <= 16 && AllNumerals(s, base)
    ensures FromRadix(s, base) == FromRadix(s[..|s|], base) * Pow(base, 0) + FromRadix(s[|s|..], base)
  {
    assert s[..|s|] == s && s[|s|..] == [];
    assert Pow(base, 0) == 1;
  }

  lemma SplitStep(s: string, base: nat, k: nat)
    requires 2 <= base <= 16 && AllNumerals(s, base) && k < |s|
    requires AllNumerals(s[..|s| - 1], base)
    requires FromRadix(s[..|s| - 1], base)
      == FromRadix(s[..|s| - 1][..k], base) * Pow(base, |s| - 1 - k) + FromRadix(s[..|s| - 1][k..], base)
    ensures FromRadix(s, base) == FromRadix(s[..k], base) * Pow(base, |s| - k) + FromRadix(s[k..], base)
  {
    var n := |s|;
    var init := s[..n - 1];
    assert init[..k] == s[..k];
    TailStep(s, base, k);
    SplitArith(FromRadix(s, base), FromRadix(init, base), FromRadix(s[..k], base), Pow(base, n - 1 - k),
      FromRadix(init[k..], base), FromRadix(s[k..], base), Pow(base, n - k), base, NumeralValue(s[n - 1]));
  }

  /** Dropping the last digit of a suffix is dropping it from the whole. */
  lemma TailStep(s: string, base: nat, k: nat)
    requires 2 <= base <= 16 && AllNumerals(s, base) && k < |s|
    ensures AllNumerals(s[k..], base) && AllNumerals(s[..|s| - 1][k..], base)
    ensures FromRadix(s[k..], base) == FromRadix(s[..|s| - 1][k..], base) * base + NumeralValue(s[|s| - 1])
  {
    var tail := s[k..];
    AllNumeralsSlice(s, base, k, |s|);
    AllNumeralsSlice(s, base, k, |s| - 1);
    assert tail[..|tail| - 1] == s[..|s| - 1][k..];
    assert tail[|tail| - 1] == s[|s| - 1];
  }

  lemma SplitArith(whole: nat, init: nat, a: nat, p: nat, t: nat, tail: nat, pk: nat, b: nat, d: nat)
    requires init == a * p + t && whole == init * b + d
    requires tail == t * b + d && pk == b * p
    ensures whole == a * pk + tail
  {
    calc {
      whole;
      (a * p + t) * b + d;
      a * (b * p) + (t * b + d);
    }
  }

  /** Euclidean division is determined by its quotient-remainder equation. */
  lemma DivUnique(n: nat, p: nat, q: nat, r: nat)
    requires n == q * p + r && r < p
    ensures n / p == q && n % p == r
  {
    var q', r' := n / p, n % p;
    assert n == q' * p + r' && r' < p;
    MulStep(q, q', p);
    MulStep(q', q, p);
  }

  /** Multiplication by `c` is monotonic in steps of `c`. */
  lemma MulStep(a: nat, b: nat, c: nat)
    ensures a < b ==> (a + 1) * c <= b * c
    ensures (a + 1) * c == a * c + c
  {
    if a < b {
      MulMono(a + 1, b, c);
    }
  }

  /** Keeping the first `k` digits of a rendering divides the value by a
      power of the base (the digits dropped are truncated, not rounded). */
  lemma PrefixValue(n: nat, base: nat, k: nat)
    requires 2 <= base <= 16 && k <= |ToRadix(n, base)|
    ensures FromRadix(ToRadix(n, base)[..k], base) == n / Pow(base, |ToRadix(n, base)| - k)
  {
    var s := ToRadix(n, base);
    ToRadixValue(n, base);
    FromRadixSplit(s, base, k);
    FromRadixBound(s[k..], base);
    DivUnique(n, Pow(base, |s| - k), FromRadix(s[..k], base), FromRadix(s[k..], base));
  }
}
