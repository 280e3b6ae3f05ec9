// Positional numerals: what a printed number should be, and what it denotes.

module Numerals {
  predicate IsBase(b: nat) { 2 <= b <= 16 }

  function DigitChar(d: nat, upper: bool := false): char
    requires d < 16
  {
    if d < 10 then ('0' as int + d) as char
    else if upper then ('A' as int + d - 10) as char
    else ('a' as int + d - 10) as char
  }

  predicate IsDigit(c: char) { '0' <= c <= '9' }
  predicate IsDigitChar(c: char) { '0' <= c <= '9' || 'a' <= c <= 'f' || 'A' <= c <= 'F' }
  predicate AllDigitChars(s: string) { forall i | 0 <= i < |s| :: IsDigitChar(s[i]) }
  predicate AllDigits(s: string) { forall i | 0 <= i < |s| :: IsDigit(s[i]) }

  function DigitValue(c: char): nat
    requires IsDigitChar(c)
  {
    if c <= '9' then c as int - '0' as int
    else if c <= 'F' then c as int - 'A' as int + 10
    else c as int - 'a' as int + 10
  }

  // The canonical numeral: no leading zeros, "0" for zero.
  function Numeral(n: nat, base: nat, upper: bool := false): (s: string)
    requires IsBase(base)
    ensures |s| >= 1 && AllDigitChars(s)
    ensures base <= 10 ==> AllDigits(s)
    decreases n
  {
    if n < base then [DigitChar(n, upper)]
    else Numeral(n / base, base, upper) + [DigitChar(n % base, upper)]
  }

  function Denoted(s: string, base: nat): nat
    requires IsBase(base) && AllDigitChars(s)
    decreases |s|
  {
    if s == [] then 0 else Denoted(s[..|s| - 1], base) * base + DigitValue(s[|s| - 1])
  }

  function Power(b: nat, e: nat): nat { if e == 0 then 1 else b * Power(b, e - 1) }

  lemma DigitRoundTrip(d: nat, upper: bool)
    requires d < 16
    ensures IsDigitChar(DigitChar(d, upper)) && DigitValue(DigitChar(d, upper)) == d
  {}

  lemma DigitGlyphs(d: nat)
    requires d < 16
    ensures DigitChar(d, false) == "0123456789abcdef"[d] && DigitChar(d, true) == "0123456789ABCDEF"[d]
  {}

  lemma DenotedSnoc(s: string, c: char, base: nat)
    requires IsBase(base) && AllDigitChars(s) && IsDigitChar(c)
    ensures AllDigitChars(s + [c])
    ensures Denoted(s + [c], base) == Denoted(s, base) * base + DigitValue(c)
  {
    assert (s + [c])[..|s|] == s;
  }

  lemma {:induction false} NumeralDenotes(n: nat, base: nat, upper: bool)
    requires IsBase(base)
    ensures Denoted(Numeral(n, base, upper), base) == n
    decreases n
  {
    QuotientAndDigit(n, base);
    if n < base {
      OneDigit(n, base, upper);
    } else {
      NumeralDenotes(n / base, base, upper);
      NumeralSnoc(n, base, upper);
    }
  }

  lemma OneDigit(d: nat, base: nat, upper: bool)
    requires IsBase(base) && d < base
    ensures Denoted([DigitChar(d, upper)], base) == d
  {
    DigitRoundTrip(d, upper);
    DenotedSnoc([], DigitChar(d, upper), base);
    assert [] + [DigitChar(d, upper)] == [DigitChar(d, upper)];
  }

  lemma QuotientAndDigit(n: nat, base: nat)
    requires IsBase(base)
    ensures n / base * base + n % base == n && n % base < base
    ensures n >= base ==> 0 < n / base < n
  {}

  lemma NumeralSnoc(n: nat, base: nat, upper: bool)
    requires IsBase(base) && n >= base && n % base < base
    requires Denoted(Numeral(n / base, base, upper), base) == n / base
    ensures Denoted(Numeral(n, base, upper), base) == n / base * base + n % base
  {
    var init, last := Numeral(n / base, base, upper), DigitChar(n % base, upper);
    DigitRoundTrip(n % base, upper);
    DenotedSnoc(init, last, base);
    assert Numeral(n, base, upper) == init + [last];
  }

  predicate Canonical(s: string) { |s| >= 1 && (|s| > 1 ==> s[0] != '0') }

  lemma {:induction false} NumeralIsCanonical(n: nat, base: nat, upper: bool)
    requires IsBase(base)
    ensures Canonical(Numeral(n, base, upper)) && (n > 0 ==> Numeral(n, base, upper)[0] != '0')
    decreases n
  {
    QuotientAndDigit(n, base);
    if n >= base {
      NumeralIsCanonical(n / base, base, upper);
      CanonicalSnoc(Numeral(n / base, base, upper), DigitChar(n % base, upper));
    } else {
      NonzeroDigit(n, upper);
    }
  }

  lemma CanonicalSnoc(s: string, c: char)
    requires s != [] && s[0] != '0'
    ensures Canonical(s + [c]) && (s + [c])[0] != '0'
  {}

  lemma NonzeroDigit(d: nat, upper: bool)
    requires d < 16
    ensures d > 0 ==> DigitChar(d, upper) != '0'
  {}

  // Different numbers have different numerals.
  lemma NumeralIsInjective(m: nat, n: nat, base: nat)
    requires IsBase(base) && Numeral(m, base) == Numeral(n, base)
    ensures m == n
  {
    NumeralDenotes(m, base, false);
    NumeralDenotes(n, base, false);
  }

  lemma DivideSteps(n: nat, base: nat, rest: nat)
    requires base > 0
    ensures n < base * rest ==> n / base < rest
    ensures n >= base * rest ==> n / base >= rest
  {
    assert n == n / base * base + n % base;
    if n / base >= rest {
      assert n / base * base >= rest * base by { Monotone(rest, n / base, base); }
    } else {
      assert (n / base + 1) * base <= rest * base by { Monotone(n / base + 1, rest, base); }
    }
  }

  lemma Monotone(a: nat, b: nat, c: nat)
    requires a <= b
    ensures a * c <= b * c
  {
    assert (b - a) * c >= 0;
  }

  // A number below base^k needs at most k digits, and no fewer than its size demands.
  lemma {:induction false} NumeralLength(n: nat, base: nat, k: nat, upper: bool)
    requires IsBase(base) && k >= 1
    ensures |Numeral(n, base, upper)| <= k <==> n < Power(base, k)
    decreases k
  {
    if n >= base && k > 1 {
      NumeralLength(n / base, base, k - 1, upper);
      DivideSteps(n, base, Power(base, k - 1));
    } else if k == 1 {
      assert Power(base, 1) == base * Power(base, 0);
    } else {
      PowerAtLeastBase(base, k);
    }
  }

  lemma {:induction false} PowerAtLeastBase(base: nat, k: nat)
    requires IsBase(base) && k >= 1
    ensures Power(base, k) >= base
    decreases k
  {
    if k > 1 {
      PowerAtLeastBase(base, k - 1);
      Monotone(1, Power(base, k - 1), base);
    }
  }

  // ---------------------------------------------------------------- fixed width

  // The k lowest digits.
  function Fixed(n: nat, base: nat, k: nat, upper: bool := false): (s: string)
    requires IsBase(base)
    ensures |s| == k && AllDigitChars(s)
    decreases k
  {
    if k == 0 then [] else Fixed(n / base, base, k - 1, upper) + [DigitChar(n % base, upper)]
  }

  function Repeat(c: char, n: nat): (s: string)
    ensures |s| == n && forall i | 0 <= i < n :: s[i] == c
  {
    seq(n, _ => c)
  }

  // Wide enough, it is the numeral with zeros in front.
  lemma {:induction false} FixedIsPadded(n: nat, base: nat, k: nat, upper: bool)
    requires IsBase(base) && k >= |Numeral(n, base, upper)|
    ensures Fixed(n, base, k, upper) == Repeat('0', k - |Numeral(n, base, upper)|) + Numeral(n, base, upper)
    decreases k
  {
    QuotientAndDigit(n, base);
    if n < base {
      SmallDivision(n, base);
      FixedZero(base, k - 1, upper);
      PaddedSnoc("", k - 1, DigitChar(n, upper));
    } else {
      FixedIsPadded(n / base, base, k - 1, upper);
      PaddedSnoc(Numeral(n / base, base, upper), k - 1, DigitChar(n % base, upper));
    }
  }

  lemma SmallDivision(n: nat, base: nat)
    requires n < base
    ensures n / base == 0 && n % base == n
  {}

  lemma PaddedSnoc(s: string, k: nat, c: char)
    requires |s| <= k
    ensures Repeat('0', k - |s|) + s + [c] == Repeat('0', k + 1 - |s + [c]|) + (s + [c])
  {}

  lemma {:induction false} FixedZero(base: nat, k: nat, upper: bool)
    requires IsBase(base)
    ensures Fixed(0, base, k, upper) == Repeat('0', k)
    decreases k
  {
    if k > 0 {
      FixedZero(base, k - 1, upper);
      assert 0 / base == 0 && 0 % base == 0;
    }
  }

  lemma SuffixSnoc(s: string, i: nat, c: char)
    requires i <= |s|
    ensures (s + [c])[i..] == s[i..] + [c]
  {}

  lemma {:induction false} FixedSuffix(n: nat, base: nat, k: nat, j: nat)
    requires IsBase(base) && j <= k
    ensures Fixed(n, base, k)[k - j..] == Fixed(n, base, j)
    decreases j
  {
    if j > 0 {
      FixedSuffix(n / base, base, k - 1, j - 1);
      SuffixSnoc(Fixed(n / base, base, k - 1), k - j, DigitChar(n % base));
    }
  }

  // ---------------------------------------------------------------- groups of four

  // A space wherever the number of digits still to come is a positive multiple of four.
  function Grouped(s: string): string
    decreases |s|
  {
    if s == [] then []
    else
      var left := |s| - 1;
      (if left > 0 && left % 4 == 0 then [s[0], ' '] else [s[0]]) + Grouped(s[1..])
  }

  // hex_len: how many characters that makes.
  function GroupedLength(n: nat): nat { if n == 0 then 0 else n + (n - 1) / 4 }

  lemma {:induction false} GroupedHasLength(s: string)
    ensures |Grouped(s)| == GroupedLength(|s|)
    decreases |s|
  {
    if s != [] {
      GroupedHasLength(s[1..]);
    }
  }

  function WithoutSpaces(s: string): string
    decreases |s|
  {
    if s == [] then [] else (if s[0] == ' ' then [] else [s[0]]) + WithoutSpaces(s[1..])
  }

  lemma {:induction false} GroupingLosesNothing(s: string)
    requires AllDigitChars(s)
    ensures WithoutSpaces(Grouped(s)) == s
    decreases |s|
  {
    if s != [] {
      var rest := Grouped(s[1..]);
      GroupingLosesNothing(s[1..]);
      WithoutSpacesCons(s[0], rest);
      WithoutSpacesCons(' ', rest);
      WithoutSpacesCons(s[0], [' '] + rest);
      GroupedCons(s);
    }
  }

  lemma {:induction false} GroupedCons(s: string)
    requires s != []
    ensures var rest := Grouped(s[1..]);
      Grouped(s) == [s[0]] + (if |s| - 1 > 0 && (|s| - 1) % 4 == 0 then [' '] + rest else rest)
  {
    SpaceCons(s[0], Grouped(s[1..]));
  }

  lemma SpaceCons(c: char, rest: string)
    ensures [c, ' '] + rest == [c] + ([' '] + rest)
  {}

  lemma {:induction false} WithoutSpacesCons(c: char, rest: string)
    ensures WithoutSpaces([c] + rest) == if c == ' ' then WithoutSpaces(rest) else [c] + WithoutSpaces(rest)
  {
    assert ([c] + rest)[1..] == rest;
  }

  lemma {:induction false} GroupedSuffix(s: string, k: nat)
    requires k <= |s|
    ensures |Grouped(s)| >= GroupedLength(|s| - k)
    ensures Grouped(s)[|Grouped(s)| - GroupedLength(|s| - k)..] == Grouped(s[k..])
    decreases k
  {
    GroupedHasLength(s);
    if k > 0 {
      GroupedSuffix(s[1..], k - 1);
      assert s[1..][k - 1..] == s[k..];
      GroupedHasLength(s[1..]);
    }
  }

  // ---------------------------------------------------------------- bits and hexadecimal digits

  // Four bits make a hexadecimal digit.
  lemma {:induction false} HexDigitsOfBits(n: nat)
    ensures |Numeral(n, 16)| == (|Numeral(n, 2)| + 3) / 4
    decreases n
  {
    if n >= 16 {
      HexDigitsOfBits(n / 16);
      assert n / 2 / 2 / 2 / 2 == n / 16;
      assert |Numeral(n, 2)| == |Numeral(n / 2, 2)| + 1;
      assert |Numeral(n / 2, 2)| == |Numeral(n / 2 / 2, 2)| + 1;
      assert |Numeral(n / 2 / 2, 2)| == |Numeral(n / 2 / 2 / 2, 2)| + 1;
      assert |Numeral(n / 2 / 2 / 2, 2)| == |Numeral(n / 2 / 2 / 2 / 2, 2)| + 1;
    } else {
      NumeralLength(n, 2, 4, false);
      assert Power(2, 4) == 16 by { assert Power(2, 2) == 4; }
    }
  }

  // The printed form of a padded number denotes the number.
  lemma GroupedFixedDenotes(n: nat, base: nat, k: nat)
    requires IsBase(base) && k >= |Numeral(n, base)|
    ensures AllDigitChars(WithoutSpaces(Grouped(Fixed(n, base, k))))
    ensures Denoted(WithoutSpaces(Grouped(Fixed(n, base, k))), base) == n
  {
    GroupingLosesNothing(Fixed(n, base, k));
    FixedIsPadded(n, base, k, false);
    LeadingZeros(k - |Numeral(n, base)|, Numeral(n, base), base);
    NumeralDenotes(n, base, false);
  }

  lemma {:induction false} LeadingZeros(z: nat, s: string, base: nat)
    requires IsBase(base) && AllDigitChars(s)
    ensures AllDigitChars(Repeat('0', z) + s)
    ensures Denoted(Repeat('0', z) + s, base) == Denoted(s, base)
    decreases z + |s|
  {
    var t := Repeat('0', z) + s;
    if s != [] {
      LeadingZeros(z, s[..|s| - 1], base);
      assert t[..|t| - 1] == Repeat('0', z) + s[..|s| - 1];
    } else if z > 0 {
      LeadingZeros(z - 1, [], base);
      assert t[..|t| - 1] == Repeat('0', z - 1) + [];
    } else {
      assert t == [];
    }
  }

  // Read from the left: the first digit counts base^(digits to come).
  lemma {:induction false} DenotedFromTheLeft(c: char, s: string, base: nat)
    requires IsBase(base) && IsDigitChar(c) && AllDigitChars(s)
    ensures AllDigitChars([c] + s)
    ensures Denoted([c] + s, base) == DigitValue(c) * Power(base, |s|) + Denoted(s, base)
    decreases |s|
  {
    if s == [] {
      DenotedSnoc([], c, base);
      assert [] + [c] == [c] + s;
    } else {
      var init, last := s[..|s| - 1], s[|s| - 1];
      DenotedFromTheLeft(c, init, base);
      assert [c] + s == ([c] + init) + [last] && s == init + [last];
      DenotedSnoc([c] + init, last, base);
      DenotedSnoc(init, last, base);
      Distribute(DigitValue(c), Power(base, |init|), Denoted(init, base), base);
    }
  }

  lemma Distribute(d: nat, p: nat, x: nat, b: nat)
    ensures (d * p + x) * b == d * (b * p) + x * b
  {
    assert d * (b * p) == d * p * b;
  }
}
