// Number to string and back, over character buffers, in 32-bit arithmetic.

module StringHelper {
  import opened Numerals

  const TWO_32: nat := 0x1_0000_0000
  const INT_MIN: int := -0x8000_0000

  type Uint32 = n: nat | n < 0x1_0000_0000
  type Int32 = n: int | -0x8000_0000 <= n < 0x8000_0000

  // A string of length n starts at `at`: no terminator inside, one behind it.
  ghost predicate IsString(s: seq<char>, at: nat, n: nat) {
    at + n < |s| && s[at + n] == '\0' && forall i | at <= i < at + n :: s[i] != '\0'
  }

  function Reverse(s: string): (r: string)
    ensures |r| == |s| && forall i | 0 <= i < |s| :: r[i] == s[|s| - 1 - i]
  {
    seq(|s|, i requires 0 <= i < |s| => s[|s| - 1 - i])
  }

  lemma ReverseSnoc(s: string, c: char)
    ensures Reverse(s + [c]) == [c] + Reverse(s)
  {}

  lemma TenDigits(v: Uint32)
    ensures |Numeral(v, 10)| <= 10
  {
    assert Power(10, 10) == 10_000_000_000 by {
      assert Power(10, 4) == 10_000 by { assert Power(10, 2) == 100; }
      assert Power(10, 6) == 1_000_000 && Power(10, 8) == 100_000_000;
    }
    NumeralLength(v, 10, 10, false);
  }

  // size_t strlen(const char *)
  method Strlen(a: array<char>, at: nat, ghost n: nat) returns (len: nat)
    requires IsString(a[..], at, n)
    ensures len == n
  {
    len := 0;
    while a[at + len] != '\0'
      invariant len <= n
      decreases n - len
    {
      len := len + 1;
    }
  }

  // The reversal loop shared by the decimal printers.
  method ReverseInPlace(a: array<char>, n: nat)
    requires 0 < n <= a.Length
    modifies a
    ensures a[..n] == Reverse(old(a[..n])) && a[n..] == old(a[n..])
  {
    var start, end := 0, n - 1;
    while start < end
      invariant 0 <= start && end < n && start + end == n - 1 && start <= end + 1
      invariant forall i | 0 <= i < start :: a[i] == old(a[n - 1 - i]) && a[n - 1 - i] == old(a[i])
      invariant forall i | start <= i <= end :: a[i] == old(a[i])
      invariant a[n..] == old(a[n..])
    {
      var tmp := a[start];
      a[start] := a[end];
      a[end] := tmp;
      start := start + 1;
      end := end - 1;
    }
    forall i | 0 <= i < n ensures a[i] == old(a[n - 1 - i]) {
      if i > end {
        assert a[n - 1 - (n - 1 - i)] == old(a[n - 1 - i]);
      }
    }
    assert old(a[..n]) == old(a[..])[..n];
  }

  // The digit loop shared by the decimal printers: least significant digit first.
  method WriteDigitsReversed(v: nat, a: array<char>) returns (pos: nat)
    requires 0 < v && |Numeral(v, 10)| <= a.Length
    modifies a
    ensures pos == |Numeral(v, 10)| && a[..pos] == Reverse(Numeral(v, 10))
    ensures a[pos..] == old(a[pos..])
  {
    pos := 0;
    var value := v;
    while value > 0
      invariant pos <= |Numeral(v, 10)|
      invariant Numeral(v, 10) == (if value > 0 then Numeral(value, 10) else []) + Reverse(a[..pos])
      invariant a[pos..] == old(a[pos..])
      decreases value
    {
      ghost var written := a[..pos];
      var d := DigitChar(value % 10);
      a[pos] := d;
      pos := pos + 1;
      assert a[..pos] == written + [d];
      ReverseSnoc(written, d);
      value := value / 10;
    }
    assert a[..pos] == Reverse(Reverse(a[..pos]));
  }

  // Writes the canonical decimal numeral and a terminator, at most eleven characters.
  method Uitoa(v: Uint32, buffer: array<char>) returns (len: nat)
    requires buffer.Length >= 11
    modifies buffer
    ensures len <= 10 && buffer[..len] == Numeral(v, 10) && buffer[len] == '\0'
    ensures buffer[len + 1..] == old(buffer[len + 1..])
  {
    if v == 0 {
      buffer[0] := '0';
      buffer[1] := '\0';
      return 1;
    }
    TenDigits(v);
    var pos := WriteDigitsReversed(v, buffer);
    buffer[pos] := '\0';
    assert buffer[..pos] == Reverse(Numeral(v, 10));
    ghost var tail := buffer[pos..];
    ReverseInPlace(buffer, pos);
    assert buffer[..pos] == Numeral(v, 10);
    assert buffer[pos] == tail[0] && buffer[pos + 1..] == tail[1..];
    return pos;
  }

  // What itoa should write.
  function IntText(v: int): string { if v < 0 then "-" + Numeral(-v, 10) else Numeral(v, 10) }

  // Negation wraps: the most negative int stays negative, and no digit is written for it.
  method Itoa(v: Int32, buffer: array<char>) returns (len: nat)
    requires buffer.Length >= 12
    modifies buffer
    ensures len <= 11 && buffer[len] == '\0' && buffer[len + 1..] == old(buffer[len + 1..])
    ensures buffer[..len] == if v == INT_MIN then "-" else IntText(v)
  {
    if v == 0 {
      buffer[0] := '0';
      buffer[1] := '\0';
      return 1;
    }
    var negative := v < 0;
    var value: Int32 := if !negative then v else if v == INT_MIN then INT_MIN else -v;
    var pos := 0;
    if value > 0 {
      TenDigits(value);
      pos := WriteDigitsReversed(value, buffer);
    }
    ghost var digits := buffer[..pos];
    if negative {
      buffer[pos] := '-';
      pos := pos + 1;
      assert buffer[..pos] == digits + ['-'];
      ReverseSnoc(digits, '-');
    }
    buffer[pos] := '\0';
    ghost var text, tail := buffer[..pos], buffer[pos..];
    assert text == if negative then digits + ['-'] else digits;
    ReverseInPlace(buffer, pos);
    assert buffer[..pos] == Reverse(text);
    assert buffer[pos] == tail[0] && buffer[pos + 1..] == tail[1..];
    assert value > 0 ==> Reverse(digits) == Numeral(value, 10);
    return pos;
  }

  // The text denotes the argument for every int but the most negative one.
  function IntDenoted(s: string): int
    requires s != [] && (s[0] == '-' || AllDigitChars(s)) && AllDigitChars(s[1..])
  {
    if s[0] == '-' then -(Denoted(s[1..], 10) as int) else Denoted(s, 10)
  }

  lemma IntTextDenotes(v: int)
    ensures IntText(v) != "-"
    ensures AllDigitChars(IntText(v)[1..]) && (IntText(v)[0] == '-' || AllDigitChars(IntText(v)))
    ensures IntDenoted(IntText(v)) == v
  {
    if v < 0 {
      NumeralDenotes(-v, 10, false);
      assert IntText(v)[1..] == Numeral(-v, 10);
    } else {
      NumeralDenotes(v, 10, false);
      assert IsDigitChar(IntText(v)[0]);
    }
  }

  lemma ItoaDenotesIff(v: Int32)
    ensures var text := if v == INT_MIN then "-" else IntText(v);
      && text != [] && AllDigitChars(text[1..]) && (text[0] == '-' || AllDigitChars(text))
      && (IntDenoted(text) == v <==> v != INT_MIN)
  {
    IntTextDenotes(v);
    assert "-"[1..] == [];
  }

  const CHAR_TO_UINT_INVALID: nat := 11

  function CharToUint(c: char): nat {
    if !IsDigit(c) then CHAR_TO_UINT_INVALID else c as int - '0' as int
  }

  // string_to_uint on text: the value in 32 bits, or 0xFFFFFFFF when some character is no digit.
  // The length is kept in a byte, so only the first |text| mod 256 characters count.
  function ParseUint(text: string): Uint32 {
    var s := text[..|text| % 0x100];
    if AllDigits(s) then Denoted(s, 10) % TWO_32 else TWO_32 - 1
  }

  lemma ModStep(d: nat, p: nat, x: nat)
    ensures (x % TWO_32 + d * (p % TWO_32)) % TWO_32 == (d * p + x) % TWO_32
    ensures p % TWO_32 * 10 % TWO_32 == 10 * p % TWO_32
  {
    var q := p / TWO_32;
    var y := x / TWO_32;
    assert d * p == d * (p % TWO_32) + d * q * TWO_32 by {
      assert p == p % TWO_32 + q * TWO_32;
      assert d * (p % TWO_32 + q * TWO_32) == d * (p % TWO_32) + d * (q * TWO_32);
    }
    ModAdd(x % TWO_32 + d * (p % TWO_32), d * q + y);
    ModAdd(p % TWO_32 * 10, 10 * q);
  }

  lemma ModAdd(a: nat, k: nat)
    ensures (a + k * TWO_32) % TWO_32 == a % TWO_32
  {}

  lemma ParseStep(s: string, left: nat)
    requires 0 < left <= |s| && AllDigits(s[left..]) && IsDigit(s[left - 1])
    ensures AllDigits(s[left - 1..])
    ensures Denoted(s[left - 1..], 10) % TWO_32 ==
            (Denoted(s[left..], 10) % TWO_32 + CharToUint(s[left - 1]) * (Power(10, |s| - left) % TWO_32)) % TWO_32
    ensures Power(10, |s| - left + 1) % TWO_32 == Power(10, |s| - left) % TWO_32 * 10 % TWO_32
  {
    var c, rest := s[left - 1], s[left..];
    assert s[left - 1..] == [c] + rest;
    DenotedFromTheLeft(c, rest, 10);
    ModStep(DigitValue(c), Power(10, |rest|), Denoted(rest, 10));
  }

  // The loop of string_to_uint: from the last counted character back to the zero before the first.
  method SumDigits(a: array<char>, at: nat, length: nat) returns (r: Uint32)
    requires 0 < at && at + length <= a.Length && a[at - 1] == '\0'
    requires forall i | at <= i < at + length :: a[i] != '\0'
    ensures r == if AllDigits(a[at..at + length]) then Denoted(a[at..at + length], 10) % TWO_32 else TWO_32 - 1
  {
    ghost var s := a[at..at + length];
    var power: Uint32 := 1;
    var sum: Uint32 := 0;
    var pos := at + length - 1;
    while a[pos] != '\0'
      invariant at - 1 <= pos < at + length
      invariant AllDigits(s[pos + 1 - at..])
      invariant sum == Denoted(s[pos + 1 - at..], 10) % TWO_32
      invariant power == Power(10, at + length - 1 - pos) % TWO_32
      decreases pos
    {
      var digit := CharToUint(a[pos]);
      assert a[pos] == s[pos - at];
      if digit == CHAR_TO_UINT_INVALID {
        return TWO_32 - 1;
      }
      ParseStep(s, pos + 1 - at);
      sum := (sum + digit * power) % TWO_32;
      power := power * 10 % TWO_32;
      pos := pos - 1;
    }
    assert pos == at - 1 && s[0..] == s;
    return sum;
  }

  method StringToUint(a: array<char>, at: nat, ghost n: nat) returns (r: Uint32)
    requires at > 0 && a.Length > at && a[at - 1] == '\0' && IsString(a[..], at, n)
    ensures r == ParseUint(a[at..at + n])
  {
    var length := Strlen(a, at, n);
    r := SumDigits(a, at, length % 0x100);
    assert a[at..at + length % 0x100] == a[at..at + n][..length % 0x100];
  }

  // Parsing undoes printing, for every 32-bit number, although the power wraps on the way.
  lemma ParseUndoesPrint(v: Uint32)
    ensures ParseUint(Numeral(v, 10)) == v
  {
    TenDigits(v);
    NumeralDenotes(v, 10, false);
    assert Numeral(v, 10)[..|Numeral(v, 10)|] == Numeral(v, 10);
  }

  // The error value is also a number.
  lemma ErrorValueIsAlsoANumber(text: string)
    requires |text| < 0x100 && AllDigits(text) && Denoted(text, 10) < TWO_32
    ensures ParseUint(text) == TWO_32 - 1 <==> Denoted(text, 10) == 0xFFFF_FFFF
  {
    assert text[..|text|] == text;
  }

  // All eight digits, with leading zeros.
  method WriteNibbles(v: Uint32, temp: array<char>, upper: bool)
    requires temp.Length == 9
    modifies temp
    ensures temp[..8] == Fixed(v, 16, 8, upper) && temp[8] == '\0'
  {
    temp[8] := '\0';
    var value: nat := v;
    var i := 7;
    while i >= 0
      invariant -1 <= i <= 7 && temp[8] == '\0'
      invariant Fixed(v, 16, 8, upper) == Fixed(value, 16, i + 1, upper) + temp[i + 1..8]
    {
      ghost var done := temp[i + 1..8];
      temp[i] := DigitChar(value % 16, upper);
      assert temp[i..8] == [DigitChar(value % 16, upper)] + done;
      value := value / 16;
      i := i - 1;
    }
    assert temp[0..8] == temp[..8];
  }

  // Writes the digits into a scratch buffer, then copies them without the leading zeros.
  method UintToHex(v: Uint32, buffer: array<char>, upper: bool) returns (len: nat)
    requires buffer.Length > |Numeral(v, 16, upper)|
    modifies buffer
    ensures len == |Numeral(v, 16, upper)| <= 8
    ensures buffer[..len] == Numeral(v, 16, upper) && buffer[len] == '\0'
  {
    EightDigits(v, upper);
    if v == 0 {
      buffer[0] := '0';
      buffer[1] := '\0';
      return 1;
    }
    var temp := new char[9];
    WriteNibbles(v, temp, upper);
    ghost var digits := Numeral(v, 16, upper);
    ghost var zeros := 8 - |digits|;
    FixedIsPadded(v, 16, 8, upper);
    NumeralIsCanonical(v, 16, upper);
    ghost var layout := temp[..];
    HexLayout(layout, digits);
    var i := 0;
    while temp[i] == '0'
      invariant 0 <= i <= zeros
      decreases zeros - i
    {
      i := i + 1;
    }
    var j := 0;
    while temp[i] != '\0'
      invariant temp[..] == layout
      invariant i == zeros + j && 0 <= j <= |digits|
      invariant buffer[..j] == digits[..j]
      decreases 8 - i
    {
      buffer[j] := temp[i];
      j := j + 1;
      i := i + 1;
    }
    buffer[j] := '\0';
    return j;
  }

  lemma HexLayout(temp: seq<char>, digits: string)
    requires |temp| == 9 && 1 <= |digits| <= 8 && temp[8] == '\0' && AllDigitChars(digits)
    requires temp[..8] == Repeat('0', 8 - |digits|) + digits
    ensures forall k | 0 <= k < 8 - |digits| :: temp[k] == '0'
    ensures forall k | 8 - |digits| <= k < 8 :: temp[k] == digits[k - (8 - |digits|)] && temp[k] != '\0'
  {
    assert forall k | 0 <= k < 8 :: temp[k] == temp[..8][k];
  }

  lemma EightDigits(v: Uint32, upper: bool)
    ensures |Numeral(v, 16, upper)| <= 8
  {
    assert Power(16, 8) == TWO_32 by {
      assert Power(16, 2) == 256;
      assert Power(16, 4) == 65536;
      assert Power(16, 6) == 65536 * 256;
    }
    NumeralLength(v, 16, 8, upper);
  }
}
