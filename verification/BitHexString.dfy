// The numeric printers: hexadecimal, binary, and padded decimal.

module Console {
  // The terminal as the characters it was given.
  class Terminal {
    var out: string

    constructor ()
      ensures out == ""
    {
      out := "";
    }

    method PutChar(c: char)
      modifies this
      ensures out == old(out) + [c]
    {
      out := out + [c];
    }

    method WriteString(s: string)
      modifies this
      ensures out == old(out) + s
    {
      out := out + s;
    }
  }
}

module BitHexString {
  import opened Common
  import opened Console
  import opened Numerals
  import opened StringHelper

  // Beyond this the printers of numbers stop the kernel, before they print anything.
  const MAX_PAD: nat := 16

  // How many bits the number needs; one for zero.
  method BinarySize(n: Uint32) returns (bits: nat)
    ensures bits == |Numeral(n, 2)| <= 32
  {
    ThirtyTwoBits(n);
    if n == 0 {
      return 1;
    }
    bits := 0;
    var binaryNumber := n;
    while binaryNumber > 0
      invariant |Numeral(n, 2)| == bits + (if binaryNumber > 0 then |Numeral(binaryNumber, 2)| else 0)
      decreases binaryNumber
    {
      bits := bits + 1;
      binaryNumber := binaryNumber / 2;
    }
  }

  lemma ThirtyTwoBits(n: Uint32)
    ensures |Numeral(n, 2)| <= 32
  {
    HexDigitsOfBits(n);
    EightDigits(n, false);
  }

  method HexSize(n: Uint32) returns (digits: nat)
    ensures digits == |Numeral(n, 16)|
  {
    HexDigitsOfBits(n);
    var bits := BinarySize(n);
    if bits % 4 != 0 {
      return bits / 4 + 1;
    }
    return bits / 4;
  }

  // The first loop of print_hex_f.
  method PrintLeadingZeros(t: Terminal, leadingZeros: nat, toPrint: nat, ghost digits: string)
    requires leadingZeros < toPrint == |digits| && digits[..leadingZeros] == Repeat('0', leadingZeros)
    modifies t
    ensures t.out + Grouped(digits[leadingZeros..]) == old(t.out) + Grouped(digits)
  {
    assert digits[0..] == digits;
    for i := 0 to leadingZeros
      invariant t.out + Grouped(digits[i..]) == old(t.out) + Grouped(digits)
    {
      NextDigit(digits, i);
      assert digits[i] == digits[..leadingZeros][i];
      PrintPiece(t, '0', (toPrint - (i + 1)) % 4 == 0);
    }
  }

  // The second loop of print_hex_f.
  method PrintDigits(t: Terminal, a: array<char>, len: nat)
    requires len < a.Length
    modifies t
    ensures t.out == old(t.out) + Grouped(a[..len])
  {
    ghost var digits := a[..len];
    assert digits[0..] == digits;
    for i := 0 to len
      invariant t.out + Grouped(digits[i..]) == old(t.out) + Grouped(digits)
    {
      NextDigit(digits, i);
      var j := len - i;
      PrintPiece(t, a[i], (j - 1) % 4 == 0 && i != len - 1);
    }
    assert digits[len..] == [];
  }

  method PrintPiece(t: Terminal, c: char, space: bool)
    modifies t
    ensures t.out == old(t.out) + ([c] + if space then [' '] else [])
  {
    t.PutChar(c);
    if space {
      t.PutChar(' ');
    }
  }

  function HexField(n: Uint32, pad: nat): string {
    "0x" + Grouped(Fixed(n, 16, Max(|Numeral(n, 16)|, pad)))
  }

  // hex_len counts the characters after the "0x".
  lemma HexFieldLength(n: Uint32, pad: nat)
    ensures |HexField(n, pad)| == 2 + GroupedLength(Max(|Numeral(n, 16)|, pad))
  {
    GroupedHasLength(Fixed(n, 16, Max(|Numeral(n, 16)|, pad)));
  }

  // "0x", then the digits padded with zeros to at least `pad`, in groups of four. The check that
  // the two ways of counting digits agree never fires.
  method PrintHexF(t: Terminal, n: Uint32, pad: nat) returns (ok: bool)
    modifies t
    ensures ok <==> pad <= MAX_PAD
    ensures t.out == if ok then old(t.out) + HexField(n, pad) else old(t.out)
  {
    if pad > MAX_PAD {
      return false;
    }
    var hexSize := HexSize(n);
    var toPrint := Max(hexSize, pad);
    var outputArray := new char[toPrint + 1];
    var len := UintToHex(n, outputArray, false);
    assert hexSize == len;
    ghost var digits := HexPadding(n, toPrint);
    PrintPadded(t, outputArray, len, toPrint, digits);
    return true;
  }

  lemma {:induction false} HexPadding(n: Uint32, toPrint: nat) returns (digits: string)
    requires toPrint >= |Numeral(n, 16)|
    ensures digits == Fixed(n, 16, toPrint) && |digits| == toPrint
    ensures var zeros := toPrint - |Numeral(n, 16)|;
            digits[..zeros] == Repeat('0', zeros) && digits[zeros..] == Numeral(n, 16)
  {
    digits := Fixed(n, 16, toPrint);
    FixedIsPadded(n, 16, toPrint, false);
  }

  method PrintPadded(t: Terminal, a: array<char>, len: nat, toPrint: nat, ghost digits: string)
    requires 0 < len <= toPrint == |digits| && len < a.Length && digits[toPrint - len..] == a[..len]
    requires digits[..toPrint - len] == Repeat('0', toPrint - len)
    modifies t
    ensures t.out == old(t.out) + ("0x" + Grouped(digits))
  {
    t.WriteString("0x");
    PrintLeadingZeros(t, toPrint - len, toPrint, digits);
    PrintDigits(t, a, len);
  }

  // What the k-th digit of s prints: itself, and a space if a whole number of groups follows.
  function Piece(s: string, k: nat): string
    requires k < |s|
  {
    var left := |s| - 1 - k;
    [s[k]] + if left > 0 && left % 4 == 0 then [' '] else []
  }

  lemma {:induction false} NextDigit(s: string, k: nat)
    requires k < |s|
    ensures Grouped(s[k..]) == Piece(s, k) + Grouped(s[k + 1..])
  {
    assert s[k..][1..] == s[k + 1..];
  }

  // ---------------------------------------------------------------- binary

  lemma OneMoreBit(rest: nat, k: nat, done: string)
    requires k > 0
    ensures Fixed(rest, 2, k) + done == Fixed(rest / 2, 2, k - 1) + ([('0' as int + rest % 2) as char] + done)
  {
    assert DigitChar(rest % 2) == ('0' as int + rest % 2) as char;
  }

  method GetSpacelessBitString(n: Uint32, output: array<char>)
    requires output.Length == 33
    modifies output
    ensures output[..32] == Fixed(n, 2, 32) && output[32] == '\0'
  {
    output[32] := '\0';
    var rest: nat := n;
    for bitIndex := 0 to 32
      invariant output[32] == '\0'
      invariant Fixed(n, 2, 32) == Fixed(rest, 2, 32 - bitIndex) + output[32 - bitIndex..32]
    {
      ghost var done := output[32 - bitIndex..32];
      OneMoreBit(rest, 32 - bitIndex, done);
      var c := rest % 2;
      rest := rest / 2;
      output[31 - bitIndex] := ('0' as int + c) as char;
      assert output[31 - bitIndex..32] == [('0' as int + c) as char] + done;
    }
    assert output[0..32] == output[..32];
  }

  // Eight whole groups: a space at every fifth position, the digits in order everywhere else.
  lemma GroupedAt(s: string, p: nat)
    requires |s| == 32 && p < 39
    ensures |Grouped(s)| == 39
    ensures p % 5 == 4 ==> Grouped(s)[p] == ' '
    ensures p % 5 != 4 ==> p - p / 5 < 32 && Grouped(s)[p] == s[p - p / 5]
  {
    var k := if p % 5 == 4 then p - 1 - (p - 1) / 5 else p - p / 5;
    DigitAt(s, k);
    assert k + k / 4 == if p % 5 == 4 then p - 1 else p;
  }

  // The k-th digit stands at k + k / 4, followed by a space when it ends a group.
  lemma DigitAt(s: string, k: nat)
    requires |s| == 32 && k < 32
    ensures |Grouped(s)| == 39 && Grouped(s)[k + k / 4] == s[k]
    ensures k % 4 == 3 && k < 31 ==> Grouped(s)[k + k / 4 + 1] == ' '
  {
    var at := k + k / 4;
    GroupedHasLength(s);
    GroupedSuffix(s, k);
    NextDigit(s, k);
    assert 39 - GroupedLength(32 - k) == at;
    assert Grouped(s)[at..][0] == s[k];
    assert k % 4 == 3 && k < 31 ==> Grouped(s)[at..][1] == ' ';
  }

  // A space at every fifth position.
  method AddSpacesEvery4Bits(bits: array<char>, output: array<char>)
    requires bits.Length == 33 && output.Length == 40 && bits != output
    modifies output
    ensures output[..39] == Grouped(bits[..32]) && output[39] == '\0'
  {
    ghost var s := bits[..32];
    GroupedHasLength(s);
    var bitIndex := 0;
    var printIndex := 0;
    while printIndex < 39
      invariant 0 <= printIndex <= 39 && bitIndex == printIndex - printIndex / 5
      invariant output[..printIndex] == Grouped(s)[..printIndex]
      invariant bits[..32] == s
    {
      GroupedAt(s, printIndex);
      if (printIndex + 1) % 5 == 0 {
        output[printIndex] := ' ';
      } else {
        output[printIndex] := bits[bitIndex];
        bitIndex := bitIndex + 1;
      }
      printIndex := printIndex + 1;
    }
    output[39] := '\0';
  }

  function BinaryField(n: Uint32, numberOfBits: nat): string {
    Grouped(Fixed(n, 2, Min(32, Max(|Numeral(n, 2)|, numberOfBits))))
  }

  // The bits padded with zeros to at least numberOfBits (taken modulo 256, as it is kept in a
  // byte), at most 32, in groups of four.
  method PrintBinary(t: Terminal, n: Uint32, numberOfBits: nat)
    modifies t
    ensures t.out == old(t.out) + BinaryField(n, numberOfBits % 0x100)
  {
    var spaced := SpacedBits(n);
    var bitSize := BinarySize(n);
    var number := Max(bitSize, numberOfBits % 0x100);
    var firstIndex := FirstIndex(number);
    ShownBits(n, Min(32, number), Fixed(n, 2, 32));
    t.WriteString(spaced[..39][firstIndex..]);
  }

  method SpacedBits(n: Uint32) returns (spaced: array<char>)
    ensures fresh(spaced) && spaced.Length == 40 && spaced[..39] == Grouped(Fixed(n, 2, 32))
  {
    var bitString := new char[33];
    GetSpacelessBitString(n, bitString);
    spaced := new char[40];
    AddSpacesEvery4Bits(bitString, spaced);
  }

  // Where in the spaced string the asked-for number of bits begins.
  method FirstIndex(number: nat) returns (i: nat)
    requires number > 0
    ensures i + GroupedLength(Min(32, number)) == 39
  {
    if number >= 32 {
      return 0;
    }
    i := 39 - (number + number / 4);
    if number % 4 == 0 {
      i := i + 1;
    }
  }

  lemma ShownBits(n: Uint32, shown: nat, bits: string)
    requires shown <= 32 && bits == Fixed(n, 2, 32)
    ensures |Grouped(bits)| == 39
    ensures Grouped(bits)[39 - GroupedLength(shown)..] == Grouped(Fixed(n, 2, shown))
  {
    FixedSuffix(n, 2, 32, shown);
    ShownSuffix(bits, shown, Fixed(n, 2, shown));
  }

  lemma ShownSuffix(s: string, shown: nat, suffix: string)
    requires |s| == 32 && shown <= 32 && s[32 - shown..] == suffix
    ensures |Grouped(s)| == 39
    ensures Grouped(s)[39 - GroupedLength(shown)..] == Grouped(suffix)
  {
    GroupedHasLength(s);
    GroupedSuffix(s, 32 - shown);
  }

  // Both printed forms denote the number printed.
  lemma {:induction false} PrintedFormsDenote(n: Uint32, pad: nat, numberOfBits: nat)
    ensures HexField(n, pad)[..2] == "0x"
    ensures var hex := WithoutSpaces(HexField(n, pad)[2..]); AllDigitChars(hex) && Denoted(hex, 16) == n
    ensures var bits := WithoutSpaces(BinaryField(n, numberOfBits)); AllDigitChars(bits) && Denoted(bits, 2) == n
  {
    ThirtyTwoBits(n);
    GroupedFixedDenotes(n, 16, Max(|Numeral(n, 16)|, pad));
    assert HexField(n, pad)[2..] == Grouped(Fixed(n, 16, Max(|Numeral(n, 16)|, pad)));
    GroupedFixedDenotes(n, 2, Min(32, Max(|Numeral(n, 2)|, numberOfBits)));
  }

  // ---------------------------------------------------------------- decimal

  method PutSpaces(t: Terminal, n: nat)
    modifies t
    ensures t.out == old(t.out) + Repeat(' ', n)
  {
    for i := 0 to n
      invariant t.out == old(t.out) + Repeat(' ', i)
    {
      t.PutChar(' ');
    }
  }

  function UintField(n: Uint32, pad: nat): string {
    Repeat(' ', Max(pad, |Numeral(n, 10)|) - |Numeral(n, 10)|) + Numeral(n, 10)
  }

  method PrintUintF(t: Terminal, n: Uint32, pad: nat) returns (ok: bool)
    modifies t
    ensures ok <==> pad <= MAX_PAD
    ensures t.out == if ok then old(t.out) + UintField(n, pad) else old(t.out)
  {
    if pad > MAX_PAD {
      return false;
    }
    var resBuff := new char[20];
    var len := Uitoa(n, resBuff);
    resBuff[len] := '\0';
    assert resBuff[..len] == Numeral(n, 10);
    PrintText(t, resBuff[..len], pad);
    return true;
  }

  // A negative number: the sign, then the padding, then the digits.
  function IntField(v: Int32, pad: nat): string {
    if v >= 0 then UintField(v, pad)
    else
      var digits := if v == INT_MIN then "" else Numeral(-(v as int), 10);
      "-" + Repeat(' ', Max(pad, |digits| + 2) - (|digits| + 2)) + digits
  }

  method PrintIntF(t: Terminal, v: Int32, pad: nat) returns (ok: bool)
    modifies t
    ensures ok <==> pad <= MAX_PAD
    ensures t.out == if ok then old(t.out) + IntField(v, pad) else old(t.out)
  {
    if pad > MAX_PAD {
      return false;
    }
    var resBuff := new char[20];
    var len := Itoa(v, resBuff);
    resBuff[len] := '\0';
    if v < 0 {
      PrintNegative(t, v, resBuff[..len], pad);
    } else {
      PrintText(t, resBuff[..len], pad);
    }
    return true;
  }

  method PrintNegative(t: Terminal, v: Int32, text: string, pad: nat)
    requires v < 0 && text == if v == INT_MIN then "-" else IntText(v)
    modifies t
    ensures t.out == old(t.out) + IntField(v, pad)
  {
    ghost var before, spaces := t.out, Repeat(' ', Max(pad, |text| + 1) - (|text| + 1));
    NegativeField(v, pad, text);
    t.PutChar('-');
    PutSpaces(t, Max(pad, |text| + 1) - (|text| + 1));
    t.WriteString(text[1..]);
    SignFirst(before, spaces, text[1..]);
  }

  method PrintText(t: Terminal, text: string, pad: nat)
    modifies t
    ensures t.out == old(t.out) + Repeat(' ', Max(pad, |text|) - |text|) + text
  {
    PutSpaces(t, Max(pad, |text|) - |text|);
    t.WriteString(text);
  }

  lemma SignFirst(before: string, spaces: string, digits: string)
    ensures before + ['-'] + spaces + digits == before + (['-'] + spaces + digits)
  {}

  lemma NegativeField(v: Int32, pad: nat, text: string)
    requires v < 0 && text == if v == INT_MIN then "-" else IntText(v)
    ensures |text| >= 1
    ensures IntField(v, pad) ==
            ['-'] + Repeat(' ', Max(pad, |text| + 1) - (|text| + 1)) + text[1..]
  {
    assert v != INT_MIN ==> text[1..] == Numeral(-(v as int), 10);
    assert v == INT_MIN ==> text[1..] == "";
  }

  predicate AllSpaces(s: string) { forall i | 0 <= i < |s| :: s[i] == ' ' }

  // The spaces stand in front of the numeral, and behind the sign.
  lemma SpacesInFront(n: Uint32, v: Int32, pad: nat)
    ensures var s, digits := UintField(n, pad), Numeral(n, 10);
      |digits| <= |s| && s[|s| - |digits|..] == digits && AllSpaces(s[..|s| - |digits|])
    ensures v >= 0 ==> IntField(v, pad) == UintField(v, pad)
    ensures v < 0 && v != INT_MIN ==>
      var s, digits := IntField(v, pad), Numeral(-(v as int), 10);
      && |digits| < |s| && s[0] == '-' && s[|s| - |digits|..] == digits && AllSpaces(s[1..|s| - |digits|])
  {}

  // The bits shown: as many as asked for or needed, at most 32, with a space after every group.
  lemma BinaryFieldLength(n: Uint32, numberOfBits: nat)
    ensures var bits := if numberOfBits > 32 then 32 else Max(|Numeral(n, 2)|, numberOfBits);
      |BinaryField(n, numberOfBits)| == bits + (bits - 1) / 4
  {
    ThirtyTwoBits(n);
    GroupedHasLength(Fixed(n, 2, Min(32, Max(|Numeral(n, 2)|, numberOfBits))));
  }

  // A padded field is as wide as asked, except that a padded negative number comes out one short.
  lemma FieldWidth(v: Int32, pad: nat)
    requires v != INT_MIN
    ensures pad <= |IntText(v)| ==> IntField(v, pad) == IntText(v)
    ensures pad > |IntText(v)| ==> |IntField(v, pad)| == pad - (if v < 0 then 1 else 0)
  {}
}
