// The format language by its characters: what each letter and each option character prints.

module FormatLetters {
  import opened Numerals
  import opened StringHelper
  import opened BitHexString
  import opened FormatText
  import opened Formatter

  // The text of a letter with an option character (a blank if there is none) and its number, and
  // the arguments left. Only ':' pads, only '.' sets the decimals, and only ';' cuts a string.
  function Directive(letter: char, option: char, number: nat, args: seq<Arg>, float: FloatText): Field {
    var pad := if option == ':' then number else 0;
    if letter !in {'c', 's', 'd', 'u', 'f', 'h', 'b'} then Field("", args)
    else if args == [] then Stop
    else match args[0]
      case CharArg(c) => if letter == 'c' then Field([c], args[1..]) else Stop
      case StringArg(bytes) =>
        if letter != 's' then Stop
        else if option == ';' then if number <= |bytes| then Field(bytes[..number], args[1..]) else Stop
        else if '\0' in bytes then Field(UpToZero(bytes), args[1..]) else Stop
      case IntArg(v) => if letter == 'd' && pad <= 16 then Field(IntField(v, pad), args[1..]) else Stop
      case UintArg(n) =>
        if letter == 'u' && pad <= 16 then Field(UintField(n, pad), args[1..])
        else if letter == 'h' && pad <= 16 then Field(HexField(n, pad), args[1..])
        else if letter == 'b' then Field(BinaryField(n, pad), args[1..])
        else Stop
      case FloatArg(bits) => if letter == 'f' then Field(float(bits, if option == '.' then number else -1), args[1..]) else Stop
  }

  // A field and what follows it.
  function Followed(field: Field, fmt: string, next: nat, float: FloatText): string {
    if field.Stop? then "" else field.text + Interpret(fmt, next, field.left, float)
  }

  // The option character that means this option; a blank for none.
  function OptionChar(o: Opt): char {
    match o
    case Pad => ':'
    case Precision => '.'
    case StrLen => ';'
    case _ => ' '
  }

  lemma {:induction false} FieldByLetter(p: Spec, letter: char, args: seq<Arg>, float: FloatText)
    requires p.tag == CharToTag(letter)
    ensures FieldAt(p, args, float) == Directive(letter, OptionChar(p.option), p.optionNum, args, float)
  {
    if letter in {'c', 's', 'd', 'u', 'f', 'h', 'b'} && args != [] {
      FieldOfArgument(p, letter, args[0], args, float);
    }
  }

  lemma {:induction false} FieldOfArgument(p: Spec, letter: char, arg: Arg, args: seq<Arg>, float: FloatText)
    requires p.tag == CharToTag(letter) && letter in {'c', 's', 'd', 'u', 'f', 'h', 'b'}
    requires args != [] && arg == args[0]
    ensures FieldAt(p, args, float) == Directive(letter, OptionChar(p.option), p.optionNum, args, float)
  {
    match arg
    case CharArg(_) =>
    case StringArg(_) =>
    case IntArg(_) =>
    case UintArg(_) =>
    case FloatArg(_) =>
  }

  lemma {:induction false} AtPercentSign(fmt: string, at: nat, args: seq<Arg>, field: Field, float: FloatText)
    requires at < |fmt| && fmt[at] == '%' && field == FieldAt(SpecAt(fmt, at), args, float)
    ensures Interpret(fmt, at, args, float) == Followed(field, fmt, at + SpecLength(fmt, at), float)
  {
    if field.Stop? {
      InterpretStops(fmt, at, args, float);
    } else {
      InterpretGoesOn(fmt, at, args, field.text, field.left, float);
    }
  }

  // Without an option: two characters.
  lemma {:induction false} PlainDirective(fmt: string, at: nat, args: seq<Arg>, float: FloatText) returns (field: Field)
    requires at + 1 < |fmt| && fmt[at] == '%'
    requires at + 2 < |fmt| ==> fmt[at + 2] !in {':', '.', ';'}
    ensures field == Directive(fmt[at + 1], ' ', 0, args, float) && SpecLength(fmt, at) == 2
    ensures Interpret(fmt, at, args, float) == Followed(field, fmt, at + SpecLength(fmt, at), float)
  {
    PlainSpec(fmt, at);
    field := DirectiveAt(fmt, at, SpecAt(fmt, at), fmt[at + 1], ' ', 0, args, float);
  }

  lemma {:induction false} PlainSpec(fmt: string, at: nat)
    requires at + 1 < |fmt|
    requires at + 2 < |fmt| && fmt[at + 2] in {':', '.', ';'} ==> at + 3 < |fmt| ==> !('0' <= fmt[at + 3] <= '9')
    ensures var p := SpecAt(fmt, at);
      p.tag == CharToTag(fmt[at + 1]) && OptionChar(p.option) == ' ' && p.optionNum == 0 && SpecLength(fmt, at) == 2
  {}

  // An option character without a digit behind it is text.
  lemma {:induction false} OptionWithoutDigit(fmt: string, at: nat, args: seq<Arg>, float: FloatText) returns (field: Field)
    requires at + 2 < |fmt| && fmt[at] == '%' && fmt[at + 2] in {':', '.', ';'}
    requires at + 3 < |fmt| ==> !('0' <= fmt[at + 3] <= '9')
    ensures field == Directive(fmt[at + 1], ' ', 0, args, float) && SpecLength(fmt, at) == 2
    ensures Interpret(fmt, at, args, float) == Followed(field, fmt, at + SpecLength(fmt, at), float)
  {
    PlainSpec(fmt, at);
    field := DirectiveAt(fmt, at, SpecAt(fmt, at), fmt[at + 1], ' ', 0, args, float);
  }

  lemma {:induction false} DirectiveAt(fmt: string, at: nat, p: Spec, letter: char, option: char, number: nat,
                                       args: seq<Arg>, float: FloatText)
    returns (field: Field)
    requires at < |fmt| && fmt[at] == '%' && p == SpecAt(fmt, at)
    requires p.tag == CharToTag(letter) && OptionChar(p.option) == option && p.optionNum == number
    ensures field == Directive(letter, option, number, args, float)
    ensures Interpret(fmt, at, args, float) == Followed(field, fmt, at + SpecLength(fmt, at), float)
  {
    field := FieldAt(p, args, float);
    FieldByLetter(p, letter, args, float);
    AtPercentSign(fmt, at, args, field, float);
  }

  // With an option and n digits, the number they denote modulo 256.
  lemma {:induction false} OptionDirective(fmt: string, at: nat, n: nat, number: nat, args: seq<Arg>, float: FloatText)
    returns (field: Field)
    requires at + 2 < |fmt| && fmt[at] == '%' && fmt[at + 2] in {':', '.', ';'}
    requires 1 <= n <= 7 && at + 3 + n <= |fmt| && forall i | at + 3 <= i < at + 3 + n :: '0' <= fmt[i] <= '9'
    requires at + 3 + n < |fmt| ==> !('0' <= fmt[at + 3 + n] <= '9')
    requires number == Denoted(fmt[at + 3..at + 3 + n], 10) % 256
    ensures field == Directive(fmt[at + 1], fmt[at + 2], number, args, float) && SpecLength(fmt, at) == 3 + n
    ensures Interpret(fmt, at, args, float) == Followed(field, fmt, at + SpecLength(fmt, at), float)
  {
    OptionSpec(fmt, at, n, number);
    field := DirectiveAt(fmt, at, SpecAt(fmt, at), fmt[at + 1], fmt[at + 2], number, args, float);
  }

  lemma {:induction false} OptionSpec(fmt: string, at: nat, n: nat, number: nat)
    requires at + 2 < |fmt| && fmt[at + 2] in {':', '.', ';'}
    requires 1 <= n <= 7 && at + 3 + n <= |fmt| && forall i | at + 3 <= i < at + 3 + n :: '0' <= fmt[i] <= '9'
    requires at + 3 + n < |fmt| ==> !('0' <= fmt[at + 3 + n] <= '9')
    requires number == Denoted(fmt[at + 3..at + 3 + n], 10) % 256
    ensures var p := SpecAt(fmt, at);
      && p.tag == CharToTag(fmt[at + 1]) && OptionChar(p.option) == fmt[at + 2]
      && p.optionNum == number && SpecLength(fmt, at) == 3 + n
  {
    DigitsCounted(fmt, at + 3, n);
    OptionNumberConverts(fmt[at + 3..at + 3 + n]);
  }

  lemma {:induction false} DigitsCounted(fmt: string, at: nat, n: nat)
    requires at + n <= |fmt| && forall i | at <= i < at + n :: '0' <= fmt[i] <= '9'
    requires at + n < |fmt| ==> !('0' <= fmt[at + n] <= '9')
    ensures DigitRun(fmt, at) == n
    decreases n
  {
    if n > 0 {
      DigitsCounted(fmt, at + 1, n - 1);
    }
  }

  // The seven letters alone.
  lemma {:induction false} Letters(c: char, s: string, v: Int32, n: Uint32, float: FloatText)
    requires '\0' !in s
    ensures Interpret("%c", 0, [CharArg(c)], float) == [c]
    ensures Interpret("%s", 0, [StringArg(s + ['\0'])], float) == s
    ensures Interpret("%d", 0, [IntArg(v)], float) == IntField(v, 0)
    ensures Interpret("%u", 0, [UintArg(n)], float) == UintField(n, 0)
    ensures Interpret("%f", 0, [FloatArg(n)], float) == float(n, -1)
    ensures Interpret("%h", 0, [UintArg(n)], float) == HexField(n, 0)
    ensures Interpret("%b", 0, [UintArg(n)], float) == BinaryField(n, 0)
  {
    TextBeforeZero(s, []);
    assert s + ['\0'] + [] == s + ['\0'];
    OneLetter("%c", CharArg(c), [c], float);
    OneLetter("%s", StringArg(s + ['\0']), s, float);
    OneLetter("%d", IntArg(v), IntField(v, 0), float);
    OneLetter("%u", UintArg(n), UintField(n, 0), float);
    OneLetter("%f", FloatArg(n), float(n, -1), float);
    OneLetter("%h", UintArg(n), HexField(n, 0), float);
    OneLetter("%b", UintArg(n), BinaryField(n, 0), float);
  }

  lemma {:induction false} OneLetter(fmt: string, arg: Arg, text: string, float: FloatText)
    requires |fmt| == 2 && fmt[0] == '%' && Directive(fmt[1], ' ', 0, [arg], float) == Field(text, [])
    ensures Interpret(fmt, 0, [arg], float) == text
  {
    var field := PlainDirective(fmt, 0, [arg], float);
    assert text + "" == text;
  }

  // A string prints up to its terminator.
  lemma {:induction false} TextBeforeZero(s: string, rest: string)
    requires '\0' !in s
    ensures UpToZero(s + ['\0'] + rest) == s
    decreases |s|
  {
    if s != [] {
      assert (s + ['\0'] + rest)[1..] == s[1..] + ['\0'] + rest;
      TextBeforeZero(s[1..], rest);
    }
  }
}
