// vkprintf: the first pass fills a table of specifiers, the second prints literal segments and
// arguments from it, under the print lock and with interrupts off.

module Formatter {
  import opened Console
  import opened Numerals
  import opened StringHelper
  import opened BitHexString
  import opened FormatText

  const MAX_SPECS := 0xFF

  datatype Arg =
    | CharArg(c: char)
    | StringArg(bytes: seq<char>)
    | IntArg(v: Int32)
    | UintArg(n: Uint32)
    | FloatArg(bits: Uint32)

  // How a float prints, with a number of decimals or without, is not part of this model.
  type FloatText = (Uint32, int) -> string
  const NO_PRECISION := -1

  function UpToZero(bytes: seq<char>): string {
    if bytes == [] || bytes[0] == '\0' then "" else [bytes[0]] + UpToZero(bytes[1..])
  }

  function PadOf(p: Spec): nat { if p.option == Pad then p.optionNum else 0 }

  // The printer of such a field stops the kernel.
  predicate TooWide(p: Spec) { p.tag in {IntTag, UintTag, HexTag} && PadOf(p) > MAX_PAD }

  // The caller passes an argument of the right type.
  predicate Fits(p: Spec, arg: Arg) {
    match p.tag
    case CharTag => arg.CharArg?
    case StringTag => arg.StringArg? && if p.option == StrLen then p.optionNum <= |arg.bytes| else '\0' in arg.bytes
    case IntTag => arg.IntArg?
    case UintTag => arg.UintArg?
    case FloatTag => arg.FloatArg?
    case HexTag => arg.UintArg?
    case BinaryTag => arg.UintArg?
    case Invalid => true
  }

  // An unknown type takes no argument and prints nothing. Nothing is taken after a stop.
  predicate AllFit(specs: seq<Spec>, args: seq<Arg>) {
    specs == [] ||
    if specs[0].tag == Invalid then AllFit(specs[1..], args)
    else args != [] && Fits(specs[0], args[0]) && (TooWide(specs[0]) || AllFit(specs[1..], args[1..]))
  }

  function Render(p: Spec, arg: Arg, float: FloatText): string
    requires Fits(p, arg)
  {
    match p.tag
    case CharTag => [arg.c]
    case StringTag => if p.option == StrLen then arg.bytes[..p.optionNum] else UpToZero(arg.bytes)
    case IntTag => IntField(arg.v, PadOf(p))
    case UintTag => UintField(arg.n, PadOf(p))
    case FloatTag => float(arg.bits, if p.option == Precision then p.optionNum else NO_PRECISION)
    case HexTag => HexField(arg.n, PadOf(p))
    case BinaryTag => BinaryField(arg.n, PadOf(p))
    case Invalid => ""
  }

  datatype Field = Stop | Field(text: string, left: seq<Arg>)

  // What one specifier prints, and the arguments it leaves.
  function FieldAt(p: Spec, args: seq<Arg>, float: FloatText): Field {
    if p.tag == Invalid then Field("", args)
    else if TooWide(p) || args == [] || !Fits(p, args[0]) then Stop
    else Field(Render(p, args[0], float), args[1..])
  }

  // What the specifiers print, up to the one that stops.
  function Rendered(specs: seq<Spec>, args: seq<Arg>, float: FloatText): (r: seq<string>)
    ensures |r| <= |specs|
  {
    if specs == [] then []
    else match FieldAt(specs[0], args, float)
      case Stop => []
      case Field(text, left) => [text] + Rendered(specs[1..], left, float)
  }

  // It stops exactly at the first field that is too wide.
  lemma {:induction false} StopsAtTooWide(specs: seq<Spec>, args: seq<Arg>, float: FloatText)
    requires AllFit(specs, args)
    ensures |Rendered(specs, args, float)| < |specs| <==> exists p <- specs :: TooWide(p)
    decreases |specs|
  {
    if specs != [] && !TooWide(specs[0]) {
      StopsAtTooWide(specs[1..], if specs[0].tag == Invalid then args else args[1..], float);
      assert specs == [specs[0]] + specs[1..];
    } else if specs != [] {
      assert specs[0] in specs;
    }
  }

  // What a format and its arguments say, read once from left to right, up to a stop.
  function Interpret(fmt: string, at: nat, args: seq<Arg>, float: FloatText): string
    decreases |fmt| - at
  {
    if at >= |fmt| then ""
    else if fmt[at] != '%' then [fmt[at]] + Interpret(fmt, at + 1, args, float)
    else
      match FieldAt(SpecAt(fmt, at), args, float)
      case Stop => ""
      case Field(text, left) => text + Interpret(fmt, at + SpecLength(fmt, at), left, float)
  }

  // These are the specifiers one reading meets.
  ghost predicate Meets(fmt: string, at: nat, specs: seq<Spec>)
    decreases |fmt| - at
  {
    if at >= |fmt| then specs == []
    else if fmt[at] != '%' then Meets(fmt, at + 1, specs)
    else specs != [] && specs[0] == SpecAt(fmt, at) && Meets(fmt, at + SpecLength(fmt, at), specs[1..])
  }

  lemma {:induction false} SpecsAreMet(fmt: string, at: nat)
    requires at <= |fmt| && WellFormed(fmt, at)
    ensures Meets(fmt, at, Specs(fmt, at))
    decreases |fmt| - at
  {
    if at < |fmt| && fmt[at] != '%' {
      SpecsAreMet(fmt, at + 1);
    } else if at < |fmt| {
      var p := AtPercent(fmt, at);
      AfterPercent(fmt, at);
      SpecsAreMet(fmt, at + p.len);
      MeetsOneMore(fmt, at, p, Specs(fmt, at + p.len));
    }
  }

  lemma {:induction false} MeetsOneMore(fmt: string, at: nat, p: Spec, after: seq<Spec>)
    requires at < |fmt| && fmt[at] == '%' && p == SpecAt(fmt, at) && Meets(fmt, at + SpecLength(fmt, at), after)
    ensures Meets(fmt, at, [p] + after)
  {
    assert ([p] + after)[1..] == after;
  }

  // One reading of the format is the literals and the rendered arguments in order.
  lemma {:induction false} InterpretIsOnePass(fmt: string, at: nat, specs: seq<Spec>, args: seq<Arg>, float: FloatText)
    requires Meets(fmt, at, specs)
    ensures Interpret(fmt, at, args, float) == OnePass(fmt, at, Rendered(specs, args, float))
    decreases |fmt| - at
  {
    if at < |fmt| && fmt[at] != '%' {
      InterpretIsOnePass(fmt, at + 1, specs, args, float);
    } else if at < |fmt| {
      var next := at + SpecLength(fmt, at);
      var left := OneSpecStep(fmt, at, next, specs[0], specs[1..], args, float);
      assert specs == [specs[0]] + specs[1..];
      InterpretIsOnePass(fmt, next, specs[1..], left, float);
    }
  }

  lemma {:induction false} OneSpecStep(fmt: string, at: nat, next: nat, p: Spec, after: seq<Spec>, args: seq<Arg>, float: FloatText)
    returns (left: seq<Arg>)
    requires at < |fmt| && fmt[at] == '%' && p == SpecAt(fmt, at) && next == at + SpecLength(fmt, at)
    ensures Interpret(fmt, next, left, float) == OnePass(fmt, next, Rendered(after, left, float)) ==>
            Interpret(fmt, at, args, float) == OnePass(fmt, at, Rendered([p] + after, args, float))
  {
    var field, pieces := FieldAt(p, args, float), Rendered([p] + after, args, float);
    left := if field.Stop? then args else field.left;
    RenderedCons(p, after, args, field, float);
    if field.Stop? {
      InterpretStops(fmt, at, args, float);
    } else {
      InterpretGoesOn(fmt, at, args, field.text, left, float);
      OnePassGoesOn(fmt, at, pieces);
      assert pieces[0] == field.text && pieces[1..] == Rendered(after, left, float);
    }
  }

  lemma {:induction false} InterpretStops(fmt: string, at: nat, args: seq<Arg>, float: FloatText)
    requires at < |fmt| && fmt[at] == '%' && FieldAt(SpecAt(fmt, at), args, float).Stop?
    ensures Interpret(fmt, at, args, float) == "" == OnePass(fmt, at, [])
  {}

  lemma {:induction false} InterpretGoesOn(fmt: string, at: nat, args: seq<Arg>, text: string, left: seq<Arg>, float: FloatText)
    requires at < |fmt| && fmt[at] == '%' && FieldAt(SpecAt(fmt, at), args, float) == Field(text, left)
    ensures Interpret(fmt, at, args, float) == text + Interpret(fmt, at + SpecLength(fmt, at), left, float)
  {}

  lemma {:induction false} OnePassGoesOn(fmt: string, at: nat, pieces: seq<string>)
    requires at < |fmt| && fmt[at] == '%' && pieces != []
    ensures OnePass(fmt, at, pieces) == pieces[0] + OnePass(fmt, at + SpecLength(fmt, at), pieces[1..])
  {}

  lemma {:induction false} RenderedCons(p: Spec, rest: seq<Spec>, args: seq<Arg>, field: Field, float: FloatText)
    requires field == FieldAt(p, args, float)
    ensures Rendered([p] + rest, args, float)
            == if field.Stop? then [] else [field.text] + Rendered(rest, field.left, float)
  {
    assert ([p] + rest)[1..] == rest;
  }

  // ---------------------------------------------------------------- the first pass

  function Count(s: string, c: char, at: nat): nat
    decreases |s| - at
  {
    if at >= |s| then 0 else (if s[at] == c then 1 else 0) + Count(s, c, at + 1)
  }

  lemma {:induction false} EveryPercentIsASpec(fmt: string, at: nat)
    ensures |Specs(fmt, at)| == Count(fmt, '%', at)
    decreases |fmt| - at
  {
    if at < |fmt| {
      EveryPercentIsASpec(fmt, at + 1);
    }
  }

  // The count is kept in a byte.
  method CountChar(s: string, delimiter: char) returns (count: nat)
    ensures count == Count(s, delimiter, 0) % 0x100
  {
    count := 0;
    for i := 0 to |s|
      invariant count < 0x100
      invariant (count + Count(s, delimiter, i)) % 0x100 == Count(s, delimiter, 0) % 0x100
    {
      if s[i] == delimiter {
        count := (count + 1) % 0x100;
      }
    }
  }

  // Collects the digits behind the option character, after the zero the parser stops at.
  method OptionDigits(fmt: string, at: nat) returns (lenChar: array<char>, len: nat)
    requires 1 <= DigitRun(fmt, at) <= 7
    ensures fresh(lenChar) && lenChar.Length == 9 && len == DigitRun(fmt, at)
    ensures at + len <= |fmt| && lenChar[1..1 + len] == fmt[at..at + len]
    ensures lenChar[0] == '\0' && IsString(lenChar[..], 1, len)
  {
    ghost var run := DigitRun(fmt, at);
    lenChar := new char[9](_ => '\0');
    len := 0;
    while IsDigit(CharAt(fmt, at + len))
      invariant len <= run && at + run <= |fmt|
      invariant lenChar[0] == '\0' && lenChar[1..1 + len] == fmt[at..at + len]
      decreases run - len
    {
      ghost var before := lenChar[1..1 + len];
      lenChar[1 + len] := CharAt(fmt, at + len);
      assert lenChar[1..1 + len + 1] == before + [fmt[at + len]];
      assert fmt[at..at + len + 1] == fmt[at..at + len] + [fmt[at + len]];
      len := len + 1;
    }
    lenChar[1 + len] := '\0';
    forall i | 1 <= i < 1 + len ensures lenChar[i] != '\0' {
      assert lenChar[i] == lenChar[1..1 + len][i - 1];
    }
  }

  // Two fields are set only behind an option character with a digit, or without any; else they keep
  // what the stack held.
  method GetSingleFormatProperties(fmt: string, at: nat, stale: Leftover) returns (p: Spec)
    requires Safe(fmt, at)
    ensures p == Settle(SpecAt(fmt, at), stale)
  {
    SettledSpec(fmt, at, stale);
    var tag := CharToTag(fmt[at + 1]);
    var option := CharToOption(CharAt(fmt, at + 2));
    if option == None {
      return Spec(tag, option, 0, 2, at);
    }
    if !IsDigit(CharAt(fmt, at + 3)) {
      return Spec(tag, NotImplemented, stale.num, stale.len, at);
    }
    var number, len := OptionNumber(fmt, at + 3);
    return Spec(tag, option, number, 3 + len, at);
  }

  // Seven digits always convert; the low byte is kept.
  method OptionNumber(fmt: string, at: nat) returns (number: nat, len: nat)
    requires 1 <= DigitRun(fmt, at) <= 7
    ensures len == DigitRun(fmt, at) && at + len <= |fmt| && number == Number(fmt[at..at + len])
  {
    var lenChar: array<char>;
    lenChar, len := OptionDigits(fmt, at);
    var len32 := StringToUint(lenChar, 1, len);
    ghost var digits := fmt[at..at + len];
    OptionNumberConverts(digits);
    assert len32 == ParseUint(digits) != TWO_32 - 1;
    number := len32 % 0x100;
  }

  lemma {:induction false} SettledSpec(fmt: string, at: nat, stale: Leftover)
    requires Safe(fmt, at)
    ensures var tag, option, n := CharToTag(fmt[at + 1]), CharToOption(CharAt(fmt, at + 2)), DigitRun(fmt, at + 3);
      Settle(SpecAt(fmt, at), stale) ==
        if option == None then Spec(tag, None, 0, 2, at)
        else if n == 0 then Spec(tag, NotImplemented, stale.num, stale.len, at)
        else Spec(tag, option, Number(fmt[at + 3..at + 3 + n]), 3 + n, at)
  {}

  ghost predicate AllSafe(fmt: string) { forall k | 0 <= k < |fmt| && fmt[k] == '%' :: Safe(fmt, k) }

  lemma {:induction false} WellFormedIsSafe(fmt: string)
    requires WellFormed(fmt)
    ensures AllSafe(fmt)
  {
    forall k | 0 <= k < |fmt| && fmt[k] == '%' ensures Safe(fmt, k) {
      EverySpecReadable(fmt, 0, k);
    }
  }

  lemma {:induction false} EverySpecReadable(fmt: string, at: nat, k: nat)
    requires WellFormed(fmt, at) && at <= k < |fmt| && fmt[k] == '%'
    ensures Readable(fmt, k)
    decreases |fmt| - at
  {
    if fmt[at] == '%' && k > at {
      SpanHoldsNoPercent(fmt, at);
      AfterPercent(fmt, at);
      EverySpecReadable(fmt, at + SpecLength(fmt, at), k);
    } else if k > at {
      EverySpecReadable(fmt, at + 1, k);
    }
  }

  // Stops when there are more specifiers than were counted.
  method SetTypesAndPos(fmt: string, info: array<Spec>, percentCount: nat, stale: nat -> Leftover) returns (ok: bool)
    requires AllSafe(fmt) && |fmt| < 0x1_0000
    requires info.Length == percentCount < 0x100
    modifies info
    ensures ok <==> |Specs(fmt)| <= percentCount
    ensures ok ==> info[..|Specs(fmt)|] == StaleTable(Specs(fmt), stale)
  {
    var count, offset := 0, 0;
    ghost var done := [];
    assert StaleTable(done, stale) == info[..0];
    while offset < |fmt|
      invariant offset <= |fmt| && count == |done| <= percentCount
      invariant Specs(fmt) == done + Specs(fmt, offset) && info[..count] == StaleTable(done, stale)
    {
      if fmt[offset] == '%' {
        if percentCount == count {
          return false;
        }
        info[count] := GetSingleFormatProperties(fmt, offset, stale(offset));
        done := OneMoreEntry(fmt, offset, info[..count + 1], done, stale);
        count := (count + 1) % 0x100;
      }
      offset := (offset + 1) % 0x1_0000;
    }
    assert Specs(fmt) == done;
    return true;
  }

  lemma {:induction false} OneMoreEntry(fmt: string, at: nat, table: seq<Spec>, done: seq<Spec>, stale: nat -> Leftover)
    returns (done': seq<Spec>)
    requires at < |fmt| && fmt[at] == '%' && |table| == |done| + 1
    requires table[..|done|] == StaleTable(done, stale) && table[|done|] == Settle(SpecAt(fmt, at), stale(at))
    ensures |done'| == |table| && done + Specs(fmt, at) == done' + Specs(fmt, at + 1)
    ensures table == StaleTable(done', stale)
  {
    done' := done + [SpecAt(fmt, at)];
    assert done' + Specs(fmt, at + 1) == done + ([SpecAt(fmt, at)] + Specs(fmt, at + 1));
    assert table == table[..|done|] + [table[|done|]];
    assert StaleTable(done', stale) == StaleTable(done, stale) + [Settle(SpecAt(fmt, at), stale(at))];
  }

  // What a specifier without a digit found is never printed with.
  lemma {:induction false} StaleRendersAlike(specs: seq<Spec>, args: seq<Arg>, stale: nat -> Leftover, float: FloatText)
    ensures Rendered(StaleTable(specs, stale), args, float) == Rendered(specs, args, float)
    decreases |specs|
  {
    if specs == [] {
      assert StaleTable(specs, stale) == specs;
    } else {
      var p, rest := specs[0], specs[1..];
      var field := FieldAt(p, args, float);
      assert specs == [p] + rest;
      StaleTableCons(p, rest, stale);
      SettledTakesAlike(p, stale(p.pos), args, float);
      RenderedCons(p, rest, args, field, float);
      RenderedCons(Settle(p, stale(p.pos)), StaleTable(rest, stale), args, field, float);
      if field.Field? {
        StaleRendersAlike(rest, field.left, stale, float);
      }
    }
  }

  lemma {:induction false} SettledTakesAlike(p: Spec, stale: Leftover, args: seq<Arg>, float: FloatText)
    ensures FieldAt(Settle(p, stale), args, float) == FieldAt(p, args, float)
  {}

  lemma {:induction false} StaleFitsAlike(specs: seq<Spec>, args: seq<Arg>, stale: nat -> Leftover)
    requires AllFit(specs, args)
    ensures AllFit(StaleTable(specs, stale), args)
    decreases |specs|
  {
    if specs == [] {
      assert StaleTable(specs, stale) == specs;
    } else {
      var p, rest := specs[0], specs[1..];
      assert specs == [p] + rest;
      StaleTableCons(p, rest, stale);
      if p.tag == Invalid {
        StaleFitsAlike(rest, args, stale);
      } else if !TooWide(p) {
        StaleFitsAlike(rest, args[1..], stale);
      }
      SettledFitsAlike(p, Settle(p, stale(p.pos)), rest, StaleTable(rest, stale), args);
    }
  }

  lemma {:induction false} SettledFitsAlike(p: Spec, q: Spec, u: seq<Spec>, t: seq<Spec>, args: seq<Arg>)
    requires q.option == p.option && q.tag == p.tag && (p.option != NotImplemented ==> q == p)
    requires AllFit([p] + u, args)
    requires !TooWide(p) ==> AllFit(t, if p.tag == Invalid then args else args[1..])
    ensures AllFit([q] + t, args)
  {
    assert ([p] + u)[1..] == u && ([q] + t)[1..] == t;
  }

  // ---------------------------------------------------------------- the segments

  datatype StartAndEnd = StartAndEnd(start: nat, end: nat)

  // The i-th literal segment lies between specifiers i - 1 and i.
  function SegmentStart(specs: seq<Spec>, i: nat): nat
    requires i <= |specs|
  {
    if i == 0 then 0 else AfterSpec(specs[i - 1])
  }

  function SegmentEnd(fmt: string, specs: seq<Spec>, i: nat): nat
    requires i <= |specs|
  {
    if i == |specs| then |fmt| else specs[i].pos
  }

  // A segment as kept: sixteen bits, and the end one too low.
  ghost predicate Kept(fmt: string, specs: seq<Spec>, i: nat, s: StartAndEnd)
    requires i <= |specs|
  {
    && s.start == SegmentStart(specs, i)
    && (s.end + 1) % 0x1_0000 == SegmentEnd(fmt, specs, i)
  }

  ghost predicate Inside(fmt: string, specs: seq<Spec>) {
    forall i | 0 <= i < |specs| :: specs[i].pos < |fmt| && specs[i].optionNum < 0x100
  }

  lemma {:induction false} SpecsInside(fmt: string, at: nat)
    requires at <= |fmt|
    ensures Inside(fmt, Specs(fmt, at))
    decreases |fmt| - at
  {
    if at < |fmt| {
      SpecsInside(fmt, at + 1);
    }
  }

  lemma {:induction false} TableInside(fmt: string, specs: seq<Spec>, stale: nat -> Leftover)
    requires Inside(fmt, specs)
    ensures Inside(fmt, StaleTable(specs, stale))
  {}

  method SetStartAndEnds(fmt: string, info: array<Spec>, len: nat, segments: array<StartAndEnd>)
    requires |fmt| < 0x1_0000 && 0 < len == info.Length && Inside(fmt, info[..])
    requires segments.Length == len + 1
    modifies segments
    ensures forall i | 0 <= i <= len :: Kept(fmt, info[..], i, segments[i])
  {
    ghost var specs := info[..];
    segments[0] := StartAndEnd(0, (info[0].pos - 1) % 0x1_0000);
    EndIsKept(fmt, specs, 0);
    for i := 1 to len
      invariant forall k | 0 <= k < i :: Kept(fmt, specs, k, segments[k])
    {
      segments[i] := StartAndEnd((info[i - 1].pos + info[i - 1].len) % 0x1_0000, (info[i].pos - 1) % 0x1_0000);
      EndIsKept(fmt, specs, i);
    }
    segments[len] := StartAndEnd((info[len - 1].pos + info[len - 1].len) % 0x1_0000, (|fmt| - 1) % 0x1_0000);
    EndIsKept(fmt, specs, len);
  }

  lemma {:induction false} EndIsKept(fmt: string, specs: seq<Spec>, i: nat)
    requires |fmt| < 0x1_0000 && i <= |specs| && Inside(fmt, specs)
    ensures Kept(fmt, specs, i, StartAndEnd(SegmentStart(specs, i), (SegmentEnd(fmt, specs, i) - 1) % 0x1_0000))
  {
    EndWrapsBack(SegmentEnd(fmt, specs, i));
  }

  // ---------------------------------------------------------------- the second pass

  // terminal_write_offsets: the end is not included.
  method TerminalWriteOffsets(t: Terminal, fmt: string, start: nat, end: nat)
    requires end <= |fmt|
    modifies t
    ensures t.out == old(t.out) + Literal(fmt, start, end)
  {
    if end <= start {
      return;
    }
    for i := start to end
      invariant t.out == old(t.out) + Literal(fmt, start, i)
    {
      t.PutChar(fmt[i]);
      OneMoreLiteral(fmt, start, i);
    }
  }

  method PrintDecimal(t: Terminal, p: Spec, arg: Arg, pad: nat) returns (ok: bool)
    requires (p.tag == IntTag || p.tag == UintTag) && Fits(p, arg)
    modifies t
    ensures ok <==> pad <= MAX_PAD
    ensures t.out == old(t.out) + if !ok then "" else if p.tag == IntTag then IntField(arg.v, pad) else UintField(arg.n, pad)
  {
    if p.tag == IntTag {
      ok := PrintIntF(t, arg.v, pad);
    } else {
      ok := PrintUintF(t, arg.n, pad);
    }
  }

  method PrintBits(t: Terminal, hex: bool, n: Uint32, pad: nat) returns (ok: bool)
    requires pad < 0x100
    modifies t
    ensures ok <==> !hex || pad <= MAX_PAD
    ensures t.out == old(t.out) + if !ok then "" else if hex then HexField(n, pad) else BinaryField(n, pad)
  {
    if hex {
      ok := PrintHexF(t, n, pad);
    } else {
      assert pad % 0x100 == pad;
      PrintBinary(t, n, pad);
      return true;
    }
  }

  // Takes the next argument and prints it, or stops.
  method PrintField(t: Terminal, p: Spec, args: seq<Arg>, next: nat, float: FloatText) returns (next': nat, ok: bool)
    requires next <= |args|
    requires p.tag != Invalid ==> next < |args| && Fits(p, args[next])
    requires p.optionNum < 0x100
    modifies t
    ensures next' == if p.tag == Invalid then next else next + 1
    ensures ok <==> !TooWide(p)
    ensures t.out == old(t.out) + if !ok || p.tag == Invalid then "" else Render(p, args[next], float)
  {
    next', ok := next + 1, true;
    match p.tag
    case CharTag => t.PutChar(args[next].c);
    case StringTag =>
      var bytes := args[next].bytes;
      if p.option == StrLen {
        t.WriteString(bytes[..p.optionNum]);
      } else {
        t.WriteString(UpToZero(bytes));
      }
    case FloatTag => t.WriteString(float(args[next].bits, if p.option == Precision then p.optionNum else NO_PRECISION));
    case Invalid => next' := next;
    case IntTag => ok := PrintDecimal(t, p, args[next], PadOf(p));
    case UintTag => ok := PrintDecimal(t, p, args[next], PadOf(p));
    case _ => ok := PrintBits(t, p.tag == HexTag, args[next].n, PadOf(p));
  }

  // What the second pass still has to print before specifier i.
  function FromSpec(fmt: string, specs: seq<Spec>, pieces: seq<string>, i: nat): string
    requires i <= |pieces| <= |specs|
    decreases |pieces| - i
  {
    if i == |pieces| then ""
    else pieces[i] + (Literal(fmt, SegmentStart(specs, i + 1), SegmentEnd(fmt, specs, i + 1))
                      + FromSpec(fmt, specs, pieces, i + 1))
  }

  lemma {:induction false} OneMoreSpec(fmt: string, specs: seq<Spec>, pieces: seq<string>, i: nat, before: string)
    requires i < |pieces| <= |specs|
    ensures before + pieces[i] + Literal(fmt, SegmentStart(specs, i + 1), SegmentEnd(fmt, specs, i + 1))
            + FromSpec(fmt, specs, pieces, i + 1) == before + FromSpec(fmt, specs, pieces, i)
  {
    FourStrings(before, pieces[i], Literal(fmt, SegmentStart(specs, i + 1), SegmentEnd(fmt, specs, i + 1)),
                FromSpec(fmt, specs, pieces, i + 1));
  }

  lemma {:induction false} FourStrings(a: string, b: string, c: string, d: string)
    ensures a + b + c + d == a + (b + (c + d))
  {}

  lemma {:induction false} FromSpecIsTwoPass(fmt: string, specs: seq<Spec>, pieces: seq<string>, i: nat)
    requires i <= |pieces| <= |specs|
    ensures TwoPass(fmt, SegmentStart(specs, i), specs[i..], pieces[i..])
            == Literal(fmt, SegmentStart(specs, i), SegmentEnd(fmt, specs, i)) + FromSpec(fmt, specs, pieces, i)
    decreases |pieces| - i
  {
    if i < |pieces| {
      FromSpecIsTwoPass(fmt, specs, pieces, i + 1);
      FromSpecStep(fmt, specs, pieces, i, TwoPass(fmt, SegmentStart(specs, i + 1), specs[i + 1..], pieces[i + 1..]));
    }
  }

  lemma {:induction false} FromSpecStep(fmt: string, specs: seq<Spec>, pieces: seq<string>, i: nat, rest: string)
    requires i < |pieces| <= |specs|
    requires rest == TwoPass(fmt, SegmentStart(specs, i + 1), specs[i + 1..], pieces[i + 1..])
    requires rest == Literal(fmt, SegmentStart(specs, i + 1), SegmentEnd(fmt, specs, i + 1)) + FromSpec(fmt, specs, pieces, i + 1)
    ensures TwoPass(fmt, SegmentStart(specs, i), specs[i..], pieces[i..])
            == Literal(fmt, SegmentStart(specs, i), SegmentEnd(fmt, specs, i)) + FromSpec(fmt, specs, pieces, i)
  {
    TwoPassStep(fmt, SegmentStart(specs, i), specs, pieces, i);
    Append(Literal(fmt, SegmentStart(specs, i), SegmentEnd(fmt, specs, i)), pieces[i], rest);
  }

  lemma {:induction false} TwoPassStep(fmt: string, from: nat, specs: seq<Spec>, pieces: seq<string>, i: nat)
    requires i < |pieces| <= |specs|
    ensures TwoPass(fmt, from, specs[i..], pieces[i..])
            == Literal(fmt, from, specs[i].pos) + pieces[i]
               + TwoPass(fmt, AfterSpec(specs[i]), specs[i + 1..], pieces[i + 1..])
  {
    assert specs[i..][1..] == specs[i + 1..] && pieces[i..][1..] == pieces[i + 1..];
  }

  // The arguments from `next` on are those of the specifiers from i on.
  ghost predicate Ahead(specs: seq<Spec>, args: seq<Arg>, float: FloatText, pieces: seq<string>, i: nat, next: nat) {
    && i <= |pieces| <= |specs| && next <= |args|
    && AllFit(specs[i..], args[next..])
    && pieces[i..] == Rendered(specs[i..], args[next..], float)
  }

  // The argument the i-th specifier takes is the next one.
  lemma {:induction false} NextField(specs: seq<Spec>, args: seq<Arg>, float: FloatText, i: nat, next: nat, pieces: seq<string>)
    requires Ahead(specs, args, float, pieces, i, next) && i < |specs|
    ensures specs[i].tag != Invalid ==> next < |args| && Fits(specs[i], args[next])
    ensures TooWide(specs[i]) <==> i == |pieces|
    ensures i < |pieces| ==>
      pieces[i] == if specs[i].tag == Invalid then "" else Render(specs[i], args[next], float)
    ensures var next' := if specs[i].tag == Invalid then next else next + 1;
      i < |pieces| ==> Ahead(specs, args, float, pieces, i + 1, next')
  {
    assert specs[i..] == [specs[i]] + specs[i + 1..];
    RenderedCons(specs[i], specs[i + 1..], args[next..], FieldAt(specs[i], args[next..], float), float);
    if i < |pieces| {
      assert pieces[i] == pieces[i..][0] && pieces[i + 1..] == pieces[i..][1..];
      if specs[i].tag != Invalid {
        assert args[next..][1..] == args[next + 1..];
      }
    }
  }

  // The body of the second pass: one argument, and the segment behind it.
  method PrintFieldAndSegment(t: Terminal, fmt: string, p: Spec, segment: StartAndEnd, args: seq<Arg>, next: nat,
                              float: FloatText, ghost specs: seq<Spec>, ghost pieces: seq<string>, ghost i: nat)
    returns (next': nat, ok: bool)
    requires Ahead(specs, args, float, pieces, i, next) && i < |specs| && p == specs[i] && Inside(fmt, specs)
    requires Kept(fmt, specs, i + 1, segment)
    modifies t
    ensures ok <==> i < |pieces|
    ensures ok ==> Ahead(specs, args, float, pieces, i + 1, next')
    ensures ok ==> t.out + FromSpec(fmt, specs, pieces, i + 1) == old(t.out) + FromSpec(fmt, specs, pieces, i)
    ensures !ok ==> t.out == old(t.out) + FromSpec(fmt, specs, pieces, i)
  {
    NextField(specs, args, float, i, next, pieces);
    ghost var before := t.out;
    next', ok := PrintField(t, p, args, next, float);
    if !ok {
      return;
    }
    TerminalWriteOffsets(t, fmt, segment.start, (segment.end + 1) % 0x1_0000);
    OneMoreSpec(fmt, specs, pieces, i, before);
  }

  // The loop of the second pass.
  method PrintFields(t: Terminal, fmt: string, info: array<Spec>, segments: array<StartAndEnd>, args: seq<Arg>, float: FloatText,
                     ghost specs: seq<Spec>, ghost pieces: seq<string>)
    returns (ok: bool)
    requires info[..] == specs && Inside(fmt, specs) && segments.Length == info.Length + 1
    requires Ahead(specs, args, float, pieces, 0, 0)
    requires forall i | 0 <= i <= info.Length :: Kept(fmt, specs, i, segments[i])
    modifies t
    ensures t.out == old(t.out) + FromSpec(fmt, specs, pieces, 0)
    ensures ok <==> |pieces| == |specs|
  {
    var next: nat := 0;
    for i := 0 to info.Length
      invariant Ahead(specs, args, float, pieces, i, next) && info[..] == specs
      invariant t.out + FromSpec(fmt, specs, pieces, i) == old(t.out) + FromSpec(fmt, specs, pieces, 0)
    {
      next, ok := PrintFieldAndSegment(t, fmt, info[i], segments[i + 1], args, next, float, specs, pieces, i);
      if !ok {
        return;
      }
    }
    return true;
  }

  // The second pass over a table prints the two-pass text, up to a field that is too wide.
  method PrintSegments(t: Terminal, fmt: string, info: array<Spec>, segments: array<StartAndEnd>, args: seq<Arg>, float: FloatText,
                       ghost specs: seq<Spec>, ghost pieces: seq<string>)
    returns (ok: bool)
    requires info[..] == specs && Inside(fmt, specs) && segments.Length == info.Length + 1
    requires Ahead(specs, args, float, pieces, 0, 0)
    requires forall i | 0 <= i <= info.Length :: Kept(fmt, specs, i, segments[i])
    modifies t
    ensures t.out == old(t.out) + TwoPass(fmt, 0, specs, pieces)
    ensures ok <==> |pieces| == |specs|
  {
    FirstSegment(fmt, specs, pieces);
    TerminalWriteOffsets(t, fmt, segments[0].start, (segments[0].end + 1) % 0x1_0000);
    ok := PrintFields(t, fmt, info, segments, args, float, specs, pieces);
  }

  lemma {:induction false} FirstSegment(fmt: string, specs: seq<Spec>, pieces: seq<string>)
    requires Inside(fmt, specs) && |pieces| <= |specs|
    ensures SegmentEnd(fmt, specs, 0) <= |fmt|
    ensures TwoPass(fmt, 0, specs, pieces) == Literal(fmt, 0, SegmentEnd(fmt, specs, 0)) + FromSpec(fmt, specs, pieces, 0)
  {
    FromSpecIsTwoPass(fmt, specs, pieces, 0);
    assert specs[0..] == specs && pieces[0..] == pieces;
  }

  lemma {:induction false} TableIsPrintable(fmt: string, table: seq<Spec>, args: seq<Arg>, stale: nat -> Leftover, float: FloatText)
    requires table == StaleTable(Specs(fmt), stale) && AllFit(Specs(fmt), args)
    ensures Inside(fmt, table) && Ahead(table, args, float, Rendered(Specs(fmt), args, float), 0, 0)
    ensures |Rendered(Specs(fmt), args, float)| < |Specs(fmt)| <==> exists p <- Specs(fmt) :: TooWide(p)
  {
    SpecsInside(fmt, 0);
    TableInside(fmt, Specs(fmt), stale);
    StaleRendersAlike(Specs(fmt), args, stale, float);
    StaleFitsAlike(Specs(fmt), args, stale);
    StopsAtTooWide(Specs(fmt), args, float);
    AllAhead(table, args, float);
  }

  lemma {:induction false} AllAhead(specs: seq<Spec>, args: seq<Arg>, float: FloatText)
    requires AllFit(specs, args)
    ensures Ahead(specs, args, float, Rendered(specs, args, float), 0, 0)
  {
    var pieces := Rendered(specs, args, float);
    assert specs[0..] == specs && args[0..] == args && pieces[0..] == pieces;
  }

  // Both passes, for a format whose specifiers were counted.
  method PrintTable(t: Terminal, fmt: string, len: nat, args: seq<Arg>, float: FloatText, stale: nat -> Leftover)
    returns (ok: bool)
    requires AllSafe(fmt) && |fmt| < 0x1_0000 && AllFit(Specs(fmt), args)
    requires 0 < len == |Specs(fmt)| % 0x100
    modifies t
    ensures ok <==> |Specs(fmt)| <= MAX_SPECS && !exists p <- Specs(fmt) :: TooWide(p)
    ensures |Specs(fmt)| <= MAX_SPECS ==>
      t.out == old(t.out) + TwoPass(fmt, 0, StaleTable(Specs(fmt), stale), Rendered(Specs(fmt), args, float))
  {
    var info := new Spec[len](_ => Spec(Invalid, None, 0, 0, 0));
    ok := SetTypesAndPos(fmt, info, len, stale);
    if !ok {
      return;
    }
    TableIsPrintable(fmt, info[..], args, stale, float);
    var segments := new StartAndEnd[len + 1](_ => StartAndEnd(0, 0));
    SetStartAndEnds(fmt, info, len, segments);
    ok := PrintSegments(t, fmt, info, segments, args, float, info[..], Rendered(Specs(fmt), args, float));
  }

  // ---------------------------------------------------------------- vkprintf

  // Beyond 255 specifiers the count wraps: a multiple of 256 prints the bare format, any other
  // number stops the kernel before any of the format is printed.
  function Output(fmt: string, args: seq<Arg>, float: FloatText, stale: nat -> Leftover): string {
    if |Specs(fmt)| % 0x100 == 0 then fmt
    else if |Specs(fmt)| > MAX_SPECS then ""
    else TwoPass(fmt, 0, StaleTable(Specs(fmt), stale), Rendered(Specs(fmt), args, float))
  }

  predicate Stops(fmt: string) {
    |Specs(fmt)| % 0x100 != 0 && (|Specs(fmt)| > MAX_SPECS || exists p <- Specs(fmt) :: TooWide(p))
  }

  // Up to 255 specifiers print what one reading of the format says.
  lemma {:induction false} OutputIsInterpretation(fmt: string, args: seq<Arg>, float: FloatText, stale: nat -> Leftover)
    requires WellFormed(fmt) && |fmt| < 0x1_0000 && |Specs(fmt)| <= MAX_SPECS && StaleOk(Specs(fmt), stale)
    ensures Output(fmt, args, float, stale) == Interpret(fmt, 0, args, float)
  {
    TwoPassPrintsInterpretation(fmt, args, float, stale);
    OutputIsTwoPass(fmt, Specs(fmt), args, float, stale);
  }

  lemma {:induction false} OutputIsTwoPass(fmt: string, specs: seq<Spec>, args: seq<Arg>, float: FloatText, stale: nat -> Leftover)
    requires specs == Specs(fmt) && |specs| <= MAX_SPECS
    ensures Output(fmt, args, float, stale) == TwoPass(fmt, 0, StaleTable(specs, stale), Rendered(specs, args, float))
  {
    if specs == [] {
      NoSpecsIsTheText(fmt, stale);
      assert Rendered(specs, args, float) == [];
      assert Output(fmt, args, float, stale) == fmt;
    } else {
      assert |specs| % 0x100 == |specs|;
    }
  }

  // The core that prints: its depth in the print lock, and its interrupt flag.
  class Printer {
    const terminal: Terminal
    var depth: nat
    var interrupts: bool

    constructor (terminal: Terminal)
      ensures this.terminal == terminal && depth == 0 && interrupts
    {
      this.terminal := terminal;
      depth, interrupts := 0, true;
    }

    // irq_save, then reentrant_lock.
    method Enter() returns (flags: bool)
      requires depth < MAX_DEPTH
      modifies this
      ensures flags == old(interrupts) && !interrupts && depth == old(depth) + 1
    {
      flags := interrupts;
      interrupts := false;
      depth := depth + 1;
    }

    // reentrant_unlock, then irq_restore.
    method Leave(flags: bool)
      requires depth > 0
      modifies this
      ensures interrupts == flags && depth == old(depth) - 1
    {
      depth := depth - 1;
      interrupts := flags;
    }

    // A field that is too wide stops the kernel there, lock held and interrupts off.
    method Vkprintf(fmt: string, args: seq<Arg>, float: FloatText, stale: nat -> Leftover) returns (aborted: bool)
      requires AllSafe(fmt) && |fmt| < 0x1_0000 && AllFit(Specs(fmt), args)
      requires depth < MAX_DEPTH
      modifies this, terminal
      ensures aborted <==> Stops(fmt)
      ensures !aborted ==> depth == old(depth) && interrupts == old(interrupts)
      ensures aborted ==> depth == old(depth) + 1 && !interrupts
      ensures !aborted || |Specs(fmt)| <= MAX_SPECS ==> terminal.out == old(terminal.out) + Output(fmt, args, float, stale)
      ensures WellFormed(fmt) && |Specs(fmt)| <= MAX_SPECS && StaleOk(Specs(fmt), stale) ==>
        terminal.out == old(terminal.out) + Interpret(fmt, 0, args, float)
    {
      if WellFormed(fmt) && |Specs(fmt)| <= MAX_SPECS && StaleOk(Specs(fmt), stale) {
        OutputIsInterpretation(fmt, args, float, stale);
      }
      var flags := Enter();
      var len := CountChar(fmt, '%');
      EveryPercentIsASpec(fmt, 0);
      if len == 0 {
        terminal.WriteString(fmt);
        Leave(flags);
        return false;
      }
      var ok := PrintTable(terminal, fmt, len, args, float, stale);
      if !ok {
        return true;
      }
      Leave(flags);
      return false;
    }
  }

  const MAX_DEPTH: nat := 0x7FFF

  lemma {:induction false} NoSpecsIsTheText(fmt: string, stale: nat -> Leftover)
    ensures TwoPass(fmt, 0, StaleTable([], stale), []) == fmt
  {
    assert StaleTable([], stale) == [];
    LiteralIsSlice(fmt, 0, |fmt|);
    assert fmt[0..|fmt|] == fmt;
  }

  // The table-driven printer refines the one-pass reading.
  lemma {:induction false} TwoPassPrintsInterpretation(fmt: string, args: seq<Arg>, float: FloatText, stale: nat -> Leftover)
    requires WellFormed(fmt) && |fmt| < 0x1_0000 && StaleOk(Specs(fmt), stale)
    ensures TwoPass(fmt, 0, StaleTable(Specs(fmt), stale), Rendered(Specs(fmt), args, float)) == Interpret(fmt, 0, args, float)
  {
    SpecsAreRoomy(fmt, 0);
    StaleOkPrints(fmt, 0, Specs(fmt), stale, Rendered(Specs(fmt), args, float));
    SpecsAreMet(fmt, 0);
    InterpretIsOnePass(fmt, 0, Specs(fmt), args, float);
    TwoPassesAreOne(fmt, 0, 0, Rendered(Specs(fmt), args, float));
  }
}
