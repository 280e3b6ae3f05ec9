// The format language of kprintf: what a format says, read from left to right, and what the
// two passes of vkprintf lay out. The theorem is that these agree.

module FormatText {
  import opened Numerals
  import opened StringHelper

  datatype Tag = CharTag | StringTag | IntTag | UintTag | FloatTag | HexTag | BinaryTag | Invalid
  datatype Opt = None | NotImplemented | Pad | Precision | StrLen

  // One "%..." : its meaning, its length, and the offset of the '%'.
  datatype Spec = Spec(tag: Tag, option: Opt, optionNum: nat, len: nat, pos: nat)

  function CharToTag(c: char): Tag {
    match c
    case 'c' => CharTag
    case 's' => StringTag
    case 'd' => IntTag
    case 'u' => UintTag
    case 'f' => FloatTag
    case 'h' => HexTag
    case 'b' => BinaryTag
    case _ => Invalid
  }

  function CharToOption(c: char): Opt {
    match c
    case ':' => Pad
    case '.' => Precision
    case ';' => StrLen
    case _ => None
  }

  // A format is the text before its terminator.
  function CharAt(fmt: string, i: nat): char { if i < |fmt| then fmt[i] else '\0' }

  function DigitRun(fmt: string, at: nat): (n: nat)
    ensures at <= |fmt| ==> at + n <= |fmt|
    ensures forall i | at <= i < at + n :: i < |fmt| && IsDigit(fmt[i])
    ensures !IsDigit(CharAt(fmt, at + n))
    decreases |fmt| - at
  {
    if at < |fmt| && IsDigit(fmt[at]) then 1 + DigitRun(fmt, at + 1) else 0
  }

  function Number(digits: string): nat { ParseUint(digits) % 0x100 }

  // An option character with no digit behind it.
  predicate WithoutDigit(fmt: string, at: nat) {
    CharToOption(CharAt(fmt, at + 2)) != None && DigitRun(fmt, at + 3) == 0
  }

  function SpecLength(fmt: string, at: nat): nat {
    if CharToOption(CharAt(fmt, at + 2)) == None || WithoutDigit(fmt, at) then 2 else 3 + DigitRun(fmt, at + 3)
  }

  function SpecNumber(fmt: string, at: nat): nat {
    var n := DigitRun(fmt, at + 3);
    if CharToOption(CharAt(fmt, at + 2)) == None || n == 0 then 0 else Number(fmt[at + 3..at + 3 + n])
  }

  function SpecOption(fmt: string, at: nat): Opt {
    if WithoutDigit(fmt, at) then NotImplemented else CharToOption(CharAt(fmt, at + 2))
  }

  // Without a digit the option character is text like any other.
  function SpecAt(fmt: string, at: nat): Spec {
    Spec(CharToTag(CharAt(fmt, at + 1)), SpecOption(fmt, at), SpecNumber(fmt, at), SpecLength(fmt, at), at)
  }

  // A character follows the '%', and at most seven digits follow an option character: more overrun
  // the source's buffer.
  predicate Safe(fmt: string, at: nat) {
    at + 1 < |fmt| && (CharToOption(CharAt(fmt, at + 2)) != None ==> DigitRun(fmt, at + 3) <= 7)
  }

  predicate Readable(fmt: string, at: nat) { Safe(fmt, at) && fmt[at + 1] != '%' }

  predicate WellFormed(fmt: string, at: nat := 0)
    decreases |fmt| - at
  {
    at < |fmt| ==>
      if fmt[at] == '%' then Readable(fmt, at) && WellFormed(fmt, at + SpecLength(fmt, at))
      else WellFormed(fmt, at + 1)
  }

  // Every '%' there is, in order, whether or not it stands inside another specifier.
  function Specs(fmt: string, at: nat := 0): seq<Spec>
    decreases |fmt| - at
  {
    if at >= |fmt| then []
    else if fmt[at] == '%' then [SpecAt(fmt, at)] + Specs(fmt, at + 1)
    else Specs(fmt, at + 1)
  }

  // The one-pass reading, with a given piece of text in place of each specifier.
  function OnePass(fmt: string, at: nat, pieces: seq<string>): string
    decreases |fmt| - at
  {
    if at >= |fmt| then ""
    else if fmt[at] != '%' then [fmt[at]] + OnePass(fmt, at + 1, pieces)
    else if pieces == [] then ""
    else pieces[0] + OnePass(fmt, at + SpecLength(fmt, at), pieces[1..])
  }

  // The characters from start up to end; none if start is not below end.
  function Literal(fmt: string, start: nat, end: nat): string
    decreases end
  {
    if start < end <= |fmt| then Literal(fmt, start, end - 1) + [fmt[end - 1]] else ""
  }

  lemma {:induction false} LiteralIsSlice(fmt: string, start: nat, end: nat)
    requires start <= end <= |fmt|
    ensures Literal(fmt, start, end) == fmt[start..end]
    decreases end
  {
    if start < end {
      LiteralIsSlice(fmt, start, end - 1);
      assert fmt[start..end] == fmt[start..end - 1] + [fmt[end - 1]];
    }
  }

  // Where the segment behind a specifier starts, in sixteen bits.
  function AfterSpec(p: Spec): nat { (p.pos + p.len) % 0x1_0000 }

  // What the second pass prints from offset `from` on, given the table the first pass built. It
  // stops at a specifier it has no piece for.
  function TwoPass(fmt: string, from: nat, specs: seq<Spec>, pieces: seq<string>): string
    decreases |specs|
  {
    if specs == [] then Literal(fmt, from, |fmt|)
    else if pieces == [] then Literal(fmt, from, specs[0].pos)
    else Literal(fmt, from, specs[0].pos) + pieces[0]
         + TwoPass(fmt, AfterSpec(specs[0]), specs[1..], pieces[1..])
  }

  lemma {:induction false} SpecFits(fmt: string, at: nat)
    requires at < |fmt| && Readable(fmt, at)
    ensures 2 <= SpecLength(fmt, at) <= 10 && at + SpecLength(fmt, at) <= |fmt|
  {
    var n := DigitRun(fmt, at + 3);
  }

  // A readable specifier ends inside the format and holds no second '%'.
  lemma {:induction false} SpanHoldsNoPercent(fmt: string, at: nat)
    requires at < |fmt| && Readable(fmt, at)
    ensures at + SpecLength(fmt, at) <= |fmt|
    ensures forall i | at < i < at + SpecLength(fmt, at) :: fmt[i] != '%'
  {
    var n := DigitRun(fmt, at + 3);
  }

  lemma {:induction false} NoPercentNoSpecs(fmt: string, at: nat, to: nat)
    requires at <= to <= |fmt| && forall i | at <= i < to :: fmt[i] != '%'
    ensures Specs(fmt, at) == Specs(fmt, to)
    decreases |fmt| - at
  {
    if at < to {
      NoPercentNoSpecs(fmt, at + 1, to);
    }
  }

  // In a well-formed format the specifiers follow one another without overlap.
  lemma {:induction false} SpecsSkip(fmt: string, at: nat)
    requires at < |fmt| && fmt[at] == '%' && WellFormed(fmt, at)
    ensures Specs(fmt, at) == [SpecAt(fmt, at)] + Specs(fmt, at + SpecLength(fmt, at))
  {
    SpanHoldsNoPercent(fmt, at);
    NoPercentNoSpecs(fmt, at + 1, at + SpecLength(fmt, at));
  }

  // The two passes print what one left-to-right reading prints, whatever the pieces are.
  lemma {:induction false} TwoPassesAreOne(fmt: string, from: nat, at: nat, pieces: seq<string>)
    requires from <= at <= |fmt| < 0x1_0000 && WellFormed(fmt, at)
    requires |pieces| <= |Specs(fmt, at)|
    ensures TwoPass(fmt, from, Specs(fmt, at), pieces) == Literal(fmt, from, at) + OnePass(fmt, at, pieces)
    decreases |fmt| - at
  {
    if at < |fmt| && fmt[at] != '%' {
      TwoPassesAreOne(fmt, from, at + 1, pieces);
      OneMoreLiteral(fmt, from, at);
      Append(Literal(fmt, from, at), [fmt[at]], OnePass(fmt, at + 1, pieces));
    } else if at < |fmt| {
      var p := AtPercent(fmt, at);
      AfterPercent(fmt, at);
      if pieces != [] {
        TwoPassesAreOne(fmt, at + p.len, at + p.len, pieces[1..]);
      }
      PercentStep(fmt, from, p, Specs(fmt, at + p.len), pieces);
    }
  }

  lemma {:induction false} PercentStep(fmt: string, from: nat, p: Spec, rest: seq<Spec>, pieces: seq<string>)
    requires p.pos < |fmt| && fmt[p.pos] == '%' && p.len == SpecLength(fmt, p.pos) && p.pos + p.len < 0x1_0000
    requires pieces != [] ==>
      TwoPass(fmt, p.pos + p.len, rest, pieces[1..])
      == Literal(fmt, p.pos + p.len, p.pos + p.len) + OnePass(fmt, p.pos + p.len, pieces[1..])
    ensures TwoPass(fmt, from, [p] + rest, pieces) == Literal(fmt, from, p.pos) + OnePass(fmt, p.pos, pieces)
  {
    if pieces != [] {
      assert AfterSpec(p) == p.pos + p.len;
      OneSpecifier(fmt, from, p, rest, pieces, OnePass(fmt, p.pos + p.len, pieces[1..]));
    } else {
      assert Literal(fmt, from, p.pos) + "" == Literal(fmt, from, p.pos);
    }
  }

  lemma {:induction false} AtPercent(fmt: string, at: nat) returns (p: Spec)
    requires at < |fmt| && fmt[at] == '%' && WellFormed(fmt, at)
    ensures p == SpecAt(fmt, at) && p.pos == at && p.len == SpecLength(fmt, at)
    ensures Specs(fmt, at) == [p] + Specs(fmt, at + p.len)
  {
    p := SpecAt(fmt, at);
    SpecsSkip(fmt, at);
  }

  lemma {:induction false} AfterPercent(fmt: string, at: nat)
    requires at < |fmt| && fmt[at] == '%' && WellFormed(fmt, at)
    ensures SpecLength(fmt, at) >= 2 && at + SpecLength(fmt, at) <= |fmt| && WellFormed(fmt, at + SpecLength(fmt, at))
  {
    SpecFits(fmt, at);
  }

  lemma {:induction false} OneMoreLiteral(fmt: string, from: nat, at: nat)
    requires from <= at < |fmt|
    ensures Literal(fmt, from, at + 1) == Literal(fmt, from, at) + [fmt[at]]
  {}

  lemma {:induction false} Append(a: string, b: string, c: string)
    ensures a + b + c == a + (b + c)
  {}

  lemma {:induction false} OneSpecifier(fmt: string, from: nat, p: Spec, rest: seq<Spec>, pieces: seq<string>, text: string)
    requires pieces != []
    requires TwoPass(fmt, AfterSpec(p), rest, pieces[1..]) == "" + text
    ensures TwoPass(fmt, from, [p] + rest, pieces) == Literal(fmt, from, p.pos) + (pieces[0] + text)
  {
    assert ([p] + rest)[1..] == rest;
    assert "" + text == text;
  }

  function Span(fmt: string, p: Spec): string { Literal(fmt, p.pos, p.pos + p.len) }

  function Spans(fmt: string, specs: seq<Spec>): (r: seq<string>)
    ensures |r| == |specs|
  {
    if specs == [] then [] else [Span(fmt, specs[0])] + Spans(fmt, specs[1..])
  }

  // Literal segments and specifier spans partition the format: put back in order, they are the
  // format, nothing lost and nothing repeated.
  lemma {:induction false} SegmentsPartitionTheFormat(fmt: string)
    requires WellFormed(fmt) && |fmt| < 0x1_0000
    ensures TwoPass(fmt, 0, Specs(fmt), Spans(fmt, Specs(fmt))) == fmt
  {
    TwoPassesAreOne(fmt, 0, 0, Spans(fmt, Specs(fmt)));
    SpansRebuild(fmt, 0);
    assert fmt[0..] == fmt;
  }

  lemma {:induction false} SpansRebuild(fmt: string, at: nat)
    requires at <= |fmt| && WellFormed(fmt, at)
    ensures OnePass(fmt, at, Spans(fmt, Specs(fmt, at))) == fmt[at..]
    decreases |fmt| - at
  {
    if at < |fmt| && fmt[at] != '%' {
      SpansRebuild(fmt, at + 1);
    } else if at < |fmt| {
      var p := AtPercent(fmt, at);
      AfterPercent(fmt, at);
      SpansRebuild(fmt, at + p.len);
      OneSpan(fmt, p, Specs(fmt, at + p.len));
    }
  }

  lemma {:induction false} OneSpan(fmt: string, p: Spec, rest: seq<Spec>)
    requires p.pos < |fmt| && fmt[p.pos] == '%' && p.len == SpecLength(fmt, p.pos) && p.pos + p.len <= |fmt|
    requires OnePass(fmt, p.pos + p.len, Spans(fmt, rest)) == fmt[p.pos + p.len..]
    ensures OnePass(fmt, p.pos, Spans(fmt, [p] + rest)) == fmt[p.pos..]
  {
    var next := p.pos + p.len;
    SpansCons(fmt, p, rest);
    var spans := Spans(fmt, [p] + rest);
    assert OnePass(fmt, p.pos, spans) == spans[0] + OnePass(fmt, next, spans[1..]);
    LiteralIsSlice(fmt, p.pos, next);
    SplitSuffix(fmt, p.pos, next);
  }

  lemma {:induction false} SplitSuffix(s: string, i: nat, j: nat)
    requires i <= j <= |s|
    ensures s[i..] == s[i..j] + s[j..]
  {}

  lemma {:induction false} SpansCons(fmt: string, p: Spec, rest: seq<Spec>)
    ensures Spans(fmt, [p] + rest)[0] == Span(fmt, p) && Spans(fmt, [p] + rest)[1..] == Spans(fmt, rest)
  {
    assert ([p] + rest)[1..] == rest;
  }

  // Where the specifiers stand: in order, apart, and inside the format.
  ghost predicate Apart(fmt: string, from: nat, specs: seq<Spec>)
    decreases |specs|
  {
    if specs == [] then from <= |fmt|
    else from <= specs[0].pos && specs[0].pos < specs[0].pos + specs[0].len
         && Apart(fmt, specs[0].pos + specs[0].len, specs[1..])
  }

  lemma {:induction false} SpecsStandApart(fmt: string, from: nat, at: nat)
    requires from <= at <= |fmt| && WellFormed(fmt, at)
    ensures Apart(fmt, from, Specs(fmt, at))
    decreases |fmt| - at
  {
    if at < |fmt| {
      if fmt[at] != '%' {
        SpecsStandApart(fmt, from, at + 1);
      } else {
        var p := AtPercent(fmt, at);
        AfterPercent(fmt, at);
        assert Specs(fmt, at)[1..] == Specs(fmt, at + p.len);
        SpecsStandApart(fmt, at + p.len, at + p.len);
      }
    }
  }

  // ---------------------------------------------------------------- what was left on the stack

  type StackByte = n: nat | n < 0x100

  // What the length and number of a specifier held before.
  datatype Leftover = Leftover(len: StackByte, num: StackByte)

  // Without a digit the first pass sets neither.
  function Settle(p: Spec, stale: Leftover): Spec {
    if p.option == NotImplemented then p.(len := stale.len, optionNum := stale.num) else p
  }

  // The table the first pass builds; `stale` is what it finds at the specifier of each offset.
  function StaleTable(specs: seq<Spec>, stale: nat -> Leftover): (t: seq<Spec>)
    ensures |t| == |specs| && forall i | 0 <= i < |t| :: t[i] == Settle(specs[i], stale(specs[i].pos))
  {
    seq(|specs|, i requires 0 <= i < |specs| => Settle(specs[i], stale(specs[i].pos)))
  }

  ghost predicate StaleOk(specs: seq<Spec>, stale: nat -> Leftover) {
    specs != [] ==>
      (specs[0].option == NotImplemented ==> stale(specs[0].pos).len == 2) && StaleOk(specs[1..], stale)
  }

  // The literal segments that a table gives.
  function Segments(fmt: string, from: nat, specs: seq<Spec>): seq<string>
    decreases |specs|
  {
    if specs == [] then [Literal(fmt, from, |fmt|)]
    else [Literal(fmt, from, specs[0].pos)] + Segments(fmt, AfterSpec(specs[0]), specs[1..])
  }

  function FirstEnd(fmt: string, specs: seq<Spec>): nat { if specs == [] then |fmt| else specs[0].pos }

  // Behind a specifier without a digit stands at least its option character.
  ghost predicate Roomy(fmt: string, specs: seq<Spec>) {
    FirstEnd(fmt, specs) <= |fmt| &&
    (specs != [] ==>
       && (specs[0].option == NotImplemented ==>
             specs[0].len == 2 && specs[0].pos + 2 < FirstEnd(fmt, specs[1..]))
       && Roomy(fmt, specs[1..]))
  }

  lemma {:induction false} SpecsFrom(fmt: string, at: nat)
    requires at <= |fmt|
    ensures at <= FirstEnd(fmt, Specs(fmt, at)) <= |fmt|
    decreases |fmt| - at
  {
    if at < |fmt| && fmt[at] != '%' {
      SpecsFrom(fmt, at + 1);
    }
  }

  lemma {:induction false} SpecsAreRoomy(fmt: string, at: nat)
    requires at <= |fmt| && WellFormed(fmt, at)
    ensures Roomy(fmt, Specs(fmt, at))
    decreases |fmt| - at
  {
    SpecsFrom(fmt, at);
    if at < |fmt| && fmt[at] != '%' {
      SpecsAreRoomy(fmt, at + 1);
    } else if at < |fmt| {
      AfterPercent(fmt, at);
      SpecsSkip(fmt, at);
      var next := at + SpecLength(fmt, at);
      SpecsAreRoomy(fmt, next);
      SpecsFrom(fmt, next);
      assert Specs(fmt, at)[1..] == Specs(fmt, next);
      if WithoutDigit(fmt, at) {
        SpecsFrom(fmt, next + 1);
      }
    }
  }

  lemma {:induction false} LiteralLength(fmt: string, start: nat, end: nat)
    ensures |Literal(fmt, start, end)| == if start < end <= |fmt| then end - start else 0
    decreases end
  {
    if start < end <= |fmt| {
      LiteralLength(fmt, start, end - 1);
    }
  }

  // A segment that starts `stale` behind the '%' is the right one only for 2.
  lemma {:induction false} SegmentIff(fmt: string, pos: nat, stale: StackByte, end: nat)
    requires pos + 2 < end <= |fmt| < 0x1_0000
    ensures Literal(fmt, (pos + stale) % 0x1_0000, end) == Literal(fmt, pos + 2, end) <==> stale == 2
  {
    LiteralLength(fmt, (pos + stale) % 0x1_0000, end);
    LiteralLength(fmt, pos + 2, end);
  }

  lemma {:induction false} SettledSegmentIff(fmt: string, p: Spec, stale: Leftover, end: nat)
    requires p.option == NotImplemented ==> p.len == 2 && p.pos + 2 < end <= |fmt| < 0x1_0000
    ensures Literal(fmt, AfterSpec(Settle(p, stale)), end) == Literal(fmt, AfterSpec(p), end) <==>
            (p.option == NotImplemented ==> stale.len == 2)
  {
    if p.option == NotImplemented {
      SegmentIff(fmt, p.pos, stale.len, end);
    }
  }

  lemma {:induction false} StaleTableCons(p: Spec, rest: seq<Spec>, stale: nat -> Leftover)
    ensures StaleTable([p] + rest, stale) == [Settle(p, stale(p.pos))] + StaleTable(rest, stale)
  {}

  lemma {:induction false} StaleOkCons(p: Spec, rest: seq<Spec>, stale: nat -> Leftover)
    ensures StaleOk([p] + rest, stale) <==>
            (p.option == NotImplemented ==> stale(p.pos).len == 2) && StaleOk(rest, stale)
  {
    assert ([p] + rest)[1..] == rest;
  }

  lemma {:induction false} SegmentsIff(fmt: string, f: nat, g: nat, specs: seq<Spec>, stale: nat -> Leftover)
    requires |fmt| < 0x1_0000 && Roomy(fmt, specs)
    ensures Segments(fmt, f, StaleTable(specs, stale)) == Segments(fmt, g, specs) <==>
            Literal(fmt, f, FirstEnd(fmt, specs)) == Literal(fmt, g, FirstEnd(fmt, specs)) && StaleOk(specs, stale)
    decreases |specs|
  {
    if specs == [] {
      LastSegment(fmt, f, g);
    } else {
      var p, rest := specs[0], specs[1..];
      var q := Settle(p, stale(p.pos));
      assert specs == [p] + rest;
      SegmentsIff(fmt, AfterSpec(q), AfterSpec(p), rest, stale);
      SettledSegmentIff(fmt, p, stale(p.pos), FirstEnd(fmt, rest));
      StaleTableCons(p, rest, stale);
      StaleOkCons(p, rest, stale);
      SegmentsStep(fmt, f, g, p, q, StaleTable(rest, stale), rest);
    }
  }

  lemma {:induction false} LastSegment(fmt: string, f: nat, g: nat)
    ensures Segments(fmt, f, []) == Segments(fmt, g, []) <==> Literal(fmt, f, |fmt|) == Literal(fmt, g, |fmt|)
  {
    SameCons(Literal(fmt, f, |fmt|), [], Literal(fmt, g, |fmt|), []);
  }

  lemma {:induction false} SegmentsStep(fmt: string, f: nat, g: nat, p: Spec, q: Spec, t: seq<Spec>, u: seq<Spec>)
    requires q.pos == p.pos
    ensures Segments(fmt, f, [q] + t) == Segments(fmt, g, [p] + u) <==>
            Literal(fmt, f, p.pos) == Literal(fmt, g, p.pos)
            && Segments(fmt, AfterSpec(q), t) == Segments(fmt, AfterSpec(p), u)
  {
    SegmentsCons(fmt, f, q, t);
    SegmentsCons(fmt, g, p, u);
    SameCons(Literal(fmt, f, p.pos), Segments(fmt, AfterSpec(q), t), Literal(fmt, g, p.pos), Segments(fmt, AfterSpec(p), u));
  }

  lemma {:induction false} SegmentsCons(fmt: string, from: nat, p: Spec, rest: seq<Spec>)
    ensures Segments(fmt, from, [p] + rest) == [Literal(fmt, from, p.pos)] + Segments(fmt, AfterSpec(p), rest)
  {
    assert ([p] + rest)[1..] == rest;
  }

  lemma {:induction false} SameCons(a: string, x: seq<string>, b: string, y: seq<string>)
    ensures [a] + x == [b] + y <==> a == b && x == y
  {
    assert ([a] + x)[0] == a && ([b] + y)[0] == b && ([a] + x)[1..] == x && ([b] + y)[1..] == y;
  }

  // Segment by segment the text between the specifiers is printed as it should be if and only if
  // every specifier without a digit finds the length 2 on the stack.
  lemma {:induction false} StaleLengthsDecide(fmt: string, stale: nat -> Leftover)
    requires WellFormed(fmt) && |fmt| < 0x1_0000
    ensures Segments(fmt, 0, StaleTable(Specs(fmt), stale)) == Segments(fmt, 0, Specs(fmt)) <==>
            StaleOk(Specs(fmt), stale)
  {
    SpecsAreRoomy(fmt, 0);
    SegmentsIff(fmt, 0, 0, Specs(fmt), stale);
  }

  // With these lengths the table prints what it should.
  lemma {:induction false} StaleOkPrints(fmt: string, from: nat, specs: seq<Spec>, stale: nat -> Leftover, pieces: seq<string>)
    requires StaleOk(specs, stale) && Roomy(fmt, specs)
    ensures TwoPass(fmt, from, StaleTable(specs, stale), pieces) == TwoPass(fmt, from, specs, pieces)
    decreases |specs|
  {
    if specs != [] {
      var p, rest := specs[0], specs[1..];
      assert specs == [p] + rest;
      StaleTableCons(p, rest, stale);
      if pieces != [] {
        StaleOkPrints(fmt, AfterSpec(p), rest, stale, pieces[1..]);
      }
      StaleOkPrintsStep(fmt, from, p, Settle(p, stale(p.pos)), rest, StaleTable(rest, stale), pieces);
    } else {
      assert StaleTable(specs, stale) == specs;
    }
  }

  lemma {:induction false} StaleOkPrintsStep(fmt: string, from: nat, p: Spec, q: Spec, u: seq<Spec>, t: seq<Spec>,
                                             pieces: seq<string>)
    requires q.pos == p.pos && q.len == p.len
    requires pieces != [] ==> TwoPass(fmt, AfterSpec(p), t, pieces[1..]) == TwoPass(fmt, AfterSpec(p), u, pieces[1..])
    ensures TwoPass(fmt, from, [q] + t, pieces) == TwoPass(fmt, from, [p] + u, pieces)
  {
    assert ([q] + t)[1..] == t && ([p] + u)[1..] == u;
  }

  // The kernel prints this format.
  lemma {:induction false} AFormatWithoutDigits(fmt: string, stale: nat -> Leftover)
    requires fmt == "Processor Local x2APIC %u:\n"
    ensures Specs(fmt) == [Spec(UintTag, NotImplemented, 0, 2, 23)]
    ensures StaleOk(Specs(fmt), stale) <==> stale(23).len == 2
  {
    assert forall i | 0 <= i < 23 :: fmt[i] != '%';
    NoPercentNoSpecs(fmt, 0, 23);
    assert fmt[23] == '%' && fmt[24] == 'u' && fmt[25] == ':' && fmt[26] == '\n';
    NoPercentNoSpecs(fmt, 24, 27);
    assert SpecAt(fmt, 23) == Spec(UintTag, NotImplemented, 0, 2, 23);
  }

  // In sixteen bits: each segment's end is kept as the offset before it, and one is added back
  // when it is printed. Both may wrap; the sum does not.
  lemma {:induction false} EndWrapsBack(end: nat)
    requires end < 0x1_0000
    ensures ((end - 1) % 0x1_0000 + 1) % 0x1_0000 == end
  {}

  // Seven digits always convert, and the number's low byte is kept.
  lemma {:induction false} OptionNumberConverts(digits: string)
    requires 1 <= |digits| <= 7 && AllDigits(digits)
    ensures ParseUint(digits) != TWO_32 - 1
    ensures Number(digits) == Denoted(digits, 10) % 0x100
  {
    assert digits[..|digits|] == digits;
    DenotedBound(digits);
    assert Power(10, 7) == 10_000_000 by {
      assert Power(10, 3) == 1000;
      assert Power(10, 5) == 100_000;
    }
    MorePower(|digits|, 7);
  }

  lemma {:induction false} DenotedBound(s: string)
    requires AllDigits(s)
    ensures Denoted(s, 10) < Power(10, |s|)
    decreases |s|
  {
    if s != [] {
      DenotedBound(s[..|s| - 1]);
    }
  }

  lemma {:induction false} MorePower(a: nat, b: nat)
    requires a <= b
    ensures Power(10, a) <= Power(10, b)
    decreases b
  {
    if a < b {
      MorePower(a, b - 1);
    }
  }
}
