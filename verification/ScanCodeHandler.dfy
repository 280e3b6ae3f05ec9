// The byte-by-byte decoder of keyboard_handler_scs1, for one port.

module ScanCodeHandler {
  import opened KeyEvents

  datatype Decoder = Decoder(
    previousExtended: bool, fourLong: bool, sixLong: bool, length: Byte, keys: Keys)

  const PRINT_SCREEN_PRESSED: seq<Byte> := [0xE0, 0x2A, 0xE0, 0x37]
  const PRINT_SCREEN_RELEASED: seq<Byte> := [0xE0, 0xB7, 0xE0, 0xAA]
  const PAUSE_PRESSED: seq<Byte> := [0xE1, 0x1D, 0x45, 0xE1, 0x9D, 0xC5]

  const SCANCODE_RELEASE_OFFSET: Byte := 0x80
  const SCANCODE_RELEASE_START: Byte := 0x81
  const EXTENDED_SCANCODE_RELEASE_START: Byte := 0x90

  predicate At(sequence: seq<Byte>, i: nat, b: Byte) { i < |sequence| && sequence[i] == b }

  function Emit(d: Decoder, e: KeyEvent): (Decoder, seq<Delivery>) {
    (d.(keys := Record(d.keys, e)), [Deliver(d.keys, e)])
  }

  function ReleaseSplit(b: Byte, releaseStart: Byte): (Byte, bool)
    requires releaseStart >= SCANCODE_RELEASE_OFFSET
  {
    if b >= releaseStart then (b - SCANCODE_RELEASE_OFFSET, false) else (b, true)
  }

  function FourLongStep(d: Decoder, b: Byte): (Decoder, seq<Delivery>) {
    var done := d.(previousExtended := false, fourLong := false, length := 0);
    var more := d.(previousExtended := false, length := (d.length + 1) % 0x100);
    if At(PRINT_SCREEN_PRESSED, d.length, b) then
      if d.length == 3 then Emit(done, PrintScreen(true)) else (more, [])
    else if At(PRINT_SCREEN_RELEASED, d.length, b) then
      if d.length == 3 then Emit(done, PrintScreen(false)) else (more, [])
    else (done, [])
  }

  function ShortStep(d: Decoder, b: Byte): (Decoder, seq<Delivery>) {
    if d.previousExtended then
      var (code, pressed) := ReleaseSplit(b, EXTENDED_SCANCODE_RELEASE_START);
      Emit(d.(previousExtended := b == 0xE0), Extended(code, pressed))
    else
      var (code, pressed) := ReleaseSplit(b, SCANCODE_RELEASE_START);
      Emit(d.(previousExtended := b == 0xE0), Plain(code, pressed))
  }

  // What one byte does to the decoder, and what it delivers.
  function Step(d: Decoder, b: Byte): (Decoder, seq<Delivery>) {
    if b == 0xE0 && !d.fourLong && !d.sixLong then (d.(previousExtended := true), [])
    else if d.previousExtended && !d.fourLong && (b == 0x2A || b == 0xB7) then
      (d.(previousExtended := false, fourLong := true, length := 2), [])
    else if d.fourLong then FourLongStep(d, b)
    else if b == 0xE1 then
      (d.(previousExtended := false, sixLong := true, length := (d.length + 1) % 0x100), [])
    else if d.sixLong && At(PAUSE_PRESSED, d.length, b) then
      if d.length == 5 then Emit(d.(previousExtended := false, length := 0), Pause)
      else (d.(previousExtended := false, length := d.length + 1), [])
    else ShortStep(if d.sixLong then d.(previousExtended := false) else d, b)
  }

  // ---------------------------------------------------------------- the array cells one byte touches

  const SCANCODE_LEN: nat := SC_F12 + 1
  const EXTENDED_SCANCODE_LEN: nat := SCE_MEDIA_SELECT + 1

  // A cell read or written at an index that depends on the bytes.
  datatype Cell = PrintScreenByte(i: nat) | PauseByte(i: nat) | PlainPressed(i: nat) | ExtendedPressed(i: nat)

  predicate Exists(c: Cell) {
    match c
    case PrintScreenByte(i) => i < |PRINT_SCREEN_PRESSED|
    case PauseByte(i) => i < |PAUSE_PRESSED|
    case PlainPressed(i) => i < SCANCODE_LEN
    case ExtendedPressed(i) => i < EXTENDED_SCANCODE_LEN
  }

  predicate AllExist(cells: seq<Cell>) { forall i | 0 <= i < |cells| :: Exists(cells[i]) }

  function ShortTouched(extended: bool, b: Byte): seq<Cell> {
    if extended then [ExtendedPressed(ReleaseSplit(b, EXTENDED_SCANCODE_RELEASE_START).0)]
    else [PlainPressed(ReleaseSplit(b, SCANCODE_RELEASE_START).0)]
  }

  function Touched(d: Decoder, b: Byte): seq<Cell> {
    if b == 0xE0 && !d.fourLong && !d.sixLong then []
    else if d.previousExtended && !d.fourLong && (b == 0x2A || b == 0xB7) then []
    else if d.fourLong then [PrintScreenByte(d.length)]
    else if b == 0xE1 then []
    else if d.sixLong then
      [PauseByte(d.length)] + if At(PAUSE_PRESSED, d.length, b) then [] else ShortTouched(false, b)
    else ShortTouched(d.previousExtended, b)
  }

  class Handler {
    var previousExtended: bool
    var fourLong: bool
    var sixLong: bool
    var length: Byte
    var keys: Keys
    var delivered: seq<Delivery>     // every keycode_handler call
    ghost var touched: seq<Cell>

    function State(): Decoder reads this { Decoder(previousExtended, fourLong, sixLong, length, keys) }

    constructor ()
      ensures State() == IdleDecoder(false, NO_KEYS) && delivered == [] && touched == []
    {
      previousExtended, fourLong, sixLong, length := false, false, false, 0;
      keys, delivered, touched := NO_KEYS, [], [];
    }

    method KeycodeHandler(e: KeyEvent)
      modifies `keys, `delivered
      ensures keys == Record(old(keys), e)
      ensures delivered == old(delivered) + [Deliver(old(keys), e)]
    {
      delivered := delivered + [Deliver(keys, e)];
      keys := Record(keys, e);
    }

    method HandleScancode(scancode: Byte)
      modifies this
      ensures State() == Step(old(State()), scancode).0
      ensures delivered == old(delivered) + Step(old(State()), scancode).1
      ensures touched == old(touched) + Touched(old(State()), scancode)
    {
      var extendedSignal := scancode == 0xE0;
      if extendedSignal && !fourLong && !sixLong {
        previousExtended := extendedSignal;
        return;
      }
      if previousExtended && !fourLong {
        if scancode == PRINT_SCREEN_PRESSED[1] || scancode == PRINT_SCREEN_RELEASED[1] {
          fourLong := true;
          length := 2;
          previousExtended := false;
          return;
        }
      }
      if fourLong {
        previousExtended := false;
        var i := length;
        touched := touched + [PrintScreenByte(i)];
        if At(PRINT_SCREEN_PRESSED, i, scancode) {
          if i == 3 {
            length := 0;
            fourLong := false;
            KeycodeHandler(PrintScreen(true));
            return;
          }
          length := (length + 1) % 0x100;
          return;
        } else if At(PRINT_SCREEN_RELEASED, i, scancode) {
          if i == 3 {
            length := 0;
            fourLong := false;
            KeycodeHandler(PrintScreen(false));
            return;
          }
          length := (length + 1) % 0x100;
          return;
        } else {
          length := 0;
          fourLong := false;
          return;
        }
      }
      if scancode == PAUSE_PRESSED[0] {
        sixLong := true;
        length := (length + 1) % 0x100;
        previousExtended := false;
        return;
      }
      if sixLong {
        previousExtended := false;
        var i := length;
        touched := touched + [PauseByte(i)];
        if At(PAUSE_PRESSED, i, scancode) {
          if i == 5 {
            length := 0;
            KeycodeHandler(Pause);
            return;
          }
          length := length + 1;
          return;
        }
      }
      if previousExtended {
        var (code, pressed) := ReleaseSplit(scancode, EXTENDED_SCANCODE_RELEASE_START);
        touched := touched + [ExtendedPressed(code)];
        KeycodeHandler(Extended(code, pressed));
        previousExtended := extendedSignal;
      } else {
        var (code, pressed) := ReleaseSplit(scancode, SCANCODE_RELEASE_START);
        touched := touched + [PlainPressed(code)];
        KeycodeHandler(Plain(code, pressed));
        previousExtended := extendedSignal;
      }
    }
  }

  // ---------------------------------------------------------------- whole streams

  function Decode(d: Decoder, bytes: seq<Byte>): (Decoder, seq<Delivery>)
    decreases |bytes|
  {
    if bytes == [] then (d, [])
    else
      var (d1, out1) := Step(d, bytes[0]);
      var (d2, out2) := Decode(d1, bytes[1..]);
      (d2, out1 + out2)
  }

  lemma {:induction false} DecodeAppend(d: Decoder, a: seq<Byte>, b: seq<Byte>)
    ensures Decode(d, a + b).0 == Decode(Decode(d, a).0, b).0
    ensures Decode(d, a + b).1 == Decode(d, a).1 + Decode(Decode(d, a).0, b).1
    decreases |a|
  {
    if a == [] {
      assert a + b == b;
    } else {
      var d1 := Step(d, a[0]).0;
      assert (a + b)[1..] == a[1..] + b;
      DecodeAppend(d1, a[1..], b);
      Regroup(Step(d, a[0]).1, Decode(d1, a[1..]).1, Decode(Decode(d1, a[1..]).0, b).1);
    }
  }

  lemma {:induction false} Regroup(a: seq<Delivery>, b: seq<Delivery>, c: seq<Delivery>)
    ensures a + (b + c) == a + b + c
  {}

  lemma {:induction false} DecodeInTwo(d: Decoder, a: seq<Byte>, d1: Decoder, b: seq<Byte>)
    requires Decode(d, a).0 == d1
    ensures Decode(d, a + b).0 == Decode(d1, b).0
    ensures Decode(d, a + b).1 == Decode(d, a).1 + Decode(d1, b).1
  {
    DecodeAppend(d, a, b);
  }

  lemma {:induction false} SilentThen(d: Decoder, a: seq<Byte>, d1: Decoder, b: seq<Byte>, d2: Decoder, out: seq<Delivery>)
    requires Decode(d, a).0 == d1 && Decode(d, a).1 == []
    requires Decode(d1, b).0 == d2 && Decode(d1, b).1 == out
    ensures Decode(d, a + b).0 == d2 && Decode(d, a + b).1 == out
  {
    DecodeAppend(d, a, b);
    assert [] + out == out;
  }

  lemma {:induction false} DecodeByte(d: Decoder, b: Byte, rest: seq<Byte>)
    ensures Decode(d, [b] + rest).0 == Decode(Step(d, b).0, rest).0
    ensures Decode(d, [b] + rest).1 == Step(d, b).1 + Decode(Step(d, b).0, rest).1
  {
    assert ([b] + rest)[1..] == rest;
  }

  // Between two key events. Once a Pause has been decoded sixLong stays set.
  function IdleDecoder(afterPause: bool, keys: Keys): Decoder {
    Decoder(false, false, afterPause, 0, keys)
  }

  predicate HasPause(es: seq<KeyEvent>) { exists i :: 0 <= i < |es| && es[i].Pause? }

  // The event stream as this decoder understands it: after a Pause the 0xE0 prefix is itself
  // taken for the release of plain code 0x60, and an extended key then for a plain one.
  function Understood(e: KeyEvent, afterPause: bool): seq<KeyEvent> {
    if !afterPause then [e]
    else match e
      case Extended(c, pressed) => [Plain(0x60, false), Plain(c, pressed)]
      case PrintScreen(_) => [Plain(0x60, false), e]
      case _ => [e]
  }

  function AllUnderstood(es: seq<KeyEvent>): seq<KeyEvent>
    decreases |es|
  {
    if es == [] then []
    else
      var before := es[..|es| - 1];
      AllUnderstood(before) + Understood(es[|es| - 1], HasPause(before))
  }

  // ---------------------------------------------------------------- one event

  lemma {:induction false} OneByte(d: Decoder, b: Byte)
    ensures Decode(d, [b]).0 == Step(d, b).0 && Decode(d, [b]).1 == Step(d, b).1
  {
    assert [b] + [] == [b];
    DecodeByte(d, b, []);
  }

  lemma {:induction false} TwoBytes(d: Decoder, a: Byte, b: Byte)
    ensures var d1 := Step(d, a).0;
      && Decode(d, [a, b]).0 == Step(d1, b).0
      && Decode(d, [a, b]).1 == Step(d, a).1 + Step(d1, b).1
  {
    assert [a, b] == [a] + [b];
    DecodeByte(d, a, [b]);
    OneByte(Step(d, a).0, b);
  }

  lemma {:induction false} PrefixAfterPause(keys: Keys)
    ensures Step(IdleDecoder(true, keys), 0xE0) ==
            (IdleDecoder(true, Record(keys, Plain(0x60, false))).(previousExtended := true),
             [Deliver(keys, Plain(0x60, false))])
  {}

  // From idle, the bytes of one event lead to idle again and to these deliveries.
  predicate Decodes(p: bool, keys: Keys, e: KeyEvent, p': bool, es: seq<KeyEvent>)
    requires Valid(e)
  {
    var (d, out) := Decode(IdleDecoder(p, keys), Encode(e));
    d == IdleDecoder(p', KeysAfter(keys, es)) && out == Delivered(keys, es)
  }

  lemma {:induction false} PlainDecodes(p: bool, keys: Keys, c: Byte, pressed: bool)
    requires ValidPlain(c)
    ensures Decodes(p, keys, Plain(c, pressed), p, [Plain(c, pressed)])
  {
    OneByte(IdleDecoder(p, keys), c + ReleaseBit(pressed));
    OneEvent(keys, Plain(c, pressed));
  }

  lemma {:induction false} ExtendedDecodes(keys: Keys, c: Byte, pressed: bool)
    requires ValidExtended(c)
    ensures Decodes(false, keys, Extended(c, pressed), false, [Extended(c, pressed)])
  {
    TwoBytes(IdleDecoder(false, keys), 0xE0, c + ReleaseBit(pressed));
    OneEvent(keys, Extended(c, pressed));
  }

  lemma {:induction false} ExtendedAfterPauseDecodes(keys: Keys, c: Byte, pressed: bool)
    requires ValidExtended(c)
    ensures Decodes(true, keys, Extended(c, pressed), true, [Plain(0x60, false), Plain(c, pressed)])
  {
    PrefixAfterPause(keys);
    TwoBytes(IdleDecoder(true, keys), 0xE0, c + ReleaseBit(pressed));
    TwoEvents(keys, Plain(0x60, false), Plain(c, pressed));
  }

  lemma {:induction false} PrintScreenTail(d: Decoder, pressed: bool)
    requires d.fourLong && d.length == 2 && !d.previousExtended
    ensures var (d', out) := Decode(d, if pressed then [0xE0, 0x37] else [0xE0, 0xAA]);
      && d' == d.(fourLong := false, length := 0, keys := Record(d.keys, PrintScreen(pressed)))
      && out == [Deliver(d.keys, PrintScreen(pressed))]
  {
    if pressed { TwoBytes(d, 0xE0, 0x37); } else { TwoBytes(d, 0xE0, 0xAA); }
  }

  lemma {:induction false} PrintScreenDecodes(p: bool, keys: Keys, pressed: bool)
    ensures Decodes(p, keys, PrintScreen(pressed), p, Understood(PrintScreen(pressed), p))
  {
    var d := IdleDecoder(p, keys);
    var s := Encode(PrintScreen(pressed));
    var head, tail := [s[0], s[1]], [s[2], s[3]];
    assert s == head + tail;
    DecodeAppend(d, head, tail);
    TwoBytes(d, s[0], s[1]);
    PrintScreenTail(Decode(d, head).0, pressed);
    if p {
      PrefixAfterPause(keys);
      TwoEvents(keys, Plain(0x60, false), PrintScreen(pressed));
    } else {
      OneEvent(keys, PrintScreen(pressed));
    }
  }

  lemma {:induction false} PausePair(keys: Keys, i: nat, p: bool)
    requires i == 0 || ((i == 2 || i == 4) && p)
    ensures var d := IdleDecoder(p, keys).(length := i);
      && Decode(d, [PAUSE_PRESSED[i], PAUSE_PRESSED[i + 1]]).0 == IdleDecoder(true, keys).(length := (i + 2) % 6)
      && Decode(d, [PAUSE_PRESSED[i], PAUSE_PRESSED[i + 1]]).1 == if i == 4 then [Deliver(keys, Pause)] else []
  {
    TwoBytes(IdleDecoder(p, keys).(length := i), PAUSE_PRESSED[i], PAUSE_PRESSED[i + 1]);
  }

  lemma {:induction false} PauseTail(keys: Keys, a: seq<Byte>, b: seq<Byte>)
    requires a == [PAUSE_PRESSED[2], PAUSE_PRESSED[3]] && b == [PAUSE_PRESSED[4], PAUSE_PRESSED[5]]
    ensures Decode(IdleDecoder(true, keys).(length := 2), a + b).0 == IdleDecoder(true, keys)
    ensures Decode(IdleDecoder(true, keys).(length := 2), a + b).1 == [Deliver(keys, Pause)]
  {
    PausePair(keys, 2, true);
    PausePair(keys, 4, true);
    SilentThen(IdleDecoder(true, keys).(length := 2), a, IdleDecoder(true, keys).(length := 4), b,
      IdleDecoder(true, keys), [Deliver(keys, Pause)]);
  }

  lemma {:induction false} PauseDecodes(p: bool, keys: Keys)
    ensures Decodes(p, keys, Pause, true, [Pause])
  {
    var a, b, c := [PAUSE_PRESSED[0], PAUSE_PRESSED[1]], [PAUSE_PRESSED[2], PAUSE_PRESSED[3]],
                   [PAUSE_PRESSED[4], PAUSE_PRESSED[5]];
    assert Encode(Pause) == a + (b + c);
    PausePair(keys, 0, p);
    PauseTail(keys, b, c);
    SilentThen(IdleDecoder(p, keys), a, IdleDecoder(true, keys).(length := 2), b + c,
      IdleDecoder(true, keys), [Deliver(keys, Pause)]);
    OneEvent(keys, Pause);
  }

  lemma {:induction false} EventDecodes(p: bool, keys: Keys, e: KeyEvent)
    requires Valid(e)
    ensures Decodes(p, keys, e, p || e.Pause?, Understood(e, p))
  {
    match e
    case Plain(c, pressed) => PlainDecodes(p, keys, c, pressed);
    case Extended(c, pressed) =>
      if p { ExtendedAfterPauseDecodes(keys, c, pressed); } else { ExtendedDecodes(keys, c, pressed); }
    case PrintScreen(pressed) => PrintScreenDecodes(p, keys, pressed);
    case Pause => PauseDecodes(p, keys);
  }

  lemma {:induction false} OneEvent(keys: Keys, e: KeyEvent)
    ensures KeysAfter(keys, [e]) == Record(keys, e) && Delivered(keys, [e]) == [Deliver(keys, e)]
  {
    assert [e][..0] == [];
  }

  lemma {:induction false} TwoEvents(keys: Keys, e: KeyEvent, f: KeyEvent)
    ensures KeysAfter(keys, [e, f]) == Record(Record(keys, e), f)
    ensures Delivered(keys, [e, f]) == [Deliver(keys, e), Deliver(Record(keys, e), f)]
  {
    assert [e, f][..1] == [e];
    OneEvent(keys, e);
  }

  // ---------------------------------------------------------------- every stream of events

  // Byte by byte, the decoder delivers exactly the events as it understands them, in order, and
  // is idle again after the last one.
  lemma {:induction false} StreamDecodes(keys: Keys, es: seq<KeyEvent>)
    requires AllValid(es)
    ensures Decode(IdleDecoder(false, keys), EncodeAll(es)).0 ==
            IdleDecoder(HasPause(es), KeysAfter(keys, AllUnderstood(es)))
    ensures Decode(IdleDecoder(false, keys), EncodeAll(es)).1 == Delivered(keys, AllUnderstood(es))
    decreases |es|
  {
    if es != [] {
      var before, e := es[..|es| - 1], es[|es| - 1];
      assert es == before + [e];
      StreamDecodes(keys, before);
      LastEvent(keys, before, e, before + [e]);
    }
  }

  lemma {:induction false} LastEvent(keys: Keys, before: seq<KeyEvent>, e: KeyEvent, es: seq<KeyEvent>)
    requires es == before + [e] && AllValid(before) && Valid(e) && AllValid(es)
    requires Decode(IdleDecoder(false, keys), EncodeAll(before)).0 ==
             IdleDecoder(HasPause(before), KeysAfter(keys, AllUnderstood(before)))
    requires Decode(IdleDecoder(false, keys), EncodeAll(before)).1 == Delivered(keys, AllUnderstood(before))
    ensures Decode(IdleDecoder(false, keys), EncodeAll(es)).0 ==
            IdleDecoder(HasPause(es), KeysAfter(keys, AllUnderstood(es)))
    ensures Decode(IdleDecoder(false, keys), EncodeAll(es)).1 == Delivered(keys, AllUnderstood(es))
  {
    EncodeAllSnoc(before, e, es);
    HasPauseSnoc(before, e);
    UnderstoodSnoc(before, e);
    OneMoreEvent(keys, EncodeAll(before), AllUnderstood(before), HasPause(before), e);
  }

  lemma {:induction false} EncodeAllSnoc(before: seq<KeyEvent>, e: KeyEvent, es: seq<KeyEvent>)
    requires es == before + [e] && AllValid(before) && Valid(e) && AllValid(es)
    ensures EncodeAll(es) == EncodeAll(before) + Encode(e)
  {
    assert es[..|es| - 1] == before && es[|es| - 1] == e;
  }

  // The bytes of one more event, after bytes that were understood.
  lemma {:induction false} OneMoreEvent(keys: Keys, bytes: seq<Byte>, understood: seq<KeyEvent>, paused: bool, e: KeyEvent)
    requires Valid(e)
    requires Decode(IdleDecoder(false, keys), bytes).0 == IdleDecoder(paused, KeysAfter(keys, understood))
    requires Decode(IdleDecoder(false, keys), bytes).1 == Delivered(keys, understood)
    ensures Decode(IdleDecoder(false, keys), bytes + Encode(e)).0 ==
            IdleDecoder(paused || e.Pause?, KeysAfter(keys, understood + Understood(e, paused)))
    ensures Decode(IdleDecoder(false, keys), bytes + Encode(e)).1 ==
            Delivered(keys, understood + Understood(e, paused))
  {
    DecodeInTwo(IdleDecoder(false, keys), bytes, IdleDecoder(paused, KeysAfter(keys, understood)), Encode(e));
    EventDecodes(paused, KeysAfter(keys, understood), e);
    KeysAfterAppend(keys, understood, Understood(e, paused));
  }

  lemma {:induction false} HasPauseSnoc(before: seq<KeyEvent>, e: KeyEvent)
    ensures HasPause(before + [e]) <==> HasPause(before) || e.Pause?
  {
    if HasPause(before) {
      var i :| 0 <= i < |before| && before[i].Pause?;
      assert (before + [e])[i].Pause?;
    }
    if e.Pause? {
      assert (before + [e])[|before|].Pause?;
    }
  }

  // An event whose bytes begin with 0xE0.
  predicate Prefixed(e: KeyEvent) { e.Extended? || e.PrintScreen? }

  predicate NoPrefixedAfterPause(es: seq<KeyEvent>) {
    forall i, j | 0 <= i < j < |es| && es[i].Pause? :: !Prefixed(es[j])
  }

  lemma {:induction false} UnderstoodAsSentIff(es: seq<KeyEvent>)
    ensures |AllUnderstood(es)| >= |es|
    ensures NoPrefixedAfterPause(es) ==> AllUnderstood(es) == es
    ensures !NoPrefixedAfterPause(es) ==> |AllUnderstood(es)| > |es|
    decreases |es|
  {
    if es != [] {
      var before, e := es[..|es| - 1], es[|es| - 1];
      UnderstoodAsSentIff(before);
      assert es == before + [e];
      NoPrefixedAfterPauseSnoc(before, e);
      UnderstoodSnoc(before, e);
    }
  }

  lemma {:induction false} UnderstoodSnoc(before: seq<KeyEvent>, e: KeyEvent)
    ensures AllUnderstood(before + [e]) == AllUnderstood(before) + Understood(e, HasPause(before))
    ensures if HasPause(before) && Prefixed(e) then |Understood(e, HasPause(before))| == 2
            else Understood(e, HasPause(before)) == [e]
  {
    assert (before + [e])[..|before|] == before;
  }

  lemma {:induction false} NoPrefixedAfterPauseSnoc(before: seq<KeyEvent>, e: KeyEvent)
    ensures NoPrefixedAfterPause(before + [e]) <==>
            NoPrefixedAfterPause(before) && !(HasPause(before) && Prefixed(e))
  {
    var es := before + [e];
    if HasPause(before) && Prefixed(e) {
      var i :| 0 <= i < |before| && before[i].Pause?;
      assert es[i].Pause? && Prefixed(es[|before|]);
    }
    if !NoPrefixedAfterPause(before) {
      var i, j :| 0 <= i < j < |before| && before[i].Pause? && Prefixed(before[j]);
      assert es[i].Pause? && Prefixed(es[j]);
    }
  }

  // The decoder inverts the encoder, event by event and flag by flag, if and only if no extended
  // key and no PrintScreen comes after a Pause.
  lemma {:induction false} RoundTripIff(es: seq<KeyEvent>)
    requires AllValid(es)
    ensures NoPrefixedAfterPause(es) <==>
            Decode(IdleDecoder(false, NO_KEYS), EncodeAll(es)).1 == Delivered(NO_KEYS, es)
    ensures NoPrefixedAfterPause(es) ==>
              Decode(IdleDecoder(false, NO_KEYS), EncodeAll(es)).0 ==
              IdleDecoder(HasPause(es), KeysAfter(NO_KEYS, es))
  {
    StreamDecodes(NO_KEYS, es);
    UnderstoodAsSentIff(es);
  }

  // With a Pause first, the right control key is taken for the left one, and a release of a key
  // that does not exist is delivered before it.
  lemma {:induction false} RightCtrlAfterPause()
    ensures var es := [Pause, Extended(SCE_RIGHT_CTRL, true)];
      AllUnderstood(es) == [Pause, Plain(0x60, false), Plain(SC_LEFT_CTRL, true)]
  {
    var es := [Pause, Extended(SCE_RIGHT_CTRL, true)];
    assert es[..1] == [Pause] && [Pause][..0] == [];
    assert AllUnderstood([Pause]) == [Pause];
    assert [Pause][0].Pause?;
  }

  // ---------------------------------------------------------------- the two tables of pressed keys

  // parse_scan_code and parse_extended_scan_code index their table with the code.
  predicate IndexesInside(e: KeyEvent) {
    match e
    case Plain(c, _) => c < SCANCODE_LEN
    case Extended(c, _) => c < EXTENDED_SCANCODE_LEN
    case _ => true
  }

  predicate AllInside(es: seq<KeyEvent>) { forall i | 0 <= i < |es| :: IndexesInside(es[i]) }

  lemma {:induction false} AllInsideAppend(es: seq<KeyEvent>, fs: seq<KeyEvent>)
    ensures AllInside(es + fs) <==> AllInside(es) && AllInside(fs)
  {
    forall i | 0 <= i < |es| ensures (es + fs)[i] == es[i] {}
    forall i | 0 <= i < |fs| ensures (es + fs)[|es| + i] == fs[i] {}
    if AllInside(es + fs) {
      forall i | 0 <= i < |fs| ensures IndexesInside(fs[i]) {
        assert IndexesInside((es + fs)[|es| + i]);
      }
    }
  }

  lemma {:induction false} UnderstoodInsideIff(e: KeyEvent, afterPause: bool)
    requires Valid(e)
    ensures AllInside(Understood(e, afterPause)) <==> !(afterPause && Prefixed(e))
  {
    if afterPause && Prefixed(e) {
      assert !IndexesInside(Understood(e, afterPause)[0]);
    }
  }

  // The handler stays inside its two tables if and only if no extended key and no PrintScreen
  // comes after a Pause. The prefix of such a key is recorded as a release of code 0x60, behind
  // the end of the table of plain keys.
  lemma {:induction false} TablesIndexedInsideIff(es: seq<KeyEvent>)
    requires AllValid(es)
    ensures AllInside(AllUnderstood(es)) <==> NoPrefixedAfterPause(es)
    decreases |es|
  {
    if es != [] {
      var before, e := es[..|es| - 1], es[|es| - 1];
      TablesIndexedInsideIff(before);
      assert es == before + [e];
      NoPrefixedAfterPauseSnoc(before, e);
      UnderstoodSnoc(before, e);
      AllInsideAppend(AllUnderstood(before), Understood(e, HasPause(before)));
      UnderstoodInsideIff(e, HasPause(before));
    }
  }

  // The second byte after a Pause is enough.
  lemma {:induction false} RightCtrlWritesBehindTheTable()
    ensures var es := [Pause, Extended(SCE_RIGHT_CTRL, true)];
      && AllValid(es) && Plain(0x60, false) in AllUnderstood(es) && !IndexesInside(Plain(0x60, false))
  {
    RightCtrlAfterPause();
    assert [Pause, Plain(0x60, false), Plain(SC_LEFT_CTRL, true)][1] == Plain(0x60, false);
  }

  // ---------------------------------------------------------------- every byte stream

  // A plain byte, or one behind the prefix, whose code has a cell in its table.
  predicate ShortInside(extended: bool, b: Byte) {
    if extended then b < 0x6E || 0x90 <= b < 0xEE else b < 0x59 || 0x81 <= b < 0xD9
  }

  // ---------------------------------------------------------------- bytes that are no key event

  // What the bytes deliver from idle, and where they lead.
  predicate Leads(p: bool, keys: Keys, bytes: seq<Byte>, d: Decoder, out: seq<Delivery>) {
    Decode(IdleDecoder(p, keys), bytes) == (d, out)
  }

  // A prefix after a Pause is a release of code 0x60.
  function KeysAtPrefix(p: bool, keys: Keys): Keys { if p then Record(keys, Plain(0x60, false)) else keys }
  function DeliveredAtPrefix(p: bool, keys: Keys): seq<Delivery> {
    if p then [Deliver(keys, Plain(0x60, false))] else []
  }

  // One byte that is no prefix: below 0x81 the press of that code, else the release.
  lemma {:induction false} LoneByte(p: bool, keys: Keys, b: Byte)
    requires b != 0xE0 && b != 0xE1
    ensures var e := Plain(if b < 0x81 then b else b - 0x80, b < 0x81);
      Leads(p, keys, [b], IdleDecoder(p, Record(keys, e)), [Deliver(keys, e)])
  {
    OneByte(IdleDecoder(p, keys), b);
  }

  // A byte behind the prefix that begins no longer sequence: below 0x90 the press of that extended
  // code, else the release.
  lemma {:induction false} PrefixedByte(keys: Keys, b: Byte)
    requires b != 0xE0 && b != 0xE1 && b != 0x2A && b != 0xB7
    ensures var e := Extended(if b < 0x90 then b else b - 0x80, b < 0x90);
      Leads(false, keys, [0xE0, b], IdleDecoder(false, Record(keys, e)), [Deliver(keys, e)])
  {
    TwoBytes(IdleDecoder(false, keys), 0xE0, b);
    var out := Step(IdleDecoder(false, keys).(previousExtended := true), b).1;
    assert [] + out == out;
  }

  // Another prefix changes nothing.
  lemma {:induction false} PrefixTwice(keys: Keys)
    ensures Leads(false, keys, [0xE0, 0xE0], IdleDecoder(false, keys).(previousExtended := true), [])
  {
    TwoBytes(IdleDecoder(false, keys), 0xE0, 0xE0);
  }

  // Both beginnings of PrintScreen lead to the same place.
  lemma {:induction false} PrintScreenHead(p: bool, keys: Keys, head: Byte)
    requires head == 0x2A || head == 0xB7
    ensures Leads(p, keys, [0xE0, head], Decoder(false, true, p, 2, KeysAtPrefix(p, keys)), DeliveredAtPrefix(p, keys))
  {
    TwoBytes(IdleDecoder(p, keys), 0xE0, head);
    assert DeliveredAtPrefix(p, keys) + [] == DeliveredAtPrefix(p, keys);
  }

  // A third byte that belongs to neither sequence ends them: everything is forgotten, and the decoder is idle again.
  lemma {:induction false} AbandonedAtTheThird(p: bool, keys: Keys, head: Byte, b: Byte)
    requires (head == 0x2A || head == 0xB7) && b != 0xE0
    ensures Leads(p, keys, [0xE0, head] + [b], IdleDecoder(p, KeysAtPrefix(p, keys)), DeliveredAtPrefix(p, keys))
  {
    PrintScreenHead(p, keys, head);
    DecodeInTwo(IdleDecoder(p, keys), [0xE0, head], Decoder(false, true, p, 2, KeysAtPrefix(p, keys)), [b]);
    OneByte(Decoder(false, true, p, 2, KeysAtPrefix(p, keys)), b);
    assert DeliveredAtPrefix(p, keys) + [] == DeliveredAtPrefix(p, keys);
  }

  // So does a fourth one; 0x37 is a press and 0xAA a release, whichever sequence had begun.
  lemma {:induction false} FourthByte(p: bool, keys: Keys, head: Byte, b: Byte)
    requires head == 0x2A || head == 0xB7
    ensures var k, out := KeysAtPrefix(p, keys), DeliveredAtPrefix(p, keys);
      if b == 0x37 || b == 0xAA then
        var e := PrintScreen(b == 0x37);
        Leads(p, keys, [0xE0, head] + [0xE0, b], IdleDecoder(p, Record(k, e)), out + [Deliver(k, e)])
      else Leads(p, keys, [0xE0, head] + [0xE0, b], IdleDecoder(p, k), out)
  {
    var d := Decoder(false, true, p, 2, KeysAtPrefix(p, keys));
    PrintScreenHead(p, keys, head);
    DecodeInTwo(IdleDecoder(p, keys), [0xE0, head], d, [0xE0, b]);
    TwoBytes(d, 0xE0, b);
    var out := DeliveredAtPrefix(p, keys);
    assert out + ([] + []) == out;
    assert out + ([] + [Deliver(d.keys, PrintScreen(b == 0x37))]) == out + [Deliver(d.keys, PrintScreen(b == 0x37))];
  }

  // An event behind such bytes is decoded as from idle: here the cursor key with its fake shift,
  // and then any event.
  lemma {:induction false} EventBehindAbandoned(keys: Keys, head: Byte, b: Byte, e: KeyEvent)
    requires (head == 0x2A || head == 0xB7) && b != 0x37 && b != 0xAA && Valid(e)
    ensures Leads(false, keys, ([0xE0, head] + [0xE0, b]) + Encode(e), IdleDecoder(e.Pause?, Record(keys, e)), [Deliver(keys, e)])
  {
    FourthByte(false, keys, head, b);
    EventDecodes(false, keys, e);
    OneEvent(keys, e);
    DecodeInTwo(IdleDecoder(false, keys), [0xE0, head] + [0xE0, b], IdleDecoder(false, keys), Encode(e));
    assert [] + [Deliver(keys, e)] == [Deliver(keys, e)];
  }

  // A Pause interrupted behind its first i bytes: the next byte is delivered as a plain code, and
  // the place in the sequence is kept.
  lemma {:induction false} PauseInterrupted(keys: Keys, i: nat, b: Byte)
    requires 1 <= i <= 5 && b != PauseByteAt(i) && b != 0xE1
    ensures var e := Plain(if b < 0x81 then b else b - 0x80, b < 0x81);
      Leads(false, keys, PauseStart(i) + [b], Decoder(b == 0xE0, false, true, i, Record(keys, e)), [Deliver(keys, e)])
  {
    PauseStarted(keys, i);
    DecodeInTwo(IdleDecoder(false, keys), PauseStart(i), Decoder(false, false, true, i, keys), [b]);
    OneByte(Decoder(false, false, true, i, keys), b);
    var out := Step(Decoder(false, false, true, i, keys), b).1;
    assert [] + out == out;
  }

  function PauseByteAt(i: nat): Byte
    requires i < 6
  {
    if i == 0 then 0xE1 else if i == 1 then 0x1D else if i == 2 then 0x45 else if i == 3 then 0xE1
    else if i == 4 then 0x9D else 0xC5
  }

  function PauseStart(i: nat): seq<Byte>
    requires i <= 6
  {
    if i == 0 then [] else PauseStart(i - 1) + [PauseByteAt(i - 1)]
  }

  lemma {:induction false} PauseStarted(keys: Keys, i: nat)
    requires 1 <= i <= 5
    ensures Leads(false, keys, PauseStart(i), Decoder(false, false, true, i, keys), [])
    decreases i
  {
    var b := PauseByteAt(i - 1);
    if i == 1 {
      assert PauseStart(1) == [b];
      OneByte(IdleDecoder(false, keys), b);
    } else {
      PauseStarted(keys, i - 1);
      DecodeInTwo(IdleDecoder(false, keys), PauseStart(i - 1), Decoder(false, false, true, i - 1, keys), [b]);
      OneByte(Decoder(false, false, true, i - 1, keys), b);
    }
  }

  // When the handler stays inside its arrays on one byte.
  predicate ByteInside(d: Decoder, b: Byte) {
    || (b == 0xE0 && !d.fourLong && !d.sixLong)
    || (d.previousExtended && !d.fourLong && (b == 0x2A || b == 0xB7))
    || (d.fourLong && d.length < 4)
    || (!d.fourLong && b == 0xE1)
    || (!d.fourLong && d.sixLong && d.length < 6 && (b == PAUSE_PRESSED[d.length] || ShortInside(false, b)))
    || (!d.fourLong && !d.sixLong && b != 0xE1 && ShortInside(d.previousExtended, b))
  }

  lemma {:induction false} ByteInsideIff(d: Decoder, b: Byte)
    ensures AllExist(Touched(d, b)) <==> ByteInside(d, b)
  {
    var cells := Touched(d, b);
    assert cells != [] ==> (AllExist(cells) ==> Exists(cells[0]));
    assert |cells| == 2 ==> (AllExist(cells) ==> Exists(cells[1]));
  }

  // Between two key events: the table of plain keys has the cells 0 to 0x58, that of extended keys
  // 0 to 0x6D.
  lemma {:induction false} CodesInsideIff(keys: Keys, b: Byte)
    requires b != 0xE0 && b != 0xE1
    ensures AllExist(Touched(IdleDecoder(false, keys), b)) <==> b <= 0x58 || 0x81 <= b <= 0xD8
    ensures b != 0x2A && b != 0xB7 ==>
      (AllExist(Touched(IdleDecoder(false, keys).(previousExtended := true), b)) <==> b <= 0x6D || 0x90 <= b <= 0xED)
  {
    ByteInsideIff(IdleDecoder(false, keys), b);
    ByteInsideIff(IdleDecoder(false, keys).(previousExtended := true), b);
  }

  function AllTouched(d: Decoder, bytes: seq<Byte>): seq<Cell>
    decreases |bytes|
  {
    if bytes == [] then [] else Touched(d, bytes[0]) + AllTouched(Step(d, bytes[0]).0, bytes[1..])
  }

  predicate AllBytesInside(d: Decoder, bytes: seq<Byte>)
    decreases |bytes|
  {
    bytes != [] ==> ByteInside(d, bytes[0]) && AllBytesInside(Step(d, bytes[0]).0, bytes[1..])
  }

  // On every stream of bytes the cells touched all exist if and only if every byte meets, in the
  // state it finds, the condition of ByteInside.
  lemma {:induction false} StreamInsideIff(d: Decoder, bytes: seq<Byte>)
    ensures AllExist(AllTouched(d, bytes)) <==> AllBytesInside(d, bytes)
    decreases |bytes|
  {
    if bytes != [] {
      var d1 := Step(d, bytes[0]).0;
      ByteInsideIff(d, bytes[0]);
      StreamInsideIff(d1, bytes[1..]);
      AllExistConcat(Touched(d, bytes[0]), AllTouched(d1, bytes[1..]));
    }
  }

  lemma {:induction false} AllExistConcat(a: seq<Cell>, b: seq<Cell>)
    ensures AllExist(a + b) <==> AllExist(a) && AllExist(b)
  {
    if AllExist(a + b) {
      forall i | 0 <= i < |a| ensures Exists(a[i]) { assert (a + b)[i] == a[i]; }
      forall i | 0 <= i < |b| ensures Exists(b[i]) { assert (a + b)[|a| + i] == b[i]; }
    }
  }

  // The four-byte arrays are safe on every stream.
  lemma {:induction false} FourLongStaysInside(d: Decoder, bytes: seq<Byte>)
    requires d.fourLong ==> 2 <= d.length <= 3
    ensures var t := Decode(d, bytes).0; t.fourLong ==> 2 <= t.length <= 3
    decreases |bytes|
  {
    if bytes != [] {
      FourLongStaysInside(Step(d, bytes[0]).0, bytes[1..]);
    }
  }

  // The six-byte array is not: each 0xE1 moves the index on unchecked.
  lemma {:induction false} SixPrefixesLeadBehind(d: Decoder, b: Byte)
    requires d == Decoder(false, false, true, 5, d.keys) && b != 0xE1
    ensures ByteInside(d, 0xE1)
    ensures var e := Step(d, 0xE1).0; e.length == 6 && !ByteInside(e, b) && PauseByte(6) in Touched(e, b)
  {
    assert Touched(Step(d, 0xE1).0, b)[0] == PauseByte(6);
  }

  lemma {:induction false} FivePrefixes(keys: Keys)
    ensures Decode(IdleDecoder(false, keys), [0xE1, 0xE1] + ([0xE1, 0xE1] + [0xE1])).0 == Decoder(false, false, true, 5, keys)
  {
    var d := IdleDecoder(false, keys);
    TwoBytes(d, 0xE1, 0xE1);
    var d2 := Decoder(false, false, true, 2, keys);
    DecodeInTwo(d, [0xE1, 0xE1], d2, [0xE1, 0xE1] + [0xE1]);
    TwoBytes(d2, 0xE1, 0xE1);
    var d4 := Decoder(false, false, true, 4, keys);
    DecodeInTwo(d2, [0xE1, 0xE1], d4, [0xE1]);
    OneByte(d4, 0xE1);
  }
}
