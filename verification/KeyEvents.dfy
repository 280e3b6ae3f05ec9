// What a keyboard in scan code set 1 sends, and what the handler should make of it.

module KeyEvents {
  type Byte = b: nat | b < 0x100

  datatype Key = PlainKey(code: Byte) | ExtendedKey(code: Byte) | PrintScreenKey | PauseKey

  datatype KeyEvent =
    | Plain(code: Byte, pressed: bool)
    | Extended(code: Byte, pressed: bool)
    | PrintScreen(pressed: bool)
    | Pause

  const SC_LEFT_CTRL: Byte := 0x1D
  const SC_LEFT_SHIFT: Byte := 0x2A
  const SC_RIGHT_SHIFT: Byte := 0x36
  const SC_LEFT_ALT: Byte := 0x38
  const SC_CAPSLOCK: Byte := 0x3A
  const SC_SCROLLLOCK: Byte := 0x46
  const SC_F12: Byte := 0x58
  const SCE_RIGHT_CTRL: Byte := 0x1D
  const SCE_RIGHT_ALT: Byte := 0x38
  const SCE_LEFT_META: Byte := 0x5B
  const SCE_RIGHT_META: Byte := 0x5C
  const SCE_APPS: Byte := 0x5D
  const SCE_MEDIA_SELECT: Byte := 0x6D

  // The press codes of the two scan code tables.
  predicate ValidPlain(c: Byte) { 0x01 <= c <= 0x53 || c == 0x57 || c == 0x58 }
  predicate ValidExtended(c: Byte) {
    || c == 0x10 || c == 0x19 || c == 0x1C || c == 0x1D
    || 0x20 <= c <= 0x22 || c == 0x24 || c == 0x2E || c == 0x30 || c == 0x32 || c == 0x35 || c == 0x38
    || 0x47 <= c <= 0x49 || c == 0x4B || c == 0x4D || 0x4F <= c <= 0x53
    || 0x5B <= c <= 0x5F || c == 0x63 || 0x65 <= c <= 0x6D
  }

  predicate Valid(e: KeyEvent) {
    match e
    case Plain(c, _) => ValidPlain(c)
    case Extended(c, _) => ValidExtended(c)
    case _ => true
  }

  predicate AllValid(es: seq<KeyEvent>) { forall i | 0 <= i < |es| :: Valid(es[i]) }

  function KeyOf(e: KeyEvent): Key {
    match e
    case Plain(c, _) => PlainKey(c)
    case Extended(c, _) => ExtendedKey(c)
    case PrintScreen(_) => PrintScreenKey
    case Pause => PauseKey
  }

  predicate IsPress(e: KeyEvent) { e.Pause? || e.pressed }

  // ---------------------------------------------------------------- the wire

  function ReleaseBit(pressed: bool): Byte { if pressed then 0 else 0x80 }

  function Encode(e: KeyEvent): seq<Byte>
    requires Valid(e)
  {
    match e
    case Plain(c, pressed) => [c + ReleaseBit(pressed)]
    case Extended(c, pressed) => [0xE0, c + ReleaseBit(pressed)]
    case PrintScreen(pressed) =>
      if pressed then [0xE0, 0x2A, 0xE0, 0x37] else [0xE0, 0xB7, 0xE0, 0xAA]
    case Pause => [0xE1, 0x1D, 0x45, 0xE1, 0x9D, 0xC5]
  }

  function EncodeAll(es: seq<KeyEvent>): seq<Byte>
    requires AllValid(es)
    decreases |es|
  {
    if es == [] then [] else EncodeAll(es[..|es| - 1]) + Encode(es[|es| - 1])
  }

  // ---------------------------------------------------------------- what is delivered

  datatype Modifiers = Modifiers(
    leftShift: bool, rightShift: bool, leftCtrl: bool, rightCtrl: bool, leftMeta: bool, rightMeta: bool,
    menuApp: bool, alt: bool, altgr: bool, capslock: bool, scrollLock: bool)

  datatype Delivery = Delivery(key: Key, mods: Modifiers, firstPress: bool, pressed: bool)

  // is_key_pressed, is_extended_key_pressed, is_print_screen_pressed.
  datatype Keys = Keys(plain: set<Byte>, extended: set<Byte>, printScreen: bool)

  const NO_KEYS := Keys({}, {}, false)

  function ModifiersOf(k: Keys): Modifiers {
    Modifiers(
      SC_LEFT_SHIFT in k.plain, SC_RIGHT_SHIFT in k.plain,
      SC_LEFT_CTRL in k.plain, SCE_RIGHT_CTRL in k.extended,
      SCE_LEFT_META in k.extended, SCE_RIGHT_META in k.extended, SCE_APPS in k.extended,
      SC_LEFT_ALT in k.plain, SCE_RIGHT_ALT in k.extended,
      SC_CAPSLOCK in k.plain, SC_SCROLLLOCK in k.plain)
  }

  // One event: a press is delivered before it is recorded, a release is recorded first.
  function Record(k: Keys, e: KeyEvent): Keys {
    match e
    case Plain(c, pressed) => k.(plain := if pressed then k.plain + {c} else k.plain - {c})
    case Extended(c, pressed) => k.(extended := if pressed then k.extended + {c} else k.extended - {c})
    case PrintScreen(pressed) => k.(printScreen := pressed)
    case Pause => k
  }

  predicate IsHeld(k: Keys, key: Key) {
    match key
    case PlainKey(c) => c in k.plain
    case ExtendedKey(c) => c in k.extended
    case PrintScreenKey => k.printScreen
    case PauseKey => false
  }

  function Deliver(k: Keys, e: KeyEvent): Delivery {
    if IsPress(e) then Delivery(KeyOf(e), ModifiersOf(k), !IsHeld(k, KeyOf(e)), true)
    else Delivery(KeyOf(e), ModifiersOf(Record(k, e)), false, false)
  }

  function KeysAfter(k: Keys, es: seq<KeyEvent>): Keys
    decreases |es|
  {
    if es == [] then k else Record(KeysAfter(k, es[..|es| - 1]), es[|es| - 1])
  }

  function Delivered(k: Keys, es: seq<KeyEvent>): (ds: seq<Delivery>)
    ensures |ds| == |es|
    decreases |es|
  {
    if es == [] then []
    else
      var before := es[..|es| - 1];
      Delivered(k, before) + [Deliver(KeysAfter(k, before), es[|es| - 1])]
  }

  lemma {:induction false} DeliveredAt(k: Keys, es: seq<KeyEvent>, i: nat)
    requires i < |es|
    ensures Delivered(k, es)[i] == Deliver(KeysAfter(k, es[..i]), es[i])
    decreases |es|
  {
    if i < |es| - 1 {
      DeliveredAt(k, es[..|es| - 1], i);
      assert es[..|es| - 1][..i] == es[..i];
    }
  }

  lemma {:induction false} KeysAfterAppend(k: Keys, es: seq<KeyEvent>, fs: seq<KeyEvent>)
    ensures KeysAfter(k, es + fs) == KeysAfter(KeysAfter(k, es), fs)
    ensures Delivered(k, es + fs) == Delivered(k, es) + Delivered(KeysAfter(k, es), fs)
    decreases |fs|
  {
    if fs == [] {
      assert es + fs == es;
    } else {
      var n := |fs| - 1;
      assert (es + fs)[..|es + fs| - 1] == es + fs[..n];
      KeysAfterAppend(k, es, fs[..n]);
    }
  }

  // ---------------------------------------------------------------- the history behind the flags

  // A key is held when the last event about it was a press.
  predicate Held(history: seq<KeyEvent>, key: Key)
    decreases |history|
  {
    history != [] &&
    var last := history[|history| - 1];
    if KeyOf(last) == key then IsPress(last) else Held(history[..|history| - 1], key)
  }

  lemma {:induction false} KeysAreTheHeldOnes(history: seq<KeyEvent>, key: Key)
    requires key != PauseKey
    ensures IsHeld(KeysAfter(NO_KEYS, history), key) <==> Held(history, key)
    decreases |history|
  {
    if history != [] {
      KeysAreTheHeldOnes(history[..|history| - 1], key);
    }
  }

  // A press is reported as the first one exactly when the key had no press since its last
  // release; a Pause, which has no release, always is; a release never is.
  lemma FirstPressMeansNotHeld(es: seq<KeyEvent>, i: nat)
    requires i < |es|
    ensures var d := Delivered(NO_KEYS, es)[i];
      && d.key == KeyOf(es[i]) && d.pressed == IsPress(es[i])
      && (d.firstPress <==> IsPress(es[i]) && (es[i].Pause? || !Held(es[..i], KeyOf(es[i]))))
  {
    DeliveredAt(NO_KEYS, es, i);
    if !es[i].Pause? {
      KeysAreTheHeldOnes(es[..i], KeyOf(es[i]));
    }
  }

  // By the codes on the wire.
  function ModifiersFrom(history: seq<KeyEvent>): Modifiers {
    Modifiers(
      leftShift := Held(history, PlainKey(0x2A)), rightShift := Held(history, PlainKey(0x36)),
      leftCtrl := Held(history, PlainKey(0x1D)), rightCtrl := Held(history, ExtendedKey(0x1D)),
      leftMeta := Held(history, ExtendedKey(0x5B)), rightMeta := Held(history, ExtendedKey(0x5C)),
      menuApp := Held(history, ExtendedKey(0x5D)),
      alt := Held(history, PlainKey(0x38)), altgr := Held(history, ExtendedKey(0x38)),
      capslock := Held(history, PlainKey(0x3A)), scrollLock := Held(history, PlainKey(0x46)))
  }

  // The modifiers handed over with an event are those held before a press and after a release.
  lemma ModifiersMeanHeld(es: seq<KeyEvent>, i: nat)
    requires i < |es|
    ensures Delivered(NO_KEYS, es)[i].mods == ModifiersFrom(if IsPress(es[i]) then es[..i] else es[..i + 1])
  {
    DeliveredAt(NO_KEYS, es, i);
    assert es[..i + 1][..i] == es[..i];
    HistoryModifiers(if IsPress(es[i]) then es[..i] else es[..i + 1]);
  }

  lemma HistoryModifiers(history: seq<KeyEvent>)
    ensures ModifiersOf(KeysAfter(NO_KEYS, history)) == ModifiersFrom(history)
  {
    var k := KeysAfter(NO_KEYS, history);
    forall c: Byte ensures c in k.plain <==> Held(history, PlainKey(c)) {
      KeysAreTheHeldOnes(history, PlainKey(c));
    }
    forall c: Byte ensures c in k.extended <==> Held(history, ExtendedKey(c)) {
      KeysAreTheHeldOnes(history, ExtendedKey(c));
    }
  }
}
