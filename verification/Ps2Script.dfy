// What a PS/2 conversation should be: the places of a script, the responses each place accepts, and
// the error a refused entry means.

module Ps2Script {
  import opened Ps2Ports

  datatype ControllerError =
    | InvalidPortNumber
    | WaitMaxIn
    | WaitMaxOut
    | InvalidTestPortResponse
    | InvalidTestControllerResponse
    | InvalidConfigurationByte
    | StatusParity
    | StatusTimeout
    | FailedToAcknowledge
    | FailedSelfTest
    | Rep3Invalid
    | Rep4Invalid
    | PostIsZero

  datatype Result<+T> = Ok(value: T) | Err(error: ControllerError)

  const READ_CONFIGURATION: bv8 := 0x20
  const WRITE_CONFIGURATION: bv8 := 0x60
  const DISABLE_SECOND_PORT: bv8 := 0xA7
  const ENABLE_SECOND_PORT: bv8 := 0xA8
  const TEST_SECOND_PORT: bv8 := 0xA9
  const TEST_CONTROLLER: bv8 := 0xAA
  const TEST_FIRST_PORT: bv8 := 0xAB
  const DISABLE_FIRST_PORT: bv8 := 0xAD
  const ENABLE_FIRST_PORT: bv8 := 0xAE
  const WRITE_TO_SECOND_PORT: bv8 := 0xD4
  const RESET_DEVICE: bv8 := 0xFF

  predicate SecondClockDisabled(config: bv8) { config & 0x20 != 0 }
  predicate ReservedBitSet(config: bv8) { config & 0x08 != 0 }
  predicate PassedPost(config: bv8) { config & 0x04 != 0 }

  // ---------------------------------------------------------------- the devices

  datatype Class = Keyboard | Mouse

  datatype DeviceType =
    | AncientAtKeyboard
    | StandardMouse
    | MouseWithScrollWheel
    | MouseWith5Button
    | Mf2Keyboard1
    | Mf2Keyboard2
    | ShortKeyboard
    | Key122HostConnected
    | Key122
    | JapaneseG
    | JapaneseP
    | JapaneseA
    | NcdSun

  function ClassOf(t: DeviceType): Class {
    if t.StandardMouse? || t.MouseWithScrollWheel? || t.MouseWith5Button? then Mouse else Keyboard
  }

  // What a device sends behind the passed self test.
  datatype Identity = Silent | OneByte(b: bv8) | TwoBytes(a: bv8, b: bv8)

  // Every identification that is known.
  const IDENTIFICATIONS: map<Identity, DeviceType> := map[
    Silent := AncientAtKeyboard,
    OneByte(0x00) := StandardMouse, OneByte(0x03) := MouseWithScrollWheel, OneByte(0x04) := MouseWith5Button,
    TwoBytes(0xAB, 0x83) := Mf2Keyboard1, TwoBytes(0xAB, 0x41) := Mf2Keyboard1,
    TwoBytes(0xAB, 0xC1) := Mf2Keyboard2,
    TwoBytes(0xAB, 0x84) := ShortKeyboard, TwoBytes(0xAB, 0x54) := ShortKeyboard,
    TwoBytes(0xAB, 0x85) := Key122HostConnected, TwoBytes(0xAB, 0x86) := Key122,
    TwoBytes(0xAB, 0x90) := JapaneseG, TwoBytes(0xAB, 0x91) := JapaneseP, TwoBytes(0xAB, 0x92) := JapaneseA,
    TwoBytes(0xAB, 0xA1) := NcdSun]

  // A device is a mouse if and only if it identified itself with one byte.
  lemma MouseIff(id: Identity)
    requires id in IDENTIFICATIONS
    ensures ClassOf(IDENTIFICATIONS[id]) == Mouse <==> id.OneByte?
    ensures IDENTIFICATIONS[id] in {StandardMouse, MouseWithScrollWheel, MouseWith5Button} <==> id.OneByte?
  {}

  const ACKNOWLEDGED: bv8 := 0xFA
  const SELF_TEST_PASSED: bv8 := 0xAA
  const KEYBOARD_PREFIX: bv8 := 0xAB

  function Identify3(b: bv8): Result<DeviceType>
    requires b != KEYBOARD_PREFIX
  {
    if b == 0x00 then Ok(StandardMouse)
    else if b == 0x03 then Ok(MouseWithScrollWheel)
    else if b == 0x04 then Ok(MouseWith5Button)
    else Err(Rep3Invalid)
  }

  function Identify4(b: bv8): Result<DeviceType> {
    if b == 0x83 then Ok(Mf2Keyboard1)
    else if b == 0x41 then Ok(Mf2Keyboard1)
    else if b == 0xC1 then Ok(Mf2Keyboard2)
    else if b == 0x84 then Ok(ShortKeyboard)
    else if b == 0x54 then Ok(ShortKeyboard)
    else if b == 0x85 then Ok(Key122HostConnected)
    else if b == 0x86 then Ok(Key122)
    else if b == 0x90 then Ok(JapaneseG)
    else if b == 0x91 then Ok(JapaneseP)
    else if b == 0x92 then Ok(JapaneseA)
    else if b == 0xA1 then Ok(NcdSun)
    else Err(Rep4Invalid)
  }

  // The answer the table gives for an identification.
  predicate Answers(r: Result<DeviceType>, id: Identity) {
    if id in IDENTIFICATIONS then r == Ok(IDENTIFICATIONS[id]) else r.Err?
  }

  lemma IdentificationsAreComplete(b: bv8)
    ensures Answers(Ok(AncientAtKeyboard), Silent)
    ensures b != KEYBOARD_PREFIX ==> Answers(Identify3(b), OneByte(b))
    ensures Answers(Identify4(b), TwoBytes(KEYBOARD_PREFIX, b))
  {}

  // ---------------------------------------------------------------- scripts

  // Which responses a place accepts.
  datatype Kind =
    | Anything
    | Configuration
    | ControllerResult
    | SelfTest
    | PortResult
    | PortTest(port: nat)
    | Acknowledge
    | SelfTestPassed
    | FirstIdByte
    | SecondIdByte

  predicate Accepts(kind: Kind, x: Access) {
    match kind
    case Anything => x.ReadData?
    case Configuration => x.ReadData? && !ReservedBitSet(x.value) && PassedPost(x.value)
    case ControllerResult => x == ReadData(0x55) || x == ReadData(0xFC)
    case SelfTest => x == ReadData(0x55)
    case PortResult => x.ReadData? && x.value <= 0x04
    case PortTest(_) => x == ReadData(0x00)
    case Acknowledge => x == ReadData(ACKNOWLEDGED)
    case SelfTestPassed => x == ReadData(SELF_TEST_PASSED)
    case FirstIdByte => x.GaveUpReading? || (x.ReadData? && (x.value == KEYBOARD_PREFIX || Identify3(x.value).Ok?))
    case SecondIdByte => x.ReadData? && Identify4(x.value).Ok?
  }

  // The host writes, or takes an answer: a response, or the end of a wait for one.
  datatype Place = Put(a: Access) | Take(answer: Access, kind: Kind)

  function Entry(p: Place): Access { if p.Put? then p.a else p.answer }

  function Entries(script: seq<Place>): (es: seq<Access>)
    ensures |es| == |script| && forall i | 0 <= i < |es| :: es[i] == Entry(script[i])
  {
    seq(|script|, i requires 0 <= i < |script| => Entry(script[i]))
  }

  predicate Accepted(p: Place) { if p.Put? then IsWrite(p.a) else Accepts(p.kind, p.answer) }

  predicate AllAccepted(script: seq<Place>) { forall i | 0 <= i < |script| :: Accepted(script[i]) }

  // What breaks a conversation off at a place.
  predicate Refused(x: Access, p: Place) {
    if p.Put? then x.GaveUpWriting? || x.BadStatus?
    else (x.ReadData? || x.GaveUpReading?) && !Accepts(p.kind, x)
  }

  // The error that reports it.
  function ErrorOf(x: Access, p: Place): ControllerError {
    if x.GaveUpWriting? then WaitMaxIn
    else if x.BadStatus? then (if ParityError(x.value) then StatusParity else StatusTimeout)
    else if x.GaveUpReading? || !x.ReadData? || p.Put? then WaitMaxOut
    else match p.kind
      case Anything => WaitMaxOut
      case Configuration => if ReservedBitSet(x.value) then InvalidConfigurationByte else PostIsZero
      case ControllerResult => InvalidTestControllerResponse
      case SelfTest => InvalidTestControllerResponse
      case PortResult => InvalidTestPortResponse
      case PortTest(_) => InvalidTestPortResponse
      case Acknowledge => FailedToAcknowledge
      case SelfTestPassed => FailedSelfTest
      case FirstIdByte => Rep3Invalid
      case SecondIdByte => Rep4Invalid
  }

  // The whole script was said, and every answer in it is accepted.
  predicate Complete(said: seq<Access>, script: seq<Place>) { said == Entries(script) && AllAccepted(script) }

  // The script was said up to a place whose entry is refused.
  predicate Broken(said: seq<Access>, script: seq<Place>) {
    && 0 < |said| <= |script|
    && said[..|said| - 1] == Entries(script[..|said| - 1])
    && AllAccepted(script[..|said| - 1])
    && Refused(said[|said| - 1], script[|said| - 1])
  }

  // The refused entry, and where it was refused.
  datatype Blamed = Blamed(entry: Access, place: Place)

  function Blame(said: seq<Access>, script: seq<Place>): Blamed {
    if 0 < |said| <= |script| then Blamed(said[|said| - 1], script[|said| - 1]) else Blamed(IoWait, Put(IoWait))
  }

  // In a completed conversation no write was refused, and no wait was given up but for a device
  // that is silent where it should identify itself; every response is one its place accepts.
  lemma CompleteMeans(said: seq<Access>, script: seq<Place>, i: nat)
    requires Complete(said, script) && i < |said|
    ensures !said[i].GaveUpWriting? && !said[i].BadStatus?
    ensures said[i].GaveUpReading? ==> script[i].Take? && script[i].kind == FirstIdByte
    ensures said[i].ReadData? ==> script[i].Take? && Accepts(script[i].kind, said[i])
  {
    assert Accepted(script[i]);
  }

  function Fault(said: seq<Access>, script: seq<Place>): ControllerError {
    var b := Blame(said, script);
    ErrorOf(b.entry, b.place)
  }

  function Said(before: seq<Access>, after: seq<Access>): seq<Access> {
    if |Talk(before)| <= |Talk(after)| then Talk(after)[|Talk(before)|..] else []
  }

  predicate Keeps(before: seq<Access>, after: seq<Access>, script: seq<Place>, done: bool) {
    && Talk(before) <= Talk(after)
    && if done then Complete(Said(before, after), script) else Broken(Said(before, after), script)
  }

  ghost predicate Follows(before: seq<Access>, after: seq<Access>, polls: nat, script: seq<Place>, done: bool) {
    Proper(before, after, polls) && Keeps(before, after, script, done)
  }

  // A result that reports what happened.
  ghost predicate Outcome<T>(before: seq<Access>, after: seq<Access>, polls: nat, script: seq<Place>, r: Result<T>) {
    Follows(before, after, polls, script, r.Ok?) && (r.Err? ==> r.error == Fault(Said(before, after), script))
  }

  // ---------------------------------------------------------------- scripts one after another

  lemma EntriesConcat(s: seq<Place>, t: seq<Place>)
    ensures Entries(s + t) == Entries(s) + Entries(t)
  {}

  lemma AllAcceptedConcat(s: seq<Place>, t: seq<Place>)
    ensures AllAccepted(s + t) <==> AllAccepted(s) && AllAccepted(t)
  {
    if AllAccepted(s + t) {
      forall i | 0 <= i < |s| ensures Accepted(s[i]) { assert (s + t)[i] == s[i]; }
      forall i | 0 <= i < |t| ensures Accepted(t[i]) { assert (s + t)[|s| + i] == t[i]; }
    }
  }

  lemma CompleteThen(s: seq<Place>, said: seq<Access>, t: seq<Place>)
    requires AllAccepted(s) && Complete(said, t)
    ensures Complete(Entries(s) + said, s + t)
  {
    EntriesConcat(s, t);
    AllAcceptedConcat(s, t);
  }

  lemma BrokenThen(s: seq<Place>, said: seq<Access>, t: seq<Place>)
    requires AllAccepted(s) && Broken(said, t)
    ensures Broken(Entries(s) + said, s + t)
    ensures Blame(Entries(s) + said, s + t) == Blame(said, t)
  {
    var n := |said| - 1;
    var all := Entries(s) + said;
    assert (s + t)[..|s| + n] == s + t[..n];
    EntriesConcat(s, t[..n]);
    AllAcceptedConcat(s, t[..n]);
    assert all[..|all| - 1] == Entries(s) + said[..n];
  }

  lemma BrokenBefore(said: seq<Access>, s: seq<Place>, t: seq<Place>)
    requires Broken(said, s)
    ensures Broken(said, s + t) && Blame(said, s + t) == Blame(said, s)
  {
    assert (s + t)[..|said| - 1] == s[..|said| - 1];
  }

  lemma SaidThen(a: seq<Access>, b: seq<Access>, c: seq<Access>)
    requires Talk(a) <= Talk(b) <= Talk(c)
    ensures Said(a, c) == Said(a, b) + Said(b, c)
  {
    Slices(Talk(a), Talk(b), Talk(c));
  }

  lemma Slices(a: seq<Access>, b: seq<Access>, c: seq<Access>)
    requires a <= b <= c
    ensures c[|a|..] == b[|a|..] + c[|b|..]
  {
    assert c == b + c[|b|..];
  }

  // One script after another.
  lemma Then(a: seq<Access>, b: seq<Access>, c: seq<Access>, m: nat, n: nat,
             script: seq<Place>, more: seq<Place>, done: bool)
    requires Follows(a, b, m, script, true) && Follows(b, c, n, more, done)
    ensures Follows(a, c, m + n, script + more, done)
    ensures !done ==> Blame(Said(a, c), script + more) == Blame(Said(b, c), more)
    ensures Said(a, c) == Said(a, b) + Said(b, c)
  {
    ProperThen(a, b, c, m, n);
    KeepsThen(a, b, c, script, more, done);
  }

  lemma KeepsThen(a: seq<Access>, b: seq<Access>, c: seq<Access>, script: seq<Place>, more: seq<Place>, done: bool)
    requires Keeps(a, b, script, true) && Keeps(b, c, more, done)
    ensures Keeps(a, c, script + more, done)
    ensures !done ==> Blame(Said(a, c), script + more) == Blame(Said(b, c), more)
    ensures Said(a, c) == Said(a, b) + Said(b, c)
  {
    SaidThen(a, b, c);
    if done {
      CompleteThen(script, Said(b, c), more);
    } else {
      BrokenThen(script, Said(b, c), more);
    }
  }

  // Who breaks off in the first script breaks off in the two together.
  lemma StopsBefore(a: seq<Access>, b: seq<Access>, m: nat, n: nat, script: seq<Place>, more: seq<Place>)
    requires Follows(a, b, m, script, false)
    ensures Follows(a, b, m + n, script + more, false)
    ensures Blame(Said(a, b), script + more) == Blame(Said(a, b), script)
  {
    BrokenBefore(Said(a, b), script, more);
  }

  // ---------------------------------------------------------------- a narrower place

  predicate Narrower(kind: Kind, than: Kind) {
    || (than == Anything && kind != FirstIdByte)
    || (than == ControllerResult && kind == SelfTest)
    || (than == PortResult && kind.PortTest?)
  }

  // Refused by the wider place, an entry is refused by the narrower one for the same reason.
  predicate Rejudged(before: Blamed, after: Blamed, than: Place, place: Place) {
    && Refused(before.entry, before.place) && after.entry == before.entry
    && (after.place == before.place || (before.place == than && after.place == place))
    && ErrorOf(after.entry, after.place) == ErrorOf(before.entry, before.place)
  }

  // An answer that the last place took, judged by a narrower one.
  lemma Judge(a: seq<Access>, b: seq<Access>, m: nat, script: seq<Place>, x: Access, than: Kind, kind: Kind,
              hoped: Access, done: bool)
    requires Follows(a, b, m, script + [Take(x, than)], done) && Narrower(kind, than)
    requires done ==> x.ReadData?
    ensures done && Accepts(kind, x) ==> Follows(a, b, m, script + [Take(x, kind)], true)
    ensures !(done && Accepts(kind, x)) ==> Follows(a, b, m, script + [Take(hoped, kind)], false)
    ensures done && !Accepts(kind, x) ==>
      Blame(Said(a, b), script + [Take(hoped, kind)]) == Blamed(x, Take(hoped, kind))
    ensures !done ==> Rejudged(Blame(Said(a, b), script + [Take(x, than)]),
                               Blame(Said(a, b), script + [Take(hoped, kind)]), Take(x, than), Take(hoped, kind))
  {
    if done {
      JudgeComplete(Said(a, b), script, x, than, kind, hoped);
    } else {
      JudgeBroken(Said(a, b), script, x, than, kind, hoped);
    }
  }

  lemma JudgeComplete(said: seq<Access>, script: seq<Place>, x: Access, than: Kind, kind: Kind, hoped: Access)
    requires Complete(said, script + [Take(x, than)]) && x.ReadData?
    ensures Accepts(kind, x) ==> Complete(said, script + [Take(x, kind)])
    ensures !Accepts(kind, x) ==> Broken(said, script + [Take(hoped, kind)])
    ensures !Accepts(kind, x) ==> Blame(said, script + [Take(hoped, kind)]) == Blamed(x, Take(hoped, kind))
  {
    AllAcceptedConcat(script, [Take(x, than)]);
    AllAcceptedConcat(script, [Take(x, kind)]);
    EntriesConcat(script, [Take(x, than)]);
    assert (script + [Take(hoped, kind)])[..|script|] == script;
    assert said[..|script|] == Entries(script);
  }

  lemma JudgeBroken(said: seq<Access>, script: seq<Place>, x: Access, than: Kind, kind: Kind, hoped: Access)
    requires Broken(said, script + [Take(x, than)]) && Narrower(kind, than)
    ensures Broken(said, script + [Take(hoped, kind)])
    ensures Rejudged(Blame(said, script + [Take(x, than)]), Blame(said, script + [Take(hoped, kind)]),
                     Take(x, than), Take(hoped, kind))
  {
    var n := |said| - 1;
    assert (script + [Take(hoped, kind)])[..n] == script[..n] == (script + [Take(x, than)])[..n];
  }

  // ---------------------------------------------------------------- what a conversation decides

  predicate SameShape(p: Place, q: Place) {
    match (p, q)
    case (Put(a), Put(b)) => a == b
    case (Take(_, k), Take(_, l)) => k == l
    case _ => false
  }

  // Scripts of one protocol: after the same beginning the same kind of place follows, or none.
  ghost predicate Coherent(s: seq<Place>, t: seq<Place>) {
    forall n | 0 <= n <= |s| && n <= |t| && s[..n] == t[..n] :: CoherentAt(s, t, n)
  }

  predicate CoherentAt(s: seq<Place>, t: seq<Place>, n: nat)
    requires n <= |s| && n <= |t|
  {
    && (n == |s| <==> n == |t|)
    && (n < |s| && n < |t| ==> SameShape(s[n], t[n]))
  }

  lemma CoherentThen(s: seq<Place>, t: seq<Place>, s': seq<Place>, t': seq<Place>)
    requires Coherent(s, t) && (s == t ==> Coherent(s', t'))
    ensures Coherent(s + s', t + t')
  {
    forall n | 0 <= n <= |s + s'| && n <= |t + t'| && (s + s')[..n] == (t + t')[..n]
      ensures CoherentAt(s + s', t + t', n)
    {
      if n < |s| && n < |t| {
        assert s[..n] == (s + s')[..n] == (t + t')[..n] == t[..n];
        assert CoherentAt(s, t, n);
      } else {
        SameFirstPart(s, t, s', t', n);
        var k := n - |s|;
        assert s'[..k] == (s + s')[..n][|s|..] == t'[..k];
        assert CoherentAt(s', t', k);
      }
    }
  }

  lemma SameFirstPart(s: seq<Place>, t: seq<Place>, s': seq<Place>, t': seq<Place>, n: nat)
    requires Coherent(s, t) && n <= |s + s'| && n <= |t + t'| && (s + s')[..n] == (t + t')[..n]
    requires n >= |s| || n >= |t|
    ensures s == t && n >= |s|
  {
    var k := if |s| <= |t| then |s| else |t|;
    assert s[..k] == (s + s')[..n][..k] == t[..k];
    assert CoherentAt(s, t, k);
    assert s == s[..k] && t == t[..k];
  }

  // Two coherent scripts with the same entries so far are the same so far.
  lemma {:induction false} SameEntriesSamePlaces(s: seq<Place>, t: seq<Place>, n: nat)
    requires Coherent(s, t) && n <= |s| && n <= |t| && Entries(s[..n]) == Entries(t[..n])
    ensures s[..n] == t[..n]
    decreases n
  {
    if n > 0 {
      assert s[..n][..n - 1] == s[..n - 1] && t[..n][..n - 1] == t[..n - 1];
      assert Entries(s[..n - 1]) == Entries(s[..n])[..n - 1] == Entries(t[..n - 1]);
      SameEntriesSamePlaces(s, t, n - 1);
      assert CoherentAt(s, t, n - 1);
      assert Entry(s[..n][n - 1]) == Entry(t[..n][n - 1]);
    }
  }

  // A conversation does not both complete one of them and break off in another.
  lemma NotBoth(said: seq<Access>, s: seq<Place>, t: seq<Place>)
    requires Coherent(s, t) && Complete(said, s)
    ensures !Broken(said, t)
  {
    var n := |said| - 1;
    if 0 < |said| <= |t| && said[..n] == Entries(t[..n]) {
      assert Entries(s[..n]) == Entries(s)[..n];
      SameEntriesSamePlaces(s, t, n);
      assert CoherentAt(s, t, n);
      AcceptedIsNotRefused(s[n], t[n]);
    }
  }

  lemma AcceptedIsNotRefused(p: Place, q: Place)
    requires Accepted(p) && SameShape(p, q)
    ensures !Refused(Entry(p), q)
  {}

  // It completes at most one of them.
  lemma CompletesOne(said: seq<Access>, s: seq<Place>, t: seq<Place>)
    requires Coherent(s, t) && Complete(said, s) && Complete(said, t)
    ensures s == t
  {
    assert s[..|s|] == s && t[..|t|] == t;
    SameEntriesSamePlaces(s, t, |s|);
  }
}
