// The same conversations in plain bytes: what stands on the wire, which bytes are accepted, which
// bits are changed, and what a report means in terms of the bytes heard.

module Ps2Wire {
  import opened Common
  import opened Ps2Ports
  import opened Ps2Script
  import opened Ps2Controller
  import opened Ps2Setup
  import K = Ps2Keyboard

  // ---------------------------------------------------------------- bits

  // The status byte: response waiting, input buffer full, timeout, parity.
  lemma StatusBits(v: bv8)
    ensures OutputBufferFull(v) <==> v | 0xFE == 0xFF
    ensures InputBufferFull(v) <==> v | 0xFD == 0xFF
    ensures TimeoutError(v) <==> v | 0xBF == 0xFF
    ensures ParityError(v) <==> v >= 0x80
    ensures CleanForInput(v) <==> v & 0xC2 == 0
    ensures IsBad(v) <==> v & 0x02 == 0 && v & 0xC0 != 0
  {}

  // The configuration byte. The first update clears bits 0, 4 and 6, the second one bits 1 and 5,
  // the last one sets bits 0 and 1; every other bit is written back as it was read.
  lemma ConfigurationBits(c: bv8)
    ensures FirstConfiguration(c) & 0x51 == 0 && FirstConfiguration(c) | 0x51 == c | 0x51
    ensures SecondConfiguration(c) & 0x22 == 0 && SecondConfiguration(c) | 0x22 == c | 0x22
    ensures FinalConfiguration(c) & 0x03 == 0x03 && FinalConfiguration(c) & 0xFC == c & 0xFC
    ensures SecondClockDisabled(c) <==> c | 0xDF == 0xFF
    ensures ReservedBitSet(c) <==> c | 0xF7 == 0xFF
    ensures PassedPost(c) <==> c | 0xFB == 0xFF
  {}

  // ---------------------------------------------------------------- what is accepted

  lemma AcceptedBytes(v: bv8, port: nat)
    ensures Accepts(Anything, ReadData(v))
    ensures Accepts(Configuration, ReadData(v)) <==> v & 0x0C == 0x04
    ensures Accepts(ControllerResult, ReadData(v)) <==> v in {0x55, 0xFC}
    ensures Accepts(SelfTest, ReadData(v)) <==> v in {0x55}
    ensures Accepts(PortResult, ReadData(v)) <==> v in {0, 1, 2, 3, 4}
    ensures Accepts(PortTest(port), ReadData(v)) <==> v in {0}
    ensures Accepts(Acknowledge, ReadData(v)) <==> v in {0xFA}
    ensures Accepts(SelfTestPassed, ReadData(v)) <==> v in {0xAA}
    ensures Accepts(FirstIdByte, ReadData(v)) <==> v in {0x00, 0x03, 0x04, 0xAB}
    ensures Accepts(SecondIdByte, ReadData(v)) <==>
            v in {0x41, 0x54, 0x83, 0x84, 0x85, 0x86, 0x90, 0x91, 0x92, 0xA1, 0xC1}
  {}

  // Only one place takes silence for an answer, and no place takes anything but bytes and silence.
  lemma AcceptedOthers(kind: Kind, x: Access)
    ensures Accepts(kind, GaveUpReading) <==> kind == FirstIdByte
    ensures Accepts(kind, x) ==> x.ReadData? || x == GaveUpReading
  {}

  // A place of the host accepts its write and refuses a wait given up or an error status; any other
  // place refuses the bytes, and the silence, that it does not accept.
  lemma PlacesRefuse(x: Access, a: Access, kind: Kind)
    ensures Accepted(Put(a)) <==> a.WriteCommand? || a.WriteData?
    ensures Refused(x, Put(a)) <==> x == GaveUpWriting || x.BadStatus?
    ensures Accepted(Take(x, kind)) <==> Accepts(kind, x)
    ensures x.ReadData? || x == GaveUpReading ==> (Refused(x, Take(a, kind)) <==> !Accepts(kind, x))
    ensures !(x.ReadData? || x == GaveUpReading) ==> !Refused(x, Take(a, kind))
  {}

  // The error that names a refused byte.
  lemma RefusedBytes(v: bv8, answer: Access, port: nat)
    ensures ErrorOf(ReadData(v), Take(answer, Configuration)) == if v & 0x08 == 0x08 then InvalidConfigurationByte else PostIsZero
    ensures ErrorOf(ReadData(v), Take(answer, SelfTest)) == InvalidTestControllerResponse
    ensures ErrorOf(ReadData(v), Take(answer, ControllerResult)) == InvalidTestControllerResponse
    ensures ErrorOf(ReadData(v), Take(answer, PortTest(port))) == InvalidTestPortResponse
    ensures ErrorOf(ReadData(v), Take(answer, PortResult)) == InvalidTestPortResponse
    ensures ErrorOf(ReadData(v), Take(answer, Acknowledge)) == FailedToAcknowledge
    ensures ErrorOf(ReadData(v), Take(answer, SelfTestPassed)) == FailedSelfTest
    ensures ErrorOf(ReadData(v), Take(answer, FirstIdByte)) == Rep3Invalid
    ensures ErrorOf(ReadData(v), Take(answer, SecondIdByte)) == Rep4Invalid
  {}

  // The error that names a wait given up, or an error status.
  lemma RefusedWaits(v: bv8, p: Place)
    ensures ErrorOf(GaveUpWriting, p) == WaitMaxIn
    ensures ErrorOf(BadStatus(v), p) == if v >= 0x80 then StatusParity else StatusTimeout
    ensures ErrorOf(GaveUpReading, p) == WaitMaxOut
  {
    StatusBits(v);
  }

  // ---------------------------------------------------------------- the bring-up

  function HeardBytes(id: Identity): seq<Access> {
    match id
    case Silent => [GaveUpReading]
    case OneByte(b) => [ReadData(b)]
    case TwoBytes(a, b) => [ReadData(a), ReadData(b)]
  }

  // The conversation of a finished bring-up, entry by entry: the ports off, and the flush;
  function Bytes3to4(a: Answers): seq<Access> {
    [WriteCommand(0xAD), WriteCommand(0xA7), ReadData(a.flushed)]
  }
  // the configuration of the first port, and the controller's self test;
  function Bytes5to6(a: Answers): seq<Access> {
    [WriteCommand(0x20), ReadData(a.config5), WriteCommand(0x60), WriteData(a.config5 & 0xAE), WriteCommand(0xAA), ReadData(0x55)]
  }
  // the second port on, a look at its clock, and off again; its configuration only if the clock ran;
  function Bytes7(a: Answers): seq<Access> {
    if a.config7 & 0x20 == 0x20 then [WriteCommand(0xA8), WriteCommand(0x20), ReadData(a.config7), WriteCommand(0xA7)]
    else [WriteCommand(0xA8), WriteCommand(0x20), ReadData(a.config7), WriteCommand(0xA7),
          WriteCommand(0x20), ReadData(a.cleanup7), WriteCommand(0x60), WriteData(a.cleanup7 & 0xDD)]
  }
  // the tests of both ports, both ports on, and the interrupts;
  function Bytes8to9(a: Answers): seq<Access> {
    [WriteCommand(0xAB), ReadData(0x00), WriteCommand(0xA9), ReadData(0x00), WriteCommand(0xAE), WriteCommand(0xA8),
     WriteCommand(0x20), ReadData(a.config9), WriteCommand(0x60), WriteData(a.config9 | 0x03)]
  }
  // the reset and identification of the devices.
  function Bytes10(a: Answers): seq<Access> {
    [WriteData(0xFF), ReadData(0xFA), ReadData(0xAA)] + HeardBytes(a.id1)
    + if a.config7 & 0x20 == 0x20 then []
      else [WriteCommand(0xD4), WriteData(0xFF), ReadData(0xFA), ReadData(0xAA)] + HeardBytes(a.id2)
  }

  function BringUpBytes(a: Answers): seq<Access> { Bytes3to4(a) + (Bytes5to6(a) + Bytes7(a) + Bytes8to9(a) + Bytes10(a)) }

  lemma Wire3to6(a: Answers)
    ensures Entries(Steps3to4(a.flushed)) == Bytes3to4(a) && Entries(Steps5to6(a.config5)) == Bytes5to6(a)
  {
    assert FirstConfiguration(a.config5) == a.config5 & 0xAE;
  }

  lemma Wire7(a: Answers)
    ensures Entries(Step7(a.config7, a.cleanup7)) == Bytes7(a)
  {
    assert SecondConfiguration(a.cleanup7) == a.cleanup7 & 0xDD;
    assert SecondClockDisabled(a.config7) <==> a.config7 & 0x20 == 0x20;
  }

  lemma Wire8to9(a: Answers)
    ensures Entries(Steps8to9(a.config9)) == Bytes8to9(a)
  {
    assert FinalConfiguration(a.config9) == a.config9 | 0x03;
  }

  lemma WireReset(port: nat, id: Identity)
    requires IsPort(port)
    ensures Entries(Identification(port, id)) ==
      (if port == 1 then [WriteData(0xFF), ReadData(0xFA), ReadData(0xAA)]
       else [WriteCommand(0xD4), WriteData(0xFF), ReadData(0xFA), ReadData(0xAA)]) + HeardBytes(id)
  {}

  lemma Wire10(a: Answers)
    ensures Entries(Step10(SecondPortSupported(a), a.id1, a.id2)) == Bytes10(a)
  {
    WireReset(1, a.id1);
    WireReset(2, a.id2);
    assert SecondClockDisabled(a.config7) <==> a.config7 & 0x20 == 0x20;
    EntriesConcat(Identification(1, a.id1), SecondIdentification(SecondPortSupported(a), a.id2));
  }

  lemma BringUpOnTheWire(a: Answers)
    ensures Entries(BringUp(a)) == BringUpBytes(a)
  {
    Wire3to6(a);
    Wire7(a);
    Wire8to9(a);
    Wire10(a);
    EntriesConcat(Steps3to4(a.flushed), Steps5to10(a));
    EntriesConcat(Steps5to9(a), Step10(SecondPortSupported(a), a.id1, a.id2));
    EntriesConcat(Steps5to7(a), Steps8to9(a.config9));
    EntriesConcat(Steps5to6(a.config5), Step7(a.config7, a.cleanup7));
  }

  // The configuration bytes that are accepted: bit 3 clear, bit 2 set.
  predicate Usable(config: bv8) { config & 0x0C == 0x04 }

  lemma AcceptedTo6(a: Answers)
    ensures AllAccepted(Steps3to4(a.flushed)) && (AllAccepted(Steps5to6(a.config5)) <==> Usable(a.config5))
  {
    var s := Steps5to6(a.config5);
    assert |s| == 6 && s[1] == Take(ReadData(a.config5), Configuration);
    AcceptedBytes(a.config5, 0);
    assert Accepted(s[1]) <==> Usable(a.config5);
  }

  lemma AcceptedIn7(a: Answers)
    ensures AllAccepted(Step7(a.config7, a.cleanup7)) <==>
            Usable(a.config7) && (SecondPortSupported(a) ==> Usable(a.cleanup7))
  {
    var probe, cleanup := Probe(a.config7), Cleanup(a.config7, a.cleanup7);
    AllAcceptedConcat(probe, cleanup);
    AcceptedBytes(a.config7, 0);
    AcceptedBytes(a.cleanup7, 0);
    assert |probe| == 4 && probe[2] == Take(ReadData(a.config7), Configuration);
    assert Accepted(probe[2]) <==> Usable(a.config7);
    if SecondPortSupported(a) {
      assert |cleanup| == 4 && cleanup[1] == Take(ReadData(a.cleanup7), Configuration);
      assert Accepted(cleanup[1]) <==> Usable(a.cleanup7);
    }
  }

  lemma AcceptedIn8to9(a: Answers)
    ensures AllAccepted(Steps8to9(a.config9)) <==> Usable(a.config9)
  {
    var s := Steps8to9(a.config9);
    assert |s| == 10 && s[7] == Take(ReadData(a.config9), Configuration);
    AcceptedBytes(a.config9, 0);
    assert Accepted(s[7]) <==> Usable(a.config9);
  }

  lemma AcceptedIdentity(port: nat, id: Identity)
    requires IsPort(port) && WellShaped(id)
    ensures AllAccepted(Identification(port, id)) <==> id in IDENTIFICATIONS
  {
    AllAcceptedConcat(ResetScript(port), Heard(id));
    match id
    case Silent => assert AllAccepted(Heard(id));
    case OneByte(b) =>
      AcceptedBytes(b, 0);
      assert AllAccepted(Heard(id)) <==> Accepted(Heard(id)[0]);
    case TwoBytes(x, b) =>
      AcceptedBytes(x, 0);
      AcceptedBytes(b, 0);
      assert AllAccepted(Heard(id)) <==> Accepted(Heard(id)[0]) && Accepted(Heard(id)[1]);
  }

  lemma AcceptedIn10(a: Answers)
    requires WellShapedAnswers(a)
    ensures AllAccepted(Step10(SecondPortSupported(a), a.id1, a.id2)) <==>
            a.id1 in IDENTIFICATIONS && (SecondPortSupported(a) ==> a.id2 in IDENTIFICATIONS)
  {
    AllAcceptedConcat(Identification(1, a.id1), SecondIdentification(SecondPortSupported(a), a.id2));
    AcceptedIdentity(1, a.id1);
    AcceptedIdentity(2, a.id2);
  }

  // One device, byte by byte: it is identified if and only if the reset is acknowledged, the self
  // test passed and the identification known.
  lemma IdentifiedOnTheWire(said: seq<Access>, port: nat, id: Identity)
    requires IsPort(port) && WellShaped(id)
    ensures Complete(said, Identification(port, id)) <==>
      && said == (if port == 1 then [WriteData(0xFF), ReadData(0xFA), ReadData(0xAA)]
                  else [WriteCommand(0xD4), WriteData(0xFF), ReadData(0xFA), ReadData(0xAA)]) + HeardBytes(id)
      && id in IDENTIFICATIONS
  {
    WireReset(port, id);
    AcceptedIdentity(port, id);
  }

  // The whole bring-up, byte by byte: it is complete if and only if these bytes were said, every
  // configuration byte is usable and every device known.
  lemma CompleteOnTheWire(said: seq<Access>, a: Answers)
    requires WellShapedAnswers(a)
    ensures var second := a.config7 & 0x20 == 0x00;
      Complete(said, BringUp(a)) <==>
        && said == BringUpBytes(a)
        && Usable(a.config5) && Usable(a.config7) && (second ==> Usable(a.cleanup7)) && Usable(a.config9)
        && a.id1 in IDENTIFICATIONS && (second ==> a.id2 in IDENTIFICATIONS)
  {
    BringUpOnTheWire(a);
    assert SecondPortSupported(a) <==> a.config7 & 0x20 == 0x00;
    AcceptedTo6(a);
    AcceptedIn7(a);
    AcceptedIn8to9(a);
    AcceptedIn10(a);
    AllAcceptedConcat(Steps3to4(a.flushed), Steps5to10(a));
    AllAcceptedConcat(Steps5to9(a), Step10(SecondPortSupported(a), a.id1, a.id2));
    AllAcceptedConcat(Steps5to7(a), Steps8to9(a.config9));
    AllAcceptedConcat(Steps5to6(a.config5), Step7(a.config7, a.cleanup7));
  }

  // ---------------------------------------------------------------- the report

  // A place whose refusal has a state of its own.
  predicate OwnState(p: Place) { p.Take? && (p.kind == SelfTest || p.kind.PortTest?) }

  predicate Places3to6(s: seq<Place>) {
    |s| == 9 && s[8] == Take(ReadData(0x55), SelfTest) && forall i | 0 <= i < 8 :: !OwnState(s[i])
  }

  predicate Places7(s: seq<Place>, k: nat) { |s| == 4 + k && forall i | 0 <= i < |s| :: !OwnState(s[i]) }

  predicate Places8to9(s: seq<Place>) {
    && |s| == 10 && s[1] == Take(ReadData(0x00), PortTest(1)) && s[3] == Take(ReadData(0x00), PortTest(2))
    && forall i | 0 <= i < 10 && i != 1 && i != 3 :: !OwnState(s[i])
  }

  // The i-th place up to step 9; k further ones in step 7.
  predicate PlaceOk(p: Place, k: nat, i: nat) {
    if i == 8 then p == Take(ReadData(0x55), SelfTest)
    else if i == 14 + k then p == Take(ReadData(0x00), PortTest(1))
    else if i == 16 + k then p == Take(ReadData(0x00), PortTest(2))
    else !OwnState(p)
  }

  lemma PlaceIn(s: seq<Place>, t: seq<Place>, u: seq<Place>, v: seq<Place>, k: nat, i: nat)
    requires Places3to6(s) && Places7(t, k) && Places8to9(u) && i < 23 + k
    ensures PlaceOk((s + t + u + v)[i], k, i)
  {
    assert (s + t + u + v)[i] == if i < 9 then s[i] else if i < 13 + k then t[i - 9] else u[i - 13 - k];
  }

  lemma PlacesOf3to6(a: Answers)
    ensures Places3to6(Steps3to4(a.flushed) + Steps5to6(a.config5))
  {}

  lemma PlacesOf7(a: Answers)
    ensures Places7(Step7(a.config7, a.cleanup7), if SecondPortSupported(a) then 4 else 0)
  {}

  lemma PlacesOf8to9(a: Answers)
    ensures Places8to9(Steps8to9(a.config9))
  {}

  lemma Regrouped(s: seq<Place>, t: seq<Place>, u: seq<Place>, v: seq<Place>, w: seq<Place>)
    ensures s + (((t + u) + v) + w) == (s + t) + u + v + w
  {}

  lemma PlaceAt(a: Answers, i: nat)
    requires i < if SecondPortSupported(a) then 27 else 23
    ensures i < |BringUp(a)| && PlaceOk(BringUp(a)[i], if SecondPortSupported(a) then 4 else 0, i)
  {
    PlacesOf3to6(a);
    PlacesOf7(a);
    PlacesOf8to9(a);
    var w := Step10(SecondPortSupported(a), a.id1, a.id2);
    Regrouped(Steps3to4(a.flushed), Steps5to6(a.config5), Step7(a.config7, a.cleanup7), Steps8to9(a.config9), w);
    PlaceIn(Steps3to4(a.flushed) + Steps5to6(a.config5), Step7(a.config7, a.cleanup7), Steps8to9(a.config9), w,
            if SecondPortSupported(a) then 4 else 0, i);
  }

  lemma LengthTo9(a: Answers)
    ensures |Steps5to9(a)| == if SecondPortSupported(a) then 24 else 20
  {
    PlacesOf7(a);
    PlacesOf8to9(a);
    assert |Steps5to6(a.config5)| == 6;
  }

  lemma InitState(x: Access, p: Place)
    ensures InitReport(Blamed(x, p)).state ==
      if p == Take(ReadData(0x55), SelfTest) && x == ReadData(0xFC) then ControllerSelfTestFailed
      else if p == Take(ReadData(0x00), PortTest(1)) && x.ReadData? && x.value <= 4 then FirstPortSelfTestFailed
      else if p == Take(ReadData(0x00), PortTest(2)) && x.ReadData? && x.value <= 4 then SecondPortSelfTestFailed
      else InitReport(Blamed(x, p)).state
    ensures !OwnState(p) || !x.ReadData? ==> InitReport(Blamed(x, p)).state == CouldNotInit
    ensures p.Take? && p.kind == SelfTest && x != ReadData(0xFC) ==> InitReport(Blamed(x, p)).state == CouldNotInit
    ensures p.Take? && p.kind.PortTest? && x.ReadData? && x.value > 4 ==> InitReport(Blamed(x, p)).state == CouldNotInit
  {}

  // The state an unfinished run reports, by the number of entries said and the last one: the self
  // test is the ninth entry, the port tests the 15th and 17th (four further on with a second port).
  lemma StateOfFailure(said: seq<Access>, a: Answers, r: Report)
    requires WellShapedAnswers(a) && Broken(said, BringUp(a))
    requires r == ReportAt(|said| - 3, Blame(said, BringUp(a)), a)
    ensures var n, x, k := |said|, said[|said| - 1], if a.config7 & 0x20 == 0x20 then 0 else 4;
      r.state ==
        if n <= 23 + k then
          if n == 9 && x == ReadData(0xFC) then ControllerSelfTestFailed
          else if n == 15 + k && x.ReadData? && x.value <= 4 then FirstPortSelfTestFailed
          else if n == 17 + k && x.ReadData? && x.value <= 4 then SecondPortSelfTestFailed
          else CouldNotInit
        else if n <= 26 + k + |HeardBytes(a.id1)| then CouldNotResetDevice1
        else CouldNotResetDevice2
  {
    var n := |said|;
    assert SecondClockDisabled(a.config7) <==> a.config7 & 0x20 == 0x20;
    LengthTo9(a);
    PlaceAt(a, if n <= 23 || (SecondPortSupported(a) && n <= 27) then n - 1 else 0);
    InitState(said[n - 1], BringUp(a)[n - 1]);
    WireReset(1, a.id1);
    assert |Identification(1, a.id1)| == |Entries(Identification(1, a.id1))|;
  }

  // ---------------------------------------------------------------- the keyboard

  // One attempt: the byte, behind the prefix when the keyboard is on the second port, and its reply.
  lemma AttemptOnTheWire(data: bv8, reply: bv8)
    ensures K.Attempts(1, data, [reply]) == [WriteData(data), ReadData(reply)]
    ensures K.Attempts(2, data, [reply]) == [WriteCommand(0xD4), WriteData(data), ReadData(reply)]
  {
    assert [reply][..0] == [];
  }

  // All bytes from 0xED on, but 0xEF and 0xF1.
  lemma ValidCommands(c: bv8)
    ensures K.ValidCommand(c) <==> c >= 0xED && c != 0xEF && c != 0xF1
  {}

  // One reply that is no request to send again decides an exchange.
  lemma OneReplyDecides(base: seq<Access>, now: seq<Access>, data: bv8, reply: bv8, e: K.KeyboardError)
    requires K.SentByte(base, now, 1, data, [reply], e) && !K.ControllerFailed(e)
    ensures now == base + [WriteData(data), ReadData(reply)] && reply != 0xFE
    ensures e == if reply == 0xFA then K.NoError else K.NonAckResponse
  {
    AttemptOnTheWire(data, reply);
    assert [reply][..0] == [];
    assert K.AllResend([reply]) <==> [reply][0] == 0xFE;
  }

  lemma SetScanCodeSetOnTheWire(base: seq<Access>, now: seq<Access>, set_: bv8, a: bv8, b: bv8)
    requires K.SentTwoBytes(base, now, 1, K.GET_SET_SCAN_CODE_SET, set_, [a], [b], K.NoError)
    ensures now == base + [WriteData(0xF0), ReadData(0xFA), WriteData(set_), ReadData(0xFA)]
  {
    var acked := base + K.Attempts(1, K.GET_SET_SCAN_CODE_SET, [a]);
    OneReplyDecides(base, acked, K.GET_SET_SCAN_CODE_SET, a, K.NoError);
    OneReplyDecides(acked, now, set_, b, K.NoError);
  }

  lemma GetScanCodeSetOnTheWire(base: seq<Access>, now: seq<Access>, a: bv8, b: bv8, value: bv8)
    requires K.Asked(base, now, 1, [a], [b], value, K.NoError)
    ensures now == base + [WriteData(0xF0), ReadData(0xFA), WriteData(0x00), ReadData(0xFA), ReadData(value)]
    ensures value in {1, 2, 3}
  {
    var asked := base + K.Attempts(1, K.GET_SET_SCAN_CODE_SET, [a]);
    var acked := asked + K.Attempts(1, 0, [b]);
    OneReplyDecides(base, asked, K.GET_SET_SCAN_CODE_SET, a, K.NoError);
    OneReplyDecides(asked, acked, 0, b, K.NoError);
  }

  lemma EchoOnTheWire(base: seq<Access>, now: seq<Access>, reply: bv8, e: K.KeyboardError)
    requires K.SentByte(base, now, 1, K.ECHO, [reply], e) && !K.ControllerFailed(e)
    ensures now == base + [WriteData(0xEE), ReadData(reply)]
  {
    OneReplyDecides(base, now, K.ECHO, reply, e);
  }

  // ---------------------------------------------------------------- the rule for every access

  // A write stands right behind a status read with bits 1, 6 and 7 clear, the reading of a response
  // right behind one with bit 0 set, and an error is reported right behind the status that shows it.
  lemma GuardedMeans(t: seq<Access>, i: nat)
    requires i < |t| && Guarded(t, i)
    ensures t[i].WriteCommand? || t[i].WriteData? ==> i > 0 && t[i - 1].ReadStatus? && t[i - 1].value & 0xC2 == 0
    ensures t[i].ReadData? ==> i > 0 && t[i - 1].ReadStatus? && t[i - 1].value & 0x01 == 0x01
    ensures t[i].BadStatus? ==>
      i > 0 && t[i - 1] == ReadStatus(t[i].value) && t[i].value & 0x02 == 0 && t[i].value & 0xC0 != 0
  {
    if i > 0 && t[i - 1].ReadStatus? {
      StatusBits(t[i - 1].value);
    }
  }

  // A wait is given up only behind a thousand polls in a row that saw no response, or a full
  // input buffer.
  lemma {:induction false} GivingUp(t: seq<Access>, i: nat) returns (k: nat)
    requires i < |t| && Guarded(t, i) && (t[i] == GaveUpReading || t[i] == GaveUpWriting)
    ensures k <= i && Polls(t[..i]) >= Polls(t[..k]) + 1000
    ensures forall j | k <= j < i :: t[j] == IoWait || t[j].ReadStatus?
    ensures forall j | k <= j < i && t[j].ReadStatus? ::
      if t[i] == GaveUpReading then t[j].value & 0x01 == 0 else t[j].value & 0x02 == 0x02
  {
    k := PollsInVain(t[..i], t[i] == GaveUpReading);
    assert t[..i][..k] == t[..k];
    forall j | k <= j < i ensures t[j] == t[..i][j] {}
  }

  lemma {:induction false} PollsInVain(t: seq<Access>, quiet: bool) returns (k: nat)
    ensures k <= |t| && Polls(t) == Polls(t[..k]) + if quiet then QuietPolls(t) else BusyPolls(t)
    ensures forall j | k <= j < |t| :: t[j] == IoWait || t[j].ReadStatus?
    ensures forall j | k <= j < |t| && t[j].ReadStatus? ::
      if quiet then t[j].value & 0x01 == 0 else t[j].value & 0x02 == 0x02
    decreases |t|
  {
    k := |t|;
    assert t[..k] == t;
    if t != [] {
      var init, a := t[..|t| - 1], t[|t| - 1];
      if a.ReadStatus? {
        StatusBits(a.value);
      }
      if a.IoWait? || (a.ReadStatus? && if quiet then !OutputBufferFull(a.value) else InputBufferFull(a.value)) {
        k := PollsInVain(init, quiet);
        assert init[..k] == t[..k];
        if a.ReadStatus? {
          BitOf(a);
        }
      }
    }
  }

  lemma BitOf(a: Access)
    requires a.ReadStatus?
    ensures OutputBufferFull(a.value) <==> a.value & 0x01 != 0
    ensures InputBufferFull(a.value) <==> a.value & 0x02 == 0x02
  {}
}
