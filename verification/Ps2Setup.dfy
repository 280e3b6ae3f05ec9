// The ten-step bring-up of the PS/2 controller, against any device.

module Ps2Setup {
  import opened Common
  import opened Ps2Ports
  import opened Ps2Script
  import opened Ps2Controller

  datatype State =
    | NoError
    | NoSecondPort
    | CouldNotInit
    | UsbError
    | ControllerDoesNotExist
    | ControllerSelfTestFailed
    | FirstPortSelfTestFailed
    | SecondPortSelfTestFailed
    | CouldNotResetDevice1
    | CouldNotResetDevice2
    | TwoKeyboards
    | TwoMice

  datatype Cause = NoCause | Because(error: ControllerError)

  // None is a field the function leaves unwritten.
  datatype Report = Report(
    state: State, internal: Option<Cause>, portOne: Option<DeviceType>, portTwo: Option<DeviceType>)

  function Failure(state: State, e: ControllerError): Report {
    Report(state, Some(Because(e)), None, None)
  }

  datatype Step<+T> = Done(value: T) | Failed(report: Report)

  // ---------------------------------------------------------------- the script

  // Interrupt and translation of the first port off, its clock on.
  function FirstConfiguration(c: bv8): bv8 { c & !0x01 & !0x40 & !0x10 }
  // Interrupt of the second port off, its clock on.
  function SecondConfiguration(c: bv8): bv8 { c & !0x20 & !0x02 }
  // Both interrupts on.
  function FinalConfiguration(c: bv8): bv8 { c | 0x01 | 0x02 }

  // The bytes the controller and its devices contributed to a run.
  datatype Answers = Answers(
    flushed: bv8, config5: bv8, config7: bv8, cleanup7: bv8, config9: bv8, id1: Identity, id2: Identity)

  predicate SecondPortSupported(a: Answers) { !SecondClockDisabled(a.config7) }

  predicate WellShapedAnswers(a: Answers) { WellShaped(a.id1) && WellShaped(a.id2) }

  function Commands(one: bv8, two: bv8): seq<Place> { [Put(WriteCommand(one))] + [Put(WriteCommand(two))] }
  function WriteConfiguration(config: bv8): seq<Place> {
    [Put(WriteCommand(WRITE_CONFIGURATION))] + [Put(WriteData(config))]
  }
  function ReadThenWrite(read: bv8, written: bv8): seq<Place> {
    Question(READ_CONFIGURATION, read, Configuration) + WriteConfiguration(written)
  }
  function ControllerTest(): seq<Place> { Question(TEST_CONTROLLER, 0x55, SelfTest) }
  function OnePortTest(command: bv8, port: nat): seq<Place> { Question(command, 0x00, PortTest(port)) }

  function Steps3to4(flushed: bv8): seq<Place> {
    Commands(DISABLE_FIRST_PORT, DISABLE_SECOND_PORT) + [Take(ReadData(flushed), Anything)]
  }
  function Steps5to6(config5: bv8): seq<Place> {
    ReadThenWrite(config5, FirstConfiguration(config5)) + ControllerTest()
  }
  function Probe(config7: bv8): seq<Place> {
    [Put(WriteCommand(ENABLE_SECOND_PORT))] + Question(READ_CONFIGURATION, config7, Configuration)
    + [Put(WriteCommand(DISABLE_SECOND_PORT))]
  }
  function Cleanup(config7: bv8, cleanup7: bv8): seq<Place> {
    if SecondClockDisabled(config7) then [] else ReadThenWrite(cleanup7, SecondConfiguration(cleanup7))
  }
  function Step7(config7: bv8, cleanup7: bv8): seq<Place> { Probe(config7) + Cleanup(config7, cleanup7) }
  function Step8(): seq<Place> { OnePortTest(TEST_FIRST_PORT, 1) + OnePortTest(TEST_SECOND_PORT, 2) }
  function Step9(config9: bv8): seq<Place> {
    Commands(ENABLE_FIRST_PORT, ENABLE_SECOND_PORT) + ReadThenWrite(config9, FinalConfiguration(config9))
  }
  function SecondIdentification(second: bool, id2: Identity): seq<Place> {
    if second then Identification(2, id2) else []
  }
  function Step10(second: bool, id1: Identity, id2: Identity): seq<Place> {
    Identification(1, id1) + SecondIdentification(second, id2)
  }

  function Steps5to7(a: Answers): seq<Place> { Steps5to6(a.config5) + Step7(a.config7, a.cleanup7) }
  function Steps8to9(config9: bv8): seq<Place> { Step8() + Step9(config9) }
  function Steps5to9(a: Answers): seq<Place> { Steps5to7(a) + Steps8to9(a.config9) }
  function Steps5to10(a: Answers): seq<Place> { Steps5to9(a) + Step10(SecondPortSupported(a), a.id1, a.id2) }

  // The whole conversation.
  function BringUp(a: Answers): seq<Place> { Steps3to4(a.flushed) + Steps5to10(a) }

  // What the devices found mean for the report.
  function Verdict(second: bool, one: Class, two: Class): State {
    if !second then NoSecondPort
    else match (one, two)
      case (Keyboard, Keyboard) => TwoKeyboards
      case (Mouse, Mouse) => TwoMice
      case _ => NoError
  }

  predicate Finished(s: State) { s.NoError? || s.NoSecondPort? || s.TwoKeyboards? || s.TwoMice? }

  // The report of a finished run is what the identified devices dictate.
  predicate ReportOk(r: Report, second: bool, id1: Identity, id2: Identity) {
    && id1 in IDENTIFICATIONS && r.portOne == Some(IDENTIFICATIONS[id1])
    && r.internal == Some(NoCause)
    && (second ==> id2 in IDENTIFICATIONS && r.portTwo == Some(IDENTIFICATIONS[id2]))
    && (!second ==> r.portTwo == None)
    && r.state == Verdict(second, ClassOf(r.portOne.value),
                          if second then ClassOf(r.portTwo.value) else Keyboard)
  }

  // The state by the bytes heard: one byte is a mouse, two bytes or silence a keyboard.
  function StateHeard(second: bool, id1: Identity, id2: Identity): State {
    if !second then NoSecondPort
    else if id1.OneByte? && id2.OneByte? then TwoMice
    else if !id1.OneByte? && !id2.OneByte? then TwoKeyboards
    else NoError
  }

  lemma StateByBytes(r: Report, second: bool, id1: Identity, id2: Identity)
    requires Finished(r.state) && ReportOk(r, second, id1, id2)
    ensures r.state == StateHeard(second, id1, id2)
  {
    MouseIff(id1);
    if second {
      MouseIff(id2);
    }
  }

  // What a break before step 10 is reported as.
  function InitReport(b: Blamed): Report {
    if b.place.Take? && b.place.kind == SelfTest && b.entry == ReadData(0xFC) then
      Report(ControllerSelfTestFailed, None, None, None)
    else if b.place.Take? && b.place.kind.PortTest? && b.entry.ReadData? && b.entry.value <= 0x04 then
      Report(if b.place.kind.port == 1 then FirstPortSelfTestFailed else SecondPortSelfTestFailed, None, None, None)
    else Failure(CouldNotInit, ErrorOf(b.entry, b.place))
  }

  // What a break at the n-th entry from step 5 on is reported as.
  function ReportAt(n: int, b: Blamed, a: Answers): Report {
    if n <= |Steps5to9(a)| then InitReport(b)
    else ResetReport(n - |Steps5to9(a)|, b, a.id1)
  }

  // The same for the n-th entry of step 10.
  function ResetReport(n: int, b: Blamed, id1: Identity): Report {
    if n <= |Identification(1, id1)| then Failure(CouldNotResetDevice1, ErrorOf(b.entry, b.place))
    else Report(CouldNotResetDevice2, Some(Because(ErrorOf(b.entry, b.place))),
                if id1 in IDENTIFICATIONS then Some(IDENTIFICATIONS[id1]) else None, None)
  }

  // ---------------------------------------------------------------- the steps

  // A step that breaks off, and reports it.
  ghost predicate Breaks(before: seq<Access>, after: seq<Access>, polls: nat, script: seq<Place>, report: Report) {
    Follows(before, after, polls, script, false) && report == InitReport(Blame(Said(before, after), script))
  }

  ghost predicate StepOk<T>(before: seq<Access>, after: seq<Access>, polls: nat, script: seq<Place>, r: Step<T>) {
    if r.Done? then Follows(before, after, polls, script, true) else Breaks(before, after, polls, script, r.report)
  }

  // Places without a failed state of their own.
  predicate NoOwnState(script: seq<Place>) {
    forall i | 0 <= i < |script| :: script[i].Take? ==> script[i].kind != SelfTest && !script[i].kind.PortTest?
  }

  lemma HelperBreaks<T>(before: seq<Access>, after: seq<Access>, polls: nat, script: seq<Place>, r: Result<T>)
    requires Outcome(before, after, polls, script, r) && r.Err? && NoOwnState(script)
    ensures Breaks(before, after, polls, script, Failure(CouldNotInit, r.error))
  {
    var b := Blame(Said(before, after), script);
    assert b.place in script;
  }

  lemma BreaksLater(a: seq<Access>, b: seq<Access>, c: seq<Access>, m: nat, n: nat,
                    script: seq<Place>, more: seq<Place>, report: Report)
    requires Follows(a, b, m, script, true) && Breaks(b, c, n, more, report)
    ensures Breaks(a, c, m + n, script + more, report)
  {
    Then(a, b, c, m, n, script, more, false);
  }

  lemma BreaksEarlier(a: seq<Access>, b: seq<Access>, m: nat, n: nat, script: seq<Place>, more: seq<Place>, report: Report)
    requires Breaks(a, b, m, script, report)
    ensures Breaks(a, b, m + n, script + more, report)
  {
    StopsBefore(a, b, m, n, script, more);
  }

  // A helper's error ends the bring-up.
  function HelperStep<T>(r: Result<T>): Step<T> {
    if r.Err? then Failed(Failure(CouldNotInit, r.error)) else Done(r.value)
  }

  lemma FirstFails<T>(a: seq<Access>, b: seq<Access>, m: nat, n: nat, first: seq<Place>, second: seq<Place>, r: Result<T>)
    requires Outcome(a, b, m, first, r) && r.Err? && NoOwnState(first)
    ensures Breaks(a, b, m + n, first + second, Failure(CouldNotInit, r.error))
  {
    HelperBreaks(a, b, m, first, r);
    BreaksEarlier(a, b, m, n, first, second, Failure(CouldNotInit, r.error));
  }

  lemma SecondDecides<T>(a: seq<Access>, b: seq<Access>, c: seq<Access>, m: nat, n: nat,
                         first: seq<Place>, second: seq<Place>, r: Result<T>)
    requires Follows(a, b, m, first, true) && Outcome(b, c, n, second, r) && NoOwnState(second)
    ensures StepOk(a, c, m + n, first + second, HelperStep(r))
  {
    if r.Err? {
      HelperBreaks(b, c, n, second, r);
    }
    StepThen(a, b, c, m, n, first, second, HelperStep(r));
  }

  // One step after another.
  lemma StepThen<T>(a: seq<Access>, b: seq<Access>, c: seq<Access>, m: nat, n: nat,
                    first: seq<Place>, second: seq<Place>, r: Step<T>)
    requires Follows(a, b, m, first, true) && StepOk(b, c, n, second, r)
    ensures StepOk(a, c, m + n, first + second, r)
  {
    if r.Done? {
      Then(a, b, c, m, n, first, second, true);
    } else {
      BreaksLater(a, b, c, m, n, first, second, r.report);
    }
  }

  method TwoCommands(p: Ports, one: bv8, two: bv8) returns (r: Step<()>)
    modifies p
    ensures StepOk(old(p.trace), p.trace, 2 * WAIT, Commands(one, two), r)
  {
    ghost var first, second := [Put(WriteCommand(one))], [Put(WriteCommand(two))];
    var w := SendCommand(p, one);
    ghost var t := p.trace;
    if w.Err? {
      FirstFails(old(p.trace), t, WAIT, WAIT, first, second, w);
      return HelperStep(w);
    }
    w := SendCommand(p, two);
    SecondDecides(old(p.trace), t, p.trace, WAIT, WAIT, first, second, w);
    return HelperStep(w);
  }

  // Read the configuration byte, change some bits, write it back.
  method UpdateConfiguration(p: Ports, change: bv8 -> bv8) returns (r: Step<()>, ghost v: bv8)
    modifies p
    ensures StepOk(old(p.trace), p.trace, 4 * WAIT, ReadThenWrite(v, change(v)), r)
  {
    var c;
    c, v := GetConfigurationByte(p);
    ghost var t := p.trace;
    ghost var read, write := Question(READ_CONFIGURATION, v, Configuration), WriteConfiguration(change(v));
    if c.Err? {
      FirstFails(old(p.trace), t, 2 * WAIT, 2 * WAIT, read, write, c);
      return Failed(Failure(CouldNotInit, c.error)), v;
    }
    var w := SetConfigurationByte(p, change(c.value));
    SecondDecides(old(p.trace), t, p.trace, 2 * WAIT, 2 * WAIT, read, write, w);
    return HelperStep(w), v;
  }

  // Step 6.
  method TestItself(p: Ports) returns (r: Step<()>)
    modifies p
    ensures StepOk(old(p.trace), p.trace, 2 * WAIT, ControllerTest(), r)
  {
    var t;
    ghost var v;
    t, v := TestController(p);
    ControllerJudged(old(p.trace), p.trace, v, t);
    return ControllerStep(t);
  }

  function ControllerStep(t: Result<bv8>): Step<()> {
    if t.Err? then Failed(Failure(CouldNotInit, t.error))
    else if t.value != 0x55 then Failed(Report(ControllerSelfTestFailed, None, None, None))
    else Done(())
  }

  lemma ControllerJudged(before: seq<Access>, after: seq<Access>, v: bv8, t: Result<bv8>)
    requires Outcome(before, after, 2 * WAIT, Question(TEST_CONTROLLER, v, ControllerResult), t) && (t.Ok? ==> t.value == v)
    ensures StepOk(before, after, 2 * WAIT, ControllerTest(), ControllerStep(t))
  {
    Answered(before, after, TEST_CONTROLLER, v, ControllerResult, SelfTest, 0x55, t);
    if t.Ok? {
      LastIsAccepted(Said(before, after), [Put(WriteCommand(TEST_CONTROLLER))], Take(ReadData(v), ControllerResult));
    }
  }

  // Steps 5 and 6.
  method ConfigureAndSelfTest(p: Ports) returns (r: Step<()>, ghost config5: bv8)
    modifies p
    ensures StepOk(old(p.trace), p.trace, 6 * WAIT, Steps5to6(config5), r)
  {
    r, config5 := UpdateConfiguration(p, FirstConfiguration);
    ghost var t := p.trace;
    ghost var update := ReadThenWrite(config5, FirstConfiguration(config5));
    if r.Failed? {
      StopsBefore(old(p.trace), t, 4 * WAIT, 2 * WAIT, update, ControllerTest());
      return;
    }
    r := TestItself(p);
    Then(old(p.trace), t, p.trace, 4 * WAIT, 2 * WAIT, update, ControllerTest(), r.Done?);
  }

  // Enables the second port and looks at the configuration.
  method EnableAndLook(p: Ports) returns (r: Step<bv8>, ghost v: bv8)
    modifies p
    ensures StepOk(old(p.trace), p.trace, 3 * WAIT,
                   [Put(WriteCommand(ENABLE_SECOND_PORT))] + Question(READ_CONFIGURATION, v, Configuration), r)
    ensures r.Done? ==> r.value == v
  {
    v := 0;
    ghost var enable := [Put(WriteCommand(ENABLE_SECOND_PORT))];
    var w := SendCommand(p, ENABLE_SECOND_PORT);
    ghost var t := p.trace;
    if w.Err? {
      FirstFails(old(p.trace), t, WAIT, 2 * WAIT, enable, Question(READ_CONFIGURATION, v, Configuration), w);
      return Failed(Failure(CouldNotInit, w.error)), v;
    }
    var c;
    c, v := GetConfigurationByte(p);
    SecondDecides(old(p.trace), t, p.trace, WAIT, 2 * WAIT, enable, Question(READ_CONFIGURATION, v, Configuration), c);
    return HelperStep(c), v;
  }

  method ProbeSecondPort(p: Ports) returns (r: Step<bv8>, ghost v: bv8)
    modifies p
    ensures StepOk(old(p.trace), p.trace, 4 * WAIT, Probe(v), r)
    ensures r.Done? ==> r.value == v
  {
    r, v := EnableAndLook(p);
    ghost var t := p.trace;
    ghost var look := [Put(WriteCommand(ENABLE_SECOND_PORT))] + Question(READ_CONFIGURATION, v, Configuration);
    ghost var disable := [Put(WriteCommand(DISABLE_SECOND_PORT))];
    if r.Failed? {
      BreaksEarlier(old(p.trace), t, 3 * WAIT, WAIT, look, disable, r.report);
      return;
    }
    var w := SendCommand(p, DISABLE_SECOND_PORT);
    if w.Err? {
      HelperBreaks(t, p.trace, WAIT, disable, w);
      BreaksLater(old(p.trace), t, p.trace, 3 * WAIT, WAIT, look, disable, Failure(CouldNotInit, w.error));
      return Failed(Failure(CouldNotInit, w.error)), v;
    }
    Then(old(p.trace), t, p.trace, 3 * WAIT, WAIT, look, disable, true);
  }

  // Step 7. The second port exists when enabling it starts its clock.
  method FindSecondPort(p: Ports) returns (r: Step<bool>, ghost config7: bv8, ghost cleanup7: bv8)
    modifies p
    ensures StepOk(old(p.trace), p.trace, 8 * WAIT, Step7(config7, cleanup7), r)
    ensures r.Done? ==> r.value == !SecondClockDisabled(config7)
  {
    cleanup7 := 0;
    var c;
    c, config7 := ProbeSecondPort(p);
    ghost var t := p.trace;
    if c.Failed? {
      StopsBefore(old(p.trace), t, 4 * WAIT, 4 * WAIT, Probe(config7), Cleanup(config7, cleanup7));
      return Failed(c.report), config7, cleanup7;
    }
    if SecondClockDisabled(c.value) {
      assert Step7(config7, 0) == Probe(config7);
      return Done(false), config7, cleanup7;
    }
    var cleanup;
    cleanup, cleanup7 := UpdateConfiguration(p, SecondConfiguration);
    Then(old(p.trace), t, p.trace, 4 * WAIT, 4 * WAIT, Probe(config7), Cleanup(config7, cleanup7), cleanup.Done?);
    return if cleanup.Failed? then Failed(cleanup.report) else Done(true), config7, cleanup7;
  }

  method TestOnePort(p: Ports, command: bv8, port: nat) returns (r: Step<()>)
    requires IsPort(port)
    modifies p
    ensures StepOk(old(p.trace), p.trace, 2 * WAIT, OnePortTest(command, port), r)
  {
    var t;
    ghost var v;
    t, v := TestPort(p, command);
    PortJudged(old(p.trace), p.trace, command, port, v, t);
    return PortStep(t, port);
  }

  function PortStep(t: Result<bv8>, port: nat): Step<()> {
    if t.Err? then Failed(Failure(CouldNotInit, t.error))
    else if t.value != 0x00 then
      Failed(Report(if port == 1 then FirstPortSelfTestFailed else SecondPortSelfTestFailed, None, None, None))
    else Done(())
  }

  lemma PortJudged(before: seq<Access>, after: seq<Access>, command: bv8, port: nat, v: bv8, t: Result<bv8>)
    requires Outcome(before, after, 2 * WAIT, Question(command, v, PortResult), t) && (t.Ok? ==> t.value == v)
    ensures StepOk(before, after, 2 * WAIT, OnePortTest(command, port), PortStep(t, port))
  {
    if t.Err? {
      PortUnanswered(before, after, command, port, v, t);
    } else {
      LastIsAccepted(Said(before, after), [Put(WriteCommand(command))], Take(ReadData(v), PortResult));
      Answered(before, after, command, v, PortResult, PortTest(port), 0x00, t);
    }
  }

  lemma PortUnanswered(before: seq<Access>, after: seq<Access>, command: bv8, port: nat, v: bv8, t: Result<bv8>)
    requires Outcome(before, after, 2 * WAIT, Question(command, v, PortResult), t) && t.Err?
    ensures Breaks(before, after, 2 * WAIT, OnePortTest(command, port), Failure(CouldNotInit, t.error))
  {
    Answered(before, after, command, v, PortResult, PortTest(port), 0x00, t);
  }

  lemma LastIsAccepted(said: seq<Access>, script: seq<Place>, last: Place)
    requires Complete(said, script + [last])
    ensures Accepted(last)
  {
    assert (script + [last])[|script|] == last;
  }

  // Step 8. Both ports are tested, whether or not the second one was found.
  method TestInterfaces(p: Ports) returns (r: Step<()>)
    modifies p
    ensures StepOk(old(p.trace), p.trace, 4 * WAIT, Step8(), r)
  {
    r := TestOnePort(p, TEST_FIRST_PORT, 1);
    ghost var t := p.trace;
    if r.Failed? {
      StopsBefore(old(p.trace), t, 2 * WAIT, 2 * WAIT, OnePortTest(TEST_FIRST_PORT, 1), OnePortTest(TEST_SECOND_PORT, 2));
      return;
    }
    r := TestOnePort(p, TEST_SECOND_PORT, 2);
    Then(old(p.trace), t, p.trace, 2 * WAIT, 2 * WAIT, OnePortTest(TEST_FIRST_PORT, 1), OnePortTest(TEST_SECOND_PORT, 2), r.Done?);
  }

  // Step 9.
  method EnableDevices(p: Ports) returns (r: Step<()>, ghost config9: bv8)
    modifies p
    ensures StepOk(old(p.trace), p.trace, 6 * WAIT, Step9(config9), r)
  {
    config9 := 0;
    r := TwoCommands(p, ENABLE_FIRST_PORT, ENABLE_SECOND_PORT);
    ghost var t := p.trace;
    ghost var enable := Commands(ENABLE_FIRST_PORT, ENABLE_SECOND_PORT);
    if r.Failed? {
      StopsBefore(old(p.trace), t, 2 * WAIT, 4 * WAIT, enable, ReadThenWrite(config9, FinalConfiguration(config9)));
      return;
    }
    r, config9 := UpdateConfiguration(p, FinalConfiguration);
    Then(old(p.trace), t, p.trace, 2 * WAIT, 4 * WAIT, enable, ReadThenWrite(config9, FinalConfiguration(config9)), r.Done?);
  }

  // Step 10.
  method ResetDevices(p: Ports, second: bool) returns (r: Report, ghost id1: Identity, ghost id2: Identity)
    modifies p
    ensures WellShaped(id1) && WellShaped(id2)
    ensures Follows(old(p.trace), p.trace, 12 * WAIT, Step10(second, id1, id2), Finished(r.state))
    ensures if Finished(r.state) then ReportOk(r, second, id1, id2)
            else r == ResetReport(|Said(old(p.trace), p.trace)|,
                                  Blame(Said(old(p.trace), p.trace), Step10(second, id1, id2)), id1)
    ensures Finished(r.state) ==> r.state == StateHeard(second, id1, id2)
  {
    id2 := Silent;
    var one;
    one, id1 := ResetPortAndGetDeviceType(p, 1);
    ghost var t := p.trace;
    if one.Err? {
      FirstNotReset(old(p.trace), t, second, id1, id2, one);
      return Failure(CouldNotResetDevice1, one.error), id1, id2;
    }
    if !second {
      assert Step10(false, id1, id2) == Identification(1, id1);
      return Report(NoSecondPort, Some(NoCause), Some(one.value), None), id1, id2;
    }
    r, id2 := ResetSecond(p, one.value, old(p.trace), id1);
    if Finished(r.state) {
      StateByBytes(r, true, id1, id2);
    }
  }

  // The second device, after the first was identified; then both classes are counted.
  method ResetSecond(p: Ports, one: DeviceType, ghost before: seq<Access>, ghost id1: Identity)
    returns (r: Report, ghost id2: Identity)
    requires Follows(before, p.trace, 6 * WAIT, Identification(1, id1), true)
    requires id1 in IDENTIFICATIONS && one == IDENTIFICATIONS[id1]
    modifies p
    ensures WellShaped(id2)
    ensures Follows(before, p.trace, 12 * WAIT, Step10(true, id1, id2), Finished(r.state))
    ensures if Finished(r.state) then ReportOk(r, true, id1, id2)
            else r == ResetReport(|Said(before, p.trace)|, Blame(Said(before, p.trace), Step10(true, id1, id2)), id1)
  {
    ghost var t := p.trace;
    var keyboardCount, mouseCount := 0, 0;
    match ClassOf(one) {
      case Keyboard => keyboardCount := keyboardCount + 1;
      case Mouse => mouseCount := mouseCount + 1;
    }
    var two;
    two, id2 := ResetPortAndGetDeviceType(p, 2);
    if two.Err? {
      SecondNotReset(before, t, p.trace, id1, id2, two);
      return Report(CouldNotResetDevice2, Some(Because(two.error)), Some(one), None), id2;
    }
    Then(before, t, p.trace, 6 * WAIT, 6 * WAIT, Identification(1, id1), Identification(2, id2), true);
    match ClassOf(two.value) {
      case Keyboard => keyboardCount := keyboardCount + 1;
      case Mouse => mouseCount := mouseCount + 1;
    }
    var state := if keyboardCount == 2 then TwoKeyboards else if mouseCount == 2 then TwoMice else NoError;
    return Report(state, Some(NoCause), Some(one), Some(two.value)), id2;
  }

  lemma FirstNotReset(before: seq<Access>, after: seq<Access>, second: bool, id1: Identity, id2: Identity, r: Result<DeviceType>)
    requires Outcome(before, after, 6 * WAIT, Identification(1, id1), r) && r.Err?
    ensures Follows(before, after, 12 * WAIT, Step10(second, id1, id2), false)
    ensures ResetReport(|Said(before, after)|, Blame(Said(before, after), Step10(second, id1, id2)), id1)
            == Failure(CouldNotResetDevice1, r.error)
  {
    StopsBefore(before, after, 6 * WAIT, 6 * WAIT, Identification(1, id1), SecondIdentification(second, id2));
  }

  lemma SecondNotReset(before: seq<Access>, between: seq<Access>, after: seq<Access>, id1: Identity, id2: Identity,
                       r: Result<DeviceType>)
    requires Follows(before, between, 6 * WAIT, Identification(1, id1), true) && id1 in IDENTIFICATIONS
    requires Outcome(between, after, 6 * WAIT, Identification(2, id2), r) && r.Err?
    ensures Follows(before, after, 12 * WAIT, Step10(true, id1, id2), false)
    ensures ResetReport(|Said(before, after)|, Blame(Said(before, after), Step10(true, id1, id2)), id1)
            == Report(CouldNotResetDevice2, Some(Because(r.error)), Some(IDENTIFICATIONS[id1]), None)
  {
    Then(before, between, after, 6 * WAIT, 6 * WAIT, Identification(1, id1), Identification(2, id2), false);
  }

  // ---------------------------------------------------------------- the whole run

  method SetupSteps5to7(p: Ports, ghost flushed: bv8) returns (r: Step<bool>, ghost a: Answers)
    modifies p
    ensures StepOk(old(p.trace), p.trace, 14 * WAIT, Steps5to7(a), r)
    ensures WellShapedAnswers(a) && a.flushed == flushed && (r.Done? ==> r.value == SecondPortSupported(a))
  {
    var tested;
    ghost var config5, config7, cleanup7 := 0, 0, 0;
    tested, config5 := ConfigureAndSelfTest(p);
    ghost var t := p.trace;
    if tested.Failed? {
      BreaksEarlier(old(p.trace), t, 6 * WAIT, 8 * WAIT, Steps5to6(config5), Step7(0, 0), tested.report);
      return Failed(tested.report), Answers(flushed, config5, 0, 0, 0, Silent, Silent);
    }
    r, config7, cleanup7 := FindSecondPort(p);
    a := Answers(flushed, config5, config7, cleanup7, 0, Silent, Silent);
    StepThen(old(p.trace), t, p.trace, 6 * WAIT, 8 * WAIT, Steps5to6(config5), Step7(config7, cleanup7), r);
  }

  method SetupSteps8to9(p: Ports) returns (r: Step<()>, ghost config9: bv8)
    modifies p
    ensures StepOk(old(p.trace), p.trace, 10 * WAIT, Steps8to9(config9), r)
  {
    config9 := 0;
    r := TestInterfaces(p);
    ghost var t := p.trace;
    if r.Failed? {
      BreaksEarlier(old(p.trace), t, 4 * WAIT, 6 * WAIT, Step8(), Step9(config9), r.report);
      return;
    }
    r, config9 := EnableDevices(p);
    StepThen(old(p.trace), t, p.trace, 4 * WAIT, 6 * WAIT, Step8(), Step9(config9), r);
  }

  method SetupSteps5to9(p: Ports, ghost flushed: bv8) returns (r: Step<bool>, ghost a: Answers)
    modifies p
    ensures StepOk(old(p.trace), p.trace, 24 * WAIT, Steps5to9(a), r)
    ensures WellShapedAnswers(a) && a.flushed == flushed && (r.Done? ==> r.value == SecondPortSupported(a))
  {
    r, a := SetupSteps5to7(p, flushed);
    ghost var t := p.trace;
    if r.Failed? {
      BreaksEarlier(old(p.trace), t, 14 * WAIT, 10 * WAIT, Steps5to7(a), Steps8to9(a.config9), r.report);
      return;
    }
    var enabled;
    ghost var config9;
    enabled, config9 := SetupSteps8to9(p);
    StepThen(old(p.trace), t, p.trace, 14 * WAIT, 10 * WAIT, Steps5to7(a), Steps8to9(config9), enabled);
    a := a.(config9 := config9);
    r := if enabled.Failed? then Failed(enabled.report) else r;
  }

  // The bring-up from step 5 on.
  ghost predicate FromStep5(before: seq<Access>, after: seq<Access>, r: Report, a: Answers) {
    && Follows(before, after, 36 * WAIT, Steps5to10(a), Finished(r.state))
    && if Finished(r.state) then ReportOk(r, SecondPortSupported(a), a.id1, a.id2)
       else r == ReportAt(|Said(before, after)|, Blame(Said(before, after), Steps5to10(a)), a)
  }

  lemma BreaksBeforeStep10(t0: seq<Access>, t1: seq<Access>, a: Answers, r: Report)
    requires Breaks(t0, t1, 24 * WAIT, Steps5to9(a), r) && !Finished(r.state)
    ensures FromStep5(t0, t1, r, a)
  {
    StopsBefore(t0, t1, 24 * WAIT, 12 * WAIT, Steps5to9(a), Step10(SecondPortSupported(a), a.id1, a.id2));
  }

  lemma Step10Decides(t0: seq<Access>, t1: seq<Access>, t2: seq<Access>, a: Answers, id1: Identity, id2: Identity, r: Report)
    requires Follows(t0, t1, 24 * WAIT, Steps5to9(a), true)
    requires Follows(t1, t2, 12 * WAIT, Step10(SecondPortSupported(a), id1, id2), Finished(r.state))
    requires if Finished(r.state) then ReportOk(r, SecondPortSupported(a), id1, id2)
             else r == ResetReport(|Said(t1, t2)|, Blame(Said(t1, t2), Step10(SecondPortSupported(a), id1, id2)), id1)
    ensures FromStep5(t0, t2, r, a.(id1 := id1, id2 := id2))
  {
    var b := a.(id1 := id1, id2 := id2);
    var first, last := Steps5to9(a), Step10(SecondPortSupported(a), id1, id2);
    assert Steps5to9(b) == first && Steps5to10(b) == first + last;
    Then(t0, t1, t2, 24 * WAIT, 12 * WAIT, first, last, Finished(r.state));
    if !Finished(r.state) {
      Step10Report(t0, t1, t2, first, last, b, r);
    }
  }

  lemma Step10Report(t0: seq<Access>, t1: seq<Access>, t2: seq<Access>, first: seq<Place>, last: seq<Place>, b: Answers, r: Report)
    requires Follows(t0, t1, 24 * WAIT, first, true) && Follows(t1, t2, 12 * WAIT, last, false) && |first| == |Steps5to9(b)|
    requires Blame(Said(t0, t2), first + last) == Blame(Said(t1, t2), last)
    requires r == ResetReport(|Said(t1, t2)|, Blame(Said(t1, t2), last), b.id1)
    ensures r == ReportAt(|Said(t0, t2)|, Blame(Said(t0, t2), first + last), b)
  {
    SaidLengths(t0, t1, t2, 24 * WAIT, 12 * WAIT, first, last);
    ReportIsShifted(|Said(t0, t2)|, |Said(t1, t2)|, Blame(Said(t1, t2), last), b);
  }

  lemma SaidLengths(t0: seq<Access>, t1: seq<Access>, t2: seq<Access>, m: nat, n: nat, first: seq<Place>, last: seq<Place>)
    requires Follows(t0, t1, m, first, true) && Follows(t1, t2, n, last, false)
    ensures |Said(t0, t2)| == |first| + |Said(t1, t2)| && |Said(t1, t2)| > 0
  {
    SaidThen(t0, t1, t2);
  }

  lemma ReportIsShifted(all: nat, n: nat, x: Blamed, a: Answers)
    requires all == |Steps5to9(a)| + n && n > 0
    ensures ReportAt(all, x, a) == ResetReport(n, x, a.id1)
  {}

  // Everything after the flush.
  method SetupAfterFlush(p: Ports, ghost flushed: bv8) returns (r: Report, ghost a: Answers)
    modifies p
    ensures WellShapedAnswers(a) && a.flushed == flushed
    ensures FromStep5(old(p.trace), p.trace, r, a)
  {
    var enabled;
    enabled, a := SetupSteps5to9(p, flushed);
    ghost var t := p.trace;
    if enabled.Failed? {
      BreaksBeforeStep10(old(p.trace), t, a, enabled.report);
      return enabled.report, a;
    }
    ghost var id1, id2;
    r, id1, id2 := ResetDevices(p, enabled.value);
    Step10Decides(old(p.trace), t, p.trace, a, id1, id2, r);
    a := a.(id1 := id1, id2 := id2);
  }

  // A finished run reports what the identified devices and the second-port check dictate; any
  // other reports the entry it broke off at.
  ghost predicate RunOk(before: seq<Access>, after: seq<Access>, r: Report, a: Answers) {
    && WellShapedAnswers(a) && Keeps(before, after, BringUp(a), Finished(r.state))
    && if Finished(r.state) then ReportOk(r, SecondPortSupported(a), a.id1, a.id2)
       else r == ReportAt(|Said(before, after)| - 3, Blame(Said(before, after), BringUp(a)), a)
  }

  method SetupFromStep3(p: Ports) returns (r: Report, ghost a: Answers, ghost flush: nat)
    modifies p
    ensures old(p.trace) <= p.trace
    ensures forall i | |old(p.trace)| <= i < |p.trace| && i != flush :: Guarded(p.trace, i)
    ensures flush < |p.trace| ==> flush >= |old(p.trace)| && p.trace[flush] == ReadData(a.flushed)
    ensures Polls(p.trace) <= Polls(old(p.trace)) + 38 * WAIT
    ensures r.state != UsbError && r.state != ControllerDoesNotExist
    ensures RunOk(old(p.trace), p.trace, r, a)
  {
    var disabled := TwoCommands(p, DISABLE_FIRST_PORT, DISABLE_SECOND_PORT);
    ghost var t1 := p.trace;
    if disabled.Failed? {
      a := StopsBeforeFlush(old(p.trace), t1, disabled.report);
      return disabled.report, a, |p.trace|;
    }
    var discard := p.InDataUnguarded();
    ghost var t2 := p.trace;
    r, a := SetupAfterFlush(p, discard);
    flush := |t1|;
    GuardedAround(old(p.trace), t1, t2, p.trace, ReadData(discard), 2 * WAIT, 36 * WAIT);
    TalkAround(old(p.trace), t1, t2, p.trace, a, r);
    NoOtherStates(r, |Said(t2, p.trace)|, Blame(Said(t2, p.trace), Steps5to10(a)), a);
  }

  lemma StopsBeforeFlush(t0: seq<Access>, t1: seq<Access>, r: Report) returns (a: Answers)
    requires Keeps(t0, t1, Commands(DISABLE_FIRST_PORT, DISABLE_SECOND_PORT), false)
    requires r == InitReport(Blame(Said(t0, t1), Commands(DISABLE_FIRST_PORT, DISABLE_SECOND_PORT)))
    ensures RunOk(t0, t1, r, a) && r.state != UsbError && r.state != ControllerDoesNotExist
  {
    a := Answers(0, 0, 0, 0, 0, Silent, Silent);
    BrokenBefore(Said(t0, t1), Commands(DISABLE_FIRST_PORT, DISABLE_SECOND_PORT), [Take(ReadData(a.flushed), Anything)]);
    BrokenBefore(Said(t0, t1), Steps3to4(a.flushed), Steps5to10(a));
  }

  lemma TalkAround(t0: seq<Access>, t1: seq<Access>, t2: seq<Access>, t3: seq<Access>, a: Answers, r: Report)
    requires Keeps(t0, t1, Commands(DISABLE_FIRST_PORT, DISABLE_SECOND_PORT), true) && WellShapedAnswers(a)
    requires Talk(t2) == Talk(t1) + [ReadData(a.flushed)] && Keeps(t2, t3, Steps5to10(a), Finished(r.state))
    requires if Finished(r.state) then ReportOk(r, SecondPortSupported(a), a.id1, a.id2)
             else r == ReportAt(|Said(t2, t3)|, Blame(Said(t2, t3), Steps5to10(a)), a)
    ensures RunOk(t0, t3, r, a)
  {
    KeepsAround(t0, t1, t2, t3, a.flushed, Steps5to10(a), Finished(r.state));
  }

  lemma KeepsAround(t0: seq<Access>, t1: seq<Access>, t2: seq<Access>, t3: seq<Access>, flushed: bv8,
                    rest: seq<Place>, done: bool)
    requires Keeps(t0, t1, Commands(DISABLE_FIRST_PORT, DISABLE_SECOND_PORT), true)
    requires Talk(t2) == Talk(t1) + [ReadData(flushed)] && Keeps(t2, t3, rest, done)
    ensures Keeps(t0, t3, Steps3to4(flushed) + rest, done)
    ensures |Said(t0, t3)| - 3 == |Said(t2, t3)|
    ensures !done ==> Blame(Said(t0, t3), Steps3to4(flushed) + rest) == Blame(Said(t2, t3), rest)
  {
    FlushIsKept(t1, t2, flushed);
    KeepsThen(t0, t1, t2, Commands(DISABLE_FIRST_PORT, DISABLE_SECOND_PORT), [Take(ReadData(flushed), Anything)], true);
    KeepsThen(t0, t2, t3, Steps3to4(flushed), rest, done);
  }

  lemma NoOtherStates(r: Report, n: int, b: Blamed, a: Answers)
    requires Finished(r.state) || r == ReportAt(n, b, a)
    ensures r.state != UsbError && r.state != ControllerDoesNotExist
  {}

  lemma FlushIsKept(t1: seq<Access>, t2: seq<Access>, flushed: bv8)
    requires Talk(t2) == Talk(t1) + [ReadData(flushed)]
    ensures Keeps(t1, t2, [Take(ReadData(flushed), Anything)], true)
  {
    assert Said(t1, t2) == [ReadData(flushed)];
  }

  // Against every device: every write and every read but one (the flush of step 4, at index
  // `flush`) comes right after a status read that allows it; the status port is polled a bounded
  // number of times; the report is as RunOk says; and the run finishes if and only if its
  // conversation completes the script, with answers that every place of it accepts.
  method SetupPs2Controller(p: Ports, usbError: bool, exists_: bool)
    returns (r: Report, ghost a: Answers, ghost flush: nat)
    modifies p
    ensures old(p.trace) <= p.trace
    ensures forall i | |old(p.trace)| <= i < |p.trace| && i != flush :: Guarded(p.trace, i)
    ensures flush < |p.trace| ==> flush >= |old(p.trace)| && p.trace[flush] == ReadData(a.flushed)
    ensures Polls(p.trace) <= Polls(old(p.trace)) + 38_000
    ensures r.state == UsbError <==> usbError
    ensures r.state == ControllerDoesNotExist <==> !usbError && !exists_
    ensures usbError || !exists_ ==> p.trace == old(p.trace)
    ensures !usbError && exists_ ==> RunOk(old(p.trace), p.trace, r, a)
    ensures !usbError && exists_ && Finished(r.state) ==> r.state == StateHeard(SecondPortSupported(a), a.id1, a.id2)
    ensures !usbError && exists_ ==>
      (Finished(r.state) <==>
       exists b: Answers :: WellShapedAnswers(b) && Complete(Said(old(p.trace), p.trace), BringUp(b)))
  {
    a := Answers(0, 0, 0, 0, 0, Silent, Silent);
    flush := |p.trace|;
    if usbError {
      return Report(UsbError, None, None, None), a, flush;
    }
    if !exists_ {
      return Report(ControllerDoesNotExist, None, None, None), a, flush;
    }
    r, a, flush := SetupFromStep3(p);
    FinishedIff(Said(old(p.trace), p.trace), a, Finished(r.state));
    if Finished(r.state) {
      StateByBytes(r, SecondPortSupported(a), a.id1, a.id2);
    }
  }

  // ---------------------------------------------------------------- the conversation decides

  lemma ReadThenWriteCoherent(v: bv8, w: bv8, change: bv8 -> bv8)
    ensures Coherent(ReadThenWrite(v, change(v)), ReadThenWrite(w, change(w)))
  {
    QuestionCoherent(READ_CONFIGURATION, v, w, Configuration);
    assert Question(READ_CONFIGURATION, v, Configuration)[1] == Take(ReadData(v), Configuration);
    assert Question(READ_CONFIGURATION, w, Configuration)[1] == Take(ReadData(w), Configuration);
    CoherentThen(Question(READ_CONFIGURATION, v, Configuration), Question(READ_CONFIGURATION, w, Configuration),
      WriteConfiguration(change(v)), WriteConfiguration(change(w)));
  }

  lemma OneTakeCoherent(x: Access, y: Access, kind: Kind)
    ensures Coherent([Take(x, kind)], [Take(y, kind)])
  {}

  lemma QuestionCoherent(command: bv8, v: bv8, w: bv8, kind: Kind)
    ensures Coherent(Question(command, v, kind), Question(command, w, kind))
  {
    OneTakeCoherent(ReadData(v), ReadData(w), kind);
    CoherentThen([Put(WriteCommand(command))], [Put(WriteCommand(command))], [Take(ReadData(v), kind)], [Take(ReadData(w), kind)]);
  }

  lemma ProbeCoherent(v: bv8, w: bv8)
    ensures Coherent(Probe(v), Probe(w)) && (Probe(v) == Probe(w) ==> v == w)
  {
    var enable, disable := [Put(WriteCommand(ENABLE_SECOND_PORT))], [Put(WriteCommand(DISABLE_SECOND_PORT))];
    var s, t := Question(READ_CONFIGURATION, v, Configuration), Question(READ_CONFIGURATION, w, Configuration);
    QuestionCoherent(READ_CONFIGURATION, v, w, Configuration);
    CoherentThen(enable, enable, s, t);
    CoherentThen(enable + s, enable + t, disable, disable);
    assert Probe(v)[2] == Take(ReadData(v), Configuration) && Probe(w)[2] == Take(ReadData(w), Configuration);
  }

  lemma Steps5to7Coherent(a: Answers, b: Answers)
    ensures Coherent(Steps5to7(a), Steps5to7(b))
    ensures Steps5to7(a) == Steps5to7(b) ==> a.config7 == b.config7
  {
    ReadThenWriteCoherent(a.config5, b.config5, FirstConfiguration);
    CoherentThen(ReadThenWrite(a.config5, FirstConfiguration(a.config5)), ReadThenWrite(b.config5, FirstConfiguration(b.config5)),
      ControllerTest(), ControllerTest());
    ProbeCoherent(a.config7, b.config7);
    ReadThenWriteCoherent(a.cleanup7, b.cleanup7, SecondConfiguration);
    CoherentThen(Probe(a.config7), Probe(b.config7), Cleanup(a.config7, a.cleanup7), Cleanup(b.config7, b.cleanup7));
    CoherentThen(Steps5to6(a.config5), Steps5to6(b.config5), Step7(a.config7, a.cleanup7), Step7(b.config7, b.cleanup7));
    assert Steps5to7(a)[8] == Take(ReadData(a.config7), Configuration);
    assert Steps5to7(b)[8] == Take(ReadData(b.config7), Configuration);
  }

  lemma Steps8to9Coherent(v: bv8, w: bv8)
    ensures Coherent(Steps8to9(v), Steps8to9(w))
  {
    ReadThenWriteCoherent(v, w, FinalConfiguration);
    var enable := Commands(ENABLE_FIRST_PORT, ENABLE_SECOND_PORT);
    CoherentThen(enable, enable, ReadThenWrite(v, FinalConfiguration(v)), ReadThenWrite(w, FinalConfiguration(w)));
    CoherentThen(Step8(), Step8(), Step9(v), Step9(w));
  }

  lemma Step10Coherent(second: bool, a: Answers, b: Answers)
    requires WellShapedAnswers(a) && WellShapedAnswers(b)
    ensures Coherent(Step10(second, a.id1, a.id2), Step10(second, b.id1, b.id2))
  {
    IdentificationCoherent(1, a.id1, b.id1);
    IdentificationCoherent(2, a.id2, b.id2);
    CoherentThen(Identification(1, a.id1), Identification(1, b.id1),
      SecondIdentification(second, a.id2), SecondIdentification(second, b.id2));
  }

  // All bring-up scripts are scripts of one protocol.
  lemma BringUpCoherent(a: Answers, b: Answers)
    requires WellShapedAnswers(a) && WellShapedAnswers(b)
    ensures Coherent(BringUp(a), BringUp(b))
  {
    Steps5to7Coherent(a, b);
    Steps8to9Coherent(a.config9, b.config9);
    CoherentThen(Steps5to7(a), Steps5to7(b), Steps8to9(a.config9), Steps8to9(b.config9));
    if Steps5to9(a) == Steps5to9(b) {
      SameFirstPart(Steps5to7(a), Steps5to7(b), Steps8to9(a.config9), Steps8to9(b.config9), |Steps5to9(a)|);
      Step10Coherent(SecondPortSupported(a), a, b);
    }
    CoherentThen(Steps5to9(a), Steps5to9(b), Step10(SecondPortSupported(a), a.id1, a.id2),
      Step10(SecondPortSupported(b), b.id1, b.id2));
    var disable := Commands(DISABLE_FIRST_PORT, DISABLE_SECOND_PORT);
    OneTakeCoherent(ReadData(a.flushed), ReadData(b.flushed), Anything);
    CoherentThen(disable, disable, [Take(ReadData(a.flushed), Anything)], [Take(ReadData(b.flushed), Anything)]);
    CoherentThen(Steps3to4(a.flushed), Steps3to4(b.flushed), Steps5to10(a), Steps5to10(b));
  }

  lemma FinishedIff(said: seq<Access>, a: Answers, done: bool)
    requires WellShapedAnswers(a) && if done then Complete(said, BringUp(a)) else Broken(said, BringUp(a))
    ensures done <==> exists b: Answers :: WellShapedAnswers(b) && Complete(said, BringUp(b))
  {
    forall b: Answers | WellShapedAnswers(b) && Complete(said, BringUp(b)) ensures done {
      BringUpCoherent(b, a);
      NotBoth(said, BringUp(b), BringUp(a));
    }
  }

  lemma GuardedAround(
    t0: seq<Access>, t1: seq<Access>, t2: seq<Access>, t3: seq<Access>, a: Access, m: nat, n: nat)
    requires Proper(t0, t1, m) && t2 == t1 + [a] && Proper(t2, t3, n)
    ensures t0 <= t3 && |t1| < |t3| && t3[|t1|] == a
    ensures forall i | |t0| <= i < |t3| && i != |t1| :: Guarded(t3, i)
  {
    assert t2[|t1|] == a;
    forall i | |t0| <= i < |t1| ensures Guarded(t3, i) {
      assert t1 <= t3;
      GuardedInPrefix(t1, t3, i);
    }
  }
}
