// Waiting, sending and receiving: the helpers every PS/2 conversation is made of.

module Ps2Controller {
  import opened Ps2Ports
  import opened Ps2Script

  const WAIT: nat := MAX_PS2_WAIT_LOOP

  // ---------------------------------------------------------------- waiting

  method OnePoll(p: Ports) returns (status: bv8)
    modifies p
    ensures p.trace == old(p.trace) + [IoWait, ReadStatus(status)] && Proper(old(p.trace), p.trace, 1)
    ensures Polls(p.trace) == Polls(old(p.trace)) + 1 && Talk(p.trace) == Talk(old(p.trace))
    ensures !OutputBufferFull(status) ==> QuietPolls(p.trace) == QuietPolls(old(p.trace)) + 1
    ensures InputBufferFull(status) ==> BusyPolls(p.trace) == BusyPolls(old(p.trace)) + 1
  {
    p.Wait();
    status := p.InStatus();
    OneMorePoll(old(p.trace), status);
  }

  // Polls until the input buffer is empty, at most MAX_PS2_WAIT_LOOP times.
  method WaitTillReadyForMoreInput(p: Ports) returns (r: Result<()>, ghost mark: Access)
    modifies p
    ensures Proper(old(p.trace), p.trace, WAIT)
    ensures r.Ok? ==> ReadyToWrite(p.trace) && Talk(p.trace) == Talk(old(p.trace))
    ensures r.Err? ==> Talk(p.trace) == Talk(old(p.trace)) + [mark] && (mark.GaveUpWriting? || mark.BadStatus?)
    ensures r.Err? ==> forall place :: r.error == ErrorOf(mark, place)
    ensures r == Err(WaitMaxIn) ==> Polls(p.trace) == Polls(old(p.trace)) + WAIT
  {
    mark := GaveUpWriting;
    for i := 0 to WAIT
      invariant Proper(old(p.trace), p.trace, i) && Talk(p.trace) == Talk(old(p.trace))
      invariant Polls(p.trace) == Polls(old(p.trace)) + i
      invariant BusyPolls(p.trace) == BusyPolls(old(p.trace)) + i
    {
      ghost var before := p.trace;
      var status := OnePoll(p);
      ghost var polled := p.trace;
      ProperThen(old(p.trace), before, polled, i, 1);
      if !InputBufferFull(status) {
        if !ParityError(status) && !TimeoutError(status) {
          return Ok(()), mark;
        }
        mark := BadStatus(status);
        p.GiveUp(BadStatus(status));
        ProperThen(old(p.trace), polled, p.trace, i + 1, 0);
        return Err(if ParityError(status) then StatusParity else StatusTimeout), mark;
      }
    }
    ghost var polled := p.trace;
    p.GiveUp(GaveUpWriting);
    ProperThen(old(p.trace), polled, p.trace, WAIT, 0);
    OneMore(polled, GaveUpWriting);
    return Err(WaitMaxIn), mark;
  }

  method WaitTillReadyForResponse(p: Ports) returns (r: Result<()>)
    modifies p
    ensures Proper(old(p.trace), p.trace, WAIT)
    ensures r.Ok? ==> ReadyToRead(p.trace) && Talk(p.trace) == Talk(old(p.trace))
    ensures r.Err? ==> r.error == WaitMaxOut && Talk(p.trace) == Talk(old(p.trace)) + [GaveUpReading]
    ensures r.Err? ==> Polls(p.trace) == Polls(old(p.trace)) + WAIT
  {
    for i := 0 to WAIT
      invariant Proper(old(p.trace), p.trace, i) && Talk(p.trace) == Talk(old(p.trace))
      invariant Polls(p.trace) == Polls(old(p.trace)) + i
      invariant QuietPolls(p.trace) == QuietPolls(old(p.trace)) + i
    {
      ghost var before := p.trace;
      var status := OnePoll(p);
      ProperThen(old(p.trace), before, p.trace, i, 1);
      if OutputBufferFull(status) {
        return Ok(());
      }
    }
    ghost var polled := p.trace;
    p.GiveUp(GaveUpReading);
    ProperThen(old(p.trace), polled, p.trace, WAIT, 0);
    OneMore(polled, GaveUpReading);
    return Err(WaitMaxOut);
  }

  // ---------------------------------------------------------------- one byte out, one byte in

  // One entry said at one place.
  lemma OneEntry(before: seq<Access>, after: seq<Access>, x: Access, place: Place)
    requires Proper(before, after, WAIT) && Talk(after) == Talk(before) + [x]
    ensures x == Entry(place) && Accepted(place) ==> Follows(before, after, WAIT, [place], true)
    ensures Refused(x, place) ==>
      Follows(before, after, WAIT, [place], false) && Fault(Said(before, after), [place]) == ErrorOf(x, place)
  {
    var said := Said(before, after);
    assert said == [x];
    assert [place][..0] == [] && said[..0] == [] && Entries([]) == [];
  }

  // send_command_to_ps2_controller
  method SendCommand(p: Ports, command: bv8) returns (r: Result<()>)
    modifies p
    ensures Outcome(old(p.trace), p.trace, WAIT, [Put(WriteCommand(command))], r)
  {
    ghost var mark;
    r, mark := WaitTillReadyForMoreInput(p);
    ghost var ready := p.trace;
    if r.Err? {
      OneEntry(old(p.trace), ready, mark, Put(WriteCommand(command)));
      return;
    }
    p.OutCommand(command);
    ProperThen(old(p.trace), ready, p.trace, WAIT, 0);
    OneEntry(old(p.trace), p.trace, WriteCommand(command), Put(WriteCommand(command)));
  }

  // send_command_to_first_ps2_port
  method SendData(p: Ports, data: bv8) returns (r: Result<()>)
    modifies p
    ensures Outcome(old(p.trace), p.trace, WAIT, [Put(WriteData(data))], r)
  {
    ghost var mark;
    r, mark := WaitTillReadyForMoreInput(p);
    ghost var ready := p.trace;
    if r.Err? {
      OneEntry(old(p.trace), ready, mark, Put(WriteData(data)));
      return;
    }
    p.OutData(data);
    ProperThen(old(p.trace), ready, p.trace, WAIT, 0);
    OneEntry(old(p.trace), p.trace, WriteData(data), Put(WriteData(data)));
  }

  // The next response, whatever it is; v is the response, if there is one.
  method Receive(p: Ports) returns (r: Result<bv8>, ghost v: bv8)
    modifies p
    ensures Outcome(old(p.trace), p.trace, WAIT, [Take(ReadData(v), Anything)], r)
    ensures Talk(p.trace) == Talk(old(p.trace)) + [if r.Ok? then ReadData(v) else GaveUpReading]
    ensures if r.Ok? then r.value == v else r.error == WaitMaxOut
  {
    v := 0;
    var w := WaitTillReadyForResponse(p);
    ghost var ready := p.trace;
    if w.Err? {
      OneEntry(old(p.trace), ready, GaveUpReading, Take(ReadData(v), Anything));
      return Err(w.error), v;
    }
    var answer := p.InData();
    v := answer;
    ProperThen(old(p.trace), ready, p.trace, WAIT, 0);
    OneEntry(old(p.trace), p.trace, ReadData(v), Take(ReadData(v), Anything));
    return Ok(answer), v;
  }

  // A question is a command and its answer.
  function Question(command: bv8, v: bv8, kind: Kind): seq<Place> {
    [Put(WriteCommand(command))] + [Take(ReadData(v), kind)]
  }

  method Ask(p: Ports, command: bv8) returns (r: Result<bv8>, ghost v: bv8)
    modifies p
    ensures Outcome(old(p.trace), p.trace, 2 * WAIT, Question(command, v, Anything), r)
    ensures r.Ok? ==> r.value == v
  {
    v := 0;
    var w := SendCommand(p, command);
    ghost var sent := p.trace;
    if w.Err? {
      StopsBefore(old(p.trace), sent, WAIT, WAIT, [Put(WriteCommand(command))], [Take(ReadData(v), Anything)]);
      return Err(w.error), v;
    }
    r, v := Receive(p);
    Then(old(p.trace), sent, p.trace, WAIT, WAIT, [Put(WriteCommand(command))], [Take(ReadData(v), Anything)], r.Ok?);
  }

  // The answer judged by what the caller accepts; `hoped` stands for it when it is refused.
  lemma Answered(before: seq<Access>, after: seq<Access>, command: bv8, v: bv8, than: Kind, kind: Kind, hoped: bv8,
                 r: Result<bv8>)
    requires Outcome(before, after, 2 * WAIT, Question(command, v, than), r) && Narrower(kind, than)
    ensures r.Ok? && Accepts(kind, ReadData(v)) ==> Follows(before, after, 2 * WAIT, Question(command, v, kind), true)
    ensures !(r.Ok? && Accepts(kind, ReadData(v))) ==>
      Follows(before, after, 2 * WAIT, Question(command, hoped, kind), false)
    ensures r.Ok? && !Accepts(kind, ReadData(v)) ==>
      Blame(Said(before, after), Question(command, hoped, kind)) == Blamed(ReadData(v), Take(ReadData(hoped), kind))
    ensures r.Err? ==> Rejudged(Blame(Said(before, after), Question(command, v, than)),
                                Blame(Said(before, after), Question(command, hoped, kind)),
                                Take(ReadData(v), than), Take(ReadData(hoped), kind))
  {
    Judge(before, after, 2 * WAIT, [Put(WriteCommand(command))], ReadData(v), than, kind, ReadData(hoped), r.Ok?);
  }

  // A command with a data byte.
  method Tell(p: Ports, command: bv8, data: bv8) returns (r: Result<()>)
    modifies p
    ensures Outcome(old(p.trace), p.trace, 2 * WAIT, [Put(WriteCommand(command))] + [Put(WriteData(data))], r)
  {
    r := SendCommand(p, command);
    ghost var sent := p.trace;
    if r.Err? {
      StopsBefore(old(p.trace), sent, WAIT, WAIT, [Put(WriteCommand(command))], [Put(WriteData(data))]);
      return;
    }
    r := SendData(p, data);
    Then(old(p.trace), sent, p.trace, WAIT, WAIT, [Put(WriteCommand(command))], [Put(WriteData(data))], r.Ok?);
  }

  // ---------------------------------------------------------------- the controller's own commands

  // Accepted exactly without the reserved bit and with a passed self test.
  method GetConfigurationByte(p: Ports) returns (r: Result<bv8>, ghost v: bv8)
    modifies p
    ensures Outcome(old(p.trace), p.trace, 2 * WAIT, Question(READ_CONFIGURATION, v, Configuration), r)
    ensures r.Ok? ==> r.value == v
  {
    r, v := Ask(p, READ_CONFIGURATION);
    Answered(old(p.trace), p.trace, READ_CONFIGURATION, v, Anything, Configuration, v, r);
    if r.Ok? && ReservedBitSet(r.value) {
      r := Err(InvalidConfigurationByte);
    } else if r.Ok? && !PassedPost(r.value) {
      r := Err(PostIsZero);
    }
  }

  method SetConfigurationByte(p: Ports, config: bv8) returns (r: Result<()>)
    modifies p
    ensures Outcome(old(p.trace), p.trace, 2 * WAIT,
                    [Put(WriteCommand(WRITE_CONFIGURATION))] + [Put(WriteData(config))], r)
  {
    r := Tell(p, WRITE_CONFIGURATION, config);
  }

  // Accepted exactly up to 4.
  method TestPort(p: Ports, command: bv8) returns (r: Result<bv8>, ghost v: bv8)
    modifies p
    ensures Outcome(old(p.trace), p.trace, 2 * WAIT, Question(command, v, PortResult), r)
    ensures r.Ok? ==> r.value == v
  {
    r, v := Ask(p, command);
    Answered(old(p.trace), p.trace, command, v, Anything, PortResult, v, r);
    if r.Ok? && r.value > 0x04 {
      r := Err(InvalidTestPortResponse);
    }
  }

  // Accepted exactly when it says passed or failed.
  method TestController(p: Ports) returns (r: Result<bv8>, ghost v: bv8)
    modifies p
    ensures Outcome(old(p.trace), p.trace, 2 * WAIT, Question(TEST_CONTROLLER, v, ControllerResult), r)
    ensures r.Ok? ==> r.value == v
  {
    r, v := Ask(p, TEST_CONTROLLER);
    Answered(old(p.trace), p.trace, TEST_CONTROLLER, v, Anything, ControllerResult, v, r);
    if r.Ok? && r.value != 0x55 && r.value != 0xFC {
      r := Err(InvalidTestControllerResponse);
    }
  }

  // ---------------------------------------------------------------- the devices

  predicate IsPort(port: nat) { port == 1 || port == 2 }

  // How a byte gets to the device behind a port.
  function ToPort(port: nat, data: bv8): seq<Place> {
    if port == 1 then [Put(WriteData(data))]
    else if port == 2 then [Put(WriteCommand(WRITE_TO_SECOND_PORT))] + [Put(WriteData(data))]
    else []
  }

  // send_command_or_data_to_ps2_port
  method SendToPort(p: Ports, port: nat, data: bv8) returns (r: Result<()>)
    modifies p
    ensures !IsPort(port) ==> r == Err(InvalidPortNumber) && p.trace == old(p.trace)
    ensures IsPort(port) ==> Outcome(old(p.trace), p.trace, 2 * WAIT, ToPort(port, data), r)
  {
    if port == 1 {
      r := SendData(p, data);
    } else if port == 2 {
      r := Tell(p, WRITE_TO_SECOND_PORT, data);
    } else {
      r := Err(InvalidPortNumber);
    }
  }

  // The reset of a device: the command, acknowledge and passed self test.
  function ResetScript(port: nat): seq<Place> {
    ToPort(port, RESET_DEVICE) + [Take(ReadData(ACKNOWLEDGED), Acknowledge)]
    + [Take(ReadData(SELF_TEST_PASSED), SelfTestPassed)]
  }

  // What is heard of an identification. None at all means that the wait for it ran out.
  function Heard(id: Identity): seq<Place> {
    match id
    case Silent => [Take(GaveUpReading, FirstIdByte)]
    case OneByte(b) => [Take(ReadData(b), FirstIdByte)]
    case TwoBytes(a, b) => [Take(ReadData(a), FirstIdByte)] + [Take(ReadData(b), SecondIdByte)]
  }

  // A second byte follows exactly the keyboard prefix.
  predicate WellShaped(id: Identity) {
    match id
    case Silent => true
    case OneByte(b) => b != KEYBOARD_PREFIX
    case TwoBytes(a, _) => a == KEYBOARD_PREFIX
  }

  // The conversation that identifies the device behind a port.
  function Identification(port: nat, id: Identity): seq<Place> { ResetScript(port) + Heard(id) }

  // One expected response: reset_port_and_get_device_type reads two of them.
  method Expect(p: Ports, hoped: bv8, kind: Kind) returns (r: Result<()>)
    requires (hoped, kind) in {(ACKNOWLEDGED, Acknowledge), (SELF_TEST_PASSED, SelfTestPassed)}
    modifies p
    ensures Outcome(old(p.trace), p.trace, WAIT, [Take(ReadData(hoped), kind)], r)
  {
    var reply;
    ghost var v;
    reply, v := Receive(p);
    OneEntry(old(p.trace), p.trace, if reply.Ok? then ReadData(v) else GaveUpReading, Take(ReadData(hoped), kind));
    if reply.Err? {
      return Err(reply.error);
    }
    if reply.value != hoped {
      return Err(if kind == Acknowledge then FailedToAcknowledge else FailedSelfTest);
    }
    return Ok(());
  }

  // The device acknowledges the reset.
  method Reset(p: Ports, port: nat) returns (r: Result<()>)
    requires IsPort(port)
    modifies p
    ensures Outcome(old(p.trace), p.trace, 3 * WAIT,
                    ToPort(port, RESET_DEVICE) + [Take(ReadData(ACKNOWLEDGED), Acknowledge)], r)
  {
    ghost var command, acknowledge := ToPort(port, RESET_DEVICE), [Take(ReadData(ACKNOWLEDGED), Acknowledge)];
    r := SendToPort(p, port, RESET_DEVICE);
    ghost var sent := p.trace;
    if r.Err? {
      StopsBefore(old(p.trace), sent, 2 * WAIT, WAIT, command, acknowledge);
      return;
    }
    r := Expect(p, ACKNOWLEDGED, Acknowledge);
    Then(old(p.trace), sent, p.trace, 2 * WAIT, WAIT, command, acknowledge, r.Ok?);
  }

  // The device acknowledges the reset and passes its self test.
  method ResetAndSelfTest(p: Ports, port: nat) returns (r: Result<()>)
    requires IsPort(port)
    modifies p
    ensures Outcome(old(p.trace), p.trace, 4 * WAIT, ResetScript(port), r)
  {
    ghost var reset := ToPort(port, RESET_DEVICE) + [Take(ReadData(ACKNOWLEDGED), Acknowledge)];
    ghost var passed := [Take(ReadData(SELF_TEST_PASSED), SelfTestPassed)];
    r := Reset(p, port);
    ghost var acknowledged := p.trace;
    if r.Err? {
      StopsBefore(old(p.trace), acknowledged, 3 * WAIT, WAIT, reset, passed);
      return;
    }
    r := Expect(p, SELF_TEST_PASSED, SelfTestPassed);
    Then(old(p.trace), acknowledged, p.trace, 3 * WAIT, WAIT, reset, passed, r.Ok?);
  }

  // The byte behind KEYBOARD_PREFIX says which keyboard it is.
  method IdentifyKeyboard(p: Ports) returns (r: Result<DeviceType>, ghost b: bv8)
    modifies p
    ensures Outcome(old(p.trace), p.trace, WAIT, [Take(ReadData(b), SecondIdByte)], r)
    ensures r == Identify4(b) || r == Err(WaitMaxOut)
  {
    var rep4;
    rep4, b := Receive(p);
    if rep4.Err? {
      NoFourthByte(old(p.trace), p.trace, b);
      return Err(WaitMaxOut), b;
    }
    FourthByte(old(p.trace), p.trace, b);
    return Identify4(rep4.value), b;
  }

  lemma NoFourthByte(before: seq<Access>, after: seq<Access>, b: bv8)
    requires Proper(before, after, WAIT) && Talk(after) == Talk(before) + [GaveUpReading]
    ensures Outcome<DeviceType>(before, after, WAIT, [Take(ReadData(b), SecondIdByte)], Err(WaitMaxOut))
  {
    OneEntry(before, after, GaveUpReading, Take(ReadData(b), SecondIdByte));
  }

  lemma FourthByte(before: seq<Access>, after: seq<Access>, b: bv8)
    requires Proper(before, after, WAIT) && Talk(after) == Talk(before) + [ReadData(b)]
    ensures Outcome(before, after, WAIT, [Take(ReadData(b), SecondIdByte)], Identify4(b))
  {
    OneEntry(before, after, ReadData(b), Take(ReadData(b), SecondIdByte));
    UnknownFourth(b);
  }

  lemma UnknownFourth(b: bv8)
    ensures Identify4(b).Err? ==> Identify4(b).error == Rep4Invalid
  {}

  lemma ThirdByte(before: seq<Access>, after: seq<Access>, b: bv8)
    requires Proper(before, after, WAIT) && Talk(after) == Talk(before) + [ReadData(b)]
    ensures b == KEYBOARD_PREFIX ==> Follows(before, after, WAIT, [Take(ReadData(b), FirstIdByte)], true)
    ensures b != KEYBOARD_PREFIX ==>
      Outcome(before, after, WAIT, [Take(ReadData(b), FirstIdByte)], Identify3(b)) && Answers(Identify3(b), OneByte(b))
  {
    OneEntry(before, after, ReadData(b), Take(ReadData(b), FirstIdByte));
    IdentificationsAreComplete(b);
  }

  lemma NoByte(before: seq<Access>, after: seq<Access>)
    requires Proper(before, after, WAIT) && Talk(after) == Talk(before) + [GaveUpReading]
    ensures Follows(before, after, WAIT, [Take(GaveUpReading, FirstIdByte)], true)
    ensures Answers(Ok(AncientAtKeyboard), Silent)
  {
    OneEntry(before, after, GaveUpReading, Take(GaveUpReading, FirstIdByte));
    IdentificationsAreComplete(0);
  }

  // What the device says it is. Only a device that says nothing for a whole wait is an ancient
  // keyboard.
  method IdentifyDevice(p: Ports) returns (r: Result<DeviceType>, ghost id: Identity)
    modifies p
    ensures Outcome(old(p.trace), p.trace, 2 * WAIT, Heard(id), r)
    ensures WellShaped(id) && (r.Ok? ==> Answers(r, id))
  {
    var rep3;
    ghost var b, c;
    rep3, b := Receive(p);
    ghost var third := p.trace;
    if rep3.Err? {
      NoByte(old(p.trace), third);
      return Ok(AncientAtKeyboard), Silent;
    }
    ThirdByte(old(p.trace), third, b);
    if rep3.value != KEYBOARD_PREFIX {
      return Identify3(rep3.value), OneByte(b);
    }
    r, c := IdentifyKeyboard(p);
    IdentificationsAreComplete(c);
    id := TwoBytes(KEYBOARD_PREFIX, c);
    Then(old(p.trace), third, p.trace, WAIT, WAIT, [Take(ReadData(b), FirstIdByte)],
      [Take(ReadData(c), SecondIdByte)], r.Ok?);
  }

  // The device is identified if and only if the conversation completes the script of some
  // identity: it acknowledges, passes its self test and then sends a known identification, or
  // none during a whole wait.
  method ResetPortAndGetDeviceType(p: Ports, port: nat) returns (r: Result<DeviceType>, ghost id: Identity)
    modifies p
    ensures !IsPort(port) ==> r == Err(InvalidPortNumber) && p.trace == old(p.trace)
    ensures IsPort(port) ==> Outcome(old(p.trace), p.trace, 6 * WAIT, Identification(port, id), r)
    ensures WellShaped(id) && (r.Ok? ==> Answers(r, id))
    ensures IsPort(port) ==>
      (r.Ok? <==> exists x: Identity :: WellShaped(x) && Complete(Said(old(p.trace), p.trace), Identification(port, x)))
  {
    id := Silent;
    if !IsPort(port) {
      return Err(InvalidPortNumber), id;
    }
    var reset := ResetAndSelfTest(p, port);
    ghost var ready := p.trace;
    if reset.Err? {
      StopsBefore(old(p.trace), ready, 4 * WAIT, 2 * WAIT, ResetScript(port), Heard(id));
      r := Err(reset.error);
    } else {
      r, id := IdentifyDevice(p);
      Then(old(p.trace), ready, p.trace, 4 * WAIT, 2 * WAIT, ResetScript(port), Heard(id), r.Ok?);
    }
    IdentifiedIff(Said(old(p.trace), p.trace), port, id, r.Ok?);
  }

  lemma HeardCoherent(x: Identity, y: Identity)
    requires WellShaped(x) && WellShaped(y)
    ensures Coherent(Heard(x), Heard(y))
  {
    var s, t := Heard(x), Heard(y);
    forall n | 0 <= n <= |s| && n <= |t| && s[..n] == t[..n] ensures CoherentAt(s, t, n) {
      if n > 0 {
        assert s[..n][0] == t[..n][0];
      }
    }
  }

  lemma IdentificationCoherent(port: nat, x: Identity, y: Identity)
    requires WellShaped(x) && WellShaped(y)
    ensures Coherent(Identification(port, x), Identification(port, y))
  {
    HeardCoherent(x, y);
    CoherentThen(ResetScript(port), ResetScript(port), Heard(x), Heard(y));
  }

  lemma IdentifiedIff(said: seq<Access>, port: nat, id: Identity, done: bool)
    requires WellShaped(id)
    requires if done then Complete(said, Identification(port, id)) else Broken(said, Identification(port, id))
    ensures done <==> exists x: Identity :: WellShaped(x) && Complete(said, Identification(port, x))
  {
    forall x: Identity | WellShaped(x) && Complete(said, Identification(port, x)) ensures done {
      IdentificationCoherent(port, x, id);
      NotBoth(said, Identification(port, x), Identification(port, id));
    }
  }
}
