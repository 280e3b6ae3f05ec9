// Commands to the keyboard: each byte is acknowledged, or sent again, at most three times.

module Ps2Keyboard {
  import opened Common
  import opened Ps2Ports
  import opened Ps2Script
  import opened Ps2Controller

  datatype KeyboardError =
    | NoError
    | InvalidCommand
    | CouldNotSendCommand
    | CouldNotReceiveResponse
    | ResendTooMuch
    | NonAckResponse
    | ResponseWasNotEcho
    | InvalidScancode

  // The response is -1 when there is none to report.
  datatype Response = Response(err: KeyboardError, response: int)

  const RESEND: bv8 := 0xFE
  const ACK: bv8 := 0xFA
  const ECHO: bv8 := 0xEE
  const GET_SET_SCAN_CODE_SET: bv8 := 0xF0
  const MAX_RESPONSE_REPEAT: nat := 3

  predicate ValidCommand(c: bv8) { c == 0xED || c == 0xEE || c == 0xF0 || (c >= 0xF2 && c <= 0xFF) }

  // ---------------------------------------------------------------- what the replies mean

  // The first reply that is not a request to send again.
  function FirstAnswer(replies: seq<bv8>): Option<bv8>
    decreases |replies|
  {
    if replies == [] then None
    else if replies[0] != RESEND then Some(replies[0])
    else FirstAnswer(replies[1..])
  }

  predicate AllResend(replies: seq<bv8>) { forall i | 0 <= i < |replies| :: replies[i] == RESEND }

  lemma {:induction false} FirstAnswerAfterResends(resends: seq<bv8>, b: bv8)
    requires AllResend(resends)
    ensures FirstAnswer(resends) == None
    ensures FirstAnswer(resends + [b]) == if b == RESEND then None else Some(b)
    decreases |resends|
  {
    if resends != [] {
      assert (resends + [b])[1..] == resends[1..] + [b];
      FirstAnswerAfterResends(resends[1..], b);
    } else {
      assert ([] + [b])[1..] == [];
    }
  }

  function Verdict(replies: seq<bv8>): KeyboardError {
    match FirstAnswer(replies)
    case None => ResendTooMuch
    case Some(b) => if b == ACK then NoError else NonAckResponse
  }

  // How a byte gets to the keyboard.
  function Address(port: nat, data: bv8): seq<Access> {
    if port == 1 then [WriteData(data)]
    else if port == 2 then [WriteCommand(WRITE_TO_SECOND_PORT)] + [WriteData(data)]
    else []
  }

  lemma AddressIsToPort(port: nat, data: bv8)
    ensures Address(port, data) == Entries(ToPort(port, data))
  {}

  // The conversation: the byte once for every reply.
  function Attempts(port: nat, data: bv8, replies: seq<bv8>): seq<Access>
    decreases |replies|
  {
    if replies == [] then []
    else Attempts(port, data, replies[..|replies| - 1]) + (Address(port, data) + [ReadData(replies[|replies| - 1])])
  }

  lemma OneMoreAttempt(port: nat, data: bv8, replies: seq<bv8>, b: bv8)
    ensures Attempts(port, data, replies + [b]) == Attempts(port, data, replies) + (Address(port, data) + [ReadData(b)])
  {
    assert (replies + [b])[..|replies|] == replies;
  }

  function DataWrites(t: seq<Access>, data: bv8): nat
    decreases |t|
  {
    if t == [] then 0
    else DataWrites(t[..|t| - 1], data) + if t[|t| - 1] == WriteData(data) then 1 else 0
  }

  lemma {:induction false} DataWritesAppend(t: seq<Access>, u: seq<Access>, data: bv8)
    ensures DataWrites(t + u, data) == DataWrites(t, data) + DataWrites(u, data)
    decreases |u|
  {
    if u == [] {
      assert t + u == t;
    } else {
      assert (t + u)[..|t + u| - 1] == t + u[..|u| - 1];
      DataWritesAppend(t, u[..|u| - 1], data);
    }
  }

  predicate ControllerFailed(e: KeyboardError) { e.CouldNotSendCommand? || e.CouldNotReceiveResponse? }

  // Nothing is sent after an answer, and never more than three times.
  predicate Complete(replies: seq<bv8>) {
    && 1 <= |replies| <= MAX_RESPONSE_REPEAT
    && AllResend(replies[..|replies| - 1])
    && (AllResend(replies) ==> |replies| == MAX_RESPONSE_REPEAT)
  }

  // An exchange that the controller broke off: after some requests to send again the byte was not
  // taken (`sent` is false), or was taken and no reply came.
  predicate CutOff(base: seq<Access>, now: seq<Access>, port: nat, data: bv8, replies: seq<bv8>, sent: bool) {
    var before := base + Attempts(port, data, replies);
    && |replies| < MAX_RESPONSE_REPEAT && AllResend(replies)
    && before <= now
    && var rest := now[|before|..];
       if sent then IsPort(port) && rest == Address(port, data) + [GaveUpReading]
       else if IsPort(port) then Broken(rest, ToPort(port, data))
       else rest == []
  }

  // From the conversation `base` to `now` one byte was sent, with this outcome.
  predicate SentByte(base: seq<Access>, now: seq<Access>, port: nat, data: bv8, replies: seq<bv8>, e: KeyboardError) {
    if ControllerFailed(e) then CutOff(base, now, port, data, replies, e.CouldNotReceiveResponse?)
    else Complete(replies) && now == base + Attempts(port, data, replies) && e == Verdict(replies)
  }

  // A command byte and, if it is acknowledged, its argument.
  predicate SentTwoBytes(base: seq<Access>, now: seq<Access>, port: nat, command: bv8, data: bv8,
                     first: seq<bv8>, second: seq<bv8>, e: KeyboardError) {
    var acked := base + Attempts(port, command, first);
    || (e != NoError && second == [] && SentByte(base, now, port, command, first, e))
    || (SentByte(base, acked, port, command, first, NoError) && SentByte(acked, now, port, data, second, e))
  }

  // A byte whose acknowledge is followed by a value.
  predicate SentForValue(base: seq<Access>, now: seq<Access>, port: nat, data: bv8, replies: seq<bv8>, value: bv8,
                         e: KeyboardError) {
    var acked := base + Attempts(port, data, replies);
    || (e != NoError && SentByte(base, now, port, data, replies, e))
    || (SentByte(base, acked, port, data, replies, NoError)
        && ((e == NoError && now == acked + [ReadData(value)])
            || (e == CouldNotReceiveResponse && now == acked + [GaveUpReading])))
  }

  // ---------------------------------------------------------------- how often the byte is written

  lemma NotTaken(port: nat, data: bv8, rest: seq<Access>)
    requires IsPort(port) && Broken(rest, ToPort(port, data))
    ensures DataWrites(rest, data) == 0
  {
    var n := |rest| - 1;
    assert rest[..n] == Address(port, data)[..n] by {
      AddressIsToPort(port, data);
      assert Entries(ToPort(port, data)[..n]) == Entries(ToPort(port, data))[..n];
    }
    assert ToPort(port, data)[n].Put?;
    assert [WriteCommand(WRITE_TO_SECOND_PORT)][..0] == [];
    if n == 0 {
      assert rest[..n] == [];
    } else {
      assert rest[..n] == [WriteCommand(WRITE_TO_SECOND_PORT)];
    }
    assert DataWrites(rest[..n], data) == 0 && rest[n] != WriteData(data);
  }

  lemma WholeAddress(port: nat, data: bv8, last: Access)
    requires IsPort(port) && !IsWrite(last)
    ensures DataWrites(Address(port, data) + [last], data) == 1
  {
    DataWritesAppend(Address(port, data), [last], data);
    assert [last][..0] == [] && [WriteData(data)][..0] == [];
    assert [WriteCommand(WRITE_TO_SECOND_PORT)][..0] == [];
    if port == 2 {
      DataWritesAppend([WriteCommand(WRITE_TO_SECOND_PORT)], [WriteData(data)], data);
    }
  }

  // One write of the byte to a real port for every reply.
  lemma {:induction false} AttemptsWriteOncePerReply(port: nat, data: bv8, replies: seq<bv8>)
    requires IsPort(port)
    ensures DataWrites(Attempts(port, data, replies), data) == |replies|
    decreases |replies|
  {
    if replies != [] {
      var before, b := replies[..|replies| - 1], replies[|replies| - 1];
      AttemptsWriteOncePerReply(port, data, before);
      DataWritesAppend(Attempts(port, data, before), Address(port, data) + [ReadData(b)], data);
      WholeAddress(port, data, ReadData(b));
    }
  }

  // The byte is written at most three times, whatever the outcome: once for every reply, and once
  // more when it was taken and no reply came.
  lemma AtMostThreeWrites(base: seq<Access>, now: seq<Access>, port: nat, data: bv8, replies: seq<bv8>, e: KeyboardError)
    requires IsPort(port) && SentByte(base, now, port, data, replies, e)
    ensures base <= now
    ensures DataWrites(now[|base|..], data) == |replies| + (if e.CouldNotReceiveResponse? then 1 else 0)
    ensures DataWrites(now[|base|..], data) <= 3
  {
    var attempts := Attempts(port, data, replies);
    AttemptsWriteOncePerReply(port, data, replies);
    if ControllerFailed(e) {
      var rest := now[|base + attempts|..];
      WritesBehind(base, attempts, rest, now, data);
      if e.CouldNotReceiveResponse? {
        WholeAddress(port, data, GaveUpReading);
      } else {
        NotTaken(port, data, rest);
      }
    } else {
      WritesBehind(base, attempts, [], now, data);
    }
  }

  lemma WritesBehind(base: seq<Access>, attempts: seq<Access>, rest: seq<Access>, now: seq<Access>, data: bv8)
    requires now == base + attempts + rest
    ensures base <= now && DataWrites(now[|base|..], data) == DataWrites(attempts, data) + DataWrites(rest, data)
  {
    assert now[|base|..] == attempts + rest;
    DataWritesAppend(attempts, rest, data);
  }

  // ---------------------------------------------------------------- one exchange

  // After some requests to send again, one more reply is another one, or decides the exchange.
  lemma OneMoreReply(base: seq<Access>, now: seq<Access>, port: nat, data: bv8, replies: seq<bv8>, b: bv8)
    requires AllResend(replies) && |replies| < MAX_RESPONSE_REPEAT
    requires now == base + Attempts(port, data, replies) + (Address(port, data) + [ReadData(b)])
    ensures now == base + Attempts(port, data, replies + [b])
    ensures b == RESEND ==> AllResend(replies + [b])
    ensures b != RESEND ==>
      SentByte(base, now, port, data, replies + [b], if b == ACK then NoError else NonAckResponse)
  {
    FirstAnswerAfterResends(replies, b);
    OneMoreAttempt(port, data, replies, b);
    Concat(base, Attempts(port, data, replies), Address(port, data) + [ReadData(b)]);
    assert (replies + [b])[..|replies|] == replies;
    assert b != RESEND ==> (replies + [b])[|replies|] != RESEND;
  }

  // Every reply so far asked to send again.
  ghost predicate Resending(base: seq<Access>, now: seq<Access>, port: nat, data: bv8, replies: seq<bv8>) {
    AllResend(replies) && now == base + Attempts(port, data, replies)
  }

  // An exchange is over, and r says how.
  ghost predicate Exchanged(base: seq<Access>, now: seq<Access>, port: nat, data: bv8, replies: seq<bv8>, r: Response) {
    && r.err in {NoError, CouldNotSendCommand, CouldNotReceiveResponse, ResendTooMuch, NonAckResponse}
    && SentByte(base, now, port, data, replies, r.err)
    && (r.err == NoError || r.err == NonAckResponse ==> replies != [])
    && r.response == if r.err == NoError || r.err == NonAckResponse then replies[|replies| - 1] as int else -1
  }

  lemma OnlyResends(replies: seq<bv8>)
    requires AllResend(replies) && |replies| == MAX_RESPONSE_REPEAT
    ensures Complete(replies) && Verdict(replies) == ResendTooMuch
  {
    FirstAnswerAfterResends(replies, RESEND);
  }

  lemma BrokenOff(base: seq<Access>, before: seq<Access>, now: seq<Access>, port: nat, data: bv8, replies: seq<bv8>, sent: bool)
    requires AllResend(replies) && |replies| < MAX_RESPONSE_REPEAT
    requires before == base + Attempts(port, data, replies) && CutOff(before, now, port, data, [], sent)
    ensures CutOff(base, now, port, data, replies, sent)
  {
    assert before + Attempts(port, data, []) == before;
  }

  lemma NoReply(base: seq<Access>, before: seq<Access>, now: seq<Access>, port: nat, data: bv8, replies: seq<bv8>, sent: bool)
    requires Resending(base, before, port, data, replies) && |replies| < MAX_RESPONSE_REPEAT
    requires CutOff(before, now, port, data, [], sent)
    ensures Exchanged(base, now, port, data, replies, Response(if sent then CouldNotReceiveResponse else CouldNotSendCommand, -1))
  {
    BrokenOff(base, before, now, port, data, replies, sent);
  }

  lemma ReplyJudged(base: seq<Access>, before: seq<Access>, now: seq<Access>, port: nat, data: bv8, replies: seq<bv8>, b: bv8)
    requires Resending(base, before, port, data, replies) && |replies| < MAX_RESPONSE_REPEAT
    requires now == before + (Address(port, data) + [ReadData(b)])
    ensures b == RESEND ==> Resending(base, now, port, data, replies + [b])
    ensures b != RESEND ==>
      Exchanged(base, now, port, data, replies + [b], Response(if b == ACK then NoError else NonAckResponse, b as int))
  {
    OneMoreReply(base, now, port, data, replies, b);
  }

  lemma NotTakenIsCutOff(before: seq<Access>, after: seq<Access>, port: nat, data: bv8, w: Result<()>)
    requires if IsPort(port) then Outcome(before, after, 2 * WAIT, ToPort(port, data), w) else after == before
    requires w.Err?
    ensures CutOff(Talk(before), Talk(after), port, data, [], false)
  {
    assert Talk(before) + Attempts(port, data, []) == Talk(before);
  }

  lemma TakenIsSaid(before: seq<Access>, after: seq<Access>, port: nat, data: bv8)
    requires Follows(before, after, 2 * WAIT, ToPort(port, data), true)
    ensures Talk(after) == Talk(before) + Address(port, data)
  {
    AddressIsToPort(port, data);
  }

  class Keyboard {
    const ports: Ports
    var activePort: nat
    var activeScancodeSet: nat

    constructor (ports: Ports, port: nat)
      ensures this.ports == ports && activePort == port && activeScancodeSet == 1
    {
      this.ports, activePort, activeScancodeSet := ports, port, 1;
    }

    // send_data_to_ps2_keyboard
    method SendDataByte(data: bv8) returns (r: Response, ghost replies: seq<bv8>)
      modifies ports
      ensures Proper(old(ports.trace), ports.trace, 9 * WAIT)
      ensures Exchanged(Talk(old(ports.trace)), Talk(ports.trace), activePort, data, replies, r)
    {
      ghost var base := Talk(ports.trace);
      var responseCount := 0;
      replies := [];
      while responseCount < MAX_RESPONSE_REPEAT
        invariant responseCount == |replies| <= MAX_RESPONSE_REPEAT
        invariant Proper(old(ports.trace), ports.trace, responseCount * 3 * WAIT)
        invariant Resending(base, Talk(ports.trace), activePort, data, replies)
      {
        ghost var t0 := ports.trace;
        var decided;
        decided, replies := TryOnce(data, base, replies);
        ProperThen(old(ports.trace), t0, ports.trace, responseCount * 3 * WAIT, 3 * WAIT);
        if decided.Some? {
          return decided.value, replies;
        }
        responseCount := responseCount + 1;
      }
      OnlyResends(replies);
      return Response(ResendTooMuch, -1), replies;
    }

    // The loop's body: a response, unless it asks to send again.
    method TryOnce(data: bv8, ghost base: seq<Access>, ghost replies: seq<bv8>)
      returns (decided: Option<Response>, ghost replies': seq<bv8>)
      requires Resending(base, Talk(ports.trace), activePort, data, replies) && |replies| < MAX_RESPONSE_REPEAT
      modifies ports
      ensures Proper(old(ports.trace), ports.trace, 3 * WAIT)
      ensures match decided
              case None => Resending(base, Talk(ports.trace), activePort, data, replies') && |replies'| == |replies| + 1
              case Some(r) => Exchanged(base, Talk(ports.trace), activePort, data, replies', r)
    {
      var response := OneAttempt(data);
      if response.Err? {
        NoReply(base, Talk(old(ports.trace)), Talk(ports.trace), activePort, data, replies, response.sent);
        return Some(Response(if response.sent then CouldNotReceiveResponse else CouldNotSendCommand, -1)), replies;
      }
      var b := response.value;
      replies' := replies + [b];
      ReplyJudged(base, Talk(old(ports.trace)), Talk(ports.trace), activePort, data, replies, b);
      decided := if b == RESEND then None else Some(Response(if b == ACK then NoError else NonAckResponse, b as int));
    }

    // Send the byte, wait for a response.
    method OneAttempt(data: bv8) returns (r: Attempt)
      modifies ports
      ensures Proper(old(ports.trace), ports.trace, 3 * WAIT)
      ensures r.Ok? ==> Talk(ports.trace) == Talk(old(ports.trace)) + (Address(activePort, data) + [ReadData(r.value)])
      ensures r.Err? ==> CutOff(Talk(old(ports.trace)), Talk(ports.trace), activePort, data, [], r.sent)
    {
      var w := SendToPort(ports, activePort, data);
      ghost var sent := ports.trace;
      if w.Err? {
        NotTakenIsCutOff(old(ports.trace), sent, activePort, data, w);
        return Attempt.Err(false);
      }
      TakenIsSaid(old(ports.trace), sent, activePort, data);
      var reply;
      ghost var v;
      reply, v := Receive(ports);
      ProperThen(old(ports.trace), sent, ports.trace, 2 * WAIT, WAIT);
      Concat(Talk(old(ports.trace)), Address(activePort, data), [if reply.Ok? then ReadData(v) else GaveUpReading]);
      assert Talk(old(ports.trace)) + Attempts(activePort, data, []) == Talk(old(ports.trace));
      return if reply.Err? then Attempt.Err(true) else Attempt.Ok(reply.value);
    }

    // send_command_to_ps2_keyboard
    method SendCommandByte(command: bv8) returns (r: Response, ghost replies: seq<bv8>)
      modifies ports
      ensures Proper(old(ports.trace), ports.trace, 9 * WAIT)
      ensures r.err == InvalidCommand <==> !ValidCommand(command)
      ensures r.err == InvalidCommand ==> ports.trace == old(ports.trace)
      ensures ValidCommand(command) ==>
        SentByte(Talk(old(ports.trace)), Talk(ports.trace), activePort, command, replies, r.err)
      ensures r.err == NonAckResponse ==> r.response == replies[|replies| - 1] as int
    {
      if !ValidCommand(command) {
        return Response(InvalidCommand, 0), [];
      }
      r, replies := SendDataByte(command);
    }

    // send_getter_subcommand_to_ps2_keyboard: the acknowledge is followed by the value.
    method SendGetterByte(data: bv8) returns (r: Response, ghost replies: seq<bv8>, ghost value: bv8)
      modifies ports
      ensures Proper(old(ports.trace), ports.trace, 10 * WAIT)
      ensures SentForValue(Talk(old(ports.trace)), Talk(ports.trace), activePort, data, replies, value, r.err)
      ensures r.response == if r.err == NoError then value as int else -1
    {
      value := 0;
      r, replies := SendDataByte(data);
      ghost var t := ports.trace;
      if r.err != NoError {
        r := r.(response := -1);
        return;
      }
      var reply;
      reply, value := Receive(ports);
      ProperThen(old(ports.trace), t, ports.trace, 9 * WAIT, WAIT);
      r := if reply.Err? then Response(CouldNotReceiveResponse, -1) else Response(NoError, reply.value as int);
    }

    // The two bytes of a setter.
    method SendCommandWithData(command: bv8, data: bv8)
      returns (err: KeyboardError, ghost first: seq<bv8>, ghost second: seq<bv8>)
      requires ValidCommand(command)
      modifies ports
      ensures Proper(old(ports.trace), ports.trace, 18 * WAIT)
      ensures SentTwoBytes(Talk(old(ports.trace)), Talk(ports.trace), activePort, command, data, first, second, err)
    {
      second := [];
      var obtained;
      obtained, first := SendCommandByte(command);
      ghost var t := ports.trace;
      if obtained.err != NoError {
        return obtained.err, first, second;
      }
      obtained, second := SendDataByte(data);
      ProperThen(old(ports.trace), t, ports.trace, 9 * WAIT, 9 * WAIT);
      return obtained.err, first, second;
    }

    // Set only after both bytes were acknowledged; an impossible set aborts.
    method SetScanCodeSet(set_: nat) returns (r: Option<KeyboardError>, ghost first: seq<bv8>, ghost second: seq<bv8>)
      modifies ports, `activeScancodeSet
      ensures Proper(old(ports.trace), ports.trace, 18 * WAIT)
      ensures r == None <==> set_ == 0 || set_ > 3
      ensures r == None ==> ports.trace == old(ports.trace)
      ensures activeScancodeSet == if r == Some(NoError) then set_ else old(activeScancodeSet)
      ensures r.Some? ==> SentTwoBytes(Talk(old(ports.trace)), Talk(ports.trace), activePort,
                                   GET_SET_SCAN_CODE_SET, set_ as bv8, first, second, r.value)
    {
      first, second := [], [];
      if set_ == 0 || set_ > 3 {
        return None, first, second;
      }
      var err;
      err, first, second := SendCommandWithData(GET_SET_SCAN_CODE_SET, set_ as bv8);
      if err == NoError {
        activeScancodeSet := set_;
      }
      return Some(err), first, second;
    }

    // The keyboard's own answer, believed only when it is 1, 2 or 3; the recorded set is not touched.
    method GetScanCodeSet() returns (r: Response, ghost first: seq<bv8>, ghost second: seq<bv8>, ghost value: bv8)
      modifies ports
      ensures Proper(old(ports.trace), ports.trace, 19 * WAIT)
      ensures r.response == if r.err == NoError then value as int else -1
      ensures Asked(Talk(old(ports.trace)), Talk(ports.trace), activePort, first, second, value, r.err)
    {
      second, value := [], 0;
      r, first := SendCommandByte(GET_SET_SCAN_CODE_SET);
      ghost var t := ports.trace;
      if r.err != NoError {
        r := r.(response := -1);
        return;
      }
      r, second, value := SendGetterByte(0);
      ProperThen(old(ports.trace), t, ports.trace, 9 * WAIT, 10 * WAIT);
      if r.err == NoError && (r.response == 0 || r.response > 3) {
        r := Response(InvalidScancode, -1);
      }
    }

    // echo_keyboard: the echo is the one answer that is neither an acknowledge nor a resend.
    method Echo() returns (r: KeyboardError, ghost replies: seq<bv8>)
      modifies ports
      ensures Proper(old(ports.trace), ports.trace, 9 * WAIT)
      ensures ControllerFailed(r) ==>
        SentByte(Talk(old(ports.trace)), Talk(ports.trace), activePort, ECHO, replies, r)
      ensures !ControllerFailed(r) ==>
        && SentByte(Talk(old(ports.trace)), Talk(ports.trace), activePort, ECHO, replies, Verdict(replies))
        && match FirstAnswer(replies)
           case None => r == ResendTooMuch
           case Some(b) => r == if b == 0xEE || b == 0xFA then NoError else ResponseWasNotEcho
    {
      var obtained;
      obtained, replies := SendCommandByte(ECHO);
      if !ControllerFailed(obtained.err) {
        LastIsFirstAnswer(replies);
      }
      if obtained.err != NonAckResponse {
        return obtained.err, replies;
      }
      return if obtained.response != ECHO as int then ResponseWasNotEcho else NoError, replies;
    }
  }

  // What get_scan_code_set says and reports.
  predicate Asked(base: seq<Access>, now: seq<Access>, port: nat, first: seq<bv8>, second: seq<bv8>, value: bv8,
                  e: KeyboardError) {
    var acked := base + Attempts(port, GET_SET_SCAN_CODE_SET, first);
    var answered := if e == InvalidScancode then NoError else e;
    || (e != NoError && second == [] && SentByte(base, now, port, GET_SET_SCAN_CODE_SET, first, e))
    || (SentByte(base, acked, port, GET_SET_SCAN_CODE_SET, first, NoError)
        && SentForValue(acked, now, port, 0, second, value, answered)
        && (answered == NoError ==> (e == NoError <==> 1 <= value <= 3)))
  }

  datatype Attempt = Ok(value: bv8) | Err(sent: bool)

  lemma LastIsFirstAnswer(replies: seq<bv8>)
    requires replies != [] && AllResend(replies[..|replies| - 1])
    ensures FirstAnswer(replies).Some? ==> FirstAnswer(replies) == Some(replies[|replies| - 1])
  {
    assert replies == replies[..|replies| - 1] + [replies[|replies| - 1]];
    FirstAnswerAfterResends(replies[..|replies| - 1], replies[|replies| - 1]);
  }

  // Success means that the first answer other than "send again" was an acknowledge; giving up
  // means that all three replies asked to send again; nothing is sent after an answer.
  lemma VerdictMeans(replies: seq<bv8>)
    requires 1 <= |replies| <= MAX_RESPONSE_REPEAT && AllResend(replies[..|replies| - 1])
    ensures Verdict(replies) == NoError <==> replies[|replies| - 1] == 0xFA
    ensures Verdict(replies) == ResendTooMuch <==> forall i | 0 <= i < |replies| :: replies[i] == 0xFE
    ensures Verdict(replies) == NonAckResponse <==>
            replies[|replies| - 1] != 0xFA && replies[|replies| - 1] != 0xFE
  {
    assert replies == replies[..|replies| - 1] + [replies[|replies| - 1]];
    FirstAnswerAfterResends(replies[..|replies| - 1], replies[|replies| - 1]);
  }
}
