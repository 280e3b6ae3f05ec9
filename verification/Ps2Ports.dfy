// The three I/O ports of the PS/2 controller, in front of an arbitrary device. Every access is
// recorded, so that the rules of the protocol are statements about the record.

module Ps2Ports {
  const MAX_PS2_WAIT_LOOP: nat := 1000

  // The last three are no accesses: they mark where the host gave up.
  datatype Access =
    | IoWait                      // write to the unused port 0x80
    | ReadStatus(value: bv8)      // in 0x64
    | ReadData(value: bv8)        // in 0x60
    | WriteCommand(value: bv8)    // out 0x64
    | WriteData(value: bv8)       // out 0x60
    | GaveUpReading               // no response came
    | GaveUpWriting               // the input buffer stayed full
    | BadStatus(value: bv8)       // a parity or timeout error instead of a clean status

  predicate OutputBufferFull(status: bv8) { status & 0x01 != 0 }
  predicate InputBufferFull(status: bv8) { status & 0x02 != 0 }
  predicate TimeoutError(status: bv8) { status & 0x40 != 0 }
  predicate ParityError(status: bv8) { status & 0x80 != 0 }

  predicate CleanForInput(status: bv8) {
    !InputBufferFull(status) && !ParityError(status) && !TimeoutError(status)
  }

  predicate IsBad(status: bv8) { !InputBufferFull(status) && !CleanForInput(status) }

  function Last(t: seq<Access>): Access { if t == [] then IoWait else t[|t| - 1] }

  // The last access was a status read that allows a write, or the reading of a response.
  predicate ReadyToWrite(t: seq<Access>) { Last(t).ReadStatus? && CleanForInput(Last(t).value) }
  predicate ReadyToRead(t: seq<Access>) { Last(t).ReadStatus? && OutputBufferFull(Last(t).value) }

  // How many polls in a row, up to the end, saw no response (a full input buffer).
  function QuietPolls(t: seq<Access>): nat
    decreases |t|
  {
    if Last(t).ReadStatus? && !OutputBufferFull(Last(t).value) then 1 + QuietPolls(t[..|t| - 1])
    else if t != [] && Last(t).IoWait? then QuietPolls(t[..|t| - 1])
    else 0
  }

  function BusyPolls(t: seq<Access>): nat
    decreases |t|
  {
    if Last(t).ReadStatus? && InputBufferFull(Last(t).value) then 1 + BusyPolls(t[..|t| - 1])
    else if t != [] && Last(t).IoWait? then BusyPolls(t[..|t| - 1])
    else 0
  }

  // The rule for the i-th access: look at the status right before you write or read, and give up
  // only after MAX_PS2_WAIT_LOOP polls in vain, or on an error status.
  predicate Guarded(t: seq<Access>, i: nat)
    requires i < |t|
  {
    match t[i]
    case WriteCommand(_) => ReadyToWrite(t[..i])
    case WriteData(_) => ReadyToWrite(t[..i])
    case ReadData(_) => ReadyToRead(t[..i])
    case GaveUpReading => QuietPolls(t[..i]) >= MAX_PS2_WAIT_LOOP
    case GaveUpWriting => BusyPolls(t[..i]) >= MAX_PS2_WAIT_LOOP
    case BadStatus(v) => Last(t[..i]) == ReadStatus(v) && IsBad(v)
    case _ => true
  }

  // How often the status port was read.
  function Polls(t: seq<Access>): nat
    decreases |t|
  {
    if t == [] then 0
    else Polls(t[..|t| - 1]) + if t[|t| - 1].ReadStatus? then 1 else 0
  }

  // The conversation: commands, data and responses, and the waits given up.
  function Talk(t: seq<Access>): seq<Access>
    decreases |t|
  {
    if t == [] then []
    else
      var a := t[|t| - 1];
      Talk(t[..|t| - 1]) + if a.IoWait? || a.ReadStatus? then [] else [a]
  }

  lemma OneMore(t: seq<Access>, a: Access)
    ensures (t + [a])[..|t|] == t
    ensures Polls(t + [a]) == Polls(t) + if a.ReadStatus? then 1 else 0
    ensures Talk(t + [a]) == Talk(t) + if a.IoWait? || a.ReadStatus? then [] else [a]
  {
    assert (t + [a])[..|t|] == t;
  }

  lemma OneMorePoll(t: seq<Access>, status: bv8)
    ensures !OutputBufferFull(status) ==> QuietPolls(t + [IoWait, ReadStatus(status)]) == QuietPolls(t) + 1
    ensures InputBufferFull(status) ==> BusyPolls(t + [IoWait, ReadStatus(status)]) == BusyPolls(t) + 1
  {
    assert (t + [IoWait, ReadStatus(status)])[..|t| + 1] == t + [IoWait];
    assert (t + [IoWait])[..|t|] == t;
  }

  lemma Concat(a: seq<Access>, b: seq<Access>, c: seq<Access>)
    ensures a + b + c == a + (b + c)
  {}

  // From `before` to `after` every access was guarded, with at most `polls` status reads.
  ghost predicate Proper(before: seq<Access>, after: seq<Access>, polls: nat) {
    && before <= after
    && (forall i | |before| <= i < |after| :: Guarded(after, i))
    && Polls(after) <= Polls(before) + polls
  }

  predicate IsWrite(a: Access) { a.WriteCommand? || a.WriteData? }

  lemma GuardedInPrefix(t: seq<Access>, u: seq<Access>, i: nat)
    requires t <= u && i < |t|
    ensures Guarded(u, i) == Guarded(t, i)
  {
    assert u[..i] == t[..i];
  }

  lemma ProperThen(a: seq<Access>, b: seq<Access>, c: seq<Access>, m: nat, n: nat)
    requires Proper(a, b, m) && Proper(b, c, n)
    ensures Proper(a, c, m + n)
  {
    forall i | |a| <= i < |c| ensures Guarded(c, i) {
      if i < |b| {
        GuardedInPrefix(b, c, i);
      }
    }
  }

  // ---------------------------------------------------------------- the ports

  class Ports {
    const status: seq<Access> -> bv8    // what the device answers, given all that happened before
    const data: seq<Access> -> bv8
    var trace: seq<Access>

    constructor (status: seq<Access> -> bv8, data: seq<Access> -> bv8)
      ensures trace == [] && this.status == status && this.data == data
    {
      this.status, this.data, trace := status, data, [];
    }

    method Wait()
      modifies this
      ensures trace == old(trace) + [IoWait]
      ensures Polls(trace) == Polls(old(trace)) && Talk(trace) == Talk(old(trace))
    {
      OneMore(trace, IoWait);
      trace := trace + [IoWait];
    }

    method InStatus() returns (v: bv8)
      modifies this
      ensures trace == old(trace) + [ReadStatus(v)] && v == status(old(trace))
      ensures Polls(trace) == Polls(old(trace)) + 1 && Talk(trace) == Talk(old(trace))
    {
      v := status(trace);
      OneMore(trace, ReadStatus(v));
      trace := trace + [ReadStatus(v)];
    }

    // Without looking at the status first.
    method InDataUnguarded() returns (v: bv8)
      modifies this
      ensures trace == old(trace) + [ReadData(v)] && v == data(old(trace))
      ensures Polls(trace) == Polls(old(trace)) && Talk(trace) == Talk(old(trace)) + [ReadData(v)]
    {
      v := data(trace);
      OneMore(trace, ReadData(v));
      trace := trace + [ReadData(v)];
    }

    method InData() returns (v: bv8)
      requires ReadyToRead(trace)
      modifies this
      ensures v == data(old(trace)) && Last(trace) == ReadData(v)
      ensures Proper(old(trace), trace, 0) && Talk(trace) == Talk(old(trace)) + [ReadData(v)]
    {
      v := InDataUnguarded();
      OneMore(old(trace), ReadData(v));
    }

    method OutCommand(b: bv8)
      requires ReadyToWrite(trace)
      modifies this
      ensures Proper(old(trace), trace, 0) && Talk(trace) == Talk(old(trace)) + [WriteCommand(b)]
    {
      OneMore(trace, WriteCommand(b));
      trace := trace + [WriteCommand(b)];
    }

    method OutData(b: bv8)
      requires ReadyToWrite(trace)
      modifies this
      ensures Proper(old(trace), trace, 0) && Talk(trace) == Talk(old(trace)) + [WriteData(b)]
    {
      OneMore(trace, WriteData(b));
      trace := trace + [WriteData(b)];
    }

    // Marks that the host stops waiting.
    method GiveUp(mark: Access)
      requires mark.GaveUpReading? || mark.GaveUpWriting? || mark.BadStatus?
      requires mark.GaveUpReading? ==> QuietPolls(trace) >= MAX_PS2_WAIT_LOOP
      requires mark.GaveUpWriting? ==> BusyPolls(trace) >= MAX_PS2_WAIT_LOOP
      requires mark.BadStatus? ==> Last(trace) == ReadStatus(mark.value) && IsBad(mark.value)
      modifies this
      ensures trace == old(trace) + [mark]
      ensures Proper(old(trace), trace, 0) && Talk(trace) == Talk(old(trace)) + [mark]
    {
      OneMore(trace, mark);
      trace := trace + [mark];
    }
  }
}
