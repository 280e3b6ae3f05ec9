// The cores' print jobs. A job is one vkprintf call: a format and its arguments. What a core says
// inside the lock is not any character now but the next one of the job it is in; a call made
// while another one is open on the same core prints in the middle of it.

module ConsoleRuns {
  import opened LockWord
  import L = LockMachine
  import P = PrintAtomicity
  import F = Formatter
  import T = FormatText

  datatype Job = Job(fmt: string, args: seq<F.Arg>, float: F.FloatText, stale: nat -> T.Leftover)

  function Text(j: Job): string { F.Output(j.fmt, j.args, j.float, j.stale) }

  // A call and what it printed, in order: characters of its own, and calls made inside it.
  datatype Call = Call(job: Job, said: Said)
  datatype Said = Nothing | Own(before: Said, ch: char) | Inner(before: Said, call: Call)

  function OwnText(s: Said): string {
    match s
    case Nothing => ""
    case Own(before, ch) => OwnText(before) + [ch]
    case Inner(before, _) => OwnText(before)
  }

  function WholeText(s: Said): string {
    match s
    case Nothing => ""
    case Own(before, ch) => WholeText(before) + [ch]
    case Inner(before, call) => WholeText(before) + WholeText(call.said)
  }

  // A finished call said what its job says, and so did every call inside it.
  ghost predicate Complete(c: Call) { Finished(c) && InnerComplete(c.said) }
  predicate Finished(c: Call) { OwnText(c.said) == Text(c.job) && !F.Stops(c.job.fmt) }

  ghost predicate InnerComplete(s: Said) {
    match s
    case Nothing => true
    case Own(before, _) => InnerComplete(before)
    case Inner(before, call) => InnerComplete(before) && Finished(call) && InnerComplete(call.said)
  }

  // ---------------------------------------------------------------- the cores

  // stacks: the calls a core is inside of or entering, outermost first; done: the finished
  // outermost calls, as in console.finished.
  datatype State = State(console: P.State, stacks: map<CoreId, seq<Call>>, done: seq<Call>)

  datatype Action =
    | Start(core: CoreId, job: Job)
    | Emit(core: CoreId)
    | Return(core: CoreId)
    | Tick(core: CoreId, spurious: bool)

  function Last(stack: seq<Call>): Call
    requires stack != []
  {
    stack[|stack| - 1]
  }

  function Before(stack: seq<Call>): seq<Call>
    requires stack != []
  {
    stack[..|stack| - 1]
  }

  // A job that stops the kernel never returns.
  function Next(s: State, a: Action): State {
    if a.core !in s.console.printers || a.core !in s.stacks then s
    else
      var c, stack, p := a.core, s.stacks[a.core], s.console.printers[a.core];
      match a
      case Start(_, job) =>
        if p.mode != P.Running then s
        else s.(console := P.Next(s.console, P.Begin(c)), stacks := s.stacks[c := stack + [Call(job, Nothing)]])
      case Emit(_) =>
        if p.mode != P.Running || stack == [] || !(OwnText(Last(stack).said) < Text(Last(stack).job)) then s
        else
          var ch := NextChar(Last(stack));
          s.(console := P.Next(s.console, P.Say(c, ch)),
             stacks := s.stacks[c := Before(stack) + [Last(stack).(said := Own(Last(stack).said, ch))]])
      case Return(_) =>
        if p.mode != P.Running || stack == [] || !Finished(Last(stack)) then s
        else s.(console := P.Next(s.console, P.End(c)))
      case Tick(_, spurious) => Ticked(s, c, P.Next(s.console, P.Tick(c, spurious)))
  }

  // The call a core leaves is over when the lock is given back.
  function Ticked(s: State, c: CoreId, console: P.State): State
    requires c in s.stacks && c in s.console.printers
  {
    var t := s.(console := console);
    if s.console.printers[c].mode == P.Leaving && c in console.printers && console.printers[c].mode == P.Running
       && s.stacks[c] != []
    then Popped(t, c)
    else t
  }

  function NextChar(call: Call): char
    requires OwnText(call.said) < Text(call.job)
  {
    Text(call.job)[|OwnText(call.said)|]
  }

  function Popped(s: State, c: CoreId): State
    requires c in s.stacks && s.stacks[c] != []
  {
    var stack := s.stacks[c];
    if |stack| == 1 then s.(stacks := s.stacks[c := []], done := s.done + stack)
    else s.(stacks := s.stacks[c := Returned(stack)])
  }

  function Returned(stack: seq<Call>): seq<Call>
    requires |stack| > 1
  {
    Before(Before(stack)) + [Last(Before(stack)).(said := Inner(Last(Before(stack)).said, Last(stack)))]
  }

  function Run(s: State, schedule: seq<Action>): State
    decreases |schedule|
  {
    if schedule == [] then s else Run(Next(s, schedule[0]), schedule[1..])
  }

  predicate Initial(s: State) {
    && P.Initial(s.console) && s.stacks.Keys == s.console.printers.Keys && s.done == []
    && forall c <- s.stacks :: s.stacks[c] == []
  }

  // ---------------------------------------------------------------- what every step keeps

  function StackText(stack: seq<Call>): string
    decreases |stack|
  {
    if stack == [] then "" else StackText(Before(stack)) + WholeText(Last(stack).said)
  }

  ghost predicate Open(call: Call) { OwnText(call.said) <= Text(call.job) && InnerComplete(call.said) }

  // How a core's open calls fit its place in the lock.
  ghost predicate CoreOk(p: P.Printer, stack: seq<Call>) {
    && |stack| == p.frames + (if p.mode == P.Entering then 1 else 0)
    && (p.mode == P.Entering ==> Last(stack).said == Nothing)
    && (p.mode == P.Leaving ==> stack != [] && Finished(Last(stack)))
    && (stack != [] ==> p.spoken == StackText(stack))
    && (forall i | 0 <= i < |stack| :: Open(stack[i]))
  }

  ghost predicate DoneOk(finished: seq<P.Transcript>, done: seq<Call>) {
    && |finished| == |done|
    && forall i | 0 <= i < |done| :: Complete(done[i]) && finished[i].text == WholeText(done[i].said)
  }

  ghost predicate CoresOk(printers: map<CoreId, P.Printer>, stacks: map<CoreId, seq<Call>>) {
    && stacks.Keys == printers.Keys
    && forall c | c in stacks :: CoreOk(printers[c], stacks[c])
  }

  ghost predicate Fits(s: State) {
    CoresOk(s.console.printers, s.stacks) && DoneOk(s.console.finished, s.done)
  }

  lemma {:induction false} PushKeepsCoreOk(p: P.Printer, p': P.Printer, stack: seq<Call>, job: Job)
    requires CoreOk(p, stack) && p.mode == P.Running && p'.mode == P.Entering && p'.frames == p.frames
    requires p'.spoken == if p.frames == 0 then "" else p.spoken
    ensures CoreOk(p', stack + [Call(job, Nothing)])
  {
    var stack' := stack + [Call(job, Nothing)];
    assert Before(stack') == stack;
    assert OwnText(Nothing) == "" <= Text(job);
    assert StackText(stack') == StackText(stack) + "";
  }

  lemma {:induction false} EmitKeepsCoreOk(p: P.Printer, stack: seq<Call>)
    requires CoreOk(p, stack) && p.mode == P.Running && stack != [] && OwnText(Last(stack).said) < Text(Last(stack).job)
    ensures var ch := NextChar(Last(stack));
      CoreOk(p.(spoken := p.spoken + [ch]), Before(stack) + [Last(stack).(said := Own(Last(stack).said, ch))])
  {
    var call, ch := Last(stack), NextChar(Last(stack));
    var stack' := Before(stack) + [call.(said := Own(call.said, ch))];
    assert Before(stack') == Before(stack);
    assert Open(stack[|stack| - 1]);
  }

  lemma {:induction false} PopKeepsCoreOk(p: P.Printer, stack: seq<Call>)
    requires CoreOk(p, stack) && p.mode == P.Leaving && |stack| > 1
    ensures CoreOk(p.(mode := P.Running, frames := p.frames - 1), Returned(stack))
  {
    var parent, call := Last(Before(stack)), Last(stack);
    assert Open(parent) by { assert Open(stack[|stack| - 2]); }
    assert InnerComplete(call.said) by { assert Open(stack[|stack| - 1]); }
    ReturnedText(stack);
  }

  lemma {:induction false} ReturnedText(stack: seq<Call>)
    requires |stack| > 1
    ensures StackText(Returned(stack)) == StackText(stack)
  {
    assert Before(Returned(stack)) == Before(Before(stack));
  }

  lemma {:induction false} MoveKeepsCoresOk(printers: map<CoreId, P.Printer>, stacks: map<CoreId, seq<Call>>,
                                            c: CoreId, p: P.Printer, stack: seq<Call>)
    requires CoresOk(printers, stacks) && c in stacks && CoreOk(p, stack)
    ensures CoresOk(printers[c := p], stacks[c := stack])
  {}

  lemma {:induction false} PrinterKeepsCoresOk(printers: map<CoreId, P.Printer>, stacks: map<CoreId, seq<Call>>,
                                               c: CoreId, p: P.Printer)
    requires CoresOk(printers, stacks) && c in stacks && CoreOk(p, stacks[c])
    ensures CoresOk(printers[c := p], stacks)
  {}

  lemma {:induction false} StartKeepsFit(s: State, c: CoreId, job: Job)
    requires Fits(s) && c in s.stacks && s.console.printers[c].mode == P.Running
    ensures Fits(Next(s, Start(c, job)))
  {
    var p, p' := s.console.printers[c], P.Next(s.console, P.Begin(c)).printers[c];
    PushKeepsCoreOk(p, p', s.stacks[c], job);
    MoveKeepsCoresOk(s.console.printers, s.stacks, c, p', s.stacks[c] + [Call(job, Nothing)]);
  }

  lemma {:induction false} EmitKeepsFit(s: State, c: CoreId)
    requires Fits(s) && c in s.stacks && s.console.printers[c].mode == P.Running && s.stacks[c] != []
    requires OwnText(Last(s.stacks[c]).said) < Text(Last(s.stacks[c]).job)
    ensures Fits(Next(s, Emit(c)))
  {
    var p, stack := s.console.printers[c], s.stacks[c];
    var ch := NextChar(Last(stack));
    EmitKeepsCoreOk(p, stack);
    MoveKeepsCoresOk(s.console.printers, s.stacks, c, p.(spoken := p.spoken + [ch]),
                     Before(stack) + [Last(stack).(said := Own(Last(stack).said, ch))]);
  }

  lemma {:induction false} ReturnKeepsFit(s: State, c: CoreId)
    requires Fits(s) && c in s.stacks && s.console.printers[c].mode == P.Running && s.stacks[c] != []
    requires Finished(Last(s.stacks[c]))
    ensures Fits(Next(s, Return(c)))
  {
    var p, stack := s.console.printers[c], s.stacks[c];
    LeavingCoreOk(p, stack);
    EndOf(s.console, c);
    PrinterKeepsCoresOk(s.console.printers, s.stacks, c, p.(mode := P.Leaving));
  }

  lemma {:induction false} EndOf(s: P.State, c: CoreId)
    requires c in s.printers && s.printers[c].mode == P.Running && s.printers[c].frames > 0
    ensures var t := P.Next(s, P.End(c));
      t.printers == s.printers[c := s.printers[c].(mode := P.Leaving)] && t.finished == s.finished
  {}

  lemma {:induction false} LeavingCoreOk(p: P.Printer, stack: seq<Call>)
    requires CoreOk(p, stack) && p.mode == P.Running && stack != [] && Finished(Last(stack))
    ensures CoreOk(p.(mode := P.Leaving), stack) && p.frames > 0
  {}

  lemma {:induction false} EnteredCoreOk(p: P.Printer, stack: seq<Call>)
    requires CoreOk(p, stack) && p.mode == P.Entering
    ensures CoreOk(p.(mode := P.Running, frames := p.frames + 1), stack)
  {}

  lemma {:induction false} OutsideCoreOk(p: P.Printer)
    requires p.frames == 0 && p.mode == P.Running
    ensures CoreOk(p, [])
  {}

  // A tick only moves the lock on, or lets the lock operation return.
  lemma {:induction false} TickMayReturn(s: P.State, c: CoreId, spurious: bool) returns (u: P.State, returned: bool)
    requires c in s.printers && s.printers[c].mode != P.Running
    ensures u.printers == s.printers && u.out == s.out && u.finished == s.finished
    ensures P.Next(s, P.Tick(c, spurious)) == P.Returned(u, c, returned)
  {
    var (lock', es) := L.Next(s.lock, L.Step(c, spurious));
    u, returned := s.(lock := lock'), es != [];
  }

  lemma {:induction false} TickKeepsFit(s: State, c: CoreId, spurious: bool)
    requires Fits(s) && c in s.stacks && s.console.printers[c].mode != P.Running
    ensures Fits(Next(s, Tick(c, spurious)))
  {
    var u, returned := TickMayReturn(s.console, c, spurious);
    var p, t := s.console.printers[c], P.Returned(u, c, returned);
    if !returned {
      NotReturned(s, c, t);
    } else if p.mode == P.Entering {
      EnterKeepsFit(s, c, t);
    } else if p.frames == 1 {
      OutermostKeepsFit(s, c, t);
    } else {
      InnerKeepsFit(s, c, t);
    }
  }

  lemma {:induction false} NotReturned(s: State, c: CoreId, t: P.State)
    requires Fits(s) && c in s.stacks
    requires t.printers == s.console.printers && t.finished == s.console.finished
    ensures Fits(Ticked(s, c, t))
  {}

  lemma {:induction false} EnterKeepsFit(s: State, c: CoreId, t: P.State)
    requires Fits(s) && c in s.stacks && s.console.printers[c].mode == P.Entering
    requires t.printers == var p := s.console.printers[c]; s.console.printers[c := p.(mode := P.Running, frames := p.frames + 1)]
    requires t.finished == s.console.finished
    ensures Fits(Ticked(s, c, t))
  {
    var p := s.console.printers[c];
    EnteredCoreOk(p, s.stacks[c]);
    PrinterKeepsCoresOk(s.console.printers, s.stacks, c, p.(mode := P.Running, frames := p.frames + 1));
  }

  lemma {:induction false} InnerKeepsFit(s: State, c: CoreId, t: P.State)
    requires Fits(s) && c in s.stacks && s.console.printers[c].mode == P.Leaving && s.console.printers[c].frames > 1
    requires t.printers == var p := s.console.printers[c]; s.console.printers[c := p.(mode := P.Running, frames := p.frames - 1)]
    requires t.finished == s.console.finished
    ensures Fits(Ticked(s, c, t))
  {
    var p, stack := s.console.printers[c], s.stacks[c];
    PopKeepsCoreOk(p, stack);
    MoveKeepsCoresOk(s.console.printers, s.stacks, c, p.(mode := P.Running, frames := p.frames - 1), Returned(stack));
  }

  lemma {:induction false} OutermostKeepsFit(s: State, c: CoreId, t: P.State)
    requires Fits(s) && c in s.stacks && s.console.printers[c].mode == P.Leaving && s.console.printers[c].frames == 1
    requires t.printers == s.console.printers[c := s.console.printers[c].(mode := P.Running, frames := 0)]
    requires |t.finished| == |s.console.finished| + 1 && t.finished[..|s.console.finished|] == s.console.finished
    requires t.finished[|s.console.finished|].text == s.console.printers[c].spoken
    ensures Fits(Ticked(s, c, t))
  {
    var p, stack := s.console.printers[c], s.stacks[c];
    OutsideCoreOk(p.(mode := P.Running, frames := 0));
    MoveKeepsCoresOk(s.console.printers, s.stacks, c, p.(mode := P.Running, frames := 0), []);
    OneMoreDone(s.console.finished, s.done, t.finished, stack, p.spoken);
  }

  lemma {:induction false} OneMoreDone(finished: seq<P.Transcript>, done: seq<Call>, finished': seq<P.Transcript>,
                                       stack: seq<Call>, spoken: string)
    requires DoneOk(finished, done) && |stack| == 1 && Open(stack[0]) && Finished(stack[0]) && spoken == StackText(stack)
    requires |finished'| == |finished| + 1 && finished'[..|finished|] == finished && finished'[|finished|].text == spoken
    ensures DoneOk(finished', done + stack)
  {
    assert StackText(Before(stack)) == "" && spoken == "" + WholeText(stack[0].said);
    forall i | 0 <= i < |finished| ensures finished'[i] == finished[i] {
      assert finished'[..|finished|][i] == finished[i];
    }
  }

  lemma {:induction false} NextKeepsFit(s: State, a: Action)
    requires Fits(s)
    ensures Fits(Next(s, a))
  {
    if a.core in s.stacks {
      var c := a.core;
      var p, stack := s.console.printers[c], s.stacks[c];
      match a
      case Start(_, job) => if p.mode == P.Running { StartKeepsFit(s, c, job); }
      case Emit(_) =>
        if p.mode == P.Running && stack != [] && OwnText(Last(stack).said) < Text(Last(stack).job) { EmitKeepsFit(s, c); }
      case Return(_) => if p.mode == P.Running && stack != [] && Finished(Last(stack)) { ReturnKeepsFit(s, c); }
      case Tick(_, spurious) => if p.mode != P.Running { TickKeepsFit(s, c, spurious); }
    }
  }

  // The console takes a step of its own, or none.
  lemma {:induction false} ConsoleStep(s: State, a: Action) returns (b: P.Action)
    ensures Next(s, a).console == s.console || Next(s, a).console == P.Next(s.console, b)
  {
    var c := a.core;
    match a
    case Start(_, _) => b := P.Begin(c);
    case Emit(_) =>
      b := P.End(c);
      if c in s.stacks && s.stacks[c] != [] && OwnText(Last(s.stacks[c]).said) < Text(Last(s.stacks[c]).job) {
        b := P.Say(c, NextChar(Last(s.stacks[c])));
      }
    case Return(_) => b := P.End(c);
    case Tick(_, spurious) => b := P.Tick(c, spurious);
  }

  lemma {:induction false} NextKeepsConsole(s: State, a: Action)
    requires P.AllOk(s.console)
    ensures P.AllOk(Next(s, a).console)
  {
    var b := ConsoleStep(s, a);
    P.NextKeepsAll(s.console, b);
  }

  lemma {:induction false} RunKeepsFit(s: State, schedule: seq<Action>)
    requires P.AllOk(s.console) && Fits(s)
    ensures P.AllOk(Run(s, schedule).console) && Fits(Run(s, schedule))
    decreases |schedule|
  {
    if schedule != [] {
      NextKeepsConsole(s, schedule[0]);
      NextKeepsFit(s, schedule[0]);
      RunKeepsFit(Next(s, schedule[0]), schedule[1..]);
    }
  }

  lemma {:induction false} InitialFits(s: State)
    requires Initial(s)
    ensures P.AllOk(s.console) && Fits(s)
  {
    P.InitialIsOk(s.console);
  }

  // ---------------------------------------------------------------- main results

  // In every interleaving the k-th finished outermost call is one block of the output, whole and
  // once, and its text is what its job says, with the calls made inside it, each as complete,
  // where they were made.
  lemma {:induction false} EveryBlockIsItsJob(s: State, schedule: seq<Action>)
    requires Initial(s)
    ensures var t := Run(s, schedule);
      && P.Contiguous(t.console.out) && |t.console.finished| == |t.done|
      && forall i | 0 <= i < |t.done| ::
           && Complete(t.done[i]) && t.console.finished[i].text == WholeText(t.done[i].said)
           && P.Printed(t.console.out, t.console.finished[i])
  {
    InitialFits(s);
    RunKeepsFit(s, schedule);
  }

  predicate WithoutInner(s: Said) {
    match s
    case Nothing => true
    case Own(before, _) => WithoutInner(before)
    case Inner(_, _) => false
  }

  lemma {:induction false} OwnIsWhole(s: Said)
    requires WithoutInner(s)
    ensures WholeText(s) == OwnText(s)
  {
    if s.Own? {
      OwnIsWhole(s.before);
    }
  }

  // A call with no other call inside it prints the interpretation of its format.
  lemma {:induction false} BlockIsInterpretation(c: Call)
    requires Complete(c) && WithoutInner(c.said)
    requires T.WellFormed(c.job.fmt) && |c.job.fmt| < 0x1_0000
    requires |T.Specs(c.job.fmt)| <= F.MAX_SPECS && T.StaleOk(T.Specs(c.job.fmt), c.job.stale)
    ensures WholeText(c.said) == F.Interpret(c.job.fmt, 0, c.job.args, c.job.float)
  {
    OwnIsWhole(c.said);
    F.OutputIsInterpretation(c.job.fmt, c.job.args, c.job.float, c.job.stale);
  }

  function Chars(out: seq<P.Glyph>): (s: string)
    ensures |s| == |out| && forall i | 0 <= i < |out| :: s[i] == out[i].ch
  {
    seq(|out|, i requires 0 <= i < |out| => out[i].ch)
  }

  function TextOf(done: seq<Call>): string {
    if done == [] then "" else TextOf(done[..|done| - 1]) + WholeText(done[|done| - 1].said)
  }

  lemma {:induction false} BlocksSpell(finished: seq<P.Transcript>, done: seq<Call>)
    requires |finished| == |done| && forall i | 0 <= i < |done| :: finished[i].text == WholeText(done[i].said)
    ensures Chars(P.Blocks(finished)) == TextOf(done)
    decreases |done|
  {
    if done != [] {
      var n := |done| - 1;
      BlocksSpell(finished[..n], done[..n]);
      assert finished == finished[..n] + [finished[n]] && done == done[..n] + [done[n]];
      OneMoreSpelled(finished[..n], finished[n], done[..n], done[n]);
    }
  }

  lemma {:induction false} OneMoreSpelled(finished: seq<P.Transcript>, f: P.Transcript, done: seq<Call>, call: Call)
    requires Chars(P.Blocks(finished)) == TextOf(done) && f.text == WholeText(call.said)
    ensures Chars(P.Blocks(finished + [f])) == TextOf(done + [call])
  {
    P.OneMoreBlock(finished, f);
    SpokenIsLast(P.Blocks(finished + [f]), P.Blocks(finished), f.core, f.call, f.text);
    assert (done + [call])[..|done|] == done;
  }

  // The screen holds the texts of the finished calls one after another, and behind them what the
  // call has said that is still open.
  lemma {:induction false} ScreenIsTheCalls(s: State, schedule: seq<Action>)
    requires Initial(s)
    ensures var t := Run(s, schedule);
      && P.OneSpeaker(t.console) && t.stacks.Keys == t.console.printers.Keys
      && (P.NobodyInside(t.console.printers) ==> Chars(t.console.out) == TextOf(t.done))
      && forall c | c in t.stacks && t.console.printers[c].frames > 0 ::
           Chars(t.console.out) == TextOf(t.done) + StackText(t.stacks[c])
  {
    InitialFits(s);
    RunKeepsFit(s, schedule);
    var t := Run(s, schedule);
    P.HoldersAreOne(t.console);
    BlocksSpell(t.console.finished, t.done);
    forall c | c in t.stacks && t.console.printers[c].frames > 0
      ensures Chars(t.console.out) == TextOf(t.done) + StackText(t.stacks[c])
    {
      var p := t.console.printers[c];
      SpokenIsLast(t.console.out, P.Blocks(t.console.finished), c, p.outermost, p.spoken);
    }
  }

  lemma {:induction false} SpokenIsLast(out: seq<P.Glyph>, before: seq<P.Glyph>, c: CoreId, call: nat, text: string)
    requires out == before + P.Tagged(c, call, text)
    ensures Chars(out) == Chars(before) + text
  {}

  // ---------------------------------------------------------------- a job alone

  // Where core c is.
  ghost predicate Here(s: State, c: CoreId, word: Word, pc: L.Pc, mode: P.Mode, frames: nat, stack: seq<Call>, done: seq<Call>) {
    && c in s.stacks && c in s.console.printers && c in s.console.lock.cores
    && s.console.lock.word == word && s.console.lock.cores[c].pc == pc
    && s.console.printers[c].mode == mode && s.console.printers[c].frames == frames
    && s.stacks[c] == stack && s.done == done
  }

  lemma {:induction false} Starts(s: State, c: CoreId, word: Word, done: seq<Call>, job: Job)
    requires Here(s, c, word, L.Idle, P.Running, 0, [], done)
    ensures Here(Next(s, Start(c, job)), c, word, L.LockLoad, P.Entering, 0, [Call(job, Nothing)], done)
  {}

  lemma {:induction false} TicksOn(s: State, c: CoreId, word: Word, pc: L.Pc, mode: P.Mode, frames: nat,
                                   stack: seq<Call>, done: seq<Call>, word': Word, pc': L.Pc)
    requires Here(s, c, word, pc, mode, frames, stack, done) && mode != P.Running && !pc.Idle?
    requires L.Access(c, word, pc, false) == L.Effect(word', pc', [])
    ensures Here(Next(s, Tick(c, false)), c, word', pc', mode, frames, stack, done)
  {}

  lemma {:induction false} Enters(s: State, c: CoreId, word: Word, pc: L.Pc, frames: nat, stack: seq<Call>, done: seq<Call>,
                                  word': Word)
    requires Here(s, c, word, pc, P.Entering, frames, stack, done) && !pc.Idle?
    requires L.Access(c, word, pc, false) == L.Effect(word', L.Idle, [L.Acquired(c)])
    ensures Here(Next(s, Tick(c, false)), c, word', L.Idle, P.Running, frames + 1, stack, done)
  {}

  lemma {:induction false} Leaves(s: State, c: CoreId, word: Word, pc: L.Pc, stack: seq<Call>, done: seq<Call>, word': Word)
    requires Here(s, c, word, pc, P.Leaving, 1, stack, done) && !pc.Idle? && |stack| == 1
    requires L.Access(c, word, pc, false) == L.Effect(word', L.Idle, [L.Released(c)])
    ensures Here(Next(s, Tick(c, false)), c, word', L.Idle, P.Running, 0, [], done + stack)
  {}

  lemma {:induction false} Emits(s: State, c: CoreId, word: Word, call: Call, done: seq<Call>)
    requires Here(s, c, word, L.Idle, P.Running, 1, [call], done) && OwnText(call.said) < Text(call.job)
    ensures Here(Next(s, Emit(c)), c, word, L.Idle, P.Running, 1, [call.(said := Own(call.said, NextChar(call)))], done)
  {
    assert Before([call]) == [];
  }

  lemma {:induction false} Returns(s: State, c: CoreId, word: Word, call: Call, done: seq<Call>)
    requires Here(s, c, word, L.Idle, P.Running, 1, [call], done) && Finished(call)
    ensures Here(Next(s, Return(c)), c, word, L.UnlockLoad, P.Leaving, 1, [call], done)
  {}

  lemma {:induction false} RunAppend(s: State, a: seq<Action>, b: seq<Action>)
    ensures Run(s, a + b) == Run(Run(s, a), b)
    decreases |a|
  {
    if a == [] {
      assert a + b == b;
    } else {
      assert (a + b)[1..] == a[1..] + b;
      RunAppend(Next(s, a[0]), a[1..], b);
    }
  }

  lemma {:induction false} RunOne(s: State, a: Action, rest: seq<Action>)
    ensures Run(s, [a] + rest) == Run(Next(s, a), rest)
  {
    assert ([a] + rest)[1..] == rest;
  }

  lemma {:induction false} SaysAll(s: State, c: CoreId, word: Word, call: Call, done: seq<Call>)
    returns (schedule: seq<Action>, call': Call)
    requires Here(s, c, word, L.Idle, P.Running, 1, [call], done)
    requires OwnText(call.said) <= Text(call.job) && WithoutInner(call.said)
    ensures Here(Run(s, schedule), c, word, L.Idle, P.Running, 1, [call'], done)
    ensures call'.job == call.job && OwnText(call'.said) == Text(call.job) && WithoutInner(call'.said)
    decreases |Text(call.job)| - |OwnText(call.said)|
  {
    if OwnText(call.said) == Text(call.job) {
      return [], call;
    }
    Emits(s, c, word, call, done);
    schedule, call' := SaysAll(Next(s, Emit(c)), c, word, call.(said := Own(call.said, NextChar(call))), done);
    RunOne(s, Emit(c), schedule);
    schedule := [Emit(c)] + schedule;
  }

  lemma {:induction false} EntersAlone(s: State, c: CoreId, done: seq<Call>, job: Job) returns (schedule: seq<Action>)
    requires Here(s, c, 0, L.Idle, P.Running, 0, [], done)
    ensures Here(Run(s, schedule), c, Fresh(c), L.Idle, P.Running, 1, [Call(job, Nothing)], done)
  {
    var tick, stack := Tick(c, false), [Call(job, Nothing)];
    var s1 := Next(s, Start(c, job));
    var s2, s3 := Next(s1, tick), Next(Next(s1, tick), tick);
    L.SlowPath(c);
    Starts(s, c, 0, done, job);
    TicksOn(s1, c, 0, L.LockLoad, P.Entering, 0, stack, done, 0, L.TryLoad(true));
    TicksOn(s2, c, 0, L.TryLoad(true), P.Entering, 0, stack, done, 0, L.TryCas(true, 0, Fresh(c)));
    Enters(s3, c, 0, L.TryCas(true, 0, Fresh(c)), 0, stack, done, Fresh(c));
    RunOne(s3, tick, []);
    RunOne(s2, tick, [tick] + []);
    RunOne(s1, tick, [tick] + ([tick] + []));
    RunOne(s, Start(c, job), [tick] + ([tick] + ([tick] + [])));
    schedule := [Start(c, job)] + ([tick] + ([tick] + ([tick] + [])));
  }

  lemma {:induction false} LeavesAlone(s: State, c: CoreId, call: Call, done: seq<Call>) returns (schedule: seq<Action>)
    requires Here(s, c, Fresh(c), L.Idle, P.Running, 1, [call], done) && Finished(call)
    ensures Run(s, schedule).done == done + [call]
  {
    var tick, target := Tick(c, false), UnlockTarget(c, Fresh(c)).value;
    var s1 := Next(s, Return(c));
    var s2 := Next(s1, tick);
    PackFields(1, c);
    L.UnlockPath(c, Fresh(c));
    Returns(s, c, Fresh(c), call, done);
    TicksOn(s1, c, Fresh(c), L.UnlockLoad, P.Leaving, 1, [call], done, Fresh(c), L.UnlockCas(Fresh(c), target));
    Leaves(s2, c, Fresh(c), L.UnlockCas(Fresh(c), target), [call], done, target);
    RunOne(s2, tick, []);
    RunOne(s1, tick, [tick] + []);
    RunOne(s, Return(c), [tick] + ([tick] + []));
    schedule := [Return(c)] + ([tick] + ([tick] + []));
  }

  // A job that does not stop the kernel can be printed: left alone, its core finishes it.
  lemma {:induction false} AJobIsPrinted(s: State, c: CoreId, job: Job) returns (schedule: seq<Action>)
    requires Initial(s) && c in s.stacks && !F.Stops(job.fmt)
    ensures var t := Run(s, schedule);
      |t.done| == 1 && t.done[0].job == job && WholeText(t.done[0].said) == Text(job)
  {
    var entering := EntersAlone(s, c, [], job);
    var s1 := Run(s, entering);
    var saying, call := SaysAll(s1, c, Fresh(c), Call(job, Nothing), []);
    var s2 := Run(s1, saying);
    var leaving := LeavesAlone(s2, c, call, []);
    OwnIsWhole(call.said);
    RunAppend(s1, saying, leaving);
    RunAppend(s, entering, saying + leaving);
    schedule := entering + (saying + leaving);
  }
}
