// Printing from many cores. Every character goes out inside a `vkprintf` call, which takes the
// lock first and gives it back last; calls may nest on one core. The other cores interleave at
// every atomic access of the lock and between any two characters.

module PrintAtomicity {
  import opened LockWord
  import L = LockMachine

  datatype Glyph = Glyph(core: CoreId, call: nat, ch: char)

  datatype Mode = Running | Entering | Leaving

  // frames: vkprintf calls this core is inside of; outermost: number of its current or last
  // outermost call; spoken: what that call has printed so far.
  datatype Printer = Printer(mode: Mode, frames: nat, outermost: nat, spoken: string)

  datatype Transcript = Transcript(core: CoreId, call: nat, text: string, at: nat)

  datatype State = State(
    lock: L.State, printers: map<CoreId, Printer>, out: seq<Glyph>, finished: seq<Transcript>)

  datatype Action =
    | Begin(core: CoreId)
    | Say(core: CoreId, ch: char)
    | End(core: CoreId)
    | Tick(core: CoreId, spurious: bool)

  function Next(s: State, a: Action): State {
    if a.core !in s.printers then s
    else
      var c := a.core;
      var p := s.printers[c];
      match a
      case Begin(_) =>
        if p.mode != Running then s
        else
          var p' := if p.frames == 0 then Printer(Entering, 0, p.outermost + 1, "") else p.(mode := Entering);
          s.(lock := L.Next(s.lock, L.Call(c, L.Lock)).0, printers := s.printers[c := p'])
      case Say(_, ch) =>
        if p.mode != Running || p.frames == 0 then s
        else
          s.(out := s.out + [Glyph(c, p.outermost, ch)],
             printers := s.printers[c := p.(spoken := p.spoken + [ch])])
      case End(_) =>
        if p.mode != Running || p.frames == 0 then s
        else
          s.(lock := L.Next(s.lock, L.Call(c, L.Unlock)).0, printers := s.printers[c := p.(mode := Leaving)])
      case Tick(_, spurious) =>
        if p.mode == Running then s
        else
          var (lock', es) := L.Next(s.lock, L.Step(c, spurious));
          Returned(s.(lock := lock'), c, es != [])
  }

  // The lock operation core c was in has returned, or not yet.
  function Returned(s: State, c: CoreId, returned: bool): State
    requires c in s.printers
  {
    var p := s.printers[c];
    if !returned then s
    else if p.mode == Entering then
      s.(printers := s.printers[c := p.(mode := Running, frames := p.frames + 1)])
    else if p.frames <= 1 then
      s.(printers := s.printers[c := p.(mode := Running, frames := 0)],
         finished := s.finished + [Transcript(c, p.outermost, p.spoken,
           if |p.spoken| <= |s.out| then |s.out| - |p.spoken| else 0)])
    else
      s.(printers := s.printers[c := p.(mode := Running, frames := p.frames - 1)])
  }

  function Run(s: State, schedule: seq<Action>): State
    decreases |schedule|
  {
    if schedule == [] then s else Run(Next(s, schedule[0]), schedule[1..])
  }

  predicate Initial(s: State) {
    && L.Initial(s.lock) && s.lock.cores.Keys == s.printers.Keys && s.out == [] && s.finished == []
    && forall c <- s.printers :: s.printers[c] == Printer(Running, 0, 0, "")
  }

  // ---------------------------------------------------------------- what the output looks like

  function Tagged(c: CoreId, call: nat, text: string): (g: seq<Glyph>)
    ensures |g| == |text|
    ensures forall i | 0 <= i < |text| :: g[i] == Glyph(c, call, text[i])
  {
    seq(|text|, i requires 0 <= i < |text| => Glyph(c, call, text[i]))
  }

  predicate SameCall(g: Glyph, h: Glyph) { g.core == h.core && g.call == h.call }

  // The glyphs of a call are one block: between two of them there is nothing else.
  predicate Contiguous(out: seq<Glyph>) {
    forall i, j, k | 0 <= i <= j <= k < |out| && SameCall(out[i], out[k]) :: SameCall(out[i], out[j])
  }

  predicate NoneOf(out: seq<Glyph>, c: CoreId, call: nat) {
    forall i | 0 <= i < |out| :: !(out[i].core == c && out[i].call == call)
  }

  // The transcript stands at its place, and none of its glyphs anywhere else.
  predicate Printed(out: seq<Glyph>, t: Transcript) {
    && t.at + |t.text| <= |out|
    && out[t.at..t.at + |t.text|] == Tagged(t.core, t.call, t.text)
    && NoneOf(out[..t.at], t.core, t.call) && NoneOf(out[t.at + |t.text|..], t.core, t.call)
  }

  // A printing core's glyphs end the output.
  predicate Speaking(out: seq<Glyph>, c: CoreId, p: Printer) {
    var at := |out| - |p.spoken|;
    && 0 <= at
    && out[at..] == Tagged(c, p.outermost, p.spoken)
    && NoneOf(out[..at], c, p.outermost)
  }

  // How printer c fits the output.
  predicate SpeechOk(c: CoreId, p: Printer, out: seq<Glyph>, finished: seq<Transcript>) {
    && (p.mode == Leaving ==> p.frames > 0)
    && (p.frames > 0 ==> Speaking(out, c, p))
    && (p.frames == 0 && p.mode == Entering ==> p.spoken == "" && NoneOf(out, c, p.outermost))
    && (forall i | 0 <= i < |out| && out[i].core == c :: out[i].call <= p.outermost)
    && (forall t <- finished | t.core == c ::
          t.call <= p.outermost && (p.frames > 0 || p.mode == Entering ==> t.call < p.outermost))
  }

  predicate OutputOk(s: State) {
    && (forall c <- s.printers :: SpeechOk(c, s.printers[c], s.out, s.finished))
    && Contiguous(s.out)
    && (forall t <- s.finished :: t.core in s.printers && Printed(s.out, t))
  }

  predicate OneSpeaker(s: State) {
    forall c, d | c in s.printers && d in s.printers && s.printers[c].frames > 0 && s.printers[d].frames > 0 ::
      c == d
  }

  predicate InsideUnlock(pc: L.Pc) { pc.UnlockLoad? || pc.UnlockCas? }
  predicate InsideLock(pc: L.Pc) {
    L.InsideLock(pc) || (pc.TryCas? && pc.inLock) || pc.FastCas?
  }

  // How printer c fits the lock operation it is in, at pc and holding `depth` levels.
  predicate LockUseOk(p: Printer, pc: L.Pc, depth: nat) {
    && p.frames == depth
    && (p.mode == Running ==> pc.Idle?)
    && (p.mode == Entering ==> InsideLock(pc))
    && (p.mode == Leaving ==> InsideUnlock(pc) && depth > 0)
  }

  predicate LockOk(s: State) {
    && s.lock.cores.Keys == s.printers.Keys
    && forall c <- s.printers :: LockUseOk(s.printers[c], s.lock.cores[c].pc, Depth(s.lock.word, c))
  }

  // ---------------------------------------------------------------- the lock side

  lemma HoldersAreOne(s: State)
    requires LockOk(s)
    ensures OneSpeaker(s)
  {}

  // Inside a lock call only Acquired is ever answered, inside an owner's unlock only Released.
  lemma TickAnswers(c: CoreId, word: Word, pc: L.Pc, spurious: bool)
    requires WellFormed(word) && L.PcOk(c, word, pc)
    requires InsideLock(pc) || (InsideUnlock(pc) && Depth(word, c) > 0)
    ensures var e := L.Access(c, word, pc, spurious);
      && (InsideLock(pc) ==>
            (e.events == [] && InsideLock(e.pc) && Depth(e.word, c) == Depth(word, c))
            || e.events == [L.Acquired(c)])
      && (InsideUnlock(pc) ==>
            (e.events == [] && InsideUnlock(e.pc) && Depth(e.word, c) == Depth(word, c))
            || e.events == [L.Released(c)])
  {
    L.AccessGuarantees(c, word, pc, spurious);
  }

  lemma TickKeepsOwnUse(s: State, c: CoreId, spurious: bool)
    requires L.Inv(s.lock) && LockOk(s) && c in s.printers && s.printers[c].mode != Running
    ensures var t := Next(s, Tick(c, spurious));
      && t.lock == L.Next(s.lock, L.Step(c, spurious)).0
      && t.printers == s.printers[c := t.printers[c]]
      && LockUseOk(t.printers[c], t.lock.cores[c].pc, Depth(t.lock.word, c))
  {
    TickAnswers(c, s.lock.word, s.lock.cores[c].pc, spurious);
    var (lock', es) := L.Next(s.lock, L.Step(c, spurious));
    ReturnFits(s.(lock := lock'), c, es);
  }

  lemma ReturnFits(s: State, c: CoreId, events: seq<L.Event>)
    requires c in s.printers && c in s.lock.cores
    requires var pc, depth, p := s.lock.cores[c].pc, Depth(s.lock.word, c), s.printers[c];
      && (events == [] ==> LockUseOk(p, pc, depth))
      && (events != [] ==>
            && pc.Idle? && p.mode != Running
            && depth == (if p.mode == Entering then p.frames + 1 else p.frames - 1))
    ensures var t := Returned(s, c, events != []);
      && t.lock == s.lock && t.printers == s.printers[c := t.printers[c]]
      && LockUseOk(t.printers[c], s.lock.cores[c].pc, Depth(s.lock.word, c))
  {}

  lemma TickKeepsOtherUse(s: State, c: CoreId, spurious: bool, d: CoreId, p: Printer)
    requires L.Inv(s.lock) && c in s.lock.cores && d in s.lock.cores && d != c
    requires LockUseOk(p, s.lock.cores[d].pc, Depth(s.lock.word, d))
    ensures var t := L.Next(s.lock, L.Step(c, spurious)).0;
      d in t.cores && LockUseOk(p, t.cores[d].pc, Depth(t.word, d))
  {
    var word, pc := s.lock.word, s.lock.cores[c].pc;
    L.AccessGuarantees(c, word, pc, spurious);
    L.RelyKeepsPc(d, word, L.Access(c, word, pc, spurious).word, s.lock.cores[d].pc);
  }

  lemma TickKeepsLockOk(s: State, c: CoreId, spurious: bool)
    requires L.Inv(s.lock) && LockOk(s) && c in s.printers && s.printers[c].mode != Running
    ensures LockOk(Next(s, Tick(c, spurious)))
  {
    TickKeepsOwnUse(s, c, spurious);
    var t := Next(s, Tick(c, spurious));
    forall d | d in t.printers
      ensures d in t.lock.cores && LockUseOk(t.printers[d], t.lock.cores[d].pc, Depth(t.lock.word, d))
    {
      if d != c {
        TickKeepsOtherUse(s, c, spurious, d, s.printers[d]);
      }
    }
  }

  lemma BeginKeepsLockOk(s: State, c: CoreId)
    requires LockOk(s) && c in s.printers
    ensures LockOk(Next(s, Begin(c)))
  {}

  lemma EndKeepsLockOk(s: State, c: CoreId)
    requires LockOk(s) && c in s.printers
    ensures LockOk(Next(s, End(c)))
  {}

  lemma NextKeepsLockOk(s: State, a: Action)
    requires L.Inv(s.lock) && LockOk(s)
    ensures LockOk(Next(s, a))
  {
    if a.core in s.printers {
      match a
      case Begin(c) => BeginKeepsLockOk(s, c);
      case End(c) => EndKeepsLockOk(s, c);
      case Say(_, _) =>
      case Tick(c, spurious) =>
        if s.printers[c].mode != Running {
          TickKeepsLockOk(s, c, spurious);
        }
    }
  }

  lemma NextKeepsLockInv(s: State, a: Action)
    requires L.Inv(s.lock)
    ensures L.Inv(Next(s, a).lock)
  {
    if a.Begin? {
      L.NextKeepsInv(s.lock, L.Call(a.core, L.Lock));
    } else if a.End? {
      L.NextKeepsInv(s.lock, L.Call(a.core, L.Unlock));
    } else if a.Tick? {
      L.NextKeepsInv(s.lock, L.Step(a.core, a.spurious));
    }
  }

  // ---------------------------------------------------------------- the output side

  lemma SayKeepsSpeaking(out: seq<Glyph>, c: CoreId, p: Printer, ch: char)
    requires Speaking(out, c, p)
    ensures Speaking(out + [Glyph(c, p.outermost, ch)], c, p.(spoken := p.spoken + [ch]))
  {
    var out' := out + [Glyph(c, p.outermost, ch)];
    var at := |out| - |p.spoken|;
    assert out'[at..] == out[at..] + [Glyph(c, p.outermost, ch)];
    assert out'[..at] == out[..at];
  }

  lemma SayKeepsContiguous(out: seq<Glyph>, c: CoreId, p: Printer, ch: char)
    requires Contiguous(out) && Speaking(out, c, p)
    ensures Contiguous(out + [Glyph(c, p.outermost, ch)])
  {
    var g := Glyph(c, p.outermost, ch);
    var out' := out + [g];
    var at := |out| - |p.spoken|;
    forall i, j, k | 0 <= i <= j <= k < |out'| && SameCall(out'[i], out'[k])
      ensures SameCall(out'[i], out'[j])
    {
      if k == |out| && j < |out| {
        assert forall n | 0 <= n < at :: out[..at][n] == out[n];
        assert out[at..][j - at] == out[j];
      }
    }
  }

  lemma SayKeepsPrinted(out: seq<Glyph>, t: Transcript, g: Glyph)
    requires Printed(out, t) && !(g.core == t.core && g.call == t.call)
    ensures Printed(out + [g], t)
  {
    var out' := out + [g];
    var to := t.at + |t.text|;
    assert out'[t.at..to] == out[t.at..to];
    assert out'[..t.at] == out[..t.at];
    assert out'[to..] == out[to..] + [g];
  }

  lemma SayKeepsOther(d: CoreId, p: Printer, out: seq<Glyph>, finished: seq<Transcript>, g: Glyph)
    requires SpeechOk(d, p, out, finished) && p.frames == 0 && g.core != d
    ensures SpeechOk(d, p, out + [g], finished)
  {}

  lemma SayKeepsOutputOk(s: State, c: CoreId, ch: char)
    requires OutputOk(s) && OneSpeaker(s)
    requires c in s.printers && s.printers[c].mode == Running && s.printers[c].frames > 0
    ensures OutputOk(Next(s, Say(c, ch)))
  {
    var p := s.printers[c];
    SayKeepsSpeaking(s.out, c, p, ch);
    SayKeepsContiguous(s.out, c, p, ch);
    var g := Glyph(c, p.outermost, ch);
    var t := Next(s, Say(c, ch));
    forall d | d in t.printers ensures SpeechOk(d, t.printers[d], t.out, t.finished) {
      if d != c {
        SayKeepsOther(d, s.printers[d], s.out, s.finished, g);
      }
    }
    forall f | f in t.finished ensures Printed(t.out, f) {
      SayKeepsPrinted(s.out, f, g);
    }
  }

  lemma SpeechBecomesTranscript(out: seq<Glyph>, c: CoreId, p: Printer)
    requires Speaking(out, c, p)
    ensures Printed(out, Transcript(c, p.outermost, p.spoken, |out| - |p.spoken|))
  {
    var at := |out| - |p.spoken|;
    assert out[at..|out|] == out[at..];
    assert out[|out|..] == [];
  }

  lemma EnterKeepsSpeechOk(c: CoreId, p: Printer, out: seq<Glyph>, finished: seq<Transcript>)
    requires SpeechOk(c, p, out, finished) && p.mode == Entering
    ensures SpeechOk(c, p.(mode := Running, frames := p.frames + 1), out, finished)
  {
    if p.frames == 0 {
      assert out[|out|..] == Tagged(c, p.outermost, "");
      assert out[..|out|] == out;
    }
  }

  lemma LeaveKeepsSpeechOk(c: CoreId, d: CoreId, p: Printer, out: seq<Glyph>, finished: seq<Transcript>, t: Transcript)
    requires SpeechOk(d, p, out, finished) && t.core == c
    requires d == c ==> p.mode == Leaving && t.call == p.outermost
    ensures d != c ==> SpeechOk(d, p, out, finished + [t])
    ensures d == c ==> SpeechOk(d, p.(mode := Running, frames := 0), out, finished + [t])
  {}

  lemma InnerLeaveKeepsSpeechOk(c: CoreId, p: Printer, out: seq<Glyph>, finished: seq<Transcript>)
    requires SpeechOk(c, p, out, finished) && p.mode == Leaving && p.frames > 1
    ensures SpeechOk(c, p.(mode := Running, frames := p.frames - 1), out, finished)
  {}

  lemma PrinterChangeKeepsOutputOk(s: State, c: CoreId, p: Printer)
    requires OutputOk(s) && c in s.printers && SpeechOk(c, p, s.out, s.finished)
    ensures OutputOk(s.(printers := s.printers[c := p]))
  {}

  lemma FinishKeepsOutputOk(s: State, c: CoreId)
    requires OutputOk(s) && c in s.printers && s.printers[c].mode == Leaving
    ensures var p := s.printers[c];
      && |p.spoken| <= |s.out|
      && OutputOk(s.(printers := s.printers[c := p.(mode := Running, frames := 0)],
                     finished := s.finished + [Transcript(c, p.outermost, p.spoken, |s.out| - |p.spoken|)]))
  {
    var p := s.printers[c];
    SpeechBecomesTranscript(s.out, c, p);
    var f := Transcript(c, p.outermost, p.spoken, |s.out| - |p.spoken|);
    forall d | d in s.printers
      ensures d != c ==> SpeechOk(d, s.printers[d], s.out, s.finished + [f])
      ensures d == c ==> SpeechOk(d, p.(mode := Running, frames := 0), s.out, s.finished + [f])
    {
      LeaveKeepsSpeechOk(c, d, s.printers[d], s.out, s.finished, f);
    }
  }

  lemma ReturnKeepsOutputOk(s: State, c: CoreId, returned: bool)
    requires OutputOk(s) && c in s.printers && s.printers[c].mode != Running
    ensures OutputOk(Returned(s, c, returned))
  {
    var p := s.printers[c];
    if returned && p.mode == Entering {
      EnterKeepsSpeechOk(c, p, s.out, s.finished);
      PrinterChangeKeepsOutputOk(s, c, p.(mode := Running, frames := p.frames + 1));
    } else if returned && p.frames <= 1 {
      FinishKeepsOutputOk(s, c);
    } else if returned {
      InnerLeaveKeepsSpeechOk(c, p, s.out, s.finished);
      PrinterChangeKeepsOutputOk(s, c, p.(mode := Running, frames := p.frames - 1));
    }
  }

  lemma TickKeepsOutputOk(s: State, c: CoreId, spurious: bool)
    requires OutputOk(s) && c in s.printers && s.printers[c].mode != Running
    ensures OutputOk(Next(s, Tick(c, spurious)))
  {
    var (lock', es) := L.Next(s.lock, L.Step(c, spurious));
    ReturnKeepsOutputOk(s.(lock := lock'), c, es != []);
  }

  lemma BeginKeepsOutputOk(s: State, c: CoreId)
    requires OutputOk(s) && c in s.printers
    ensures OutputOk(Next(s, Begin(c)))
  {
    var p := s.printers[c];
    if p.mode == Running {
      var p' := if p.frames == 0 then Printer(Entering, 0, p.outermost + 1, "") else p.(mode := Entering);
      BeginKeepsSpeechOk(c, p, p', s.out, s.finished);
      PrinterChangeKeepsOutputOk(s, c, p');
    }
  }

  lemma BeginKeepsSpeechOk(c: CoreId, p: Printer, p': Printer, out: seq<Glyph>, finished: seq<Transcript>)
    requires SpeechOk(c, p, out, finished) && p.mode == Running
    requires p' == if p.frames == 0 then Printer(Entering, 0, p.outermost + 1, "") else p.(mode := Entering)
    ensures SpeechOk(c, p', out, finished)
  {}

  lemma EndKeepsOutputOk(s: State, c: CoreId)
    requires OutputOk(s) && c in s.printers
    ensures OutputOk(Next(s, End(c)))
  {}

  lemma NextKeepsOutputOk(s: State, a: Action)
    requires OutputOk(s) && OneSpeaker(s)
    ensures OutputOk(Next(s, a))
  {
    if a.core in s.printers {
      var p := s.printers[a.core];
      match a
      case Begin(c) => BeginKeepsOutputOk(s, c);
      case End(c) => EndKeepsOutputOk(s, c);
      case Say(c, ch) => if p.mode == Running && p.frames > 0 { SayKeepsOutputOk(s, c, ch); }
      case Tick(c, spurious) => if p.mode != Running { TickKeepsOutputOk(s, c, spurious); }
    }
  }

  // ---------------------------------------------------------------- nothing else is printed

  function Blocks(finished: seq<Transcript>): seq<Glyph> {
    if finished == [] then []
    else
      var t := finished[|finished| - 1];
      Blocks(finished[..|finished| - 1]) + Tagged(t.core, t.call, t.text)
  }

  ghost predicate NobodyInside(printers: map<CoreId, Printer>) {
    forall c | c in printers :: printers[c].frames == 0
  }

  // The output is the finished calls in the order they ended, and what the core inside has said.
  ghost predicate Accounted(printers: map<CoreId, Printer>, out: seq<Glyph>, finished: seq<Transcript>) {
    && (forall c | c in printers && printers[c].frames > 0 ::
          out == Blocks(finished) + Tagged(c, printers[c].outermost, printers[c].spoken))
    && (NobodyInside(printers) ==> out == Blocks(finished))
  }

  lemma OneMoreBlock(finished: seq<Transcript>, t: Transcript)
    ensures Blocks(finished + [t]) == Blocks(finished) + Tagged(t.core, t.call, t.text)
  {
    assert (finished + [t])[..|finished|] == finished;
  }

  lemma OneMoreGlyph(before: seq<Glyph>, c: CoreId, call: nat, text: string, ch: char)
    ensures before + Tagged(c, call, text) + [Glyph(c, call, ch)] == before + Tagged(c, call, text + [ch])
  {}

  lemma NothingSaid(before: seq<Glyph>, c: CoreId, call: nat)
    ensures before + Tagged(c, call, "") == before
  {}

  // At most core c is inside, before and after.
  lemma ChangeKeepsAccounted(before: map<CoreId, Printer>, c: CoreId, p: Printer, out: seq<Glyph>, out': seq<Glyph>,
                             finished: seq<Transcript>, finished': seq<Transcript>)
    requires c in before && forall d | d in before && d != c :: before[d].frames == 0
    requires out' == Blocks(finished') + if p.frames > 0 then Tagged(c, p.outermost, p.spoken) else []
    ensures Accounted(before[c := p], out', finished')
  {
    assert before[c := p][c] == p;
    assert Blocks(finished') + [] == Blocks(finished');
  }

  // Core c itself goes on as before in what matters here.
  lemma SamePrinterKeepsAccounted(before: map<CoreId, Printer>, c: CoreId, p: Printer, out: seq<Glyph>, finished: seq<Transcript>)
    requires Accounted(before, out, finished) && c in before && p.frames == before[c].frames
    requires p.frames > 0 ==> p.outermost == before[c].outermost && p.spoken == before[c].spoken
    ensures Accounted(before[c := p], out, finished)
  {
    var after := before[c := p];
    if NobodyInside(after) {
      forall d | d in before ensures before[d].frames == 0 {
        assert after[d].frames == 0;
      }
    }
  }

  ghost predicate AllAccounted(s: State) { Accounted(s.printers, s.out, s.finished) }

  lemma SayKeepsAccounted(s: State, c: CoreId, ch: char)
    requires AllAccounted(s) && OneSpeaker(s)
    requires c in s.printers && s.printers[c].mode == Running && s.printers[c].frames > 0
    ensures AllAccounted(Next(s, Say(c, ch)))
  {
    var p := s.printers[c];
    OneMoreGlyph(Blocks(s.finished), c, p.outermost, p.spoken, ch);
    ChangeKeepsAccounted(s.printers, c, p.(spoken := p.spoken + [ch]), s.out, s.out + [Glyph(c, p.outermost, ch)],
                         s.finished, s.finished);
  }

  lemma EnterKeepsAccounted(s: State, c: CoreId)
    requires AllAccounted(s) && OutputOk(s) && c in s.printers && s.printers[c].mode == Entering
    requires OneSpeaker(s) && OneSpeaker(Returned(s, c, true))
    ensures AllAccounted(Returned(s, c, true))
  {
    var p, t := s.printers[c], Returned(s, c, true);
    assert t.printers[c].frames > 0;
    forall d | d in s.printers && d != c ensures s.printers[d].frames == 0 {
      assert t.printers[d] == s.printers[d];
    }
    NothingSaid(Blocks(s.finished), c, p.outermost);
    ChangeKeepsAccounted(s.printers, c, p.(mode := Running, frames := p.frames + 1), s.out, s.out, s.finished, s.finished);
  }

  lemma LeaveKeepsAccounted(s: State, c: CoreId)
    requires AllAccounted(s) && OutputOk(s) && OneSpeaker(s) && c in s.printers && s.printers[c].mode == Leaving
    ensures AllAccounted(Returned(s, c, true))
  {
    var p, t := s.printers[c], Returned(s, c, true);
    if p.frames <= 1 {
      OneMoreBlock(s.finished, t.finished[|s.finished|]);
    }
    ChangeKeepsAccounted(s.printers, c, t.printers[c], s.out, s.out, s.finished, t.finished);
  }

  lemma CallKeepsAccounted(s: State, a: Action)
    requires AllAccounted(s) && (a.Begin? || a.End?)
    ensures AllAccounted(Next(s, a))
  {
    if a.core in s.printers && Next(s, a) != s {
      SamePrinterKeepsAccounted(s.printers, a.core, Next(s, a).printers[a.core], s.out, s.finished);
    }
  }

  lemma TickKeepsAccounted(s: State, c: CoreId, spurious: bool)
    requires AllAccounted(s) && OutputOk(s) && OneSpeaker(s) && OneSpeaker(Next(s, Tick(c, spurious)))
    requires c in s.printers && s.printers[c].mode != Running
    ensures AllAccounted(Next(s, Tick(c, spurious)))
  {
    var (lock', es) := L.Next(s.lock, L.Step(c, spurious));
    if es != [] && s.printers[c].mode == Entering {
      EnterKeepsAccounted(s.(lock := lock'), c);
    } else if es != [] {
      LeaveKeepsAccounted(s.(lock := lock'), c);
    }
  }

  lemma NextKeepsAccounted(s: State, a: Action)
    requires AllAccounted(s) && OutputOk(s) && OneSpeaker(s) && OneSpeaker(Next(s, a))
    ensures AllAccounted(Next(s, a))
  {
    if a.core in s.printers {
      var p := s.printers[a.core];
      match a
      case Begin(_) => CallKeepsAccounted(s, a);
      case End(_) => CallKeepsAccounted(s, a);
      case Say(c, ch) => if p.mode == Running && p.frames > 0 { SayKeepsAccounted(s, c, ch); }
      case Tick(c, spurious) => if p.mode != Running { TickKeepsAccounted(s, c, spurious); }
    }
  }

  // ---------------------------------------------------------------- main results

  // What every step keeps.
  ghost predicate AllOk(s: State) {
    L.Inv(s.lock) && LockOk(s) && OutputOk(s) && AllAccounted(s)
  }

  lemma NextKeepsAll(s: State, a: Action)
    requires AllOk(s)
    ensures AllOk(Next(s, a))
  {
    HoldersAreOne(s);
    NextKeepsLockInv(s, a);
    NextKeepsLockOk(s, a);
    NextKeepsOutputOk(s, a);
    HoldersAreOne(Next(s, a));
    NextKeepsAccounted(s, a);
  }

  lemma InitialIsOk(s: State)
    requires Initial(s)
    ensures AllOk(s)
  {}

  lemma {:induction false} RunKeepsAll(s: State, schedule: seq<Action>)
    requires AllOk(s)
    ensures AllOk(Run(s, schedule)) && OneSpeaker(Run(s, schedule))
    decreases |schedule|
  {
    HoldersAreOne(s);
    if schedule != [] {
      NextKeepsAll(s, schedule[0]);
      RunKeepsAll(Next(s, schedule[0]), schedule[1..]);
    }
  }

  // No two prints interleave: in every interleaving the glyphs of one outermost call are one
  // block, and the text of a finished call stands in the output, whole and once.
  lemma PrintsDoNotInterleave(s: State, schedule: seq<Action>)
    requires Initial(s)
    ensures var t := Run(s, schedule);
      && Contiguous(t.out)
      && (forall f <- t.finished :: Printed(t.out, f))
  {
    InitialIsOk(s);
    RunKeepsAll(s, schedule);
  }

  // And nothing else is printed: the output is the finished calls one after another, and behind
  // them what the call has said that is not finished yet.
  lemma OutputIsWholeCalls(s: State, schedule: seq<Action>)
    requires Initial(s)
    ensures AllAccounted(Run(s, schedule)) && OneSpeaker(Run(s, schedule))
  {
    InitialIsOk(s);
    RunKeepsAll(s, schedule);
  }

  // Only the holder of the lock prints, and a core outside vkprintf has given back every
  // acquisition it ever made.
  lemma CallsBalanceTheLock(s: State, schedule: seq<Action>)
    requires Initial(s)
    ensures var t := Run(s, schedule);
      && t.lock.cores.Keys == t.printers.Keys
      && (forall c <- t.printers ::
            t.lock.cores[c].acquired == t.lock.cores[c].released + t.printers[c].frames)
      && OneSpeaker(t)
  {
    InitialIsOk(s);
    RunKeepsAll(s, schedule);
  }
}
