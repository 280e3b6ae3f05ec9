// The lock as a transition system. Every atomic access of the three operations is one step; the
// local computation that follows a load belongs to the step of that load. A core may be preempted
// between any two steps, so the `expected` it carries may be stale, and a weak compare-and-swap
// may fail for no reason.

module LockMachine {
  import opened Common
  import opened LockWord

  datatype Op = Lock | TryLock | Unlock

  datatype Pc =
    | Idle
    | TryLoad(inLock: bool)
    | TryCas(inLock: bool, expected: Word, desired: Word)
    | LockLoad
    | FastCas(expected: Word, desired: Word)
    | Spin
    | UnlockLoad
    | UnlockCas(expected: Word, desired: Word)

  datatype Event =
    | Acquired(core: CoreId)
    | Refused(core: CoreId)
    | Released(core: CoreId)
    | NotOwner(core: CoreId)

  datatype Core = Core(pc: Pc, acquired: nat, released: nat)
  datatype State = State(word: Word, cores: map<CoreId, Core>)
  datatype Action = Call(core: CoreId, op: Op) | Step(core: CoreId, spurious: bool)

  // What one access does to the word, to the core's own pc, and what it makes visible.
  datatype Effect = Effect(word: Word, pc: Pc, events: seq<Event>)

  function Entry(op: Op): Pc {
    match op
    case Lock => LockLoad
    case TryLock => TryLoad(false)
    case Unlock => UnlockLoad
  }

  // reentrant_trylock after `expected` has been (re)loaded.
  function TryDecide(c: CoreId, inLock: bool, seen: Word): (Pc, seq<Event>) {
    match TryTarget(c, seen)
    case Some(desired) => (TryCas(inLock, seen, desired), [])
    case None => if inLock then (Spin, []) else (Idle, [Refused(c)])
  }

  // reentrant_lock's fast path after `expected` has been (re)loaded.
  function FastDecide(c: CoreId, seen: Word): Pc {
    if OwnedBy(seen, c) && Recursion(seen) != MAX_RECURSION then
      IncrementStaysInField(seen);
      FastCas(seen, seen + ONE_LEVEL)
    else TryLoad(true)
  }

  // reentrant_unlock after `expected` has been (re)loaded.
  function UnlockDecide(c: CoreId, seen: Word): (Pc, seq<Event>) {
    match UnlockTarget(c, seen)
    case Some(desired) => (UnlockCas(seen, desired), [])
    case None => (Idle, [NotOwner(c)])
  }

  function Access(c: CoreId, word: Word, pc: Pc, spurious: bool): Effect {
    match pc
    case Idle => Effect(word, Idle, [])
    case TryLoad(inLock) =>
      var (pc', es) := TryDecide(c, inLock, word);
      Effect(word, pc', es)
    case TryCas(inLock, expected, desired) =>
      if word == expected && !spurious then Effect(desired, Idle, [Acquired(c)])
      else
        var (pc', es) := TryDecide(c, inLock, word);
        Effect(word, pc', es)
    case LockLoad => Effect(word, FastDecide(c, word), [])
    case FastCas(expected, desired) =>
      if word == expected && !spurious then Effect(desired, Idle, [Acquired(c)])
      else Effect(word, FastDecide(c, word), [])
    case Spin => Effect(word, if Locked(word) then Spin else TryLoad(true), [])
    case UnlockLoad =>
      var (pc', es) := UnlockDecide(c, word);
      Effect(word, pc', es)
    case UnlockCas(expected, desired) =>
      if word == expected then Effect(desired, Idle, [Released(c)])
      else
        var (pc', es) := UnlockDecide(c, word);
        Effect(word, pc', es)
  }

  function Book(core: Core, pc: Pc, es: seq<Event>): Core {
    var core := core.(pc := pc);
    if |es| == 1 && es[0].Acquired? then core.(acquired := core.acquired + 1)
    else if |es| == 1 && es[0].Released? then core.(released := core.released + 1)
    else core
  }

  // An action that its core cannot take leaves the state alone.
  function Next(s: State, a: Action): (State, seq<Event>) {
    if a.core !in s.cores then (s, [])
    else
      var core := s.cores[a.core];
      match a
      case Call(c, op) =>
        if core.pc.Idle? then (s.(cores := s.cores[c := core.(pc := Entry(op))]), []) else (s, [])
      case Step(c, spurious) =>
        if core.pc.Idle? then (s, [])
        else
          var e := Access(c, s.word, core.pc, spurious);
          (State(e.word, s.cores[c := Book(core, e.pc, e.events)]), e.events)
  }

  function Run(s: State, schedule: seq<Action>): (State, seq<Event>)
    decreases |schedule|
  {
    if schedule == [] then (s, [])
    else
      var (s1, e1) := Next(s, schedule[0]);
      var (s2, e2) := Run(s1, schedule[1..]);
      (s2, e1 + e2)
  }

  predicate Initial(s: State) {
    s.word == 0 && forall c <- s.cores :: s.cores[c] == Core(Idle, 0, 0)
  }

  // ---------------------------------------------------------------- the invariant

  // A stale `expected` is harmless: either it is current, or the core holds nothing.
  predicate PcOk(c: CoreId, word: Word, pc: Pc) {
    match pc
    case TryCas(_, e, d) =>
      && TryTarget(c, e) == Some(d)
      && (if OwnedBy(word, c) then e == word else !OwnedBy(e, c))
    case FastCas(e, d) => e == word && OwnedBy(e, c) && TryTarget(c, e) == Some(d)
    case UnlockCas(e, d) => e == word && UnlockTarget(c, e) == Some(d)
    case Spin => OwnedBy(word, c) ==> Recursion(word) == MAX_RECURSION
    case _ => true
  }

  predicate Inv(s: State) {
    && WellFormed(s.word)
    && (s.word != 0 ==> Owner(s.word) in s.cores)
    && forall c <- s.cores ::
         && s.cores[c].acquired == s.cores[c].released + Depth(s.word, c)
         && PcOk(c, s.word, s.cores[c].pc)
  }

  lemma AccessGuarantees(c: CoreId, word: Word, pc: Pc, spurious: bool)
    requires WellFormed(word) && PcOk(c, word, pc)
    ensures var e := Access(c, word, pc, spurious);
      && WellFormed(e.word) && PcOk(c, e.word, e.pc)
      && (e.word != 0 && e.word != word ==> Owner(e.word) == c)
      && (e.events == [] || e.events == [Refused(c)] || e.events == [NotOwner(c)] ==>
            e.word == word)
      && (e.events == [Acquired(c)] ==> e.pc == Idle && Depth(e.word, c) == Depth(word, c) + 1)
      && (e.events == [Released(c)] ==> e.pc == Idle && Depth(e.word, c) + 1 == Depth(word, c))
      && (|e.events| <= 1 && forall ev <- e.events :: ev.core == c)
      // every other core may rely on it
      && (forall d: CoreId | d != c :: Rely(d, word, e.word))
  {
    assert OwnedBy(0, c) == false;
  }

  lemma RelyKeepsPc(d: CoreId, before: Word, after: Word, pc: Pc)
    requires PcOk(d, before, pc) && Rely(d, before, after)
    ensures PcOk(d, after, pc) && Depth(after, d) == Depth(before, d)
  {}

  lemma StepKeepsInv(s: State, c: CoreId, spurious: bool)
    requires Inv(s) && c in s.cores && !s.cores[c].pc.Idle?
    ensures Inv(Next(s, Step(c, spurious)).0)
  {
    AccessGuarantees(c, s.word, s.cores[c].pc, spurious);
    var e := Access(c, s.word, s.cores[c].pc, spurious);
    var t := Next(s, Step(c, spurious)).0;
    forall d | d in t.cores
      ensures t.cores[d].acquired == t.cores[d].released + Depth(t.word, d)
      ensures PcOk(d, t.word, t.cores[d].pc)
    {
      if d != c {
        RelyKeepsPc(d, s.word, e.word, s.cores[d].pc);
      }
    }
  }

  lemma NextKeepsInv(s: State, a: Action)
    requires Inv(s)
    ensures Inv(Next(s, a).0)
    ensures Next(s, a).0.cores.Keys == s.cores.Keys
  {
    if a.core in s.cores && a.Step? && !s.cores[a.core].pc.Idle? {
      StepKeepsInv(s, a.core, a.spurious);
    }
  }

  lemma {:induction false} RunKeepsInv(s: State, schedule: seq<Action>)
    requires Inv(s)
    ensures Inv(Run(s, schedule).0) && Run(s, schedule).0.cores.Keys == s.cores.Keys
    decreases |schedule|
  {
    if schedule != [] {
      NextKeepsInv(s, schedule[0]);
      RunKeepsInv(Next(s, schedule[0]).0, schedule[1..]);
    }
  }

  // ---------------------------------------------------------------- safety over every run

  // At most one core has acquisitions it has not released; the word says which one and how many.
  lemma MutualExclusion(s: State, schedule: seq<Action>)
    requires Initial(s)
    ensures var t := Run(s, schedule).0;
      && WellFormed(t.word)
      && (t.word == 0 <==> forall c <- t.cores :: t.cores[c].acquired == t.cores[c].released)
      && (t.word != 0 ==>
            var o := Owner(t.word);
            && o in t.cores
            && t.cores[o].acquired == t.cores[o].released + Recursion(t.word)
            && forall c <- t.cores :: c != o ==> t.cores[c].acquired == t.cores[c].released)
  {
    RunKeepsInv(s, schedule);
  }

  // ---------------------------------------------------------------- refinement

  datatype Mutex = Free | Held(owner: CoreId, count: nat)

  function Abstract(w: Word): Mutex {
    if Locked(w) then Held(Owner(w), Recursion(w)) else Free
  }

  // What a reentrant mutex may answer, and what becomes of it.
  function MutexStep(m: Mutex, e: Event): Option<Mutex> {
    match e
    case Acquired(c) =>
      if m.Free? then Some(Held(c, 1))
      else if m.owner == c && m.count < MAX_RECURSION then Some(Held(c, m.count + 1))
      else None
    case Refused(c) =>
      if m.Held? && (m.owner != c || m.count == MAX_RECURSION) then Some(m) else None
    case Released(c) =>
      if m.Held? && m.owner == c then Some(if m.count > 1 then Held(c, m.count - 1) else Free)
      else None
    case NotOwner(c) => if m.Held? && m.owner == c then None else Some(m)
  }

  function Replay(m: Mutex, es: seq<Event>): Option<Mutex>
    decreases |es|
  {
    if es == [] then Some(m)
    else match MutexStep(m, es[0])
      case None => None
      case Some(m') => Replay(m', es[1..])
  }

  lemma {:induction false} ReplayAppend(m: Mutex, es: seq<Event>, fs: seq<Event>)
    requires Replay(m, es).Some?
    ensures Replay(m, es + fs) == Replay(Replay(m, es).value, fs)
    decreases |es|
  {
    if es == [] {
      assert es + fs == fs;
    } else {
      assert (es + fs)[1..] == es[1..] + fs;
      ReplayAppend(MutexStep(m, es[0]).value, es[1..], fs);
    }
  }

  lemma NextRefines(s: State, a: Action)
    requires Inv(s)
    ensures Replay(Abstract(s.word), Next(s, a).1) == Some(Abstract(Next(s, a).0.word))
  {
    if a.core in s.cores && a.Step? && !s.cores[a.core].pc.Idle? {
      AccessGuarantees(a.core, s.word, s.cores[a.core].pc, a.spurious);
      var es := Next(s, a).1;
      assert |es| == 1 ==> es[1..] == [];
    }
  }

  // Every interleaving is a run of the abstract reentrant mutex: each answer given to a caller is
  // one the mutex could give at the access where it was decided, and the word is its state.
  lemma {:induction false} Refinement(s: State, schedule: seq<Action>)
    requires Inv(s)
    ensures var (t, es) := Run(s, schedule);
            Replay(Abstract(s.word), es) == Some(Abstract(t.word))
    decreases |schedule|
  {
    if schedule != [] {
      var (s1, e1) := Next(s, schedule[0]);
      NextRefines(s, schedule[0]);
      NextKeepsInv(s, schedule[0]);
      Refinement(s1, schedule[1..]);
      ReplayAppend(Abstract(s.word), e1, Run(s1, schedule[1..]).1);
    }
  }

  // ---------------------------------------------------------------- progress

  // Once the owner's unlock has loaded the word, its compare-and-swap cannot fail, whatever the
  // other cores do in between; a caller that is not the owner never reaches it.
  lemma UnlockNeverRetries(s: State, c: CoreId, others: seq<Action>, spurious: bool)
    requires Inv(s) && c in s.cores && s.cores[c].pc.UnlockLoad?
    requires forall a <- others :: a.core != c
    ensures var s1 := Next(s, Step(c, false)).0;
            var s2 := Run(s1, others).0;
            var (s3, es) := Next(s2, Step(c, spurious));
      if Depth(s.word, c) > 0
      then es == [Released(c)] && s3.cores[c].pc.Idle? && Depth(s3.word, c) == Depth(s.word, c) - 1
      else Next(s, Step(c, false)).1 == [NotOwner(c)] && s1.word == s.word && s1.cores[c].pc.Idle?
  {
    var s1 := Next(s, Step(c, false)).0;
    NextKeepsInv(s, Step(c, false));
    OthersLeaveCoreAlone(s1, c, others);
    var s2 := Run(s1, others).0;
    RunKeepsInv(s1, others);
    AccessGuarantees(c, s2.word, s2.cores[c].pc, spurious);
  }

  lemma {:induction false} OthersLeaveCoreAlone(s: State, c: CoreId, others: seq<Action>)
    requires Inv(s) && c in s.cores
    requires forall a <- others :: a.core != c
    ensures var t := Run(s, others).0;
            c in t.cores && t.cores[c] == s.cores[c] && Depth(t.word, c) == Depth(s.word, c)
    decreases |others|
  {
    if others != [] {
      var a := others[0];
      NextKeepsInv(s, a);
      var s1 := Next(s, a).0;
      assert s1.cores[c] == s.cores[c];
      OthersLeaveCoreAlone(s1, c, others[1..]);
    }
  }

  // Whatever the other cores do, in any number of steps, is what a core may rely on: the
  // interference that the methods of the lock word are proved against.
  lemma {:induction false} RunsOfTheOthersAreRely(s: State, c: CoreId, others: seq<Action>)
    requires Inv(s) && forall a <- others :: a.core != c
    ensures Rely(c, s.word, Run(s, others).0.word)
    decreases |others|
  {
    if others != [] {
      var a := others[0];
      NextKeepsInv(s, a);
      if a.core in s.cores && a.Step? && !s.cores[a.core].pc.Idle? {
        AccessGuarantees(a.core, s.word, s.cores[a.core].pc, a.spurious);
      }
      assert Rely(c, s.word, Next(s, a).0.word);
      RunsOfTheOthersAreRely(Next(s, a).0, c, others[1..]);
    }
  }

  // While a core holds the lock nobody else acquires it, however the run continues.
  lemma {:induction false} NoAcquisitionBySomeoneElse(s: State, c: CoreId, others: seq<Action>)
    requires Inv(s) && c in s.cores && Depth(s.word, c) > 0
    requires forall a <- others :: a.core != c
    ensures Run(s, others).0.word == s.word
    ensures forall e <- Run(s, others).1 :: !e.Acquired? && !e.Released?
    decreases |others|
  {
    if others != [] {
      var a := others[0];
      NextKeepsInv(s, a);
      if a.core in s.cores && a.Step? && !s.cores[a.core].pc.Idle? {
        AccessGuarantees(a.core, s.word, s.cores[a.core].pc, a.spurious);
      }
      assert Next(s, a).0.cores[c] == s.cores[c];
      NoAcquisitionBySomeoneElse(Next(s, a).0, c, others[1..]);
    }
  }

  // The lock is not wait-free for its own owner: at MAX_RECURSION reentrant_lock spins for ever.
  predicate InsideLock(pc: Pc) { pc.LockLoad? || pc.Spin? || pc == TryLoad(true) }

  lemma {:induction false} OwnerAtMaximumNeverReturns(s: State, c: CoreId, schedule: seq<Action>)
    requires Inv(s) && c in s.cores && InsideLock(s.cores[c].pc)
    requires Depth(s.word, c) == MAX_RECURSION
    ensures var t := Run(s, schedule).0;
            c in t.cores && InsideLock(t.cores[c].pc) && t.word == s.word
    decreases |schedule|
  {
    if schedule != [] {
      var a := schedule[0];
      NextKeepsInv(s, a);
      if a.core in s.cores && a.Step? && !s.cores[a.core].pc.Idle? {
        AccessGuarantees(a.core, s.word, s.cores[a.core].pc, a.spurious);
      }
      OwnerAtMaximumNeverReturns(Next(s, a).0, c, schedule[1..]);
    }
  }

  // ---------------------------------------------------------------- a core left alone

  // Inside a call that must not return without the lock.
  predicate Wants(pc: Pc) {
    pc.LockLoad? || pc.Spin? || pc.FastCas? || (pc.TryLoad? && pc.inLock) || (pc.TryCas? && pc.inLock)
  }

  // The lock is beyond the core's reach: another core holds it, or the core itself at the maximum.
  predicate Blocked(c: CoreId, word: Word, pc: Pc) { Wants(pc) && TryTarget(c, word).None? }

  // How many steps it takes to return.
  function StepsToReturn(word: Word, pc: Pc): nat {
    match pc
    case Idle => 0
    case TryLoad(_) => 2
    case TryCas(_, e, _) => if e == word then 1 else 2
    case LockLoad => 3
    case FastCas(_, _) => 1
    case Spin => 3
    case UnlockLoad => 2
    case UnlockCas(_, _) => 1
  }

  lemma OneStepCloser(c: CoreId, word: Word, pc: Pc)
    requires WellFormed(word) && PcOk(c, word, pc) && !pc.Idle?
    ensures var e := Access(c, word, pc, false);
      if Blocked(c, word, pc) then e.word == word && Blocked(c, word, e.pc) && !e.pc.Idle?
      else !Blocked(c, e.word, e.pc) && StepsToReturn(e.word, e.pc) < StepsToReturn(word, pc)
  {}

  // Left alone at any place of any call, a core returns within three steps if and only if it is
  // not blocked; blocked it stays inside, however many steps it takes.
  lemma {:induction false} AloneReturnsIff(s: State, c: CoreId, n: nat)
    requires Inv(s) && c in s.cores
    ensures var t := Run(s, Times([Step(c, false)], n)).0;
      && c in t.cores
      && (Blocked(c, s.word, s.cores[c].pc) ==> t.word == s.word && !t.cores[c].pc.Idle?)
      && (!Blocked(c, s.word, s.cores[c].pc) && n >= StepsToReturn(s.word, s.cores[c].pc) ==> t.cores[c].pc.Idle?)
    decreases n
  {
    if n > 0 {
      var a := Step(c, false);
      assert Times([a], n)[0] == a && Times([a], n)[1..] == Times([a], n - 1);
      NextKeepsInv(s, a);
      if !s.cores[c].pc.Idle? {
        StepOf(s, c);
        OneStepCloser(c, s.word, s.cores[c].pc);
      }
      AloneReturnsIff(Next(s, a).0, c, n - 1);
    }
  }

  // A trylock left alone answers by the word it finds: free, the caller's own below the maximal
  // depth, or neither.
  lemma {:induction false} TryLockAlone(s: State, c: CoreId)
    requires Inv(s) && c in s.cores && s.cores[c].pc.Idle?
    ensures var (t, es) := Run(s, [Call(c, TryLock), Step(c, false), Step(c, false)]);
      && c in t.cores && t.cores[c].pc.Idle?
      && (!Locked(s.word) ==> es == [Acquired(c)] && OwnedBy(t.word, c) && Recursion(t.word) == 1)
      && (OwnedBy(s.word, c) && Recursion(s.word) < MAX_RECURSION ==>
            es == [Acquired(c)] && OwnedBy(t.word, c) && Recursion(t.word) == Recursion(s.word) + 1)
      && (Locked(s.word) && (Owner(s.word) != c || Recursion(s.word) == MAX_RECURSION) ==>
            es == [Refused(c)] && t.word == s.word)
  {
    var s1 := Next(s, Call(c, TryLock)).0;
    var s2 := Next(s1, Step(c, false)).0;
    RunKeepsInv(s, [Call(c, TryLock), Step(c, false), Step(c, false)]);
    assert [Call(c, TryLock), Step(c, false), Step(c, false)][1..] == [Step(c, false), Step(c, false)];
    assert [Step(c, false), Step(c, false)][1..] == [Step(c, false)];
    assert Run(s2, [Step(c, false)]) == (Next(s2, Step(c, false)).0, Next(s2, Step(c, false)).1 + []);
  }

  // ---------------------------------------------------------------- nesting

  function LockAlone(c: CoreId): seq<Action> {
    [Call(c, Lock), Step(c, false), Step(c, false), Step(c, false)]
  }

  function UnlockAlone(c: CoreId): seq<Action> {
    [Call(c, Unlock), Step(c, false), Step(c, false)]
  }

  function Times(a: seq<Action>, n: nat): seq<Action> {
    if n == 0 then [] else a + Times(a, n - 1)
  }

  lemma {:induction false} RunAppend(s: State, a: seq<Action>, b: seq<Action>)
    ensures Run(s, a + b).0 == Run(Run(s, a).0, b).0
    ensures Run(s, a + b).1 == Run(s, a).1 + Run(Run(s, a).0, b).1
    decreases |a|
  {
    if a == [] {
      assert a + b == b;
    } else {
      var (s1, e1) := Next(s, a[0]);
      assert (a + b)[1..] == a[1..] + b;
      RunAppend(s1, a[1..], b);
      Regroup(e1, Run(s1, a[1..]).1, Run(Run(s1, a[1..]).0, b).1);
    }
  }

  lemma Regroup(a: seq<Event>, b: seq<Event>, c: seq<Event>)
    ensures a + (b + c) == a + b + c
  {}

  lemma RunFour(s: State, a: Action, b: Action, c: Action, d: Action)
    ensures Run(s, [a, b, c, d]).0 == Next(Next(Next(Next(s, a).0, b).0, c).0, d).0
  {
    assert [a, b, c, d] == [a] + ([b] + ([c] + [d]));
    RunAppend(s, [a], [b] + ([c] + [d]));
    RunAppend(Run(s, [a]).0, [b], [c] + [d]);
    RunAppend(Run(Run(s, [a]).0, [b]).0, [c], [d]);
  }

  lemma RunThree(s: State, a: Action, b: Action, c: Action)
    ensures Run(s, [a, b, c]).0 == Next(Next(Next(s, a).0, b).0, c).0
  {
    assert [a, b, c] == [a] + ([b] + [c]);
    RunAppend(s, [a], [b] + [c]);
    RunAppend(Run(s, [a]).0, [b], [c]);
  }

  lemma StepOf(s: State, c: CoreId)
    requires c in s.cores && !s.cores[c].pc.Idle?
    ensures var e := Access(c, s.word, s.cores[c].pc, false);
            Next(s, Step(c, false)).0 == State(e.word, s.cores[c := Book(s.cores[c], e.pc, e.events)])
  {}

  // The slow path on a free lock: two loads, one compare-and-swap.
  lemma SlowPath(c: CoreId)
    ensures Access(c, 0, LockLoad, false) == Effect(0, TryLoad(true), [])
    ensures Access(c, 0, TryLoad(true), false) == Effect(0, TryCas(true, 0, Fresh(c)), [])
    ensures Access(c, 0, TryCas(true, 0, Fresh(c)), false) == Effect(Fresh(c), Idle, [Acquired(c)])
  {}

  lemma LockAloneWhenFree(s: State, c: CoreId)
    requires c in s.cores && s.cores[c].pc.Idle? && s.word == 0
    ensures Run(s, LockAlone(c)).0 ==
            State(Fresh(c), s.cores[c := s.cores[c].(acquired := s.cores[c].acquired + 1)])
  {
    SlowPath(c);
    RunFour(s, Call(c, Lock), Step(c, false), Step(c, false), Step(c, false));
    var s1 := State(0, s.cores[c := s.cores[c].(pc := LockLoad)]);
    var s2 := State(0, s.cores[c := s.cores[c].(pc := TryLoad(true))]);
    var s3 := State(0, s.cores[c := s.cores[c].(pc := TryCas(true, 0, Fresh(c)))]);
    StepOf(s1, c);
    StepOf(s2, c);
    StepOf(s3, c);
    assert s1.cores[c := s2.cores[c]] == s2.cores;
    assert s2.cores[c := s3.cores[c]] == s3.cores;
    assert Next(s, Call(c, Lock)).0 == s1;
  }

  // The fast path: one load, one compare-and-swap.
  lemma FastPath(c: CoreId, w: Word)
    requires OwnedBy(w, c) && Recursion(w) < MAX_RECURSION
    ensures w + ONE_LEVEL < 0x1_0000_0000
    ensures Access(c, w, LockLoad, false) == Effect(w, FastCas(w, w + ONE_LEVEL), [])
    ensures Access(c, w, FastCas(w, w + ONE_LEVEL), false) == Effect(w + ONE_LEVEL, Idle, [Acquired(c)])
  {
    IncrementStaysInField(w);
  }

  lemma LockAloneWhenHeld(s: State, c: CoreId)
    requires c in s.cores && s.cores[c].pc.Idle?
    requires OwnedBy(s.word, c) && Recursion(s.word) < MAX_RECURSION
    ensures s.word + ONE_LEVEL < 0x1_0000_0000
    ensures Run(s, LockAlone(c)).0 ==
            State(s.word + ONE_LEVEL, s.cores[c := s.cores[c].(acquired := s.cores[c].acquired + 1)])
  {
    FastPath(c, s.word);
    var desired: Word := s.word + ONE_LEVEL;
    RunFour(s, Call(c, Lock), Step(c, false), Step(c, false), Step(c, false));
    var s1 := State(s.word, s.cores[c := s.cores[c].(pc := LockLoad)]);
    var s2 := State(s.word, s.cores[c := s.cores[c].(pc := FastCas(s.word, desired))]);
    var s3 := State(desired, s.cores[c := s.cores[c].(pc := Idle, acquired := s.cores[c].acquired + 1)]);
    StepOf(s1, c);
    StepOf(s2, c);
    assert s1.cores[c := s2.cores[c]] == s2.cores;
    assert s2.cores[c := s3.cores[c]] == s3.cores;
    assert Next(s3, Step(c, false)).0 == s3;
  }

  lemma LockAloneAcquires(s: State, c: CoreId)
    requires Inv(s) && c in s.cores && s.cores[c].pc.Idle?
    requires s.word == 0 || (OwnedBy(s.word, c) && Recursion(s.word) < MAX_RECURSION)
    ensures var t := Run(s, LockAlone(c)).0;
      && Inv(t) && t.cores == s.cores[c := s.cores[c].(acquired := s.cores[c].acquired + 1)]
      && OwnedBy(t.word, c) && Recursion(t.word) == Depth(s.word, c) + 1
  {
    RunKeepsInv(s, LockAlone(c));
    if s.word == 0 {
      LockAloneWhenFree(s, c);
      PackFields(1, c);
    } else {
      LockAloneWhenHeld(s, c);
      IncrementStaysInField(s.word);
    }
  }

  lemma UnlockPath(c: CoreId, w: Word)
    requires OwnedBy(w, c)
    ensures var target := UnlockTarget(c, w).value;
      && Access(c, w, UnlockLoad, false) == Effect(w, UnlockCas(w, target), [])
      && Access(c, w, UnlockCas(w, target), false) == Effect(target, Idle, [Released(c)])
  {}

  lemma UnlockAloneWhenHeld(s: State, c: CoreId)
    requires c in s.cores && s.cores[c].pc.Idle? && OwnedBy(s.word, c)
    ensures Run(s, UnlockAlone(c)).0 ==
            State(UnlockTarget(c, s.word).value,
                  s.cores[c := s.cores[c].(released := s.cores[c].released + 1)])
  {
    UnlockPath(c, s.word);
    RunThree(s, Call(c, Unlock), Step(c, false), Step(c, false));
    var target := UnlockTarget(c, s.word).value;
    var s1 := State(s.word, s.cores[c := s.cores[c].(pc := UnlockLoad)]);
    var s2 := State(s.word, s.cores[c := s.cores[c].(pc := UnlockCas(s.word, target))]);
    StepOf(s1, c);
    StepOf(s2, c);
    assert s1.cores[c := s2.cores[c]] == s2.cores;
  }

  lemma UnlockAloneReleases(s: State, c: CoreId)
    requires Inv(s) && c in s.cores && s.cores[c].pc.Idle? && Depth(s.word, c) > 0
    ensures var t := Run(s, UnlockAlone(c)).0;
      && Inv(t) && t.cores == s.cores[c := s.cores[c].(released := s.cores[c].released + 1)]
      && Depth(t.word, c) == Depth(s.word, c) - 1
      && (Depth(s.word, c) == 1 ==> t.word == 0)
  {
    RunKeepsInv(s, UnlockAlone(c));
    UnlockAloneWhenHeld(s, c);
  }

  // From s to t core c alone has moved: it has acquired a levels more and released r more.
  ghost predicate Moved(s: State, t: State, c: CoreId, a: nat, r: nat)
    requires c in s.cores
  {
    Inv(t) && t.cores == s.cores[c := Core(s.cores[c].pc, s.cores[c].acquired + a, s.cores[c].released + r)]
  }

  lemma {:induction false} NotMoved(s: State, c: CoreId)
    requires Inv(s) && c in s.cores
    ensures Moved(s, s, c, 0, 0)
  {
    assert s.cores == s.cores[c := s.cores[c]];
  }

  lemma {:induction false} MovedOn(s: State, t: State, u: State, c: CoreId, a: nat, r: nat, a': nat, r': nat)
    requires c in s.cores && Moved(s, t, c, a, r) && Moved(t, u, c, a', r')
    ensures Moved(s, u, c, a + a', r + r')
  {}

  lemma {:induction false} AfterLock(s: State, c: CoreId, n: nat) returns (s1: State)
    requires Inv(s) && c in s.cores && s.cores[c].pc.Idle? && n > 0
    requires (s.word == 0 || OwnedBy(s.word, c)) && Depth(s.word, c) < MAX_RECURSION
    ensures Moved(s, s1, c, 1, 0) && OwnedBy(s1.word, c) && Depth(s1.word, c) == Depth(s.word, c) + 1
    ensures Run(s, Times(LockAlone(c), n)).0 == Run(s1, Times(LockAlone(c), n - 1)).0
  {
    LockAloneAcquires(s, c);
    s1 := Run(s, LockAlone(c)).0;
    RunAppend(s, LockAlone(c), Times(LockAlone(c), n - 1));
  }

  lemma {:induction false} AfterUnlock(s: State, c: CoreId, n: nat) returns (s1: State)
    requires Inv(s) && c in s.cores && s.cores[c].pc.Idle? && Depth(s.word, c) == n > 0
    ensures Moved(s, s1, c, 0, 1) && Depth(s1.word, c) == n - 1 && (n == 1 ==> s1.word == 0)
    ensures Run(s, Times(UnlockAlone(c), n)).0 == Run(s1, Times(UnlockAlone(c), n - 1)).0
  {
    UnlockAloneReleases(s, c);
    s1 := Run(s, UnlockAlone(c)).0;
    RunAppend(s, UnlockAlone(c), Times(UnlockAlone(c), n - 1));
  }

  lemma {:induction false} LocksAlone(s: State, c: CoreId, n: nat)
    requires Inv(s) && c in s.cores && s.cores[c].pc.Idle?
    requires s.word == 0 || OwnedBy(s.word, c)
    requires Depth(s.word, c) + n <= MAX_RECURSION
    ensures var t := Run(s, Times(LockAlone(c), n)).0;
      && Moved(s, t, c, n, 0) && Depth(t.word, c) == Depth(s.word, c) + n
      && (n == 0 ==> t.word == s.word)
    decreases n
  {
    if n > 0 {
      var s1 := AfterLock(s, c, n);
      LocksAlone(s1, c, n - 1);
      MovedOn(s, s1, Run(s1, Times(LockAlone(c), n - 1)).0, c, 1, 0, n - 1, 0);
    } else {
      NotMoved(s, c);
    }
  }

  lemma {:induction false} UnlocksAlone(s: State, c: CoreId, n: nat)
    requires Inv(s) && c in s.cores && s.cores[c].pc.Idle?
    requires Depth(s.word, c) == n
    ensures var t := Run(s, Times(UnlockAlone(c), n)).0;
      && Moved(s, t, c, 0, n) && (n > 0 ==> t.word == 0) && (n == 0 ==> t.word == s.word)
    decreases n
  {
    if n > 0 {
      var s1 := AfterUnlock(s, c, n);
      UnlocksAlone(s1, c, n - 1);
      MovedOn(s, s1, Run(s1, Times(UnlockAlone(c), n - 1)).0, c, 0, 1, 0, n - 1);
    } else {
      NotMoved(s, c);
    }
  }

  // n nested locks and n unlocks, on a free lock and with the other cores stopped anywhere inside
  // their own calls, give the word back as it was; n may be anything the field can count.
  lemma NestingIsUndone(s: State, c: CoreId, n: nat)
    requires Inv(s) && c in s.cores && s.cores[c].pc.Idle? && s.word == 0 && n <= MAX_RECURSION
    ensures var t := Run(s, Times(LockAlone(c), n) + Times(UnlockAlone(c), n)).0;
      && t.word == 0
      && t.cores == s.cores[c := Core(Idle, s.cores[c].acquired + n, s.cores[c].released + n)]
  {
    LocksAlone(s, c, n);
    var s1 := Run(s, Times(LockAlone(c), n)).0;
    UnlocksAlone(s1, c, n);
    RunAppend(s, Times(LockAlone(c), n), Times(UnlockAlone(c), n));
    MovedOn(s, s1, Run(s1, Times(UnlockAlone(c), n)).0, c, n, 0, 0, n);
  }
}
