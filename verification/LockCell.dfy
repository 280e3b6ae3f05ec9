// The three lock operations with their retry loops, as methods of the lock word. Before every access
// the other cores may do whatever `Rely` allows; `LockMachine.RunsOfTheOthersAreRely` shows that no
// run of the other cores does more than that. Every access is recorded, and each method is proved to
// make exactly the accesses of `LockMachine`.

module LockCell {
  import opened Common
  import opened LockWord
  import L = LockMachine

  // An operation returns, or has used up its budget of setbacks and is still in its loop.
  datatype Outcome = Returned(ok: bool) | StillRunning

  // One atomic access: the word the other cores had left, and whether a weak compare-and-swap
  // failed for no reason.
  datatype Entry = Entry(found: Word, spurious: bool)

  // The other cores: what they make of the word before the next access.
  type Others = (Word, seq<Entry>) -> Word

  ghost predicate Polite(others: Others, c: CoreId) {
    forall w: Word, t: seq<Entry> | WellFormed(w) :: Rely(c, w, others(w, t))
  }

  // What the last access did, when core c goes on from place pc and word w.
  function Reached(c: CoreId, w: Word, pc: L.Pc, es: seq<Entry>): L.Effect
    decreases |es|
  {
    if es == [] then L.Effect(w, pc, [])
    else
      var e := es[|es| - 1];
      L.Access(c, e.found, Reached(c, w, pc, es[..|es| - 1]).pc, e.spurious)
  }

  // These are accesses of one call, with the moves of the others in between.
  ghost predicate Made(others: Others, c: CoreId, w: Word, pc: L.Pc, t: seq<Entry>, es: seq<Entry>)
    decreases |es|
  {
    es == [] ||
    var init, r := es[..|es| - 1], Reached(c, w, pc, es[..|es| - 1]);
    Made(others, c, w, pc, t, init) && !r.pc.Idle? && es[|es| - 1].found == others(r.word, t + init)
  }

  // From word w and record t, with core c at pc, to word w' and record t'.
  ghost predicate Went(others: Others, c: CoreId, w: Word, t: seq<Entry>, pc: L.Pc, w': Word, t': seq<Entry>, at: L.Effect) {
    && t <= t' && Made(others, c, w, pc, t, t'[|t|..])
    && Reached(c, w, pc, t'[|t|..]) == at && at.word == w'
  }

  lemma {:induction false} WentNowhere(others: Others, c: CoreId, w: Word, t: seq<Entry>, pc: L.Pc)
    ensures Went(others, c, w, t, pc, w, t, L.Effect(w, pc, []))
  {
    assert t[|t|..] == [];
  }

  lemma {:induction false} OneMoreAccess(others: Others, c: CoreId, w: Word, t: seq<Entry>, pc: L.Pc,
                                         w': Word, t': seq<Entry>, at: L.Effect, e: Entry)
    requires Went(others, c, w, t, pc, w', t', at) && !at.pc.Idle? && e.found == others(w', t')
    ensures var next := L.Access(c, e.found, at.pc, e.spurious);
      Went(others, c, w, t, pc, next.word, t' + [e], next)
  {
    var es, es' := t'[|t|..], (t' + [e])[|t|..];
    assert es' == es + [e] && es'[..|es|] == es && t + es == t';
  }

  // One part of a call behind another.
  lemma {:induction false} GoesOn(others: Others, c: CoreId, w: Word, t: seq<Entry>, pc: L.Pc, w1: Word, t1: seq<Entry>, at1: L.Effect,
                                  w2: Word, t2: seq<Entry>, at2: L.Effect)
    requires Went(others, c, w, t, pc, w1, t1, at1) && at1.events == []
    requires Went(others, c, w1, t1, at1.pc, w2, t2, at2)
    ensures Went(others, c, w, t, pc, w2, t2, at2)
    decreases |t2|
  {
    if |t1| < |t2| {
      var init, e, es := t2[..|t2| - 1], t2[|t2| - 1], t2[|t1|..];
      var r := Reached(c, w1, at1.pc, es[..|es| - 1]);
      assert es[..|es| - 1] == init[|t1|..] && t1 + init[|t1|..] == init;
      assert t2 == init + [e];
      GoesOn(others, c, w, t, pc, w1, t1, at1, r.word, init, r);
      OneMoreAccess(others, c, w, t, pc, r.word, init, r, e);
    } else {
      assert t2 == t1 && t2[|t1|..] == [];
    }
  }

  class LockCell {
    var state: Word
    const others: Others
    var trace: seq<Entry>
    ghost var failedSwaps: nat    // compare-and-swaps that failed
    ghost var refusals: nat       // loads that saw the lock beyond the loading core's reach

    constructor (others: Others)
      ensures state == 0 && WellFormed(state) && this.others == others && trace == []
    {
      this.others := others;
      state, trace, failedSwaps, refusals := 0, [], 0, 0;
    }

    // Since word w and record t, core c has gone from pc on as the machine does, and is where `at` says.
    ghost predicate Since(w: Word, t: seq<Entry>, c: CoreId, pc: L.Pc, at: L.Effect)
      reads this
    {
      Went(others, c, w, t, pc, state, trace, at)
    }

    method Load(c: CoreId) returns (seen: Word)
      requires WellFormed(state) && Polite(others, c)
      modifies this
      ensures seen == state == others(old(state), old(trace)) && trace == old(trace) + [Entry(seen, false)]
      ensures Rely(c, old(state), state) && failedSwaps == old(failedSwaps)
      ensures refusals == old(refusals) + if TryTarget(c, seen).None? then 1 else 0
    {
      state := others(state, trace);
      seen := state;
      trace := trace + [Entry(seen, false)];
      refusals := refusals + if TryTarget(c, seen).None? then 1 else 0;
    }

    // On failure `seen` is the current word, as the source's &expected is overwritten. A weak
    // compare-and-swap may fail although the word is the expected one.
    method CompareExchange(c: CoreId, weak: bool, expected: Word, desired: Word)
      returns (ok: bool, seen: Word, e: Entry)
      requires WellFormed(state) && WellFormed(desired) && Polite(others, c)
      modifies this
      ensures e.found == others(old(state), old(trace)) && trace == old(trace) + [e] && (!weak ==> !e.spurious)
      ensures Rely(c, old(state), e.found) && refusals == old(refusals)
      ensures failedSwaps == old(failedSwaps) + if ok then 0 else 1
      ensures ok <==> e.found == expected && !e.spurious
      ensures seen == e.found && state == if ok then desired else e.found
    {
      state := others(state, trace);
      seen := state;
      var fails: bool := *;
      e := Entry(seen, weak && fails);
      trace := trace + [e];
      ok := state == expected && !(weak && fails);
      if ok {
        state := desired;
      } else {
        failedSwaps := failedSwaps + 1;
      }
    }

    // As a call of its own, or inside reentrant_lock.
    method Trylock(c: CoreId, budget: nat, ghost inLock: bool) returns (r: Outcome, ghost at: L.Effect)
      requires WellFormed(state) && Polite(others, c)
      modifies this
      ensures Since(old(state), old(trace), c, L.TryLoad(inLock), at) && |trace| > |old(trace)|
      ensures match r
              case Returned(true) => at.pc == L.Idle && at.events == [L.Acquired(c)]
              case Returned(false) => (at.pc, at.events) == if inLock then (L.Spin, []) else (L.Idle, [L.Refused(c)])
              case StillRunning => at.pc.TryCas?
      ensures WellFormed(state)
      ensures r == Returned(true) ==> OwnedBy(state, c) && Recursion(state) == Depth(old(state), c) + 1
      ensures r != Returned(true) ==> Depth(state, c) == Depth(old(state), c)
      ensures r == Returned(false) ==> Rely(c, old(state), state)
      ensures r == Returned(false) && OwnedBy(old(state), c) ==> Recursion(old(state)) == MAX_RECURSION
      ensures r == Returned(false) && !OwnedBy(old(state), c) ==> Locked(state)
      ensures r == StillRunning ==> failedSwaps == old(failedSwaps) + budget
      ensures r == Returned(false) ==> failedSwaps + refusals > old(failedSwaps + refusals)
      ensures refusals >= old(refusals) && failedSwaps >= old(failedSwaps)
    {
      WentNowhere(others, c, state, trace, L.TryLoad(inLock));
      var expected := Load(c);
      OneMoreAccess(others, c, old(state), old(trace), L.TryLoad(inLock), old(state), old(trace),
                    L.Effect(old(state), L.TryLoad(inLock), []), Entry(expected, false));
      at := L.Access(c, expected, L.TryLoad(inLock), false);
      var left: nat := budget;
      while true
        invariant Since(old(state), old(trace), c, L.TryLoad(inLock), at) && |trace| > |old(trace)|
        invariant (at.pc, at.events) == L.TryDecide(c, inLock, expected)
        invariant WellFormed(state) && expected == state
        invariant left <= budget && failedSwaps == old(failedSwaps) + (budget - left) && refusals >= old(refusals)
        invariant left == budget && TryTarget(c, expected).None? ==> refusals > old(refusals)
        invariant Depth(state, c) == Depth(old(state), c)
        invariant OwnedBy(old(state), c) ==> state == old(state)
        invariant !OwnedBy(old(state), c) ==> !OwnedBy(state, c)
        decreases left
      {
        var target := TryTarget(c, expected);
        if target.None? {
          return Returned(false), at;
        }
        if left == 0 {
          return StillRunning, at;
        }
        ghost var word, t := state, trace;
        var ok, seen, e := CompareExchange(c, true, expected, target.value);
        OneMoreAccess(others, c, old(state), old(trace), L.TryLoad(inLock), word, t, at, e);
        at := L.Access(c, e.found, at.pc, e.spurious);
        if ok {
          return Returned(true), at;
        }
        expected := seen;
        left := left - 1;
      }
    }

    // An owner goes one level deeper, unless it is at the maximal depth.
    method FastPath(c: CoreId, current: Word, budget: nat) returns (acquired: bool, left: nat, ghost at: L.Effect)
      requires WellFormed(state) && Polite(others, c) && current == state && OwnedBy(state, c)
      modifies this
      ensures Since(old(state), old(trace), c, L.FastDecide(c, current), at)
      ensures if acquired then at.pc == L.Idle && at.events == [L.Acquired(c)] else at.pc == L.FastDecide(c, state) && at.events == []
      ensures acquired ==> WellFormed(state) && OwnedBy(state, c) && Recursion(state) == Recursion(old(state)) + 1
      ensures !acquired ==> state == old(state) && (left > 0 ==> at.pc == L.TryLoad(true))
      ensures left <= budget && failedSwaps >= old(failedSwaps) + (budget - left) && refusals == old(refusals)
    {
      ghost var w0, t0, pc := state, trace, L.FastDecide(c, current);
      WentNowhere(others, c, w0, t0, pc);
      at := L.Effect(w0, pc, []);
      left := budget;
      var expected: Word := current;
      while left > 0
        invariant Since(w0, t0, c, pc, at) && at.pc == L.FastDecide(c, expected) && at.events == []
        invariant WellFormed(state) && expected == state == old(state)
        invariant left <= budget && failedSwaps >= old(failedSwaps) + (budget - left) && refusals == old(refusals)
      {
        if Recursion(expected) == MAX_RECURSION {
          break;
        }
        IncrementStaysInField(expected);
        ghost var word, t := state, trace;
        var ok, seen, e := CompareExchange(c, true, expected, expected + ONE_LEVEL);
        OneMoreAccess(others, c, w0, t0, pc, word, t, at, e);
        at := L.Access(c, e.found, at.pc, e.spurious);
        if ok {
          return true, left, at;
        }
        expected := seen;
        left := left - 1;
        if !OwnedBy(expected, c) {
          break;
        }
      }
      return false, left, at;
    }

    // Reads the word until the lock looks free.
    method Spin(c: CoreId, budget: nat) returns (left: nat, ghost at: L.Effect)
      requires WellFormed(state) && Polite(others, c) && (OwnedBy(state, c) ==> Recursion(state) == MAX_RECURSION)
      modifies this
      ensures Since(old(state), old(trace), c, L.Spin, at) && at.events == []
      ensures !at.pc.Idle? && (left > 0 ==> at.pc == L.TryLoad(true))
      ensures Rely(c, old(state), state)
      ensures left <= budget && failedSwaps == old(failedSwaps) && refusals >= old(refusals) + (budget - left)
    {
      ghost var w0, t0 := state, trace;
      WentNowhere(others, c, w0, t0, L.Spin);
      var seen := Load(c);
      OneMoreAccess(others, c, w0, t0, L.Spin, w0, t0, L.Effect(w0, L.Spin, []), Entry(seen, false));
      at := L.Access(c, seen, L.Spin, false);
      left := budget;
      while Locked(seen) && left > 0
        invariant Since(w0, t0, c, L.Spin, at) && at.events == []
        invariant at.pc == if Locked(seen) then L.Spin else L.TryLoad(true)
        invariant seen == state && Rely(c, old(state), state) && left <= budget
        invariant failedSwaps == old(failedSwaps)
        invariant refusals >= old(refusals) + (budget - left) + if Locked(seen) then 1 else 0
      {
        ghost var word, t := state, trace;
        seen := Load(c);
        OneMoreAccess(others, c, w0, t0, L.Spin, word, t, at, Entry(seen, false));
        at := L.Access(c, seen, L.Spin, false);
        left := left - 1;
      }
    }

    method Lock(c: CoreId, budget: nat) returns (r: Outcome, ghost at: L.Effect)
      requires WellFormed(state) && Polite(others, c)
      modifies this
      ensures Since(old(state), old(trace), c, L.LockLoad, at)
      ensures r != Returned(false)
      ensures if r == Returned(true) then at.pc == L.Idle && at.events == [L.Acquired(c)] else !at.pc.Idle?
      ensures WellFormed(state)
      ensures r == Returned(true) ==> OwnedBy(state, c) && Recursion(state) == Depth(old(state), c) + 1
      ensures r == StillRunning ==> Depth(state, c) == Depth(old(state), c)
      ensures Depth(old(state), c) == MAX_RECURSION ==> r == StillRunning
      ensures r == StillRunning ==> failedSwaps + refusals >= old(failedSwaps + refusals) + budget
    {
      ghost var w0, t0 := state, trace;
      WentNowhere(others, c, w0, t0, L.LockLoad);
      var current := Load(c);
      OneMoreAccess(others, c, w0, t0, L.LockLoad, w0, t0, L.Effect(w0, L.LockLoad, []), Entry(current, false));
      at := L.Access(c, current, L.LockLoad, false);
      var left: nat := budget;
      ghost var w1, t1, at1 := state, trace, at;
      if OwnedBy(current, c) {
        var acquired;
        acquired, left, at := FastPath(c, current, left);
        GoesOn(others, c, w0, t0, L.LockLoad, w1, t1, at1, state, trace, at);
        if acquired {
          return Returned(true), at;
        }
      }
      while left > 0
        invariant Since(w0, t0, c, L.LockLoad, at) && at.events == [] && !at.pc.Idle? && (left > 0 ==> at.pc == L.TryLoad(true))
        invariant WellFormed(state) && Rely(c, old(state), state)
        invariant left <= budget && failedSwaps + refusals >= old(failedSwaps + refusals) + (budget - left)
        decreases left
      {
        w1, t1, at1 := state, trace, at;
        r, at := Trylock(c, left, true);
        GoesOn(others, c, w0, t0, L.LockLoad, w1, t1, at1, state, trace, at);
        if r != Returned(false) {
          return;
        }
        w1, t1, at1 := state, trace, at;
        left, at := Spin(c, left - 1);
        GoesOn(others, c, w0, t0, L.LockLoad, w1, t1, at1, state, trace, at);
      }
      return StillRunning, at;
    }

    // An owner needs one load and one compare-and-swap; anyone else leaves the word to the
    // others. No budget is needed: the first compare-and-swap of the owner succeeds.
    method Unlock(c: CoreId) returns (released: bool, ghost at: L.Effect)
      requires WellFormed(state) && Polite(others, c)
      modifies this
      ensures Since(old(state), old(trace), c, L.UnlockLoad, at)
      ensures at.pc == L.Idle && at.events == [if released then L.Released(c) else L.NotOwner(c)]
      ensures WellFormed(state)
      ensures released <==> OwnedBy(old(state), c)
      ensures released && Recursion(old(state)) > 1 ==>
                OwnedBy(state, c) && Recursion(state) == Recursion(old(state)) - 1
      ensures released && Recursion(old(state)) == 1 ==> state == 0
      ensures !released ==> Rely(c, old(state), state)
    {
      ghost var w0, t0 := state, trace;
      WentNowhere(others, c, w0, t0, L.UnlockLoad);
      var expected := Load(c);
      OneMoreAccess(others, c, w0, t0, L.UnlockLoad, w0, t0, L.Effect(w0, L.UnlockLoad, []), Entry(expected, false));
      at := L.Access(c, expected, L.UnlockLoad, false);
      released := false;
      while !released
        invariant Since(w0, t0, c, L.UnlockLoad, at)
        invariant if released then at.pc == L.Idle && at.events == [L.Released(c)]
                  else (at.pc, at.events) == L.UnlockDecide(c, expected)
        invariant !released ==> WellFormed(state) && expected == state && Rely(c, old(state), state)
        invariant released ==> UnlockTarget(c, old(state)) == Some(state)
        decreases !released
      {
        var target := UnlockTarget(c, expected);
        if target.None? {
          return;
        }
        ghost var word, t := state, trace;
        var e;
        released, expected, e := CompareExchange(c, false, expected, target.value);
        OneMoreAccess(others, c, w0, t0, L.UnlockLoad, word, t, at, e);
        at := L.Access(c, e.found, at.pc, e.spurious);
      }
    }
  }

  // ---------------------------------------------------------------- what the accesses of a call do

  // The words the core itself changed: as found, and as left.
  function Changes(c: CoreId, w: Word, pc: L.Pc, es: seq<Entry>): seq<(Word, Word)>
    decreases |es|
  {
    if es == [] then []
    else
      var before, after := es[|es| - 1].found, Reached(c, w, pc, es).word;
      Changes(c, w, pc, es[..|es| - 1]) + if before == after then [] else [(before, after)]
  }

  lemma {:induction false} AccessChanges(c: CoreId, word: Word, pc: L.Pc, spurious: bool)
    requires WellFormed(word) && L.PcOk(c, word, pc) && !pc.Idle?
    ensures var e := L.Access(c, word, pc, spurious);
      && (e.events == [L.Acquired(c)] ==> TryTarget(c, word) == Some(e.word) && e.word != word)
      && (e.events == [L.Released(c)] ==> UnlockTarget(c, word) == Some(e.word) && e.word != word)
      && (e.events != [L.Acquired(c)] && e.events != [L.Released(c)] ==> e.word == word)
      && (!e.pc.Idle? ==> e.events == [])
  {}

  // In one call the core changes the word at most once, with its last access: an acquisition only
  // of a free word or of its own below the maximal depth, one level up; a release only of its own,
  // one level down; a refused call and one that is still running, never. And no change is one that
  // another core could not rely on.
  lemma {:induction false} OneChangeAtMost(others: Others, c: CoreId, w: Word, pc: L.Pc, t: seq<Entry>, es: seq<Entry>)
    requires Polite(others, c) && WellFormed(w) && L.PcOk(c, w, pc) && !pc.Idle? && Made(others, c, w, pc, t, es)
    ensures var at, changes := Reached(c, w, pc, es), Changes(c, w, pc, es);
      && WellFormed(at.word) && L.PcOk(c, at.word, at.pc) && (!at.pc.Idle? ==> changes == [])
      && (forall i, d: CoreId | 0 <= i < |changes| && d != c :: Rely(d, changes[i].0, changes[i].1))
      && (at.events == [L.Acquired(c)] ==> exists found: Word :: TryTarget(c, found) == Some(at.word) && changes == [(found, at.word)])
      && (at.events == [L.Released(c)] ==>
            exists found: Word :: UnlockTarget(c, found) == Some(at.word) && changes == [(found, at.word)])
      && (at.events != [L.Acquired(c)] && at.events != [L.Released(c)] ==> changes == [])
    decreases |es|
  {
    if es != [] {
      var init, e := es[..|es| - 1], es[|es| - 1];
      OneChangeAtMost(others, c, w, pc, t, init);
      var r := Reached(c, w, pc, init);
      assert Rely(c, r.word, others(r.word, t + init));
      L.RelyKeepsPc(c, r.word, e.found, r.pc);
      L.AccessGuarantees(c, e.found, r.pc, e.spurious);
      AccessChanges(c, e.found, r.pc, e.spurious);
    }
  }
}
