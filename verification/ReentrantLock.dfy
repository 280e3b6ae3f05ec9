// The reentrant spin lock: one packed 32-bit word, changed only by compare-and-swap.
//
//   bit 31      locked flag
//   bits 16-30  recursion count
//   bits 0-15   owner core id
//
// Two forms of the same code are given. `LockCell` keeps the retry loops, run against arbitrary
// interference by other cores. `LockMachine` cuts every operation at its atomic accesses and lets
// any number of cores interleave; its theorems are about every schedule.

module LockWord {
  import opened Common

  type Word = w: nat | w < 0x1_0000_0000
  type CoreId = c: nat | c < 0x1_0000

  const LOCK_FLAG: Word := 0x8000_0000
  const ONE_LEVEL: Word := 0x1_0000
  const MAX_RECURSION: nat := 0x7FFF

  // Each mask of the source selects a contiguous run of bits, so it is a division and a remainder.
  predicate Locked(w: Word) { w / LOCK_FLAG == 1 }
  function Recursion(w: Word): nat { w / ONE_LEVEL % 0x8000 }
  function Owner(w: Word): CoreId { w % 0x1_0000 }

  function Fresh(c: CoreId): Word { LOCK_FLAG + ONE_LEVEL + c }

  predicate OwnedBy(w: Word, c: CoreId) { Locked(w) && Owner(w) == c }

  // How many acquisitions of core c the word records.
  function Depth(w: Word, c: CoreId): nat { if OwnedBy(w, c) then Recursion(w) else 0 }

  // What the word may look like: free, or held by a real core between 1 and MAX_RECURSION times.
  predicate WellFormed(w: Word) { w == 0 || (Locked(w) && 1 <= Recursion(w) <= MAX_RECURSION) }

  lemma FieldsOf(w: Word)
    ensures Locked(w) ==> w == LOCK_FLAG + Recursion(w) * ONE_LEVEL + Owner(w)
    ensures !Locked(w) ==> w == Recursion(w) * ONE_LEVEL + Owner(w)
  {
    assert w == w / ONE_LEVEL * ONE_LEVEL + w % ONE_LEVEL;
    var h := w / ONE_LEVEL;
    assert h / 0x8000 == w / LOCK_FLAG;
  }

  lemma PackFields(r: nat, c: CoreId)
    requires r <= 0x7FFF
    ensures MAX_RECURSION == 0x7FFF && 0x8000_0000 + r * 0x1_0000 + c < 0x1_0000_0000
    ensures var w: Word := 0x8000_0000 + r * 0x1_0000 + c;
            Locked(w) && Recursion(w) == r && Owner(w) == c
  {
    var w: Word := LOCK_FLAG + r * ONE_LEVEL + c;
    assert w / ONE_LEVEL == 0x8000 + r;
  }

  // One level up: the recursion field never carries into the locked flag.
  lemma IncrementStaysInField(w: Word)
    requires Locked(w) && Recursion(w) < MAX_RECURSION
    ensures w + ONE_LEVEL < 0x1_0000_0000
    ensures Locked(w + ONE_LEVEL) && Owner(w + ONE_LEVEL) == Owner(w)
    ensures Recursion(w + ONE_LEVEL) == Recursion(w) + 1
  {
    FieldsOf(w);
    PackFields(Recursion(w) + 1, Owner(w));
  }

  lemma DecrementStaysInField(w: Word)
    requires Locked(w) && Recursion(w) > 1
    ensures w >= ONE_LEVEL
    ensures Locked(w - ONE_LEVEL) && Owner(w - ONE_LEVEL) == Owner(w)
    ensures Recursion(w - ONE_LEVEL) == Recursion(w) - 1
  {
    FieldsOf(w);
    PackFields(Recursion(w) - 1, Owner(w));
  }

  // The word reentrant_trylock wants to install, or nothing when it gives up.
  function TryTarget(c: CoreId, seen: Word): (d: Option<Word>)
    ensures d.Some? <==> !Locked(seen) || (Owner(seen) == c && Recursion(seen) != MAX_RECURSION)
    ensures d.Some? ==> Locked(d.value) && Owner(d.value) == c
    ensures d.Some? ==> Recursion(d.value) == Depth(seen, c) + 1
  {
    if Locked(seen) && Owner(seen) == c then
      if Recursion(seen) == MAX_RECURSION then None
      else IncrementStaysInField(seen); Some(seen + ONE_LEVEL)
    else if !Locked(seen) then PackFields(1, c); Some(Fresh(c))
    else None
  }

  // The word reentrant_unlock wants to install, or nothing when the caller is not the owner.
  function UnlockTarget(c: CoreId, seen: Word): (d: Option<Word>)
    ensures d.Some? <==> OwnedBy(seen, c)
    ensures d.Some? && Recursion(seen) > 1 ==> OwnedBy(d.value, c) && Recursion(d.value) == Recursion(seen) - 1
    ensures d.Some? && Recursion(seen) <= 1 ==> d.value == 0
  {
    if !Locked(seen) || Owner(seen) != c then None
    else if Recursion(seen) > 1 then DecrementStaysInField(seen); Some(seen - ONE_LEVEL)
    else Some(0)
  }

  // What core c may count on while other cores run: its own holding is untouched, and nobody
  // takes the lock in its name.
  predicate Rely(c: CoreId, before: Word, after: Word) {
    && WellFormed(after)
    && (OwnedBy(before, c) ==> after == before)
    && (!OwnedBy(before, c) ==> !OwnedBy(after, c))
  }
}
