/** Admission to the accelerated backend's session pool
    (server/bleep/src/semantic/embedder.rs:207-229, 250-261, 288-311).

    `new` builds `session_count` sessions, each behind its own async mutex,
    and a semaphore holding `session_count` permits. Every `embed` and
    `batch_embed` call acquires a permit, then calls `try_lock` on the
    sessions in index order and evaluates on the first one it gets; if the
    loop ends without a lock it reaches `unreachable!()`. The session guard
    lives inside the permit's scope, so a caller unlocks its session before
    it gives its permit back.

    The model is a transition system over a fixed set of callers whose steps
    interleave arbitrarily. Each step is atomic: acquiring a permit, one
    `try_lock` of the scan, dropping the session guard, dropping the permit. */
module SessionPool {
  import opened Common
  import opened Counting

  /** Where one caller of `embed` or `batch_embed` stands. */
  datatype Phase =
    | Idle                      // outside the pool: not yet admitted, or done
    | Scanning(next: nat)       // holds a permit; will `try_lock` session `next`
    | Evaluating(session: nat)  // holds a permit and the lock of `session`
    | Finishing                 // session guard dropped, permit still held

  /** `locked[i]`: session `i`'s mutex is held. `available`: the semaphore's
      free permits. `callers[c]`: the phase of caller `c`. */
  datatype State = State(locked: seq<bool>, available: nat, callers: seq<Phase>)

  predicate IsLocked(b: bool) {
    b
  }

  predicate IsFree(b: bool) {
    !b
  }

  predicate HoldsPermit(ph: Phase) {
    !ph.Idle?
  }

  predicate HoldsSession(ph: Phase) {
    ph.Evaluating?
  }

  predicate IsScanning(ph: Phase) {
    ph.Scanning?
  }

  predicate ScansOrHoldsSession(ph: Phase) {
    ph.Scanning? || ph.Evaluating?
  }

  /** Callers still scanning whose next `try_lock` is at index `t` or later. */
  function ScanningFrom(t: nat): Phase -> bool {
    (ph: Phase) => ph.Scanning? && ph.next >= t
  }

  /** Callers whose next `try_lock` is exactly at index `t`. */
  function ScanningAt(t: nat): Phase -> bool {
    (ph: Phase) => ph.Scanning? && ph.next == t
  }

  /** Number of free sessions at index `t` or later. */
  function FreeFrom(locked: seq<bool>, t: nat): nat {
    if t >= |locked| then 0 else Count(locked[t..], IsFree)
  }

  /** The pool's invariant.
      - Every permit is either free or held by exactly one caller.
      - There are as many locked sessions as callers evaluating; an evaluating
        caller's session exists and is locked; no two callers evaluate on the
        same session.
      - For every index `t`, the callers still scanning at `t` or beyond are no
        more than the free sessions at `t` or beyond: each scanner can still be
        matched with its own free session ahead of it. */
  ghost predicate Inv(s: State) {
    && s.available + Count(s.callers, HoldsPermit) == |s.locked|
    && Count(s.locked, IsLocked) == Count(s.callers, HoldsSession)
    && (forall c :: 0 <= c < |s.callers| && s.callers[c].Evaluating? ==>
          s.callers[c].session < |s.locked| && s.locked[s.callers[c].session])
    && (forall c, d ::
          (0 <= c < |s.callers| && 0 <= d < |s.callers| && c != d
           && s.callers[c].Evaluating? && s.callers[d].Evaluating?) ==>
          s.callers[c].session != s.callers[d].session)
    && (forall t: nat :: Count(s.callers, ScanningFrom(t)) <= FreeFrom(s.locked, t))
  }

  /** `session_count`: `cfg!(feature = "metal")` picks 3, otherwise 25. The
      `gpu` module is itself compiled only with that feature, so a built
      accelerated backend always runs 3 sessions. */
  function SessionCount(metal: bool): (n: nat)
    ensures n > 0
  {
    if metal then 3 else 25
  }

  /** `LocalEmbedder::new`: `sessionCount` unlocked sessions and a semaphore
      with as many permits; all callers are outside the pool. */
  function Init(sessionCount: nat, callerCount: nat): (s: State)
    ensures |s.locked| == sessionCount && s.available == sessionCount
    ensures |s.callers| == callerCount
    ensures Inv(s)
  {
    var s := State(seq(sessionCount, _ => false), sessionCount, seq(callerCount, _ => Idle));
    CountNone(s.locked, IsLocked);
    CountNone(s.callers, HoldsPermit);
    CountNone(s.callers, HoldsSession);
    assert forall t: nat :: Count(s.callers, ScanningFrom(t)) == 0 by {
      forall t: nat {
        CountNone(s.callers, ScanningFrom(t));
      }
    }
    s
  }

  datatype Step = Acquire(caller: nat) | TryLock(caller: nat) | Unlock(caller: nat) | DropPermit(caller: nat)

  /** What a step does: the caller cannot take it now (it waits for a permit,
      or is not at that point of its call), it moves the pool to a new state,
      or it panics in `unreachable!()`. */
  datatype Outcome = Stays | Moves(next: State) | Panics

  function Apply(s: State, step: Step): (r: Outcome)
    ensures r.Panics? <==>
              && step.caller < |s.callers| && step.TryLock?
              && s.callers[step.caller].Scanning? && s.callers[step.caller].next >= |s.locked|
    ensures r.Moves? ==> |r.next.locked| == |s.locked| && |r.next.callers| == |s.callers|
    ensures r.Moves? ==> forall d :: 0 <= d < |s.callers| && d != step.caller ==> r.next.callers[d] == s.callers[d]
    ensures r.Moves? ==>
              r.next.available == s.available + (if step.DropPermit? then 1 else 0) - (if step.Acquire? then 1 else 0)
    ensures r.Moves? ==> step.caller < |s.callers| && forall i :: 0 <= i < |s.locked| && r.next.locked[i] != s.locked[i] ==>
              || (step.TryLock? && r.next.callers[step.caller] == Evaluating(i))
              || (step.Unlock? && s.callers[step.caller] == Evaluating(i))
  {
    if step.caller >= |s.callers| then Stays
    else
      var c := step.caller;
      var ph := s.callers[c];
      match step
      case Acquire(_) =>
        if ph.Idle? && s.available > 0
        then Moves(s.(available := s.available - 1, callers := s.callers[c := Scanning(0)]))
        else Stays
      case TryLock(_) =>
        if !ph.Scanning? then Stays
        else if ph.next >= |s.locked| then Panics
        else if s.locked[ph.next] then Moves(s.(callers := s.callers[c := Scanning(ph.next + 1)]))
        else Moves(s.(locked := s.locked[ph.next := true], callers := s.callers[c := Evaluating(ph.next)]))
      case Unlock(_) =>
        if ph.Evaluating? && ph.session < |s.locked|
        then Moves(s.(locked := s.locked[ph.session := false], callers := s.callers[c := Finishing]))
        else Stays
      case DropPermit(_) =>
        if ph.Finishing?
        then Moves(s.(available := s.available + 1, callers := s.callers[c := Idle]))
        else Stays
  }

  // ---------------------------------------------------------------------
  // Counting facts

  /** Every session is either locked or free. */
  lemma {:induction false} LockedPlusFree(locked: seq<bool>)
    ensures Count(locked, IsLocked) + Count(locked, IsFree) == |locked|
  {
    if locked != [] {
      LockedPlusFree(locked[1..]);
    }
  }

  /** Changing session `i` changes the free count from `t` only when `t <= i`. */
  lemma FreeFromUpdate(locked: seq<bool>, i: nat, b: bool, t: nat)
    requires i < |locked|
    ensures FreeFrom(locked[i := b], t)
              == FreeFrom(locked, t)
                 + (if t <= i then (if b then 0 else 1) - (if locked[i] then 0 else 1) else 0)
  {
    if t <= i {
      assert locked[i := b][t..] == locked[t..][i - t := b];
      CountUpdate(locked[t..], i - t, b, IsFree);
    } else if t < |locked| {
      assert locked[i := b][t..] == locked[t..];
    }
  }

  /** Session `t` itself followed by the sessions after it. */
  lemma FreeFromStep(locked: seq<bool>, t: nat)
    requires t < |locked|
    ensures FreeFrom(locked, t) == (if locked[t] then 0 else 1) + FreeFrom(locked, t + 1)
  {
  }

  // ---------------------------------------------------------------------
  // Properties of the pool

  /** Locked sessions never outnumber the permits issued, and permits issued
      never outnumber the sessions. */
  lemma LockedWithinPermits(s: State)
    requires Inv(s)
    ensures Count(s.locked, IsLocked) <= |s.locked| - s.available <= |s.locked|
  {
    CountMonotone(s.callers, HoldsSession, HoldsPermit);
  }

  /** A scanning caller's next `try_lock` is always on an existing session,
      and some session at that index or later is free. */
  lemma ScanStaysInPool(s: State, c: nat)
    requires Inv(s) && c < |s.callers| && s.callers[c].Scanning?
    ensures s.callers[c].next < |s.locked|
    ensures FreeFrom(s.locked, s.callers[c].next) >= 1
  {
    CountWitness(s.callers, ScanningFrom(s.callers[c].next), c);
  }

  /** No step from a state satisfying the invariant panics: the scan of a
      caller holding a permit always ends on a session it locks, so
      `unreachable!()` is never reached. */
  lemma NeverUnreachable(s: State, step: Step)
    requires Inv(s)
    ensures !Apply(s, step).Panics?
  {
    if step.caller < |s.callers| && s.callers[step.caller].Scanning? {
      ScanStaysInPool(s, step.caller);
    }
  }

  /** Every step keeps the invariant, and never changes the number of sessions
      or callers. */
  lemma StepKeepsInv(s: State, step: Step)
    requires Inv(s) && Apply(s, step).Moves?
    ensures Inv(Apply(s, step).next)
    ensures |Apply(s, step).next.locked| == |s.locked|
    ensures |Apply(s, step).next.callers| == |s.callers|
  {
    match step
    case Acquire(c) => AcquireKeepsInv(s, c);
    case TryLock(c) =>
      if s.locked[s.callers[c].next] {
        TryLockedKeepsInv(s, c);
      } else {
        TryFreeKeepsInv(s, c);
      }
    case Unlock(c) => UnlockKeepsInv(s, c);
    case DropPermit(c) =>
      var t := Apply(s, step).next;
      CountUpdate(s.callers, c, Idle, HoldsPermit);
      CountUpdate(s.callers, c, Idle, HoldsSession);
      forall u: nat ensures Count(t.callers, ScanningFrom(u)) <= FreeFrom(t.locked, u) {
        CountUpdate(s.callers, c, Idle, ScanningFrom(u));
      }
  }

  /** A newly admitted caller starts scanning at index 0; the permit it took
      was free, so one more scanner still fits among the free sessions. */
  lemma AcquireKeepsInv(s: State, c: nat)
    requires Inv(s) && Apply(s, Acquire(c)).Moves?
    ensures Inv(Apply(s, Acquire(c)).next)
  {
    var t := Apply(s, Acquire(c)).next;
    CountUpdate(s.callers, c, Scanning(0), HoldsPermit);
    CountUpdate(s.callers, c, Scanning(0), HoldsSession);
    forall u: nat ensures Count(t.callers, ScanningFrom(u)) <= FreeFrom(t.locked, u) {
      CountUpdate(s.callers, c, Scanning(0), ScanningFrom(u));
      if u == 0 {
        CountMonotone(s.callers, ScanningFrom(0), IsScanning);
        CountDisjoint(s.callers, IsScanning, HoldsSession, ScansOrHoldsSession);
        CountMonotone(s.callers, ScansOrHoldsSession, HoldsPermit);
        LockedPlusFree(s.locked);
        if |s.locked| > 0 {
          assert s.locked[0..] == s.locked;
        }
      }
    }
  }

  /** A `try_lock` that fails moves the scanner one index on; the session it
      skipped was locked, so the scanners beyond it still fit. */
  lemma TryLockedKeepsInv(s: State, c: nat)
    requires Inv(s) && c < |s.callers| && s.callers[c].Scanning?
    requires s.callers[c].next < |s.locked| && s.locked[s.callers[c].next]
    ensures Apply(s, TryLock(c)).Moves? && Inv(Apply(s, TryLock(c)).next)
  {
    var p := s.callers[c].next;
    var t := Apply(s, TryLock(c)).next;
    CountUpdate(s.callers, c, Scanning(p + 1), HoldsPermit);
    CountUpdate(s.callers, c, Scanning(p + 1), HoldsSession);
    forall u: nat ensures Count(t.callers, ScanningFrom(u)) <= FreeFrom(t.locked, u) {
      CountUpdate(s.callers, c, Scanning(p + 1), ScanningFrom(u));
      if u == p + 1 {
        CountDisjoint(s.callers, ScanningFrom(p + 1), ScanningAt(p), ScanningFrom(p));
        CountWitness(s.callers, ScanningAt(p), c);
        FreeFromStep(s.locked, p);
      }
    }
  }

  /** A `try_lock` that succeeds turns the scanner into the session's only
      evaluator; it removes one scanner and one free session together. */
  lemma TryFreeKeepsInv(s: State, c: nat)
    requires Inv(s) && c < |s.callers| && s.callers[c].Scanning?
    requires s.callers[c].next < |s.locked| && !s.locked[s.callers[c].next]
    ensures Apply(s, TryLock(c)).Moves? && Inv(Apply(s, TryLock(c)).next)
  {
    var p := s.callers[c].next;
    var t := Apply(s, TryLock(c)).next;
    CountUpdate(s.callers, c, Evaluating(p), HoldsPermit);
    CountUpdate(s.callers, c, Evaluating(p), HoldsSession);
    CountUpdate(s.locked, p, true, IsLocked);
    assert t.callers[c] == Evaluating(p);
    forall u: nat ensures Count(t.callers, ScanningFrom(u)) <= FreeFrom(t.locked, u) {
      CountUpdate(s.callers, c, Evaluating(p), ScanningFrom(u));
      FreeFromUpdate(s.locked, p, true, u);
    }
  }

  /** Dropping a session guard frees the session and leaves the permit held. */
  lemma UnlockKeepsInv(s: State, c: nat)
    requires Inv(s) && Apply(s, Unlock(c)).Moves?
    ensures Inv(Apply(s, Unlock(c)).next)
  {
    var i := s.callers[c].session;
    var t := Apply(s, Unlock(c)).next;
    CountUpdate(s.callers, c, Finishing, HoldsPermit);
    CountUpdate(s.callers, c, Finishing, HoldsSession);
    CountUpdate(s.locked, i, false, IsLocked);
    forall u: nat ensures Count(t.callers, ScanningFrom(u)) <= FreeFrom(t.locked, u) {
      CountUpdate(s.callers, c, Finishing, ScanningFrom(u));
      FreeFromUpdate(s.locked, i, false, u);
    }
  }

  /** Runs a schedule of steps; steps a caller cannot take leave the state as
      it is. `None` when some step panics. */
  function Execute(s: State, schedule: seq<Step>): Option<State>
    decreases |schedule|
  {
    if schedule == [] then Some(s)
    else
      match Apply(s, schedule[0])
      case Panics => None
      case Stays => Execute(s, schedule[1..])
      case Moves(t) => Execute(t, schedule[1..])
  }

  /** Every interleaving of the callers' steps, from a state satisfying the
      invariant (a freshly built pool, say), runs without a panic and keeps
      the invariant. */
  lemma {:induction false} ExecuteKeepsInv(s: State, schedule: seq<Step>)
    requires Inv(s)
    ensures Execute(s, schedule).Some?
    ensures Inv(Execute(s, schedule).value)
    ensures |Execute(s, schedule).value.locked| == |s.locked|
    ensures |Execute(s, schedule).value.callers| == |s.callers|
    decreases |schedule|
  {
    if schedule != [] {
      NeverUnreachable(s, schedule[0]);
      match Apply(s, schedule[0])
      case Stays =>
        ExecuteKeepsInv(s, schedule[1..]);
      case Moves(t) =>
        StepKeepsInv(s, schedule[0]);
        ExecuteKeepsInv(t, schedule[1..]);
    }
  }

  /** The lowest-index free session at index `from` or later. */
  function FirstFreeFrom(locked: seq<bool>, from: nat): (r: Option<nat>)
    requires from <= |locked|
    ensures r.Some? ==> from <= r.value < |locked| && !locked[r.value]
                        && forall j :: from <= j < r.value ==> locked[j]
    ensures r.None? ==> forall j :: from <= j < |locked| ==> locked[j]
    decreases |locked| - from
  {
    if from == |locked| then None
    else if !locked[from] then Some(from)
    else FirstFreeFrom(locked, from + 1)
  }

  function Repeat(step: Step, k: nat): (steps: seq<Step>)
    ensures |steps| == k && forall j :: 0 <= j < k ==> steps[j] == step
  {
    seq(k, _ => step)
  }

  lemma {:induction false} SoloScanFrom(s: State, c: nat, i: nat)
    requires c < |s.callers| && s.callers[c].Scanning? && s.callers[c].next <= |s.locked|
    requires FirstFreeFrom(s.locked, s.callers[c].next) == Some(i)
    ensures Execute(s, Repeat(TryLock(c), i - s.callers[c].next + 1))
            == Some(s.(locked := s.locked[i := true], callers := s.callers[c := Evaluating(i)]))
    decreases i - s.callers[c].next
  {
    var p := s.callers[c].next;
    var steps := Repeat(TryLock(c), i - p + 1);
    assert steps[1..] == Repeat(TryLock(c), i - p);
    if p < i {
      var s1 := s.(callers := s.callers[c := Scanning(p + 1)]);
      assert Apply(s, TryLock(c)) == Moves(s1);
      SoloScanFrom(s1, c, i);
      assert s1.callers[c := Evaluating(i)] == s.callers[c := Evaluating(i)];
      assert Repeat(TryLock(c), i - (p + 1) + 1) == steps[1..];
    }
  }

  /** A caller that scans while no other caller moves locks the lowest-index
      free session, after one `try_lock` per session up to and including it;
      a free session exists whenever a caller has just been admitted. */
  lemma SoloScanTakesLowestFree(s: State, c: nat)
    requires Inv(s) && c < |s.callers| && s.callers[c] == Scanning(0)
    ensures FirstFreeFrom(s.locked, 0).Some?
    ensures var i := FirstFreeFrom(s.locked, 0).value;
            && (forall j :: 0 <= j < i ==> s.locked[j]) && !s.locked[i]
            && Execute(s, Repeat(TryLock(c), i + 1))
               == Some(s.(locked := s.locked[i := true], callers := s.callers[c := Evaluating(i)]))
  {
    ScanStaysInPool(s, c);
    if FirstFreeFrom(s.locked, 0).None? {
      assert s.locked[0..] == s.locked;
      CountNone(s.locked, IsFree);
    }
    SoloScanFrom(s, c, FirstFreeFrom(s.locked, 0).value);
  }

  /** The step caller `c` takes next, given its phase. */
  function NextStep(s: State, c: nat): Step
    requires c < |s.callers|
  {
    match s.callers[c]
    case Idle => Acquire(c)
    case Scanning(_) => TryLock(c)
    case Evaluating(_) => Unlock(c)
    case Finishing => DropPermit(c)
  }

  /** No deadlock: a caller inside the pool can always take its next step,
      and a caller waiting for a permit only waits while some other caller is
      inside the pool and can move. */
  lemma NoDeadlock(s: State, c: nat)
    requires Inv(s) && c < |s.callers| && |s.locked| > 0
    ensures !s.callers[c].Idle? ==> Apply(s, NextStep(s, c)).Moves?
    ensures s.callers[c].Idle? && Apply(s, Acquire(c)).Stays? ==>
              exists d :: 0 <= d < |s.callers| && d != c && !s.callers[d].Idle?
                          && Apply(s, NextStep(s, d)).Moves?
  {
    NeverUnreachable(s, NextStep(s, c));
    if s.callers[c].Idle? && s.available == 0 {
      SomeHolderExists(s.callers);
      var d :| 0 <= d < |s.callers| && HoldsPermit(s.callers[d]);
      NeverUnreachable(s, NextStep(s, d));
    }
  }

  /** Some caller holds a permit when the count of holders is positive. */
  lemma SomeHolderExists(callers: seq<Phase>)
    requires Count(callers, HoldsPermit) > 0
    ensures exists d :: 0 <= d < |callers| && HoldsPermit(callers[d])
  {
  }

  /** The pool as built: `SessionCount(true)` sessions, which is never zero, so
      every state any interleaving of any number of callers reaches satisfies
      the invariant and `NoDeadlock` applies to it; in particular a caller
      inside the pool can always take its next step. */
  lemma {:induction false} BuiltPoolNeverStalls(callerCount: nat, schedule: seq<Step>, c: nat)
    requires c < callerCount
    ensures Execute(Init(SessionCount(true), callerCount), schedule).Some?
    ensures var t := Execute(Init(SessionCount(true), callerCount), schedule).value;
            && Inv(t) && |t.locked| == 3 && |t.callers| == callerCount
            && (!t.callers[c].Idle? ==> Apply(t, NextStep(t, c)).Moves?)
  {
    var s := Init(SessionCount(true), callerCount);
    ExecuteKeepsInv(s, schedule);
    var t := Execute(s, schedule).value;
    NoDeadlock(t, c);
  }
}
