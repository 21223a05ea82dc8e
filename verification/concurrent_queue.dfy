/** `EmbedQueue` shared between threads through `&self`
    (server/bleep/src/semantic/embedder.rs:24-43). Neither operation is
    atomic as a whole: `push` appends to the log and then increments the
    counter, and `pop` removes from the log and then decrements the counter
    (then takes the chunk out of its slot). Threads interleave between the
    two halves.

    The comment on `pop` says the decrement cannot wrap because it only
    happens when the log was non-empty. With the two halves of `push` in the
    order written, that does not hold: a `pop` can remove a chunk whose
    `push` has not yet incremented the counter, and decrement a zero counter
    to 2^64 - 1 (`PopBetweenPushHalvesWraps`). Incrementing before appending
    restores the claim (`CountFirstNeverWraps`). Both orders are one
    transition system here, told apart by `PushOrder`. */
module ConcurrentQueue {
  import opened Common
  import opened Counting
  import EmbedQueue

  type EmbedChunk = EmbedQueue.EmbedChunk

  const WORD: nat := EmbedQueue.WORD

  /** Which half of `push` runs first. */
  datatype PushOrder =
    | LogThenCounter   // as written: `log.push`, then `len.fetch_add(1)`
    | CounterThenLog   // `len.fetch_add(1)`, then `log.push`

  /** Where one thread stands. */
  datatype Phase =
    | Idle                         // not inside `push` or `pop`
    | MidPush(chunk: EmbedChunk)   // the first half of `push` is done
    | MidPop(slot: EmbedQueue.Slot) // `log.pop()` returned this slot; `fetch_sub` pending

  datatype State = State(log: seq<EmbedQueue.Slot>, len: EmbedQueue.Usize, threads: seq<Phase>)

  datatype Step =
    | StartPush(thread: nat, chunk: EmbedChunk)
    | FinishPush(thread: nat)
    | StartPop(thread: nat)
    | FinishPop(thread: nat)

  /** The thread cannot take the step now, the step moves the queue to a new
      state, or it panics in `take().unwrap()`. */
  datatype Outcome = Stays | Moves(next: State) | Panics

  predicate Pushing(ph: Phase) {
    ph.MidPush?
  }

  predicate Popping(ph: Phase) {
    ph.MidPop?
  }

  /** The default queue, with `threadCount` threads about to use it. */
  function Init(threadCount: nat): (s: State)
    ensures s.log == [] && s.len == 0 && |s.threads| == threadCount
    ensures forall w :: 0 <= w < threadCount ==> s.threads[w].Idle?
  {
    State([], 0, seq(threadCount, _ => Idle))
  }

  /** One step of one thread. A `pop` that finds the log empty returns `None`
      and changes nothing, so it is a step that stays. */
  function Apply(order: PushOrder, s: State, step: Step): (r: Outcome)
    ensures r.Panics? <==>
              step.thread < |s.threads| && step.FinishPop? && s.threads[step.thread] == MidPop(None)
    ensures r.Moves? ==> |r.next.threads| == |s.threads|
    ensures r.Moves? ==> forall w :: 0 <= w < |s.threads| && w != step.thread ==> r.next.threads[w] == s.threads[w]
    ensures r.Moves? && step.FinishPop? ==> r.next.log == s.log && r.next.len == (s.len - 1) % WORD
  {
    if step.thread >= |s.threads| then Stays
    else
      var w := step.thread;
      var ph := s.threads[w];
      match step
      case StartPush(_, c) =>
        if !ph.Idle? then Stays
        else if order == LogThenCounter
        then Moves(s.(log := s.log + [Some(c)], threads := s.threads[w := MidPush(c)]))
        else Moves(s.(len := (s.len + 1) % WORD, threads := s.threads[w := MidPush(c)]))
      case FinishPush(_) =>
        if !ph.MidPush? then Stays
        else if order == LogThenCounter
        then Moves(s.(len := (s.len + 1) % WORD, threads := s.threads[w := Idle]))
        else Moves(s.(log := s.log + [Some(ph.chunk)], threads := s.threads[w := Idle]))
      case StartPop(_) =>
        if !ph.Idle? || |s.log| == 0 then Stays
        else Moves(s.(log := s.log[1..], threads := s.threads[w := MidPop(s.log[0])]))
      case FinishPop(_) =>
        if !ph.MidPop? then Stays
        else if ph.slot.None? then Panics
        else Moves(s.(len := (s.len - 1) % WORD, threads := s.threads[w := Idle]))
  }

  /** Runs a schedule of steps; steps a thread cannot take leave the state as
      it is. `None` when some step panics. */
  function Execute(order: PushOrder, s: State, schedule: seq<Step>): Option<State>
    decreases |schedule|
  {
    if schedule == [] then Some(s)
    else
      match Apply(order, s, schedule[0])
      case Panics => None
      case Stays => Execute(order, s, schedule[1..])
      case Moves(t) => Execute(order, t, schedule[1..])
  }

  /** The value the counter holds, before wrapping: every chunk in the log,
      plus every pop whose decrement is still pending, plus (count first) or
      minus (as written) every push that is half done. */
  function Expected(order: PushOrder, s: State): int {
    |s.log| + Count(s.threads, Popping)
    + (if order == LogThenCounter then -(Count(s.threads, Pushing) as int) else Count(s.threads, Pushing))
  }

  /** The invariant of either order: every slot in the log, and every slot a
      thread has popped but not yet emptied, holds its chunk, and the counter
      is `Expected` modulo 2^64. */
  predicate Inv(order: PushOrder, s: State) {
    && (forall i :: 0 <= i < |s.log| ==> s.log[i].Some?)
    && (forall w :: 0 <= w < |s.threads| && s.threads[w].MidPop? ==> s.threads[w].slot.Some?)
    && s.len == Expected(order, s) % WORD
  }

  lemma InitInv(order: PushOrder, threadCount: nat)
    ensures Inv(order, Init(threadCount))
  {
    var s := Init(threadCount);
    CountNone(s.threads, Pushing);
    CountNone(s.threads, Popping);
  }

  /** Adding `d` to a counter already reduced modulo 2^64 is the same as
      reducing once at the end. */
  lemma ModShift(x: int, d: int)
    ensures ((x % WORD) + d) % WORD == (x + d) % WORD
  {
  }

  /** Every step keeps the invariant, and none panics: `take().unwrap()`
      always finds the chunk, in either order. */
  lemma StepKeepsInv(order: PushOrder, s: State, step: Step)
    requires Inv(order, s)
    ensures !Apply(order, s, step).Panics?
    ensures Apply(order, s, step).Moves? ==> Inv(order, Apply(order, s, step).next)
  {
    if Apply(order, s, step).Moves? {
      var t := Apply(order, s, step).next;
      var w := step.thread;
      var ph := t.threads[w];
      CountUpdate(s.threads, w, ph, Pushing);
      CountUpdate(s.threads, w, ph, Popping);
      match step
      case StartPush(_, c) =>
        if order == CounterThenLog {
          ModShift(Expected(order, s), 1);
        }
      case FinishPush(_) =>
        if order == LogThenCounter {
          ModShift(Expected(order, s), 1);
        }
      case StartPop(_) =>
      case FinishPop(_) =>
        ModShift(Expected(order, s), -1);
    }
  }

  /** Every interleaving of any threads' steps, from the default queue, runs
      without a panic and keeps the invariant. */
  lemma {:induction false} ExecuteKeepsInv(order: PushOrder, s: State, schedule: seq<Step>)
    requires Inv(order, s)
    ensures Execute(order, s, schedule).Some?
    ensures Inv(order, Execute(order, s, schedule).value)
    decreases |schedule|
  {
    if schedule != [] {
      StepKeepsInv(order, s, schedule[0]);
      match Apply(order, s, schedule[0])
      case Stays =>
        ExecuteKeepsInv(order, s, schedule[1..]);
      case Moves(t) =>
        ExecuteKeepsInv(order, t, schedule[1..]);
    }
  }

  /** Once no thread is inside `push` or `pop`, the counter equals the number
      of stored chunks modulo 2^64, whichever order `push` uses: the two orders
      differ only while an operation is half done. */
  lemma QuiescentCounter(order: PushOrder, s: State)
    requires Inv(order, s)
    requires forall w :: 0 <= w < |s.threads| ==> s.threads[w].Idle?
    ensures s.len == |s.log| % WORD
  {
    CountNone(s.threads, Pushing);
    CountNone(s.threads, Popping);
  }

  /** As written: thread 0 appends its chunk, thread 1 pops that chunk and
      decrements, and only then does thread 0 increment. The decrement finds
      the counter at zero and wraps it to 2^64 - 1, so `len()` reports
      2^64 - 1 queued chunks and `is_empty()` is false while the log is empty. */
  lemma PopBetweenPushHalvesWraps(c: EmbedChunk)
    ensures var schedule := [StartPush(0, c), StartPop(1), FinishPop(1)];
            var before := Execute(LogThenCounter, Init(2), schedule[..2]);
            && before == Some(State([], 0, [MidPush(c), MidPop(Some(c))]))
            && Execute(LogThenCounter, Init(2), schedule)
               == Some(State([], WORD - 1, [MidPush(c), Idle]))
  {
    var schedule := [StartPush(0, c), StartPop(1), FinishPop(1)];
    var s0 := Init(2);
    var s1 := State([Some(c)], 0, [MidPush(c), Idle]);
    var s2 := State([], 0, [MidPush(c), MidPop(Some(c))]);
    var s3 := State([], WORD - 1, [MidPush(c), Idle]);
    assert s0.threads == [Idle, Idle];
    assert Apply(LogThenCounter, s0, StartPush(0, c)) == Moves(s1);
    assert Apply(LogThenCounter, s1, StartPop(1)) == Moves(s2);
    assert Apply(LogThenCounter, s2, FinishPop(1)) == Moves(s3);
    assert Execute(LogThenCounter, s2, []) == Some(s2);
    assert Execute(LogThenCounter, s1, [StartPop(1)]) == Some(s2);
    assert [StartPush(0, c), StartPop(1)][1..] == [StartPop(1)];
    assert schedule[..2] == [StartPush(0, c), StartPop(1)];
    assert Execute(LogThenCounter, s0, schedule[..2]) == Some(s2);
    assert Execute(LogThenCounter, s3, []) == Some(s3);
    assert Execute(LogThenCounter, s2, [FinishPop(1)]) == Some(s3);
    assert Execute(LogThenCounter, s1, [StartPop(1), FinishPop(1)]) == Some(s3);
  }

  /** Counter first: while fewer than 2^64 chunks are stored or in flight, the
      counter never reads less than the stored chunks, and a thread about to
      decrement finds it positive, so `fetch_sub` never wraps. */
  lemma CountFirstNeverWraps(s: State, w: nat)
    requires Inv(CounterThenLog, s)
    requires |s.log| + Count(s.threads, Pushing) + Count(s.threads, Popping) < WORD
    ensures s.len >= |s.log|
    ensures w < |s.threads| && s.threads[w].MidPop? ==>
              && s.len >= 1
              && Apply(CounterThenLog, s, FinishPop(w)).Moves?
              && Apply(CounterThenLog, s, FinishPop(w)).next.len == s.len - 1
  {
    if w < |s.threads| && s.threads[w].MidPop? {
      CountWitness(s.threads, Popping, w);
    }
  }
}
