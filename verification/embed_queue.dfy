/** The pending-work queue of the embedder: a lock-free log of
    `Mutex<Option<EmbedChunk>>` slots beside an atomic `usize` length
    counter (server/bleep/src/semantic/embedder.rs:18-58).

    Here each `push` and `pop` is one atomic step, as when one thread at a
    time uses the queue, and the log is first-in first-out; `ConcurrentQueue`
    splits both operations into their two halves and interleaves threads. The counter is a 64-bit `usize`, so its
    increment and decrement wrap around exactly as `fetch_add`/`fetch_sub` do. */
module EmbedQueue {
  import opened Common

  /** 2^64: the modulus of `usize` on the 64-bit targets the server ships for. */
  const WORD: nat := 0x1_0000_0000_0000_0000

  type Usize = x: nat | x < WORD

  /** A qdrant payload value; the queue never looks inside it. */
  type PayloadValue(==)

  datatype EmbedChunk = EmbedChunk(id: string, data: string, payload: map<string, PayloadValue>)

  /** One slot of the log. A slot is pushed holding `Some(chunk)` and is emptied
      by `take()` once it has been popped. */
  type Slot = Option<EmbedChunk>

  datatype Queue = Queue(log: seq<Slot>, len: Usize)

  /** The queue invariant: the counter mirrors the number of slots (modulo the
      width of `usize`) and every slot still in the log holds its chunk. */
  predicate Valid(q: Queue) {
    && q.len == |q.log| % WORD
    && forall i :: 0 <= i < |q.log| ==> q.log[i].Some?
  }

  /** The chunks held by a valid queue, oldest first. */
  function Contents(q: Queue): (cs: seq<EmbedChunk>)
    requires Valid(q)
    ensures |cs| == |q.log|
    ensures forall i :: 0 <= i < |q.log| ==> q.log[i] == Some(cs[i])
  {
    seq(|q.log|, i requires 0 <= i < |q.log| && q.log[i].Some? => q.log[i].value)
  }

  /** `EmbedQueue::default()`. */
  function Empty(): (q: Queue)
    ensures Valid(q) && Contents(q) == [] && q.len == 0
  {
    Queue([], 0)
  }

  /** `push`: append a full slot, then `fetch_add(1)` on the counter. */
  function Push(q: Queue, chunk: EmbedChunk): (q': Queue)
    ensures Valid(q) ==> Valid(q') && Contents(q') == Contents(q) + [chunk]
    ensures |q.log| + 1 < WORD && Valid(q) ==> Len(q') == Len(q) + 1
  {
    Queue(q.log + [Some(chunk)], (q.len + 1) % WORD)
  }

  /** What `pop` can do: return (maybe) a chunk together with the queue that
      remains, or panic in `take().unwrap()` on a slot that was already empty. */
  datatype Popped = Popped(chunk: Option<EmbedChunk>, rest: Queue) | TakeOnEmptySlot

  /** `pop`: an empty log yields `None` and touches nothing; otherwise the
      oldest slot leaves the log, the counter is decremented with `fetch_sub(1)`
      (wrapping), and the slot's chunk is taken out. */
  function Pop(q: Queue): (r: Popped)
    ensures |q.log| == 0 ==> r == Popped(None, q)
    ensures Valid(q) ==> r.Popped? && Valid(r.rest)
    ensures Valid(q) && |q.log| > 0 ==>
              && r.Popped?
              && r.chunk == Some(Contents(q)[0])
              && Contents(r.rest) == Contents(q)[1..]
    ensures Valid(q) && 0 < |q.log| < WORD ==> r.Popped? && Len(r.rest) == Len(q) - 1
  {
    if |q.log| == 0 then
      Popped(None, q)
    else
      var len' := (q.len - 1) % WORD;
      match q.log[0]
      case None => TakeOnEmptySlot
      case Some(c) => Popped(Some(c), Queue(q.log[1..], len'))
  }

  /** `len`: the counter, read without looking at the log. On a valid queue it
      is the number of stored chunks modulo 2^64, and exactly that number on
      any queue smaller than the address space. */
  function Len(q: Queue): (n: Usize)
    ensures Valid(q) ==> n == |Contents(q)| % WORD
    ensures Valid(q) && |q.log| < WORD ==> n == |Contents(q)|
  {
    q.len
  }

  /** `is_empty`: the counter reads zero, which on a valid queue smaller than
      the address space is exactly when no chunk is stored. */
  function IsEmpty(q: Queue): (r: bool)
    ensures Valid(q) && |q.log| < WORD ==> (r <==> Contents(q) == [])
  {
    Len(q) == 0
  }

  /** On any queue smaller than the address space, the counter is exactly the
      number of stored chunks, `is_empty` holds exactly when nothing is stored,
      and a `pop` that finds a chunk decrements a counter that is positive. */
  lemma LenCountsStored(q: Queue)
    requires Valid(q) && |q.log| < WORD
    ensures Len(q) == |Contents(q)|
    ensures IsEmpty(q) <==> Contents(q) == []
    ensures Pop(q).Popped? && Pop(q).chunk.Some? ==> Len(q) > 0
  {
  }

  datatype Op = PushOp(chunk: EmbedChunk) | PopOp

  /** The chunks a sequence of operations pushes, in order. */
  function Pushed(ops: seq<Op>): (cs: seq<EmbedChunk>)
    ensures |cs| <= |ops|
  {
    if ops == [] then []
    else (if ops[0].PushOp? then [ops[0].chunk] else []) + Pushed(ops[1..])
  }

  /** One operation: the queue it leaves and the chunks it delivers (none for a
      push or an empty pop, one for a successful pop); `None` when it panics. */
  function Step(q: Queue, op: Op): Option<(Queue, seq<EmbedChunk>)> {
    match op
    case PushOp(c) => Some((Push(q, c), []))
    case PopOp =>
      match Pop(q)
      case TakeOnEmptySlot => None
      case Popped(None, q') => Some((q', []))
      case Popped(Some(c), q') => Some((q', [c]))
  }

  /** A single step on a valid queue succeeds, keeps it valid, and delivered
      chunks followed by what remains equal what was stored plus what was pushed. */
  lemma StepKeepsAccount(q: Queue, op: Op)
    requires Valid(q)
    ensures Step(q, op).Some?
    ensures Valid(Step(q, op).value.0)
    ensures Step(q, op).value.1 + Contents(Step(q, op).value.0) == Contents(q) + Pushed([op])
  {
  }

  /** Runs operations one after another from `q`. The result holds the final
      queue and the chunks the successful pops delivered, in order; it is
      `None` when some pop panics. */
  function Run(q: Queue, ops: seq<Op>): Option<(Queue, seq<EmbedChunk>)>
    decreases |ops|
  {
    if ops == [] then Some((q, []))
    else
      match Step(q, ops[0])
      case None => None
      case Some((q1, d1)) =>
        match Run(q1, ops[1..])
        case None => None
        case Some((qf, d)) => Some((qf, d1 + d))
  }

  /** Any sequence of pushes and pops on a valid queue never panics, keeps
      the queue valid, and delivers every chunk at most once and in push order:
      what was delivered followed by what remains is what was stored plus what
      was pushed. */
  lemma {:induction false} RunKeepsAccount(q: Queue, ops: seq<Op>)
    requires Valid(q)
    ensures Run(q, ops).Some?
    ensures Valid(Run(q, ops).value.0)
    ensures Run(q, ops).value.1 + Contents(Run(q, ops).value.0) == Contents(q) + Pushed(ops)
    decreases |ops|
  {
    if ops != [] {
      var rest := ops[1..];
      StepKeepsAccount(q, ops[0]);
      var (q1, d1) := Step(q, ops[0]).value;
      RunKeepsAccount(q1, rest);
      var (qf, d) := Run(q1, rest).value;
      assert Pushed(ops) == Pushed([ops[0]]) + Pushed(rest) by {
        assert [ops[0]][1..] == [];
      }
      calc {
        (d1 + d) + Contents(qf);
        d1 + (d + Contents(qf));
        d1 + (Contents(q1) + Pushed(rest));
        (d1 + Contents(q1)) + Pushed(rest);
        (Contents(q) + Pushed([ops[0]])) + Pushed(rest);
      }
    }
  }

  /** Once the operations quiesce, the counter reads (stored + pushes -
      successful pops) modulo the width of `usize`; below 2^64 chunks that is
      the plain count, which is never negative. */
  lemma LenAfterRun(q: Queue, ops: seq<Op>)
    requires Valid(q)
    ensures Run(q, ops).Some?
    ensures Len(Run(q, ops).value.0)
              == (|Contents(q)| + |Pushed(ops)| - |Run(q, ops).value.1|) % WORD
  {
    RunKeepsAccount(q, ops);
    var (qf, d) := Run(q, ops).value;
    assert |d| + |Contents(qf)| == |Contents(q)| + |Pushed(ops)|;
  }
}
