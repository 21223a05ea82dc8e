# Local embedder of bloop's semantic search, modelled in Dafny

bloop's server turns text into 384-wide embedding vectors with a locally
hosted model (`server/bleep/src/semantic/embedder.rs`). This project models
the logic around the native inference calls and proves its properties:

- **`EmbedQueue`** (`embed_queue.dfy`): the work queue of `EmbedChunk`s. It
  is a log of `Mutex<Option<EmbedChunk>>` slots plus an `AtomicUsize` length
  counter. The counter is a 64-bit `usize`, so `fetch_add`/`fetch_sub` wrap
  modulo 2^64 in the model too. The invariant is "counter = stored slots
  modulo 2^64, every stored slot holds its chunk". It holds with no size bound.
  This part treats each `push` and `pop` as one atomic step, as when one
  thread at a time uses the queue. Under that reading, below 2^64 chunks the
  counter is exactly the number stored, and a successful `pop` never
  decrements zero. Any sequence of pushes and pops never panics and delivers
  each chunk at most once, in push order. It also leaves the counter at
  pushes minus successful pops.
- **Shared queue** (`concurrent_queue.dfy`): the same queue used by several
  threads at once through `&self`. `push` is `log.push` then `fetch_add`, and
  `pop` is `log.pop` then `fetch_sub` then `take`, with threads interleaving
  between the halves. `take().unwrap()` never panics, and once no operation
  is half done the counter again equals the stored chunks modulo 2^64. While
  a `push` is half done, though, a `pop` can decrement a zero counter and wrap
  it to 2^64 - 1, contrary to the comment in `pop` (see Findings).
- **Thread count** (`thread_count.dfy`): `NUM_OMP_THREADS` parsed the way
  Rust's `str::parse` parses a signed integer, with 1 as the fallback. The
  digit-by-digit, overflow-checked parser is proved equal to a declarative
  definition, and every `i16` value round-trips through its decimal text.
- **CPU backend** (`cpu_embedder.dfy`): `embed` builds three `(1, length)`
  tensors and fails with a shape error exactly when the tokenizer's three
  arrays differ in length. `FromShapeVec` stands in for ndarray's
  `Array::from_shape_vec`: it fails unless the data fills the shape. Errors
  from the session run are passed on as `Inference` errors, which are never
  shape errors. `batch_embed` is a short-circuiting map. It
  succeeds exactly when every entry embeds, and then entry `i` is
  `embed(input[i])`. Otherwise it returns the first failure's error, and
  entries after that failure are never consulted.
- **Splitting a batch's output** (`vectors.dfy`, `chunking.dfy`,
  `gpu_embedder.dfy`): `chunks(384)` over the flat output buffer. The pieces
  concatenate back to the buffer. All but the last are full width, and the
  last is non-empty and at most 384 wide. There are ceil(n/384) of them, and
  piece `i` is the window starting at `i * 384`. The NaN check only records
  which vectors it reports and never changes them. `f32` is its IEEE 754 bit
  pattern. NaN is an all-ones exponent with a non-zero fraction, which is
  the same as a pattern above infinity's with either sign.
- **Session pool** (`session_pool.dfy`): the accelerated backend's admission
  protocol as a transition system over any number of callers. Its steps are
  acquire a permit, one `try_lock` of the scan, drop the session guard, and
  drop the permit. Any interleaving of these steps is allowed. The invariant
  includes a Hall-style matching condition: for every index `t`, callers
  still scanning at `t` or beyond are no more than the free sessions at `t`
  or beyond. The invariant holds initially and is kept by every step. It
  shows:
  - a scanning caller never runs off the end of the pool, so both
    `unreachable!()` calls are unreachable;
  - locked sessions ≤ permits issued ≤ `session_count`;
  - no two callers evaluate on one session;
  - a caller waiting for a permit waits only while another caller can move.

  The argument depends on the guard being dropped before the permit. With
  the opposite order the scan can fail. Take one session and two callers: A
  locks session 0 and returns its permit while still holding the lock. B then
  acquires the permit, fails `try_lock` on session 0, and runs off the end.

Common `Option`/`Result` types are in `common.dfy`. Foreign calls are
function parameters or inputs. These are the ONNX session run with mean
pooling, the `llm` batch evaluation, the tokenizer output and the
environment variable's value.

Further facts about the code that shape the model:

- The thread count comes from the `NUM_OMP_THREADS` environment variable.
  It is parsed as the `i16` that ort 1.x's `with_intra_threads` takes. That
  signature is outside the shown source.
- `session_count` is `if cfg!(feature = "metal") { 3 } else { 25 }`. The
  `gpu` module is compiled only with that feature, so the built pool always
  has 3 sessions (`SessionPool.BuiltPoolNeverStalls`).
- The permit-then-scan in `embed` and `batch_embed` cannot fail for the code
  as written (`SessionPool.NeverUnreachable`).

## Model

| member | source | states |
|---|---|---|
| EmbedQueue.Empty | server/bleep/src/semantic/embedder.rs:18-22 | a defaulted queue satisfies the invariant, stores nothing and its counter is 0 |
| EmbedQueue.Push | server/bleep/src/semantic/embedder.rs:39-42 | push keeps the invariant, appends exactly the chunk after the unchanged earlier ones, and raises `len` by one unless the counter wraps at 2^64 |
| EmbedQueue.Pop | server/bleep/src/semantic/embedder.rs:25-37 | an empty queue yields `None` and is left unchanged; a valid queue never panics in `take().unwrap()`, returns the oldest chunk, keeps the rest in order, stays valid, and lowers `len` by one without wrapping below 2^64 chunks |
| EmbedQueue.Len | server/bleep/src/semantic/embedder.rs:44-46 | `len` reads the number of stored chunks modulo 2^64, and exactly that number below 2^64 chunks, when each operation runs as one step |
| EmbedQueue.IsEmpty | server/bleep/src/semantic/embedder.rs:48-50 | below 2^64 chunks `is_empty` holds exactly when no chunk is stored, when each operation runs as one step |
| EmbedQueue.LenCountsStored | server/bleep/src/semantic/embedder.rs:31-50 | below 2^64 chunks `len` equals the number of stored chunks, `is_empty` holds iff nothing is stored, and a successful pop finds a positive counter |
| EmbedQueue.StepKeepsAccount | server/bleep/src/semantic/embedder.rs:25-42 | one push or pop on a valid queue succeeds, stays valid, and delivered chunks followed by the remainder equal the stored chunks plus the pushed one |
| EmbedQueue.RunKeepsAccount | server/bleep/src/semantic/embedder.rs:18-51 | any sequence of pushes and pops never panics, keeps the invariant, and delivered-then-remaining equals stored-then-pushed, so no chunk is delivered twice or out of order |
| EmbedQueue.LenAfterRun | server/bleep/src/semantic/embedder.rs:31-45 | after any sequence of operations `len` reads (stored + pushes - successful pops) mod 2^64 |
| ConcurrentQueue.Apply | server/bleep/src/semantic/embedder.rs:25-42 | one half of a `push` or `pop` on one thread: it panics only when finishing a pop whose slot was already emptied, never changes another thread, and finishing a pop decrements the counter with wrap-around and leaves the log alone |
| ConcurrentQueue.InitInv | server/bleep/src/semantic/embedder.rs:18-22 | the default queue satisfies the shared-queue invariant for either order of `push`'s halves |
| ConcurrentQueue.StepKeepsInv | server/bleep/src/semantic/embedder.rs:25-42 | with threads interleaving between the halves of `push` and `pop`, no step panics in `take().unwrap()`, and every step keeps the counter at stored chunks plus pending decrements, minus (as written) half-done pushes, modulo 2^64 |
| ConcurrentQueue.ExecuteKeepsInv | server/bleep/src/semantic/embedder.rs:25-42 | every interleaving of any threads' pushes and pops runs without a panic and keeps that invariant |
| ConcurrentQueue.QuiescentCounter | server/bleep/src/semantic/embedder.rs:31-50 | once no operation is half done, `len` equals the stored chunks modulo 2^64 |
| ConcurrentQueue.PopBetweenPushHalvesWraps | server/bleep/src/semantic/embedder.rs:31-41 | a pop that runs between a push's `log.push` and its `fetch_add` decrements a zero counter to 2^64 - 1 while the log is empty |
| ConcurrentQueue.CountFirstNeverWraps | server/bleep/src/semantic/embedder.rs:31-34 | with the increment before the append, below 2^64 chunks the counter never reads less than the stored chunks, and a pending decrement always finds it positive |
| ThreadCount.ParseI16 | server/bleep/src/semantic/embedder.rs:101 | the digit-by-digit overflow-checked parse yields exactly the value of an optionally signed decimal numeral that fits `i16`, and nothing for anything else |
| ThreadCount.IntraThreads | server/bleep/src/semantic/embedder.rs:100-104 | the thread count is the parsed value when the variable is set and parses, and 1 when it is unset or does not parse |
| ThreadCount.DecimalRoundTrip | server/bleep/src/semantic/embedder.rs:100-104 | every `i16` value written in decimal parses back to itself, so any such setting is honoured |
| ThreadCount.FallbackCases | server/bleep/src/semantic/embedder.rs:101 | empty text, a bare sign, surrounding spaces and values just outside `i16` do not parse, so they fall back to 1 |
| CpuEmbedder.Embed | server/bleep/src/semantic/embedder.rs:119-153 | `embed` fails with a shape error iff the attention mask or type ids differ in length from the token ids; otherwise it hands the session three `(1, length)` tensors holding the widened arrays, returns the session's vector on success, and passes a session error on as an inference error |
| CpuEmbedder.BatchEmbed | server/bleep/src/semantic/embedder.rs:159-168 | the batch succeeds iff every entry embeds; then it has one vector per entry, in order, each equal to `embed` of its entry; otherwise its error is that of the first failing entry |
| CpuEmbedder.BatchStopsAtFirstFailure | server/bleep/src/semantic/embedder.rs:159-168 | the batch result is decided by the entries up to the first failure; later entries are never consulted |
| Vectors.IsNaN | server/bleep/src/semantic/embedder.rs:301 | `is_nan` holds exactly for the bit patterns above infinity's `0x7F80_0000`, with either sign |
| Vectors.HasNaN | server/bleep/src/semantic/embedder.rs:301 | the short-circuiting `any` over a vector is true exactly when some element is NaN |
| Vectors.NaNExamples | server/bleep/src/semantic/embedder.rs:301 | `is_nan` on bit patterns: quiet NaNs are NaN; zero, infinity and 1.0 are not |
| Chunking.Chunks | server/bleep/src/semantic/embedder.rs:296-299 | all pieces but the last are 384 wide, the last is non-empty and at most 384 wide, there are ceil(n/384) pieces, and an empty buffer gives none |
| Chunking.FlattenChunks | server/bleep/src/semantic/embedder.rs:296-306 | concatenating the pieces gives back the buffer exactly |
| Chunking.ChunkWindow | server/bleep/src/semantic/embedder.rs:296-299 | piece `i` is the buffer window from `i * 384` to `(i + 1) * 384`, cut at the buffer's end |
| Chunking.ChunksOfExactBuffer | server/bleep/src/semantic/embedder.rs:296-306 | a buffer of exactly `k` vectors splits into `k` full-width pieces |
| GpuEmbedder.SplitOutput | server/bleep/src/semantic/embedder.rs:296-307 | the returned vectors are exactly the pieces of the buffer, unchanged by the NaN check; a NaN is reported for exactly the vectors containing one, once each, in order |
| GpuEmbedder.OneVectorPerInput | server/bleep/src/semantic/embedder.rs:288-307 | when the evaluation yields 384 values per input, the batch returns one vector per input, and vector `i` is exactly input `i`'s values |
| SessionPool.SessionCount | server/bleep/src/semantic/embedder.rs:207 | the pool size is positive under either feature setting (3 with `metal`, which the `gpu` module always has) |
| SessionPool.Apply | server/bleep/src/semantic/embedder.rs:250-259 | a step panics exactly when a scanning caller's `try_lock` index is past the last session; otherwise it changes only its own caller's phase, moves the free permits only by the permit it takes or returns, and changes a session's lock only by its caller locking or unlocking that session |
| SessionPool.Init | server/bleep/src/semantic/embedder.rs:207-229 | the built pool has `session_count` unlocked sessions, `session_count` free permits, and satisfies the pool invariant |
| SessionPool.LockedWithinPermits | server/bleep/src/semantic/embedder.rs:250-258 | locked sessions ≤ permits issued ≤ `session_count` |
| SessionPool.ScanStaysInPool | server/bleep/src/semantic/embedder.rs:252-258 | a permit holder's next `try_lock` is on an existing session and a free session lies at or after it |
| SessionPool.NeverUnreachable | server/bleep/src/semantic/embedder.rs:250-261 | no step panics, so the `unreachable!()` after the scans of `embed` and of `batch_embed` (line 311) is never reached |
| SessionPool.AcquireKeepsInv | server/bleep/src/semantic/embedder.rs:250 | taking a permit and starting a scan at session 0 keeps the invariant |
| SessionPool.TryLockedKeepsInv | server/bleep/src/semantic/embedder.rs:252-253 | a failed `try_lock` that moves the scan on keeps the invariant |
| SessionPool.TryFreeKeepsInv | server/bleep/src/semantic/embedder.rs:253-256 | a successful `try_lock` makes the caller the session's only evaluator and keeps the invariant |
| SessionPool.UnlockKeepsInv | server/bleep/src/semantic/embedder.rs:256-257 | dropping the session guard while the permit is still held keeps the invariant |
| SessionPool.StepKeepsInv | server/bleep/src/semantic/embedder.rs:250-259 | every step, including dropping the permit after the guard, keeps the invariant and the pool size |
| SessionPool.ExecuteKeepsInv | server/bleep/src/semantic/embedder.rs:288-311 | every interleaving of any callers' steps runs without a panic and keeps the invariant, including mutual exclusion on each session |
| SessionPool.FirstFreeFrom | server/bleep/src/semantic/embedder.rs:289-290 | the first free session from an index is free and every session before it is locked; none means all are locked |
| SessionPool.SoloScanTakesLowestFree | server/bleep/src/semantic/embedder.rs:252-253 | a just-admitted caller scanning undisturbed locks the lowest-index free session, which always exists |
| SessionPool.NoDeadlock | server/bleep/src/semantic/embedder.rs:250-261 | a caller inside the pool can always take its next step, and a caller blocked on the semaphore waits only while some other caller can move |
| SessionPool.BuiltPoolNeverStalls | server/bleep/src/semantic/embedder.rs:207-229 | for the pool as built with 3 sessions, every interleaving of any number of callers keeps the invariant, and a caller inside the pool can always take its next step |

## Left out

- Native inference: ort's `Session::run`, `llm`'s `evaluate` and `batch_evaluate`, and model loading. These are foreign calls. They are function parameters or inputs, or are not modelled.
- The tokenizer: `tokenize`/`encode` and their `unwrap()` panics on tokenizer errors. The model starts from the tokenizer's output. The `tokenizer()` accessor only returns a reference.
- Mean pooling and the `unwrap()`s on extracting and viewing the output tensor. These are floating-point numerics in a foreign library.
- The `Embedder` trait and the `metal` feature switch between backends. This is compile-time dispatch with no behaviour of its own.
- The single-item accelerated `embed` returns the evaluation's embeddings directly. Only its admission protocol is modelled, shared with `batch_embed` in `SessionPool`.
- `Semaphore::acquire` returns an error only on a closed semaphore. The source never closes it, so acquire never fails in the model.
- The semaphore's fairness towards waiters is not modelled. NoDeadlock says some caller can always move; it does not promise that every waiter is eventually served.
- Real concurrency is only partly modelled: async suspension, `block_in_place`/`block_on`, the lock-free internals of `scc::Queue`, mutex poisoning and `unsafe impl Sync` are out. Each step is atomic in the model. The queue's atomics all use `SeqCst`, so interleaving whole steps matches them.
- EmbedQueue.Pop: its clause that the decrement never wraps holds only when each `push` and `pop` runs as one step. Under concurrent use it does not hold; `ConcurrentQueue` models that case.
- ConcurrentQueue: it does not model the order in which `scc::Queue` serves concurrent `push`es and `pop`s beyond one linear log. It also does not track which chunks each pop delivers; the sequential `EmbedQueue` proves delivery order.
- Logging (`println!`, `info!`, `trace!`). The one exception is the NaN `error!`, which is modelled as the list of reported vector positions.
- Reading the environment. The variable's value, or its absence, is an input.
- Whether ort accepts the parsed thread count (zero or negative values) is foreign code.
- The qdrant payload of `EmbedChunk`. Its values are an abstract type.
- `server/bleep/src/webserver/project/repo.rs` is not part of this model. It holds HTTP handlers over SQL queries.
- The client files are not part of this model: UI shortcuts, UI context defaults and an icon.

## Findings

| source | as written | input that shows it | evidently intended | confidence | as-written member | corrected member |
|---|---|---|---|---|---|---|
| server/bleep/src/semantic/embedder.rs:31-41 | `push` appends to the log before `fetch_add`; the comment in `pop` says its `fetch_sub` cannot wrap because the log was non-empty | thread A runs `log.push(c)`; thread B runs `pop` to completion, taking `c` and decrementing the counter from 0 to 2^64 - 1; only then does A run `fetch_add`. Meanwhile `len()` reads 2^64 - 1 and `is_empty()` is false on an empty queue | the counter never wraps below zero, which holds if `push` increments before it appends | medium; not executed | ConcurrentQueue.PopBetweenPushHalvesWraps | ConcurrentQueue.CountFirstNeverWraps |
