/** The CPU backend (server/bleep/src/semantic/embedder.rs:72-170): one ONNX
    session behind `embed`, and `batch_embed` as a sequential, short-circuiting
    map of `embed` over the inputs.

    The tokenizer, the ONNX session and mean pooling are foreign code: the
    model takes the tokenizer's output as input and the session run (with the
    pooling after it) as a function parameter. */
module CpuEmbedder {
  import opened Common
  import opened Vectors

  /** Errors `embed` can return; `Inference` stands for whatever the session reports. */
  datatype EmbedError = ShapeMismatch | Inference(detail: string)

  /** What `tokenizer.encode(sequence, true)` yields: three parallel arrays. */
  datatype Encoding = Encoding(ids: seq<nat>, attentionMask: seq<nat>, typeIds: seq<nat>)

  /** A two-dimensional `i64` array in row-major order. */
  datatype Tensor = Tensor(rows: nat, cols: nat, data: seq<int>)

  /** `ndarray::Array::from_shape_vec((rows, cols), data)`: fails unless the
      data fills the shape exactly. */
  function FromShapeVec(rows: nat, cols: nat, data: seq<int>): (r: Result<Tensor, EmbedError>)
    ensures r.Ok? <==> |data| == rows * cols
    ensures r.Ok? ==> r.value.data == data && r.value.rows == rows && r.value.cols == cols
    ensures r.Err? ==> r.error == ShapeMismatch
  {
    if |data| == rows * cols then Ok(Tensor(rows, cols, data)) else Err(ShapeMismatch)
  }

  /** `x as i64` on each `u32` of an array: lossless. */
  function Widen(xs: seq<nat>): (ys: seq<int>)
    ensures |ys| == |xs| && forall i :: 0 <= i < |xs| ==> ys[i] == xs[i]
  {
    seq(|xs|, i requires 0 <= i < |xs| => xs[i] as int)
  }

  /** The session run followed by mean pooling over the token axis; an error
      is ort's message. */
  type Run = (Tensor, Tensor, Tensor) -> Result<Embedding, string>

  /** The three `(1, length)` tensors `embed` hands to the session. */
  function Inputs(enc: Encoding): (Tensor, Tensor, Tensor) {
    var length := |enc.ids|;
    (Tensor(1, length, Widen(enc.ids)),
     Tensor(1, length, Widen(enc.attentionMask)),
     Tensor(1, length, Widen(enc.typeIds)))
  }

  /** `embed`: build the three `(1, length)` tensors, with `length` taken from
      the token ids, and hand them to the session; any shape error is returned
      before the session runs, and a session error is passed on through `?`. */
  function Embed(enc: Encoding, run: Run): (r: Result<Embedding, EmbedError>)
    ensures r == Err(ShapeMismatch) <==> |enc.attentionMask| != |enc.ids| || |enc.typeIds| != |enc.ids|
    ensures |enc.attentionMask| == |enc.ids| && |enc.typeIds| == |enc.ids| ==>
              var (ids, mask, typeIds) := Inputs(enc);
              && ids.data == Widen(enc.ids) && mask.data == Widen(enc.attentionMask) && typeIds.data == Widen(enc.typeIds)
              && ids.rows == mask.rows == typeIds.rows == 1
              && ids.cols == mask.cols == typeIds.cols == |enc.ids|
              && (r.Ok? <==> run(ids, mask, typeIds).Ok?)
              && (r.Ok? ==> r.value == run(ids, mask, typeIds).value)
              && (r.Err? ==> r.error == Inference(run(ids, mask, typeIds).error))
  {
    var length := |enc.ids|;
    match FromShapeVec(1, length, Widen(enc.ids))
    case Err(e) => Err(e)
    case Ok(ids) =>
      match FromShapeVec(1, length, Widen(enc.attentionMask))
      case Err(e) => Err(e)
      case Ok(mask) =>
        match FromShapeVec(1, length, Widen(enc.typeIds))
        case Err(e) => Err(e)
        case Ok(typeIds) =>
          match run(ids, mask, typeIds)
          case Err(message) => Err(Inference(message))
          case Ok(v) => Ok(v)
  }

  /** `batch_embed`: `embed` on each entry in order, collected into one
      `Result`. Collecting stops at the first error and returns it. */
  function BatchEmbed<E>(embed: string -> Result<Embedding, E>, log: seq<string>): (r: Result<seq<Embedding>, E>)
    ensures r.Ok? <==> forall i :: 0 <= i < |log| ==> embed(log[i]).Ok?
    ensures r.Ok? ==> |r.value| == |log| && forall i :: 0 <= i < |log| ==> embed(log[i]) == Ok(r.value[i])
    ensures r.Err? ==> exists k: nat :: FirstFailure(embed, log, k) && embed(log[k]) == Err(r.error)
  {
    if log == [] then Ok([])
    else
      match embed(log[0])
      case Err(e) =>
        assert FirstFailure(embed, log, 0);
        Err(e)
      case Ok(v) =>
        match BatchEmbed(embed, log[1..])
        case Err(e) =>
          FailureShifts(embed, log);
          Err(e)
        case Ok(vs) => Ok([v] + vs)
  }

  /** Entry `k` is the first whose embedding fails. */
  ghost predicate FirstFailure<E>(embed: string -> Result<Embedding, E>, log: seq<string>, k: nat) {
    && k < |log|
    && embed(log[k]).Err?
    && forall j :: 0 <= j < k ==> embed(log[j]).Ok?
  }

  /** Entries after the first failure are never consulted: the batch result
      is the same as that of the batch cut just after the failing entry. */
  lemma {:induction false} BatchStopsAtFirstFailure<E>(embed: string -> Result<Embedding, E>, log: seq<string>, k: nat)
    requires FirstFailure(embed, log, k)
    ensures BatchEmbed(embed, log) == BatchEmbed(embed, log[..k + 1]) == Err(embed(log[k]).error)
  {
    var cut := log[..k + 1];
    assert forall j :: 0 <= j <= k ==> cut[j] == log[j];
    assert FirstFailure(embed, cut, k);
  }

  /** The first failure of the tail, one entry further on, is the first
      failure of a batch whose head succeeds. */
  lemma FailureShifts<E>(embed: string -> Result<Embedding, E>, log: seq<string>)
    requires |log| > 0 && embed(log[0]).Ok?
    ensures forall k: nat :: FirstFailure(embed, log[1..], k) ==> FirstFailure(embed, log, k + 1) && log[k + 1] == log[1..][k]
  {
  }
}
