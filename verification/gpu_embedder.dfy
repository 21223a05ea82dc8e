/** The accelerated backend's post-processing of a batch evaluation
    (server/bleep/src/semantic/embedder.rs:296-307): the flat output buffer is
    cut into `DIM`-wide vectors in input order, each vector is inspected for
    NaN (which is only logged), and the vectors are returned unchanged.
    Admission to the session pool is modelled in `SessionPool`. */
module GpuEmbedder {
  import opened Vectors
  import opened Chunking

  /** The embeddings `batch_embed` returns, and the position of each vector
      for which "found nan in sequence" is logged, in log order. */
  datatype Split = Split(embeddings: seq<Embedding>, nanReports: seq<nat>)

  /** `.chunks(DIM).inspect(..).map(to_vec).collect()`, one vector at a time. */
  method SplitOutput(buf: seq<F32>) returns (r: Split)
    ensures r.embeddings == Chunks(buf)
    ensures forall k :: 0 <= k < |r.nanReports| ==>
              r.nanReports[k] < |r.embeddings| && HasNaN(r.embeddings[r.nanReports[k]])
    ensures forall i :: 0 <= i < |r.embeddings| && HasNaN(r.embeddings[i]) ==> i in r.nanReports
    ensures forall k, l :: 0 <= k < l < |r.nanReports| ==> r.nanReports[k] < r.nanReports[l]
  {
    var pieces := Chunks(buf);
    var embeddings: seq<Embedding> := [];
    var reports: seq<nat> := [];
    for i := 0 to |pieces|
      invariant embeddings == pieces[..i]
      invariant forall k :: 0 <= k < |reports| ==> reports[k] < i && HasNaN(pieces[reports[k]])
      invariant forall j :: 0 <= j < i && HasNaN(pieces[j]) ==> j in reports
      invariant forall k, l :: 0 <= k < l < |reports| ==> reports[k] < reports[l]
    {
      if HasNaN(pieces[i]) {
        reports := reports + [i];
      }
      embeddings := embeddings + [pieces[i]];
    }
    assert pieces[..|pieces|] == pieces;
    return Split(embeddings, reports);
  }

  /** When the evaluation yields `DIM` values per input, `batch_embed` returns
      one full-width vector per input, and vector `i` is exactly the values the
      evaluation produced for input `i`: a NaN in one input's values shows up in
      that input's vector and in no other. */
  lemma OneVectorPerInput(buf: seq<F32>, inputs: nat)
    requires |buf| == inputs * DIM
    ensures |Chunks(buf)| == inputs
    ensures forall i :: 0 <= i < inputs ==> Chunks(buf)[i] == buf[i * DIM .. (i + 1) * DIM]
  {
    ChunksOfExactBuffer(buf, inputs);
    forall i | 0 <= i < inputs
      ensures Chunks(buf)[i] == buf[i * DIM .. (i + 1) * DIM]
    {
      ChunkWindow(buf, i);
    }
  }
}
