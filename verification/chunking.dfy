/** `<[T]>::chunks(384)`: a slice cut into consecutive pieces of 384
    elements, the last piece holding whatever remains. The accelerated
    backend uses it to split the flat output of one batch evaluation into
    per-input embeddings (server/bleep/src/semantic/embedder.rs:296-306).
    The piece size is the model's embedding width `DIM`. */
module Chunking {
  import opened Vectors

  /** Concatenation of a sequence of pieces. */
  function Flatten<T>(cs: seq<seq<T>>): seq<T> {
    if cs == [] then [] else cs[0] + Flatten(cs[1..])
  }

  /** `buf.chunks(DIM)`. */
  function Chunks<T>(buf: seq<T>): (cs: seq<seq<T>>)
    ensures forall i :: 0 <= i < |cs| - 1 ==> |cs[i]| == DIM
    ensures |cs| > 0 ==> 0 < |cs[|cs| - 1]| <= DIM
    ensures |cs| == (|buf| + DIM - 1) / DIM
    ensures buf == [] <==> cs == []
    decreases |buf|
  {
    if |buf| == 0 then []
    else if |buf| <= DIM then [buf]
    else [buf[..DIM]] + Chunks(buf[DIM..])
  }

  /** Concatenating the pieces gives back the buffer exactly. */
  lemma {:induction false} FlattenChunks<T>(buf: seq<T>)
    ensures Flatten(Chunks(buf)) == buf
    decreases |buf|
  {
    if |buf| > DIM {
      var rest := buf[DIM..];
      FlattenChunks(rest);
      var cs := Chunks(buf);
      assert cs[1..] == Chunks(rest);
      assert buf == buf[..DIM] + rest;
    } else if |buf| > 0 {
      assert Chunks(buf)[1..] == [];
      assert buf + [] == buf;
    }
  }

  function Min(a: int, b: int): int {
    if a <= b then a else b
  }

  /** Piece `i` is exactly the window of `buf` from `i * DIM` up to
      `(i + 1) * DIM`, cut short at the end of the buffer. */
  lemma {:induction false} ChunkWindow<T>(buf: seq<T>, i: nat)
    requires i < |Chunks(buf)|
    ensures i * DIM < |buf|
    ensures Chunks(buf)[i] == buf[i * DIM .. Min((i + 1) * DIM, |buf|)]
    decreases |buf|
  {
    if i > 0 {
      assert |buf| > DIM;
      var rest := buf[DIM..];
      ChunkWindow(rest, i - 1);
      var lo, hi := (i - 1) * DIM, Min(i * DIM, |rest|);
      assert Chunks(buf)[i] == rest[lo..hi];
      SliceOfSuffix(buf, DIM, lo, hi);
    }
  }

  lemma SliceOfSuffix<T>(s: seq<T>, d: nat, lo: nat, hi: nat)
    requires d <= |s| && lo <= hi <= |s| - d
    ensures s[d..][lo..hi] == s[lo + d .. hi + d]
  {
  }

  /** A buffer holding exactly `k` vectors splits into exactly `k` pieces,
      each of the full width. */
  lemma ChunksOfExactBuffer<T>(buf: seq<T>, k: nat)
    requires |buf| == k * DIM
    ensures |Chunks(buf)| == k
    ensures forall i :: 0 <= i < k ==> |Chunks(buf)[i]| == DIM
  {
    if k > 0 {
      ChunkWindow(buf, k - 1);
    }
  }
}
