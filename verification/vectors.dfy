/** Embedding vectors. An `f32` is kept as its IEEE 754 binary32 bit pattern:
    nothing in the embedder does arithmetic on the values, it only asks
    whether one is NaN. */
module Vectors {

  /** The embedding width of the shipped model; the accelerated backend's
      `chunks(384)` (server/bleep/src/semantic/embedder.rs:299) relies on it. */
  const DIM: nat := 384

  datatype F32 = F32(bits: bv32)

  /** `f32::is_nan` on the bit pattern. IEEE 754 binary32: NaN is an all-ones
      exponent with a non-zero fraction. Read as unsigned numbers, those are
      exactly the patterns above infinity's, `0x7F80_0000`, with either sign bit. */
  function IsNaN(x: F32): (r: bool)
    ensures r <==> (0x7F80_0001 <= x.bits <= 0x7FFF_FFFF || 0xFF80_0001 <= x.bits)
  {
    (x.bits >> 23) & 0xFF == 0xFF && x.bits & 0x7F_FFFF != 0
  }

  type Embedding = seq<F32>

  /** `chunk.iter().any(|f| f.is_nan())`: scans left to right and stops at the
      first NaN; true exactly when some element is NaN. */
  function HasNaN(v: Embedding): (r: bool)
    ensures r <==> exists j | 0 <= j < |v| :: IsNaN(v[j])
  {
    if v == [] then false
    else if IsNaN(v[0]) then true
    else
      var rest := HasNaN(v[1..]);
      assert rest ==> exists j | 0 <= j < |v| :: IsNaN(v[j]) by {
        if rest {
          var j :| 0 <= j < |v[1..]| && IsNaN(v[1..][j]);
          assert IsNaN(v[j + 1]);
        }
      }
      rest
  }

  /** Canonical quiet NaN and positive zero, to show the predicate splits the
      bit patterns as IEEE 754 does. */
  lemma NaNExamples()
    ensures IsNaN(F32(0x7FC0_0000)) && IsNaN(F32(0xFFFF_FFFF))
    ensures !IsNaN(F32(0)) && !IsNaN(F32(0x7F80_0000)) && !IsNaN(F32(0x3F80_0000))
  {
  }
}
