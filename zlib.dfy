// zlib, a library the HTS tools call but that is not part of this model.
// It is a parameter: a compressor (compress2 at a level) and an inflater
// (uncompress), related only by the assumptions in Valid.

module Zlib {
  import opened Wrappers
  import opened Bytes

  datatype Codec = Codec(
    compress: (seq<byte>, int) -> Option<seq<byte>>,
    inflate: seq<byte> -> Option<seq<byte>>)

  /**
   * What the model assumes of zlib: inflating a stream that compress
   * produced gives back the data, an empty input is not a zlib stream, and
   * the textures inflate to less than 4 GiB (their length is a uint32).
   */
  ghost predicate Valid(z: Codec)
  {
    && z.inflate([]) == None
    && (forall d, level :: z.compress(d, level).Some? ==> z.inflate(z.compress(d, level).value) == Some(d))
    && (forall c :: z.inflate(c).Some? ==> |z.inflate(c).value| < TWO32)
  }

  /** Z_OK with the output, Z_BUF_ERROR, or any other return code. */
  datatype Status = Ok(out: seq<byte>) | BufError | OtherError

  /**
   * uncompress(dest, &destLen, src, |src|) with destLen = cap. zlib gives
   * Z_BUF_ERROR when the output does not fit; given no room at all it
   * reports a nonempty output as Z_DATA_ERROR instead.
   */
  function Uncompress(z: Codec, src: seq<byte>, cap: nat): (r: Status)
  {
    match z.inflate(src)
    case None => OtherError
    case Some(d) => if |d| <= cap then Ok(d) else if cap == 0 then OtherError else BufError
  }

  /** compress2(dest, &destLen, src, |src|, level) with destLen = cap. */
  function Compress2(z: Codec, src: seq<byte>, cap: nat, level: int): (r: Status)
  {
    match z.compress(src, level)
    case None => OtherError
    case Some(c) => if |c| <= cap then Ok(c) else BufError
  }

  /** Every stream compress2 produces is nonempty and inflates to its input. */
  lemma CompressedStream(z: Codec, src: seq<byte>, cap: nat, level: int)
    requires Valid(z)
    requires Compress2(z, src, cap, level).Ok?
    ensures |Compress2(z, src, cap, level).out| > 0
    ensures z.inflate(Compress2(z, src, cap, level).out) == Some(src)
  {
    assert z.compress(src, level).Some?;
  }

  /** Uncompress succeeds exactly when the stream is valid and its output fits. */
  lemma UncompressFits(z: Codec, src: seq<byte>, cap: nat)
    ensures Uncompress(z, src, cap).Ok? <==> z.inflate(src).Some? && |z.inflate(src).value| <= cap
    ensures Uncompress(z, src, cap).Ok? ==> Uncompress(z, src, cap).out == z.inflate(src).value
    ensures Uncompress(z, src, cap).BufError? <==> z.inflate(src).Some? && 0 < cap < |z.inflate(src).value|
  {
  }
}
