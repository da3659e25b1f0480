/** The gzip/gunzip adapter of the cache.
    The compressor behind it is a library whose internals are not modelled: a
    codec is a pair of total functions on byte sequences, and everything the
    cache relies on is the round-trip law `Lossless`. */
module Compress {

  /** The content of a blob: its bytes. */
  type Bytes = seq<bv8>

  /** `zip` and `unzip` of src/util/compress.ts, as values. */
  datatype Codec = Codec(zip: Bytes -> Bytes, unzip: Bytes -> Bytes)

  /** The round-trip law: unzipping a zipped blob gives back the original bytes,
      for every byte sequence, the empty one included. */
  ghost predicate Lossless(c: Codec)
  {
    forall x: Bytes :: c.unzip(c.zip(x)) == x
  }
}
