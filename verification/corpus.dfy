/** The reads the analyzer works on, and the C++ characters they are made of. */
module Corpus {

  /** A C++ `char` as the analyzer's compilers treat it: a signed 8-bit integer.
      Bytes 128..255 of the input appear as -128..-1. */
  newtype CChar = x: int | -128 <= x < 128

  /** A `std::string`: a sequence of `char`. */
  type Bytes = seq<CChar>

  /** One FASTQ record as `biosoup::Sequence` holds it: name, bases (`data`) and
      per-base quality string. */
  datatype Read = Read(name: Bytes, data: Bytes, quality: Bytes)

  /** The lossy quality codec (`biosoup::NucleicAcid` followed by `InflateQuality`):
      from a read's name, bases and quality, the reconstructed quality string.
      Its source is not part of this model, so every operation takes it as a parameter. */
  type Codec = (Bytes, Bytes, Bytes) -> Bytes
}
