/**
 * The percent-codec `Urls` that the package URL class calls. Its source is not part of this
 * model, so the codec is a pair of total functions handed to every operation that encodes or
 * decodes: nothing is assumed about them (not that they round-trip, not that they preserve
 * length) except where a lemma states it as a hypothesis.
 */
module Urls {

  datatype Codec = Codec(encode: string -> string, decode: string -> string)
}
