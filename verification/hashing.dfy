/** Block hashing. The digest and the canonical JSON serialisation are foreign
    library calls, so they are supplied as deterministic functions. */
module Hashing {
  import opened BlockTypes

  /** `sha256Hex` maps a text to its hexadecimal SHA-256 digest; `canonicalJson`
      serialises a block with its keys sorted. Both are total and deterministic. */
  datatype Crypto = Crypto(sha256Hex: string -> string, canonicalJson: Block -> string)

  /** The hash of a block: the digest of its canonical serialisation. */
  function Hash(c: Crypto, b: Block): string
  {
    c.sha256Hex(c.canonicalJson(b))
  }

  /** Two blocks whose canonical serialisations agree hash alike, whatever
      representation they came from. */
  lemma SameSerialisationSameHash(c: Crypto, a: Block, b: Block)
    requires c.canonicalJson(a) == c.canonicalJson(b)
    ensures Hash(c, a) == Hash(c, b)
  {
  }
}
