/**
 * The four-letter DNA alphabet that both FASTA generators draw from. Their
 * random sources are modelled as oracles returning an index into it.
 */
module Dna {

  const Bases: string := "ACGT"

  /** An index into Bases, what one draw of a random base yields. */
  type BaseIndex = i: nat | i < 4

  predicate IsBase(c: char) {
    c == 'A' || c == 'C' || c == 'G' || c == 'T'
  }
}
