/** Instruction classification for dynamic hammock predication: an
    instruction outside any hammock, one on the THEN or the ELSE side of a
    predicated region, or the conditional move that merges the two sides. */
module DhpTypes {

  datatype InstClass = Normal | Then | Else | Cmov

  /** The synthetic logical register id that names the predicate of the
      current hammock region. */
  const PredicateReg: nat := 64
}
