/** Failure outcomes of the lookups and of the primitive-cell reduction.
    Each constructor names the `raise` that produces it; messages are not modelled. */
module Outcomes {

  datatype Error =
    | OutOfRange             // ValueError: spacegroup or point-group number out of range
    | UnknownPointGroup      // KeyError: symbol missing from the point-group table
    | UnknownBravaisLattice  // ValueError: symbol not in the P-matrix table
    | NoAtoms                // numpy error: an empty position list cannot be transformed and indexed
    | GroupSizeMismatch      // ValueError: a group's count differs from the volume ratio
    | GroupTypeMismatch      // ValueError: a group mixes atom types

  datatype Result<+T> = Ok(value: T) | Err(error: Error)
}
