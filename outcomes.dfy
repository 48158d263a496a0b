/** Outcomes of operations that the source lets throw an exception. */
module Outcomes {

  /** The exceptions the modelled core can raise for inputs its callers may pass. */
  datatype Error =
    /** A `LongFraction` built from 0/0: Euclid's GCD is 0 and the division by it throws. */
    | DivideByZero
    /** A hole with no vertices: `GetMaxX` reads `vertices[0]` of an empty list. */
    | EmptyHole
    /** Holes but no outer vertices: the bridge search dereferences the missing first node. */
    | NoOuterVertices
    /** `HashSet.First()` on an empty ear set while more than three vertices remain. */
    | EmptyEarSet

  datatype Result<+T> = Ok(value: T) | Err(error: Error)
}
