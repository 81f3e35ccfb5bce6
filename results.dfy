/** Error values for the exceptions the quadtree and the rectangle raise, and the
    Option/Result wrappers that carry them. */
module Results {

  /** The failures of the modelled code, one per raise site. */
  datatype Error =
    | XMinAboveXMax   // the rectangle is given a left edge right of its right edge
    | YMinAboveYMax   // the rectangle is given a bottom edge above its top edge
    | NegativeDepth   // a node is given a negative depth budget
    | NotInserted     // the rectangle was never inserted, so it has no owner
    | NotFound        // the owner holds no rectangle with equal bounds
    | DoesNotFit      // the new bounds fit no node on the climb, not even the root

  datatype Option<+T> = None | Some(value: T)

  datatype Result<+T> = Ok(value: T) | Err(error: Error)

  /** The outcome of an operation that returns nothing but may raise. */
  datatype Outcome = Pass | Fail(error: Error)
}
