/** Small shared datatypes. */
module Common {

  datatype Option<+T> = None | Some(value: T)

  /** A numpy value: either finite, or the inf/NaN that numpy produces (with only a warning)
      when it divides by zero.  The model does not say which entries are inf and which NaN. */
  datatype Finite<+T> = Finite(value: T) | InfOrNaN

  /** A Python call that either returns or raises ZeroDivisionError (plain Python float
      division by zero raises, unlike numpy's). */
  datatype Outcome<+T> = Returns(value: T) | RaisesZeroDivision

  /** A Python call that either returns or raises one of the exceptions listed in `E`. */
  datatype Result<+T, +E> = Success(value: T) | Failure(error: E)
}
