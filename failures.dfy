/** The exceptions RangeGrader and ChoiceGrader can raise, as values. */
module Failures {

  /** `EmptyRange`: `random.randint(a, b)` was asked for a range with `b < a`.
      `OutOfDomain`: the order-preserving cipher was asked to encrypt a plaintext
      outside its input range. Both are a `ValueError` in grader.py. */
  datatype Error = EmptyRange | OutOfDomain

  /** Either a value or the error that was raised instead. */
  datatype Result<+T> = Ok(value: T) | Err(error: Error)
}
