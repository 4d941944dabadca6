/** Outcome of an operation that throws in the source: `Fail` stands for the thrown `EvalError`. */
module Results {

  datatype Result<+T> = Ok(value: T) | Fail
}
