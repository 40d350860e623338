/** The outcome of a computation that Python may abort with
    `ZeroDivisionError`. */
module Results {

  datatype Result<T> = Ok(value: T) | DivisionByZero
}
