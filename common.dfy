/** Small definitions shared by the components: optional values, the errors the
    C++ code throws, and the 32-bit `int` of the tree, stack and queue. */
module Common {

  /** `std::optional`: a value, or none. */
  datatype Option<+T> = None | Some(value: T)

  /** The exceptions the components raise, one constructor per `throw` site kind. */
  datatype Error =
    | OutOfRange      // std::out_of_range: empty tree, stack or queue
    | CapacityZero    // std::logic_error("Hash table capacity is zero")
    | TableFull       // std::runtime_error("Hash table is full")

  /** The outcome of a call that either returns normally or throws. */
  datatype Outcome<+T> = Ok(value: T) | Throw(error: Error)

  const IntMin: int := -0x8000_0000
  const IntMax: int := 0x7fff_ffff

  /** C++ `int`: the values the tree, the stack and the queue store. */
  newtype Int32 = x: int | -0x8000_0000 <= x <= 0x7fff_ffff
}
