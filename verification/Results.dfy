/** Rust's `Result`, with every error message collapsed into one failure. */
module Results {

  datatype Result<+T> = Ok(value: T) | Err {
    predicate IsFailure() {
      Err?
    }

    function PropagateFailure<U>(): Result<U>
      requires Err?
    {
      Err
    }

    function Extract(): T
      requires Ok?
    {
      value
    }
  }

  datatype Option<+T> = None | Some(value: T)

  const U32_MAX: nat := 0xFFFF_FFFF

  /** The host's 64-bit `usize`. */
  const USIZE_MAX: nat := 0xFFFF_FFFF_FFFF_FFFF

  function CheckedAdd(left: nat, right: nat): Result<nat> {
    if left + right > USIZE_MAX then Err else Ok(left + right)
  }

  function CheckedU32(value: nat): Result<nat> {
    if value > U32_MAX then Err else Ok(value)
  }
}
