/** Optional values and results that may be errors. */
module Wrappers {
  datatype Option<+T> = None | Some(value: T)

  datatype Result<+T, +E> = Ok(value: T) | Err(error: E) {
    predicate IsFailure() { Err? }
    function PropagateFailure<U>(): (r: Result<U, E>)
      requires Err?
    {
      Err(error)
    }
    function Extract(): (v: T)
      requires Ok?
    {
      value
    }
  }
}

/** What both contracts share of the EVM. */
module Evm {
  const MAX_UINT: nat := 0xffff_ffff_ffff_ffff_ffff_ffff_ffff_ffff_ffff_ffff_ffff_ffff_ffff_ffff_ffff_ffff

  type Address = nat
  /** The zero address stands for the native currency. */
  type Asset = nat
}
