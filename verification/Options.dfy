/** The two wrappers every module shares. */
module Options {
  datatype Option<+T> = None | Some(value: T)

  datatype Result<+T, +E> = Ok(value: T) | Err(error: E)

  function Min(a: int, b: int): int { if a <= b then a else b }

  function Max(a: int, b: int): int { if a <= b then b else a }

  function MaxNat(a: nat, b: nat): nat { if a <= b then b else a }

  function MinNat(a: nat, b: nat): nat { if a <= b then a else b }
}
