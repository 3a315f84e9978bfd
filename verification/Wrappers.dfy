/** Result types and bounds shared by the modules of this project. */
module Wrappers {
  datatype Option<+T> = None | Some(value: T)

  datatype Result<+T, +E> = Ok(value: T) | Err(error: E)

  function Min(a: nat, b: nat): (least: nat)
    ensures least <= a && least <= b && (least == a || least == b)
  {
    if a <= b then a else b
  }

  function Max(a: nat, b: nat): (greatest: nat)
    ensures greatest >= a && greatest >= b && (greatest == a || greatest == b)
  {
    if a >= b then a else b
  }
}
