/** Small things that several modules share. */
module Basics {
  datatype Option<+T> = None | Some(value: T)

  function Min(a: nat, b: nat): nat {
    if a < b then a else b
  }

  lemma MulAtLeast(n: nat, m: nat, p: nat)
    requires n >= m
    ensures n * p >= m * p
  {
  }
}
