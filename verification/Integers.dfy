module Integers {

  function AbsInt(x: int): nat { if x < 0 then -x else x }

  function MinNat(a: nat, b: nat): nat { if a <= b then a else b }
}
