/** Arithmetic on natural numbers that several components share. */
module Numbers {

  function Max(a: nat, b: nat): nat {
    if a >= b then a else b
  }

  function Sum(s: seq<nat>): nat {
    if s == [] then 0 else s[0] + Sum(s[1..])
  }
}
