/** `a_exp_b_mod_c`: powers of residues with the generic group algorithm, as
    `AbstractRing::Exponentiate` (algebra.cpp) computes them. */
module ModularPower {
  import opened Modular
  import opened SimultaneousMultiplication

  /** Sliding windows in the multiplicative group of the residues: the plain power. */
  method PowerMod(b: nat, e: nat, n: nat) returns (r: nat)
    requires n > 1 && b < n
    ensures r == Pow(b, e) % n
  {
    ModularGroupLawful(n);
    var result := ScalarMultiply(ModularGroup(n), b, e);
    MulIsPow(n, e, b);
    r := result;
  }
}
