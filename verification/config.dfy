/** The fixed configuration the core reads: lattice shape, derived sizes and
    the key search range. */
module Config {

  /** Lattice shape (x, y, z, t, w1, w2). */
  const GridSize: seq<nat> := [5, 5, 5, 5, 3, 3]

  function Product(dims: seq<nat>): nat {
    if dims == [] then 1 else dims[0] * Product(dims[1..])
  }

  /** Number of lattice points, `np.prod(grid_size)` (see `TotalPointsValue`). */
  const TotalPoints: nat := 5625

  /** Extent of the last axis (w2), the one the demon observation keeps. */
  const LastAxis: nat := 3

  /** `1 / sqrt(TotalPoints)`, the amplitude of a fresh random state;
      exact because 5625 = 75². */
  const InvSqrtTotalPoints: real := 1.0 / 75.0

  /** `sqrt(TotalPoints)`. */
  const SqrtTotalPoints: real := 75.0

  /** Width of an extracted candidate and of the key embedding. */
  const KeyBits: nat := 256

  /** Number of bits the all-zero fallback sets. */
  const FallbackOnes: nat := 128

  /** Order n of the secp256k1 group (SEC 2, section 2.4.1). */
  const CurveOrder: nat := 0xFFFFFFFF_FFFFFFFF_FFFFFFFF_FFFFFFFE_BAAEDCE6_AF48A03B_BFD25E8C_D0364141

  /** Closed search range of candidate keys. */
  const SearchStart: nat := 1
  const SearchEnd: nat := CurveOrder

  /** Factor of the temporal entanglement vector. */
  const EntanglementFactor: real := 0.2

  /** Iteration budget of `start()`. */
  const MaxIterations: nat := 10000

  /** The configured lattice has 5625 points, a multiple of the last axis, and
      1/75 is its inverse square root. */
  lemma TotalPointsValue()
    ensures TotalPoints == Product(GridSize) == 5625
    ensures LastAxis == GridSize[|GridSize| - 1] && TotalPoints % LastAxis == 0
    ensures InvSqrtTotalPoints * InvSqrtTotalPoints * TotalPoints as real == 1.0
    ensures TotalPoints >= KeyBits
    ensures SearchStart <= SearchEnd
  {
  }
}
