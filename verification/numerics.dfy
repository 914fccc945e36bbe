/** Complex arithmetic over exact reals, and the floating-point routines the
    source calls but this model does not compute.

    Addition, conjugation and scaling are exact here; the source does them in
    double precision. Square roots, `exp(iθ)` and the per-point feature formula
    (absolute value, argument and sine) are supplied by the caller as a
    `FloatLib`. */
module Numerics {

  datatype Complex = Complex(re: real, im: real)

  const Zero: Complex := Complex(0.0, 0.0)

  function Add(a: Complex, b: Complex): Complex {
    Complex(a.re + b.re, a.im + b.im)
  }

  function Conj(z: Complex): Complex {
    Complex(z.re, -z.im)
  }

  /** `z * k` for a real `k`. */
  function Scale(z: Complex, k: real): Complex {
    Complex(z.re * k, z.im * k)
  }

  /** `z / k` for a non-zero real `k`. */
  function Divide(z: Complex, k: real): Complex
    requires k != 0.0
  {
    Complex(z.re / k, z.im / k)
  }

  /** |z|², exact. */
  function AbsSquared(z: Complex): real {
    z.re * z.re + z.im * z.im
  }

  /** Σ |v[i]|², the square of `np.linalg.norm(v)`. */
  function NormSquared(v: seq<Complex>): real {
    if v == [] then 0.0 else NormSquared(v[..|v| - 1]) + AbsSquared(v[|v| - 1])
  }

  /** Σ v[i]. */
  function Sum(v: seq<Complex>): Complex {
    if v == [] then Zero else Add(Sum(v[..|v| - 1]), v[|v| - 1])
  }

  /** Floating-point routines of the numeric library, as opaque functions.
      `pointFeature(z)` is the per-point part of the extraction feature:
      |z| + 0.5·(angle(z)/π) + 0.1·j4·sin(angle(z)). */
  datatype FloatLib = FloatLib(
    sqrt: real -> real,
    cis: real -> Complex,
    pointFeature: Complex -> real)
}
