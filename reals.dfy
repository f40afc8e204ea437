/** Facts about multiplying reals that the solver does not find alone. */
module Reals {

  lemma ScaleLe(a: real, b: real, c: real)
    requires a <= b && c > 0.0
    ensures a * c <= b * c
  {
  }

  lemma ScaleLt(a: real, b: real, c: real)
    requires a < b && c > 0.0
    ensures a * c < b * c
  {
  }

  lemma ScaleCancel(a: real, b: real, c: real)
    requires a * c > b * c && c > 0.0
    ensures a > b
  {
    if a <= b {
      ScaleLe(a, b, c);
    }
  }

  lemma StepMul(i: int, sr: real)
    ensures (i + 1) as real * sr == i as real * sr + sr
  {
  }
}
