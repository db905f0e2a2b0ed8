/** The few facts of nonlinear arithmetic the models need. */
module Arithmetic {

  lemma MulGrows(d: int, b: int)
    requires b > 0
    ensures d >= 1 ==> d * b >= b
    ensures d <= -1 ==> d * b <= -b
  {
    if d >= 1 {
      assert (d - 1) * b >= 0;
    } else if d <= -1 {
      assert (-1 - d) * b >= 0;
    }
  }

  lemma DivModUnique(a: int, b: int, q: int, r: int)
    requires b > 0 && a == q * b + r && 0 <= r < b
    ensures a / b == q && a % b == r
  {
    var d := a / b - q;
    assert d * b == r - a % b;
    MulGrows(d, b);
  }

  lemma RowMajor(a: int, b: int, k: int, r: int)
    requires 0 <= r < k
    ensures a < b <==> a * k + r < b * k
  {
    MulGrows(b - a, k);
    assert (b - a) * k == b * k - a * k;
  }

  /** Comparing a quotient with a bound is comparing the dividend with a multiple. */
  lemma DivAtMost(a: int, b: int, k: int)
    requires k > 0
    ensures a / k <= b <==> a < (b + 1) * k
  {
    RowMajor(a / k, b + 1, k, a % k);
  }

  lemma MulMono(a: int, b: int, k: int)
    requires a <= b && k >= 0
    ensures a * k <= b * k
  {
    if a < b {
      assert (b - a) * k >= 0;
    }
  }
}
