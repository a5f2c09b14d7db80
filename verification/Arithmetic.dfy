/** The one fact about division that the models need more than once. */
module Arithmetic {

  lemma MultipleGrows(p: int, d: int)
    requires p >= 1
    ensures d >= 1 ==> p * d >= p
    ensures d <= -1 ==> p * d <= -p
  {
  }

  /** Quotient and remainder are unique. */
  lemma DivisionIs(a: int, p: int, q: int, r: int)
    requires p >= 1 && 0 <= r < p && a == p * q + r
    ensures a / p == q && a % p == r
  {
    var d := a / p - q;
    var x := a % p;
    assert a == p * (a / p) + x;
    assert p * d == p * (a / p) - p * q;
    MultipleGrows(p, d);
  }
}
