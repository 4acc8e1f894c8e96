/** Facts about products of reals, stated on variables so that they stay cheap to use. */
module RealArithmetic {
  function Distance(x: real, y: real): real {
    if x < y then y - x else x - y
  }

  lemma ProductAtMost(a: real, b: real, c: real)
    requires a <= b && c >= 0.0
    ensures a * c <= b * c
  {
  }

  lemma ProductLess(a: real, b: real, c: real)
    requires a < b && c > 0.0
    ensures a * c < b * c
  {
  }
}
