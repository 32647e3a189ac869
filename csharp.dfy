/** C#'s integer division and remainder, which truncate toward zero.
    Dafny's own `/` and `%` are Euclidean, so the two differ on negative
    dividends; the model spells out the C# operators where that matters. */
module CSharp {

  /** `a / n` as C# computes it: the quotient is rounded toward zero. */
  function Div(a: int, n: int): (q: int)
    requires n > 0
    ensures a >= 0 ==> q == a / n
    ensures a < 0 ==> q <= 0 && q == -((-a) / n)
  {
    if a >= 0 then a / n else -((-a) / n)
  }

  /** `a % n` as C# computes it: what is left after the truncated division,
      so it carries the sign of the dividend. */
  function Rem(a: int, n: int): (r: int)
    requires n > 0
    ensures Div(a, n) * n + r == a
    ensures a >= 0 ==> 0 <= r < n
    ensures a < 0 ==> -n < r <= 0
  {
    if a >= 0 then a % n
    else
      var b := -a;
      assert b == (b / n) * n + b % n;
      -(b % n)
  }
}
