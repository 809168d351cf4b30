/** Real-number helpers for delays and clocks: `max`, Ruby's `Float#ceil`,
    `Float#to_i`, and `**` with a natural exponent. */
module Numbers {

  function Max(a: real, b: real): (r: real)
    ensures r >= a && r >= b && (r == a || r == b)
  {
    if a >= b then a else b
  }

  /** `ceil`: the least integer not below `x`. */
  function Ceil(x: real): (r: int)
    ensures r as real >= x
    ensures (r - 1) as real < x
  {
    0 - (0.0 - x).Floor
  }

  /** `Float#to_i`: the integer part, truncated toward zero. */
  function Truncate(x: real): (r: int)
    ensures x >= 0.0 ==> r as real <= x < r as real + 1.0
    ensures x < 0.0 ==> r as real - 1.0 < x <= r as real
  {
    if x >= 0.0 then x.Floor else 0 - (0.0 - x).Floor
  }

  /** `x ** n`. */
  function Pow(x: real, n: nat): (r: real)
    ensures x > 0.0 ==> r > 0.0
    ensures x >= 0.0 ==> r >= 0.0
    ensures x >= 1.0 ==> r >= 1.0
    decreases n
  {
    if n == 0 then 1.0 else x * Pow(x, n - 1)
  }

  lemma {:induction false} PowMonotone(x: real, n: nat)
    requires x >= 1.0
    ensures Pow(x, n + 1) >= Pow(x, n)
  {
    assert Pow(x, n + 1) == x * Pow(x, n);
    assert Pow(x, n) >= 1.0;
  }
}
