/** Go's fixed-width integers: wrap-around and division. */
module Words {

  /** Two's-complement wrap-around to 32 bits. */
  function Wrap32(x: int): (r: int)
    ensures -0x8000_0000 <= r < 0x8000_0000
    ensures -0x8000_0000 <= x < 0x8000_0000 ==> r == x
  {
    (x + 0x8000_0000) % 0x1_0000_0000 - 0x8000_0000
  }

  /** Two's-complement wrap-around to 64 bits. */
  function Wrap64(x: int): (r: int)
    ensures -0x8000_0000_0000_0000 <= r < 0x8000_0000_0000_0000
    ensures -0x8000_0000_0000_0000 <= x < 0x8000_0000_0000_0000 ==> r == x
    ensures (r - x) % 0x1_0000_0000_0000_0000 == 0
  {
    (x + 0x8000_0000_0000_0000) % 0x1_0000_0000_0000_0000 - 0x8000_0000_0000_0000
  }

  /** Go's `/` before any wrap-around: truncation towards zero. */
  function Quotient(a: int, b: int): int
    requires b != 0
  {
    if a >= 0 then (if b > 0 then a / b else -(a / -b)) else if b > 0 then -(-a / b) else -a / -b
  }

  lemma MulGrows(m: int, k: int, least: int)
    requires m >= least >= 0 && k >= 0
    ensures m * k >= least * k
  {
  }

  lemma DivideBy2OrMore(n: int, m: int)
    requires n >= 0 && m >= 2
    ensures 0 <= n / m && 2 * (n / m) <= n
  {
    var q := n / m;
    assert n == m * q + n % m;
    MulGrows(m, q, 2);
  }

  /** Dividing never takes a number further from zero or past it. */
  lemma QuotientShrinks(x: int, d: int)
    requires d > 0
    ensures if x >= 0 then 0 <= Quotient(x, d) <= x else x <= Quotient(x, d) <= 0
  {
    var n := if x < 0 then -x else x;
    if d == 1 {
      assert n / d == n;
    } else {
      DivideBy2OrMore(n, d);
    }
  }
}
