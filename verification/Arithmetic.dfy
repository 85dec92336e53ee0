/** Numbers, and facts about products and remainders, that the modules share. */
module Arithmetic {

  const TWO_TO_THE_64: nat := 0x1_0000_0000_0000_0000

  function Min(a: int, b: int): int { if a < b then a else b }

  lemma {:induction false} MulMonotone(a: int, b: int, n: nat)
    requires a <= b
    ensures a * n <= b * n
  {
  }

  lemma {:induction false} OneMore(a: nat, n: nat)
    ensures (n + 1) * a == n * a + a && a * (n + 1) == a * n + a
  {
  }

  /** The remainder of a sum of a multiple of `n` and a small number. */
  lemma {:induction false} ModOf(q: nat, n: nat, m: nat)
    requires m < n
    ensures (q * n + m) % n == m
  {
    var x := q * n + m;
    var a := x / n;
    if a > q {
      MulMonotone(q + 1, a, n);
    } else if a < q {
      MulMonotone(a + 1, q, n);
    }
  }
}
