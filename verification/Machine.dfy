// Definitions every module shares: machine integers, optional results, and
// division facts with literal-sized operands.

module Machine {
  const TWO64: nat := 0x1_0000_0000_0000_0000

  type Word = w: nat | w < 0x1_0000_0000_0000_0000

  predicate Int32(n: int) { -0x8000_0000 <= n < 0x8000_0000 }

  // A C int: every value stored in one is checked to fit.
  type CInt = n: int | -0x8000_0000 <= n < 0x8000_0000

  function Abs(n: int): nat { if n < 0 then 0 - n else n }

  datatype Option<+T> = None | Some(value: T)

  // The quotient and the remainder are what any split of n says they are.
  lemma Quotient(n: nat, k: nat, q: nat, r: nat)
    requires n == k * q + r && r < k
    ensures n / k == q && n % k == r
  {
    Scale(k, n / k - q);
    assert k * (n / k - q) == r - n % k;
  }

  lemma Scale(k: int, d: int)
    requires k >= 0
    ensures d >= 1 ==> k * d >= k
    ensures d <= -1 ==> k * d <= -k
  {
  }
}
