/** Integer bounds, and rounding a real to the nearest integer as the runtime rounds it. */
module Numbers {
  function Min(a: int, b: int): int { if a <= b then a else b }

  function Max(a: int, b: int): int { if a >= b then a else b }

  /** Nearest integer, halves to even. */
  function RoundHalfEven(x: real): int {
    var below := x.Floor;
    var rest := x - below as real;
    if rest < 0.5 then below
    else if rest > 0.5 then below + 1
    else if below % 2 == 0 then below else below + 1
  }

  /** `n` is within half of `x`, and even if it is exactly half away. */
  predicate NearestEven(x: real, n: int) {
    && n as real - 0.5 <= x <= n as real + 0.5
    && (x == n as real - 0.5 || x == n as real + 0.5 ==> n % 2 == 0)
  }

  /** The nearest integer, halves to even, is unique and is what rounding returns. */
  lemma {:induction false} RoundIsNearestEven(x: real, n: int)
    ensures NearestEven(x, n) <==> n == RoundHalfEven(x)
  {
    var below := x.Floor;
    assert below as real <= x < (below + 1) as real;
    if NearestEven(x, n) {
      assert n == below || n == below + 1;
    }
  }

  lemma RoundMonotone(x: real, y: real)
    requires x <= y
    ensures RoundHalfEven(x) <= RoundHalfEven(y)
  {
    assert x.Floor <= y.Floor;
    if x.Floor < y.Floor {
      assert RoundHalfEven(x) <= x.Floor + 1 <= y.Floor <= RoundHalfEven(y);
    }
  }

  lemma RoundInteger(n: int)
    ensures RoundHalfEven(n as real) == n
  {
  }
}
