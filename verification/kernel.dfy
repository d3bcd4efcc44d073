/** The compute kernel of the worker: the recursive `fib` of worker/main.go. */
module Kernel {
  import opened GoInt

  /** The sequence the system evaluates, over unbounded integers: 1 below
      index 2 (negative indices included), otherwise the sum of the two
      previous terms. Every term is at least 1. */
  function Fib(n: int): (r: int)
    decreases n
    ensures r >= 1
  {
    if n < 2 then 1 else Fib(n - 1) + Fib(n - 2)
  }

  /** `fib` as the worker runs it, on Go's 64-bit `int`: every addition wraps
      around modulo 2^64. */
  function Fib64(n: int): (r: int)
    decreases n
    ensures InRange(r)
  {
    if n < 2 then 1 else Wrap(Fib64(n - 1) + Fib64(n - 2))
  }

  /** The sequence never decreases: from index 0 on, and below it, where it is constant. */
  lemma {:induction false} FibMonotone(i: int, j: int)
    requires i <= j
    ensures Fib(i) <= Fib(j)
    decreases j - i
  {
    if i < j {
      FibMonotone(i, j - 1);
    }
  }

  /** The values the recursion gives at the indices the system documents. */
  lemma FibValues()
    ensures Fib(0) == 1 && Fib(1) == 1 && Fib(-5) == 1
    ensures Fib(10) == 89 && Fib(20) == 10946 && Fib(40) == 165580141
  {
  }

  /** The 64-bit computation is the true value wrapped to 64 bits. */
  lemma {:induction false} Fib64Wraps(n: int)
    ensures Fib64(n) == Wrap(Fib(n))
    decreases n
  {
    if n < 2 {
      WrapInRange(1);
    } else {
      Fib64Wraps(n - 1);
      Fib64Wraps(n - 2);
      WrapAdd(Fib(n - 1), Fib(n - 2));
    }
  }

  /** Up to index 40 the true value fits in an `int`, so the worker's result
      does not overflow and is exactly the term of the sequence. */
  lemma NoOverflowUpTo40(n: int)
    requires n <= 40
    ensures 1 <= Fib(n) <= 165580141
    ensures Fib64(n) == Fib(n)
  {
    FibMonotone(n, 40);
    FibValues();
    Fib64Wraps(n);
    WrapInRange(Fib(n));
  }

  /** An iterative replacement for the recursive `fib` with two accumulators,
      in the same 64-bit arithmetic: it returns what the recursion returns. */
  method ComputeFib(n: int) returns (r: int)
    ensures r == Fib64(n)
  {
    if n < 2 {
      return 1;
    }
    var prev, cur := 1, 1;
    var i := 1;
    while i < n
      invariant 1 <= i <= n
      invariant prev == Fib64(i - 1) && cur == Fib64(i)
    {
      prev, cur := cur, Wrap(prev + cur);
      i := i + 1;
    }
    return cur;
  }
}
