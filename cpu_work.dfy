/** CPU busy work used by the demos to burn time: a Fibonacci loop over
    unsigned 64-bit integers, and a large unit that repeats it. */
module CpuWork {

  /** The values of a C++ `uint64_t`. Arithmetic on this type is checked by
      the verifier, so every addition below is proved not to wrap. */
  newtype U64 = x: int | 0 <= x < 0x1_0000_0000_0000_0000

  /** The bound of the busy loop, `0x8000000000000000ULL` (2^63). */
  const Limit: int := 0x8000_0000_0000_0000

  /** How many times the large unit repeats the small one. */
  const LargeUnitRepeats: int := 1_000_000

  function Fib(n: nat): nat
  {
    if n < 2 then n else Fib(n - 1) + Fib(n - 2)
  }

  lemma {:induction false} FibMonotone(i: nat, j: nat)
    requires i <= j
    ensures Fib(i) <= Fib(j)
  {
    if i < j {
      FibMonotone(i, j - 1);
      assert Fib(j - 1) <= Fib(j) by {
        if j >= 2 { assert Fib(j) == Fib(j - 1) + Fib(j - 2); }
      }
    }
  }

  /** `cpu_busy_work_unit`: starting from (a, b) = (0, 1), step the pair along
      the Fibonacci sequence while b < 2^63. The source discards the final
      pair; the model returns it together with the number of steps k, so that
      a == Fib(k) and b == Fib(k + 1). On exit b is the first Fibonacci number
      at or above 2^63, and no sum computed on the way overflowed 64 bits. */
  method CpuBusyWorkUnit() returns (a: U64, b: U64, ghost k: nat)
    ensures a as int == Fib(k) && b as int == Fib(k + 1)
    ensures a <= b
    ensures b as int >= Limit
    ensures forall j :: 0 <= j <= k ==> Fib(j) < Limit
  {
    a, b := 0, 1;
    k := 0;
    while b as int < Limit
      invariant a as int == Fib(k) && b as int == Fib(k + 1)
      invariant a <= b
      invariant forall j :: 0 <= j <= k ==> Fib(j) < Limit
      decreases Limit - b as int, Limit - a as int
    {
      // a <= b < 2^63, so the sum stays below 2^64: the addition never wraps
      var sum := a + b;
      a := b;
      b := sum;
      k := k + 1;
    }
  }

  /** `cpu_busy_work_large_unit`: the unit repeated one million times. The
      model returns how many units were run. */
  method CpuBusyWorkLargeUnit() returns (units: nat)
    ensures units == LargeUnitRepeats
  {
    units := 0;
    for i := 0 to LargeUnitRepeats
      invariant units == i
    {
      var _, _, _ := CpuBusyWorkUnit();
      units := units + 1;
    }
  }
}
