/** The distributed sum: how the range 1..target is divided among the CPUs. */
module Sums {

  /** first + ... + last, 0 if the range is empty. */
  ghost function RangeSum(first: nat, last: nat): nat
    decreases last
  {
    if last < first || last == 0 then 0 else RangeSum(first, last - 1) + last
  }

  function Work(target: nat, n: nat): nat
    requires n > 0
  {
    target / n
  }

  function First(target: nat, n: nat, id: nat): nat
    requires n > 0
  {
    id * Work(target, n) + 1
  }

  /** The last CPU takes the remainder. */
  function End(target: nat, n: nat, id: nat): nat
    requires n > 0
  {
    if id == n - 1 then target else (id + 1) * Work(target, n)
  }

  ghost function LocalSum(target: nat, n: nat, id: nat): nat
    requires n > 0
  {
    RangeSum(First(target, n, id), End(target, n, id))
  }

  /** The contributions of the ids below k that are in the set. */
  ghost function SumOf(target: nat, n: nat, ids: set<nat>, k: nat): nat
    requires n > 0
  {
    if k == 0 then 0 else SumOf(target, n, ids, k - 1) + (if k - 1 in ids then LocalSum(target, n, k - 1) else 0)
  }

  lemma RangeGrows(first: nat, i: nat)
    requires 0 < first <= i
    ensures RangeSum(first, i) == RangeSum(first, i - 1) + i
  {
  }

  lemma RangeEmpty(first: nat)
    requires first > 0
    ensures RangeSum(first, first - 1) == 0
  {
  }

  lemma RangeBeyond(first: nat, last: nat)
    requires last < first
    ensures RangeSum(first, last) == 0
  {
  }

  /** The loop of test_distributed_sum. */
  method DistributedSum(target: nat, n: nat, id: nat) returns (localSum: nat)
    requires n > 0 && id < n
    ensures localSum == LocalSum(target, n, id)
  {
    var perCpu := target / n;
    var first := id * perCpu + 1;
    var last := (id + 1) * perCpu;
    if id == n - 1 {
      last := target;
    }
    assert first == First(target, n, id) && last == End(target, n, id);
    hide First, End, RangeSum;
    localSum := 0;
    var i := first;
    RangeEmpty(first);
    while i <= last
      invariant first <= i && (i <= last + 1 || i == first)
      invariant localSum == RangeSum(first, i - 1)
    {
      RangeGrows(first, i);
      localSum := localSum + i;
      i := i + 1;
    }
    if last < first {
      RangeBeyond(first, last);
    }
  }

  lemma {:induction false} RangesJoin(a: nat, b: nat, c: nat)
    requires 0 < a <= b + 1 && b <= c
    ensures RangeSum(a, b) + RangeSum(b + 1, c) == RangeSum(a, c)
    decreases c
  {
    if c == b {
    } else {
      RangesJoin(a, b, c - 1);
    }
  }

  lemma {:induction false} Gauss(m: nat)
    ensures 2 * RangeSum(1, m) == m * (m + 1)
  {
    if m == 0 {
    } else {
      Gauss(m - 1);
    }
  }

  /** Number p is in the range of the CPU. */
  predicate Handles(target: nat, n: nat, id: nat, p: nat)
    requires n > 0
  {
    First(target, n, id) <= p <= End(target, n, id)
  }

  lemma DivBounds(x: nat, w: nat)
    requires w > 0
    ensures x / w * w <= x < (x / w + 1) * w
  {
  }

  lemma MulSplit(b: nat, a: nat, w: nat)
    requires a <= b
    ensures b * w == a * w + (b - a) * w && (b - a) * w >= 0
  {
  }

  lemma MulMonotone(a: nat, b: nat, w: nat)
    requires a <= b
    ensures a * w <= b * w
  {
    MulSplit(b, a, w);
  }

  lemma MulDivBelow(k: nat, w: nat, x: nat)
    requires w > 0 && x / w >= k
    ensures k * w <= x
  {
    DivBounds(x, w);
    MulMonotone(k, x / w, w);
  }

  lemma RangesDisjoint(target: nat, n: nat, a: nat, b: nat)
    requires n > 0 && a < b < n
    ensures End(target, n, a) < First(target, n, b)
  {
    hide Work;
    MulMonotone(a + 1, b, Work(target, n));
  }

  /** Every number of 1..target is in the range of exactly one CPU, for any number of CPUs, more CPUs than numbers included. */
  lemma RangesPartition(target: nat, n: nat, p: nat)
    requires n > 0 && 1 <= p <= target
    ensures exists id :: 0 <= id < n && Handles(target, n, id, p)
    ensures forall a: nat, b: nat | a < n && b < n && Handles(target, n, a, p) && Handles(target, n, b, p) :: a == b
  {
    var w := Work(target, n);
    if w == 0 || (p - 1) / w >= n - 1 {
      if w > 0 {
        MulDivBelow(n - 1, w, p - 1);
      }
      assert Handles(target, n, n - 1, p);
    } else {
      var id: nat := (p - 1) / w;
      DivBounds(p - 1, w);
      assert Handles(target, n, id, p);
    }
    forall a: nat, b: nat | a < n && b < n && Handles(target, n, a, p) && Handles(target, n, b, p)
      ensures a == b
    {
      if a < b {
        RangesDisjoint(target, n, a, b);
      } else if b < a {
        RangesDisjoint(target, n, b, a);
      }
    }
  }

  /** The first k CPUs, the last one excluded, sum 1..k * work. */
  lemma {:induction false} PartialTotal(target: nat, n: nat, ids: set<nat>, k: nat)
    requires n > 0 && k < n && forall id: nat :: id < n ==> id in ids
    ensures SumOf(target, n, ids, k) == RangeSum(1, k * Work(target, n))
  {
    var w := Work(target, n);
    if k == 0 {
    } else {
      PartialTotal(target, n, ids, k - 1);
      assert k * w == (k - 1) * w + w;
      RangesJoin(1, (k - 1) * w, k * w);
    }
  }

  lemma WorkIsQuotient(target: nat, n: nat)
    requires n > 0
    ensures Work(target, n) * n <= target
  {
    DivBounds(target, n);
  }

  lemma Commute(a: nat, b: nat)
    ensures a * b == b * a
  {
  }

  lemma WorkFits(target: nat, n: nat)
    requires n > 0
    ensures 0 <= (n - 1) * Work(target, n) <= target
  {
    hide Work;
    MulSplit(n, n - 1, Work(target, n));
    Commute(Work(target, n), n);
    assert Work(target, n) * n <= target by { WorkIsQuotient(target, n); }
  }

  lemma HalfOf(x: nat, product: nat)
    requires 2 * x == product
    ensures x == product / 2
  {
  }

  /** All CPUs together sum 1..target, whatever the number of CPUs. */
  lemma TotalIsGauss(target: nat, n: nat, ids: set<nat>)
    requires n > 0 && forall id: nat :: id < n ==> id in ids
    ensures SumOf(target, n, ids, n) == target * (target + 1) / 2
  {
    hide RangeSum, Work;
    var before := (n - 1) * Work(target, n);
    PartialTotal(target, n, ids, n - 1);
    WorkFits(target, n);
    RangesJoin(1, before, target);
    Gauss(target);
    HalfOf(RangeSum(1, target), target * (target + 1));
  }

  /** A further contributor adds its share. */
  lemma {:induction false} SumOfAdd(target: nat, n: nat, ids: set<nat>, id: nat, k: nat)
    requires n > 0 && id !in ids
    ensures SumOf(target, n, ids + {id}, k) == SumOf(target, n, ids, k) + (if id < k then LocalSum(target, n, id) else 0)
  {
    if k == 0 {
    } else {
      SumOfAdd(target, n, ids, id, k - 1);
    }
  }

  lemma {:induction false} SumOfMonotone(target: nat, n: nat, some: set<nat>, all: set<nat>, k: nat)
    requires n > 0 && some <= all
    ensures SumOf(target, n, some, k) <= SumOf(target, n, all, k)
  {
    if k == 0 {
    } else {
      SumOfMonotone(target, n, some, all, k - 1);
    }
  }

  /** How many numbers the CPU's range holds; 0 if it is empty. */
  function Handled(target: nat, n: nat, id: nat): int
    requires n > 0
  {
    End(target, n, id) - First(target, n, id) + 1
  }

  lemma ShareIsWork(target: nat, n: nat, a: nat)
    requires n > 0 && a < n - 1
    ensures Handled(target, n, a) == Work(target, n)
  {
    hide Work;
    MulSplit(a + 1, a, Work(target, n));
  }

  lemma WorkRemainder(target: nat, n: nat)
    requires n > 0
    ensures 0 <= target - Work(target, n) * n < n
  {
    DivBounds(target, n);
    MulSplit(Work(target, n) + 1, Work(target, n), n);
  }

  /**
   * The ranges follow one another from 1 to the target. All CPUs but the last handle the same number of numbers,
   * and the last at least as many, but not one more for each CPU.
   */
  lemma SharesAreEven(target: nat, n: nat, a: nat, b: nat)
    requires n > 0 && a < n - 1 && b < n - 1
    ensures First(target, n, 0) == 1 && End(target, n, n - 1) == target
    ensures First(target, n, a + 1) == End(target, n, a) + 1
    ensures Handled(target, n, a) == Handled(target, n, b)
    ensures Handled(target, n, a) <= Handled(target, n, n - 1) < Handled(target, n, a) + n
  {
    hide Work;
    var w := Work(target, n);
    ShareIsWork(target, n, a);
    ShareIsWork(target, n, b);
    MulSplit(n, n - 1, w);
    Commute(w, n);
    assert 0 <= target - w * n < n by {
      WorkRemainder(target, n);
    }
  }

  /** One CPU has all the numbers. */
  lemma AloneHandlesAll(target: nat)
    ensures First(target, 1, 0) == 1 && End(target, 1, 0) == target
  {
  }
}
