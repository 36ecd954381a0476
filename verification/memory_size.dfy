/**
 * `toHumanReadableMemorySize`: a byte count shown as a number of at most
 * 10000 and a unit, dividing by 1000 for each step up from bytes.
 */
module MemorySize {
  import opened Text

  const UNITS: seq<Bytes> := ["B", "KB", "MB", "GB"]
  const TOO_BIG: Bytes := "(too big...)"

  /** The largest number shown without moving to the next unit. */
  const THRESHOLD: nat := 10000

  function Pow1000(k: nat): (r: nat)
    ensures r >= 1
  {
    if k == 0 then 1 else 1000 * Pow1000(k - 1)
  }

  /** The unit after `k` divisions; past gigabytes there is none. */
  function UnitName(k: nat): Bytes {
    if k < |UNITS| then UNITS[k] else TOO_BIG
  }

  lemma DivUnique(x: int, m: int, q: int, r: int)
    requires m > 0 && 0 <= r < m && x == m * q + r
    ensures x / m == q
  {
    var q0, r0 := x / m, x % m;
    assert m * (q - q0) == r0 - r;
    if q - q0 >= 1 {
      MulAtLeast(m, q - q0);
    } else if q0 - q >= 1 {
      MulAtLeast(m, q0 - q);
    }
  }

  lemma MulAtLeast(m: int, d: int)
    requires m > 0 && d >= 1
    ensures m * d >= m
  {
    assert m * d == m * (d - 1) + m;
  }

  lemma MulMonotone(a: nat, x: nat, y: nat)
    requires x <= y
    ensures a * x <= a * y
  {
    assert a * y == a * x + a * (y - x);
  }

  lemma DivDiv(x: nat, a: nat, b: nat)
    requires a > 0 && b > 0
    ensures x / a / b == x / (a * b)
  {
    var q, r := x / a, x % a;
    var q2, r2 := q / b, q % b;
    assert x == a * q + r;
    assert q == b * q2 + r2;
    assert x == (a * b) * q2 + (a * r2 + r) by {
      assert a * q == a * (b * q2) + a * r2;
      assert a * (b * q2) == (a * b) * q2;
    }
    assert a * r2 + r < a * b by {
      MulMonotone(a, r2, b - 1);
      assert a * (b - 1) == a * b - a;
    }
    DivUnique(x, a * b, q2, a * r2 + r);
  }

  /** One more division by 1000 is one more power of 1000 in the divisor. */
  lemma DivStep(x: nat, k: nat)
    ensures x / Pow1000(k) / 1000 == x / Pow1000(k + 1)
  {
    DivDiv(x, Pow1000(k), 1000);
    assert Pow1000(k + 1) == Pow1000(k) * 1000;
  }

  /**
   * Divides by 1000 while the number exceeds 10000, then names the unit by
   * how many divisions were made. `k` is that count.
   */
  method ToHumanReadable(numBytes: uint64) returns (n: uint64, unit: Bytes, ghost k: nat)
    ensures n <= THRESHOLD
    ensures n == numBytes / Pow1000(k)
    ensures k > 0 ==> numBytes / Pow1000(k - 1) > THRESHOLD
    ensures unit == UnitName(k)
    ensures numBytes <= THRESHOLD ==> n == numBytes && unit == "B"
  {
    n := numBytes;
    var count: nat := 0;
    while n > THRESHOLD
      invariant n == numBytes / Pow1000(count)
      invariant count > 0 ==> numBytes / Pow1000(count - 1) > THRESHOLD
      decreases n
    {
      DivStep(numBytes, count);
      n := n / 1000;
      count := count + 1;
    }
    if count < |UNITS| {
      unit := UNITS[count];
    } else {
      unit := TOO_BIG;
    }
    k := count;
  }

  lemma {:induction false} DivMonotone(x: nat, j: nat, k: nat)
    requires j <= k
    ensures x / Pow1000(k) <= x / Pow1000(j)
    decreases k - j
  {
    if j < k {
      DivMonotone(x, j, k - 1);
      DivStep(x, k - 1);
    }
  }

  /**
   * The division count the method reports is fixed by the input: the unit
   * runs out exactly when the count of thousands of millions of bytes still
   * exceeds 10000.
   */
  lemma TooBigExactly(numBytes: nat, k: nat)
    requires numBytes / Pow1000(k) <= THRESHOLD
    requires k > 0 ==> numBytes / Pow1000(k - 1) > THRESHOLD
    ensures UnitName(k) == TOO_BIG <==> numBytes / Pow1000(3) > THRESHOLD
  {
    if k >= 4 {
      DivMonotone(numBytes, 3, k - 1);
    } else {
      DivMonotone(numBytes, k, 3);
    }
  }
}
