/** Machine-word arithmetic and powers of two, as the kernel's ring counters and clocks use them. */
module Words {
  /** Number of values of an `unsigned int`. */
  const WORD: nat := 0x1_0000_0000

  datatype Option<+T> = None | Some(value: T)

  /** An integer stored in an `unsigned int`. */
  function Word(x: int): (w: nat)
    ensures w < WORD
  {
    x % WORD
  }

  /** The slot of a ring of n slots that a counter stands for. */
  function Slot(c: nat, n: nat): (i: nat)
    requires n > 0
    ensures i < n
  {
    c % n
  }

  function Min(a: int, b: int): int {
    if a <= b then a else b
  }

  function Max(a: int, b: int): int {
    if a <= b then b else a
  }

  function Pow2(k: nat): nat {
    if k == 0 then 1 else 2 * Pow2(k - 1)
  }

  ghost predicate IsPow2(n: nat) {
    exists k: nat :: n == Pow2(k)
  }

  /** The smallest element of p, 2p, 4p, ... that is at least n. */
  function DoubleUntil(p: nat, n: nat): nat
    requires 0 < p
    decreases n - p
  {
    if p >= n then p else DoubleUntil(2 * p, n)
  }

  /** roundup_pow_of_two */
  function RoundUpPow2(n: nat): nat {
    DoubleUntil(1, n)
  }

  lemma Pow2Positive(k: nat)
    ensures Pow2(k) > 0
  {
  }

  lemma Pow2Monotone(j: nat, k: nat)
    requires j <= k
    ensures Pow2(j) <= Pow2(k)
    decreases k - j
  {
    if j < k {
      Pow2Monotone(j + 1, k);
    }
  }

  lemma {:induction false} DoubleUntilIsLeast(j: nat, n: nat)
    requires j > 0 ==> Pow2(j - 1) < n
    ensures Pow2(j) > 0
    ensures var r := DoubleUntil(Pow2(j), n);
      IsPow2(r) && n <= r && forall k: nat :: n <= Pow2(k) ==> r <= Pow2(k)
    decreases n - Pow2(j)
  {
    Pow2Positive(j);
    if Pow2(j) >= n {
      forall k: nat | n <= Pow2(k)
        ensures Pow2(j) <= Pow2(k)
      {
        if k < j {
          Pow2Monotone(k, j - 1);
        } else {
          Pow2Monotone(j, k);
        }
      }
    } else {
      assert Pow2(j + 1) == 2 * Pow2(j);
      DoubleUntilIsLeast(j + 1, n);
    }
  }

  /** Rounding up yields the least power of two that is at least n. */
  lemma RoundUpIsLeast(n: nat)
    ensures IsPow2(RoundUpPow2(n)) && n <= RoundUpPow2(n)
    ensures forall k: nat :: n <= Pow2(k) ==> RoundUpPow2(n) <= Pow2(k)
    ensures RoundUpPow2(n) == n <==> IsPow2(n)
  {
    assert Pow2(0) == 1;
    DoubleUntilIsLeast(0, n);
  }

  lemma WordIsPow2()
    ensures Pow2(31) == 0x8000_0000 && Pow2(32) == WORD
  {
    assert Pow2(8) == 256;
    Pow2Sum(8, 8);
    Pow2Sum(16, 8);
    Pow2Sum(24, 7);
    assert Pow2(7) == 128;
  }

  /** A capacity in the range the driver accepts stays in range when rounded up. */
  lemma RoundUpInRange(n: nat)
    requires 2 <= n <= 0x8000_0000
    ensures 2 <= RoundUpPow2(n) <= 0x8000_0000
  {
    RoundUpIsLeast(n);
    WordIsPow2();
  }

  lemma Pow2Sum(a: nat, b: nat)
    ensures Pow2(a + b) == Pow2(a) * Pow2(b)
  {
    if a > 0 {
      Pow2Sum(a - 1, b);
      assert Pow2(a + b) == 2 * (Pow2(a - 1) * Pow2(b));
    }
  }

  lemma MultipleIsFar(d: int, n: int)
    requires n > 0
    ensures d >= 1 ==> d * n >= n
    ensures d == 0 ==> d * n == 0
    ensures d <= -1 ==> d * n <= -n
  {
  }

  lemma UniqueRemainder(x: int, q: int, r: int, n: int)
    requires n > 0 && x == q * n + r && 0 <= r < n
    ensures x % n == r && x / n == q
  {
    var d := x / n - q;
    assert x == (x / n) * n + x % n;
    assert d * n == r - x % n;
    MultipleIsFar(d, n);
  }

  lemma ModAddMultiple(a: int, k: int, n: int)
    requires n > 0
    ensures (a + k * n) % n == a % n
  {
    assert a + k * n == (a / n + k) * n + a % n;
    UniqueRemainder(a + k * n, a / n + k, a % n, n);
  }

  /** A power of two up to the word size divides the word size. */
  lemma DividesWord(n: nat)
    requires IsPow2(n) && 0 < n <= WORD
    ensures WORD % n == 0
  {
    var k: nat :| n == Pow2(k);
    assert k <= 32 by {
      WordIsPow2();
      assert Pow2(33) == 2 * Pow2(32);
      if k > 32 {
        Pow2Monotone(33, k);
      }
    }
    assert Pow2(32 - k) * n + 0 == WORD by {
      WordIsPow2();
      Pow2Sum(32 - k, k);
    }
    UniqueRemainder(WORD, Pow2(32 - k), 0, n);
  }

  /** Numbers that differ by a multiple of the word size agree modulo any divisor of it. */
  lemma SameModulo(x: int, y: int, n: nat)
    requires n > 0 && WORD % n == 0
    requires (x - y) % WORD == 0
    ensures x % n == y % n
  {
    var c := (x - y) / WORD;
    var d := WORD / n;
    assert WORD == d * n;
    assert x == y + c * (d * n) == y + (c * d) * n;
    ModAddMultiple(y, c * d, n);
  }

  /** Two positions less than n apart fall on different slots of a ring of n slots. */
  lemma DistinctSlots(x: int, y: int, n: nat)
    requires 0 < x - y < n
    ensures x % n != y % n
  {
    if x % n == y % n {
      assert x - y == (x / n - y / n) * n;
      MultipleIsFar(x / n - y / n, n);
    }
  }
}
