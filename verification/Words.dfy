/** Machine words: bytes, truncation to 32 bits, and the bitwise arithmetic the ring indices use. */
module Words {

  type Byte = x: int | 0 <= x < 256

  type Payload = seq<Byte>

  datatype Option<+T> = None | Some(value: T)

  const TWO32: nat := 0x1_0000_0000

  /** Assignment of a wider unsigned value to a 32-bit one. */
  function Low32(x: nat): (y: nat)
    ensures y < TWO32
    ensures x < TWO32 ==> y == x
  {
    x % TWO32
  }

  function Max(a: int, b: int): int {
    if a < b then b else a
  }

  /** Bitwise "and" of two naturals, bit by bit. */
  function And(a: nat, b: nat): nat {
    if a == 0 || b == 0 then 0
    else 2 * And(a / 2, b / 2) + (if a % 2 == 1 && b % 2 == 1 then 1 else 0)
  }

  function Pow2(k: nat): (n: nat)
    ensures 1 <= n
  {
    if k == 0 then 1 else 2 * Pow2(k - 1)
  }

  ghost predicate IsPow2(n: nat) {
    exists k: nat :: n == Pow2(k)
  }

  lemma HalveMod(a: nat, m: nat)
    requires 0 < m
    ensures a % (2 * m) == 2 * ((a / 2) % m) + a % 2
  {
    var q := (a / 2) / m;
    assert a == (2 * m) * q + (2 * ((a / 2) % m) + a % 2) by {
      assert a / 2 == m * q + (a / 2) % m;
      assert a == 2 * (a / 2) + a % 2;
    }
    ModIs(a, 2 * m, q, 2 * ((a / 2) % m) + a % 2);
  }

  lemma ModIs(a: int, n: int, q: int, r: nat)
    requires a == n * q + r && 0 <= r < n
    ensures a % n == r && a / n == q
  {
    assert a == n * (a / n) + a % n;
    assert n * (a / n - q) == r - a % n;
    NoSmallMultiple(n, a / n - q);
  }

  lemma NoSmallMultiple(n: int, d: int)
    requires 0 < n && 0 - n < n * d < n
    ensures d == 0
  {
    assert d >= 1 ==> n * d >= n;
    assert d <= -1 ==> n * d <= 0 - n;
  }

  /** The remainder of `id` by `n`, by repeated subtraction. */
  function Wrap(id: nat, n: nat): (i: nat)
    requires 0 < n
    ensures i < n
  {
    if id < n then id else Wrap(id - n, n)
  }

  lemma {:induction false} WrapIsRemainder(id: nat, n: nat)
    requires 0 < n
    ensures Wrap(id, n) == id % n
  {
    if id < n {
      ModIs(id, n, 0, id);
    } else {
      WrapIsRemainder(id - n, n);
      ModShift(id - n, id, n);
      ModIs(n, n, 1, 0);
    }
  }

  lemma OddMask(a: nat, m: nat)
    requires 0 < m
    ensures And(a, 2 * m - 1) == 2 * And(a / 2, m - 1) + a % 2
  {
    assert (2 * m - 1) / 2 == m - 1 && (2 * m - 1) % 2 == 1;
  }

  lemma MaskStep(a: nat, m: nat)
    requires 0 < m && And(a / 2, m - 1) == (a / 2) % m
    ensures And(a, 2 * m - 1) == a % (2 * m)
  {
    HalveMod(a, m);
    OddMask(a, m);
  }

  lemma {:induction false} AndMask(a: nat, k: nat)
    ensures And(a, Pow2(k) - 1) == a % Pow2(k)
  {
    if k > 0 {
      AndMask(a / 2, k - 1);
      MaskStep(a, Pow2(k - 1));
    }
  }

  /** Masking with the size of the ring less one is the remainder by the size. */
  lemma MaskIsWrap(id: nat, n: nat)
    requires 0 < n && IsPow2(n)
    ensures And(id, n - 1) == Wrap(id, n)
  {
    var k: nat :| n == Pow2(k);
    AndMask(id, k);
    WrapIsRemainder(id, n);
  }

  lemma {:induction false} AndSelf(a: nat)
    ensures And(a, a) == a
  {
    if a != 0 {
      AndSelf(a / 2);
    }
  }

  /** The test `n & (n - 1)` is zero for the powers of two and for nothing else. */
  lemma {:induction false} PowerOfTwoTest(n: nat)
    requires 0 < n
    ensures And(n, n - 1) == 0 <==> IsPow2(n)
  {
    if n == 1 {
      assert n == Pow2(0);
    } else if n % 2 == 1 {
      assert (n - 1) / 2 == n / 2;
      AndSelf(n / 2);
      forall k: nat ensures n != Pow2(k) {}
    } else {
      PowerOfTwoTest(n / 2);
      assert (n - 1) / 2 == n / 2 - 1;
      if IsPow2(n / 2) {
        var k: nat :| n / 2 == Pow2(k);
        assert n == Pow2(k + 1);
      }
      if IsPow2(n) {
        var k: nat :| n == Pow2(k);
        assert n / 2 == Pow2(k - 1);
      }
    }
  }

  /** Two numbers less than `n` apart have the same remainder only when they are equal. */
  lemma ModClose(a: nat, b: nat, n: nat)
    requires 0 < n && a <= b < a + n
    ensures a % n == b % n <==> a == b
  {
    assert a == n * (a / n) + a % n;
    if a % n + (b - a) < n {
      ModIs(b, n, a / n, a % n + (b - a));
    } else {
      ModIs(b, n, a / n + 1, a % n + (b - a) - n);
    }
  }

  /** Stepping by whole multiples does not change the remainder. */
  lemma ModShift(a: nat, b: nat, n: nat)
    requires 0 < n && a <= b
    ensures a % n == b % n <==> (b - a) % n == 0
  {
    if (b - a) % n == 0 {
      var d := (b - a) / n;
      ModIs(b, n, a / n + d, a % n);
    }
    if a % n == b % n {
      ModIs(b - a, n, b / n - a / n, 0);
    }
  }

  lemma ModNext(a: nat, n: nat)
    requires 1 < n
    ensures (a % n + 1) % n == (a + 1) % n
  {
    var q, m := a / n, a % n;
    if m + 1 < n {
      ModIs(a + 1, n, q, m + 1);
      ModIs(m + 1, n, 0, m + 1);
    } else {
      ModIs(a + 1, n, q + 1, 0);
      ModIs(n, n, 1, 0);
    }
  }
}
