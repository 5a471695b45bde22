/** Finding the least significant set bit of a signed integer.  Arithmetic shift right is
    floor division, which for a negative number never reaches 0. */
module BitScan {
  import opened Common

  const INT_MIN: int := -0x8000_0000
  const LLONG_MIN: int := -0x8000_0000_0000_0000
  const LLONG_MAX: int := 0x7fff_ffff_ffff_ffff

  function Abs(x: int): nat { if x < 0 then -x else x }

  function Pow2(n: nat): (p: nat)
    ensures p > 0
  {
    if n == 0 then 1 else 2 * Pow2(n - 1)
  }

  /** 1-based position of the least significant set bit, 0 when there is none. */
  function FirstSet(x: int): nat
    decreases Abs(x)
  {
    if x == 0 then 0 else if x % 2 == 1 then 1 else 1 + FirstSet(x / 2)
  }

  // ------------------------------------------------------- what the position means

  lemma TimesDouble(a: int, p: int)
    ensures a * (2 * p) == 2 * (a * p)
  {
  }

  lemma {:induction false} OddMultiple(x: int, a: int, r: nat)
    requires r > 0 && a % 2 == 1 && x == a * Pow2(r - 1)
    ensures x != 0 && FirstSet(x) == r
    decreases r
  {
    if r > 1 {
      TimesDouble(a, Pow2(r - 2));
      OddMultiple(a * Pow2(r - 2), a, r - 1);
    }
  }

  lemma {:induction false} IsOddMultiple(x: int) returns (a: int)
    requires x != 0
    ensures a % 2 == 1 && x == a * Pow2(FirstSet(x) - 1)
    decreases Abs(x)
  {
    if x % 2 == 1 {
      a := x;
    } else {
      a := IsOddMultiple(x / 2);
      TimesDouble(a, Pow2(FirstSet(x / 2) - 1));
    }
  }

  lemma OddTimes(k: int, p: int)
    ensures (2 * k + 1) * p == k * (2 * p) + p
  {
  }

  lemma QuotientUnique(x: int, m: int, q: int, r: int)
    requires 0 <= r < m && x == q * m + r
    ensures x % m == r
  {
    var d := x / m - q;
    assert d * m == r - x % m;
    assert -m < d * m < m;
    assert d == 0 by {
      if d > 0 {
        MulAtLeast(d, m);
      } else if d < 0 {
        MulAtLeast(-d, m);
      }
    }
  }

  lemma HalvedQuotient(n: nat, p: nat)
    requires p > 0
    ensures n / (2 * p) == n / 2 / p
  {
    var q, r := n / 2 / p, n / 2 % p;
    assert n / 2 == q * p + r;
    OddTimes(q, p);
    QuotientIs(n, 2 * p, q, 2 * r + n % 2);
  }

  lemma QuotientIs(n: nat, m: nat, q: nat, r: nat)
    requires r < m && n == q * m + r
    ensures n / m == q
  {
    QuotientUnique(n, m, q, r);
    assert (n / m - q) * m == 0;
  }

  lemma MulAtLeast(d: int, m: int)
    requires d > 0 && m > 0
    ensures d * m >= m
  {
  }

  /** Main result: FirstSet is the r with x mod 2^r == 2^(r-1), and there is no other. */
  lemma FirstSetExact(x: int, r: nat)
    requires r > 0
    ensures x % Pow2(r) == Pow2(r - 1) <==> x != 0 && FirstSet(x) == r
  {
    var p := Pow2(r - 1);
    assert Pow2(r) == 2 * p;
    if x % Pow2(r) == p {
      var k := x / Pow2(r);
      OddTimes(k, p);
      OddMultiple(x, 2 * k + 1, r);
    }
    if x != 0 && FirstSet(x) == r {
      var a := IsOddMultiple(x);
      OddTimes(a / 2, p);
      QuotientUnique(x, 2 * p, a / 2, p);
    }
  }

  /** In n+1 bits two's complement the position is at most n+1, and n+1 only for the least
      number. */
  lemma {:induction false} FirstSetRange(x: int, n: nat)
    requires 0 - Pow2(n) <= x < Pow2(n)
    ensures FirstSet(x) <= n + 1
    ensures FirstSet(x) == n + 1 <==> x == 0 - Pow2(n)
    decreases n
  {
    if n > 0 && x != 0 && x % 2 == 0 {
      FirstSetRange(x / 2, n - 1);
    }
  }

  // ------------------------------------------------------------------ word by word

  /** Adding a multiple of 2^n does not move a lowest bit among the low n. */
  lemma {:induction false} SameLowBits(y: int, q: int, n: nat)
    requires y != 0 && FirstSet(y) <= n
    ensures y + q * Pow2(n) != 0 && FirstSet(y + q * Pow2(n)) == FirstSet(y)
    decreases n
  {
    var x, h := y + q * Pow2(n), q * Pow2(n - 1);
    TimesDouble(q, Pow2(n - 1));
    if y % 2 == 0 {
      SameLowBits(y / 2, q, n - 1);
      assert x / 2 == y / 2 + h;
    }
  }

  /** Multiplying by 2^n moves the lowest bit up by n. */
  lemma {:induction false} ShiftedUp(h: int, n: nat)
    requires h != 0
    ensures h * Pow2(n) != 0 && FirstSet(h * Pow2(n)) == n + FirstSet(h)
    decreases n
  {
    if n > 0 {
      ShiftedUp(h, n - 1);
      var x := h * Pow2(n - 1);
      TimesDouble(h, Pow2(n - 1));
    }
  }

  lemma {:induction false} Pow2Sum(a: nat, b: nat)
    ensures Pow2(a + b) == Pow2(a) * Pow2(b)
  {
    if a > 0 {
      Pow2Sum(a - 1, b);
      assert Pow2(a + b) == 2 * Pow2(a - 1 + b);
    }
  }

  lemma Pow2Values()
    ensures Pow2(31) == -INT_MIN && Pow2(32) == U32
  {
    assert Pow2(4) == 16 && Pow2(8) == 256 by {
      Pow2Sum(4, 4);
    }
    Pow2Sum(8, 8);
    Pow2Sum(16, 16);
  }

  /** Conversion of a 32-bit pattern to a signed int. */
  function ToInt(w: int): int requires 0 <= w < U32 {
    if w <= INT_MAX then w else w - U32
  }

  /** The low word alone decides the position when it is not 0. */
  lemma LowWord(x: int)
    requires x % U32 != 0
    ensures FirstSet(ToInt(x % U32)) == FirstSet(x)
  {
    var y := ToInt(x % U32);
    Pow2Values();
    FirstSetRange(y, 31);
    var q := if x % U32 <= INT_MAX then x / U32 else x / U32 + 1;
    assert x == y + q * U32;
    SameLowBits(y, q, 32);
  }

  /** A number with an empty low word has its position 32 above that of the rest. */
  lemma UpperWord(x: int)
    requires x % U32 == 0 && x != 0
    ensures FirstSet(x) == 32 + FirstSet(x / U32)
  {
    Pow2Values();
    ShiftedUp(x / U32, 32);
  }

  // ------------------------------------------------------------------- the two searches

  method Ffs(x: int) returns (r: nat)
    ensures r == FirstSet(x)
    ensures x == 0 <==> r == 0
    ensures r > 0 ==> x % Pow2(r) == Pow2(r - 1)
  {
    var i := x;
    var c: nat := 1;
    while true
      invariant c >= 1 && FirstSet(x) == (if x == 0 then 0 else c - 1 + FirstSet(i))
      invariant x != 0 ==> i != 0
      invariant x == 0 ==> i == 0
      decreases Abs(i)
    {
      if i % 2 == 1 {
        FirstSetExact(x, c);
        return c;
      }
      i := i / 2;
      c := c + 1;
      if i == 0 {
        break;
      }
    }
    return 0;
  }

  /** The source's annotations claim less than 32; the value 32 occurs, exactly for the
      least int. */
  lemma FfsOfInt(x: int)
    requires INT_MIN <= x <= INT_MAX
    ensures FirstSet(x) <= 32 && (FirstSet(x) == 32 <==> x == INT_MIN)
  {
    Pow2Values();
    FirstSetRange(x, 31);
  }

  /** Likewise the value 64, which the annotations exclude, occurs exactly for the least
      64-bit number. */
  lemma FfsOfLongLong(x: int)
    requires LLONG_MIN <= x <= LLONG_MAX
    ensures FirstSet(x) <= 64 && (FirstSet(x) == 64 <==> x == LLONG_MIN)
  {
    Pow2Values();
    Pow2Sum(32, 31);
    FirstSetRange(x, 63);
  }

  /** The word-by-word search of a 64-bit number finds what the direct search finds. */
  method Ffsti2(x: int) returns (r: nat)
    requires LLONG_MIN <= x <= LLONG_MAX
    ensures r == FirstSet(x)
    ensures x == 0 <==> r == 0
    ensures r > 0 ==> x % Pow2(r) == Pow2(r - 1)
  {
    var lli := x;
    var i := 0;
    while i < 2
      invariant 0 <= i <= 2
      invariant i == 0 ==> lli == x
      invariant i == 1 ==> x % U32 == 0 && lli == x / U32 && INT_MIN <= lli <= INT_MAX
      invariant i == 2 ==> x == 0
    {
      // the exclusive or of the number with its upper word leaves the low word
      var tmpint := ToInt(lli - lli / U32 * U32);
      var t := Ffs(tmpint);
      if t != 0 {
        LowWord(lli);
        if i == 1 {
          UpperWord(x);
        }
        r := t + i * 32;
        FirstSetExact(x, r);
        return;
      }
      lli := lli / U32;
      i := i + 1;
    }
    return 0;
  }
}
