/** Unsigned 64-bit machine operations written out over the naturals. */
module MachineArith {
  import opened Basics

  function Wrap(x: nat): nat { x % TWO64 }

  lemma NoWrap(x: nat)
    requires x < TWO64
    ensures Wrap(x) == x
  {
  }

  function Min(a: int, b: int): int { if a <= b then a else b }

  function Max(a: int, b: int): int { if a >= b then a else b }

  function Pow2(n: nat): (r: nat)
    ensures r >= 1
  {
    if n == 0 then 1 else 2 * Pow2(n - 1)
  }

  /** Logical right shift, one bit at a time. */
  function Shr(x: nat, n: nat): nat
    decreases n
  {
    if n == 0 then x else Shr(x / 2, n - 1)
  }

  /** Bitwise and. */
  function And(x: nat, y: nat): nat {
    if x == 0 || y == 0 then 0
    else (if x % 2 == 1 && y % 2 == 1 then 1 else 0) + 2 * And(x / 2, y / 2)
  }

  lemma MulMono(a: int, b: int, c: int)
    requires a <= b && 0 <= c
    ensures a * c <= b * c
  {
  }

  lemma DivModUnique(x: int, d: int, q: int, r: int)
    requires 0 <= r < d && x == q * d + r
    ensures x / d == q && x % d == r
  {
    var q1, r1 := x / d, x % d;
    calc {
      (q - q1) * d;
      q * d - q1 * d;
      { assert x == q1 * d + r1; }
      r1 - r;
    }
    SmallMultiple(q - q1, d);
  }

  lemma SmallMultiple(k: int, d: int)
    requires -d < k * d < d
    ensures k == 0
  {
    assert k >= 1 ==> k * d >= d by { if k >= 1 { MulMono(1, k, d); } }
    assert k <= -1 ==> k * d <= -d by { if k <= -1 { MulMono(k, -1, d); } }
  }

  lemma DivMono(a: int, b: int, d: int)
    requires a <= b && d > 0
    ensures a / d <= b / d
  {
    var qa, qb := a / d, b / d;
    assert a == qa * d + a % d && b == qb * d + b % d;
    assert qb + 1 <= qa ==> (qb + 1) * d <= qa * d by {
      if qb + 1 <= qa { MulMono(qb + 1, qa, d); }
    }
  }

  lemma DivBounds(x: int, d: int)
    requires d > 0
    ensures (x / d) * d <= x < (x / d) * d + d
  {
    assert x == d * (x / d) + x % d;
  }

  lemma HalfDiv(x: nat, p: nat)
    requires p > 0
    ensures (x / 2) / p == x / (2 * p)
    ensures x % (2 * p) == x % 2 + 2 * ((x / 2) % p)
  {
    var h := x / 2;
    var q, r := h / p, h % p;
    assert h == q * p + r;
    assert x == q * (2 * p) + (2 * r + x % 2) by {
      assert x == 2 * h + x % 2;
      assert 2 * (q * p) == q * (2 * p);
    }
    DivModUnique(x, 2 * p, q, 2 * r + x % 2);
  }

  /** A right shift by `n` is a division by 2^n. */
  lemma {:induction false} ShrIsDiv(x: nat, n: nat)
    ensures Shr(x, n) == x / Pow2(n)
    decreases n
  {
    if n > 0 {
      ShrIsDiv(x / 2, n - 1);
      HalfDiv(x, Pow2(n - 1));
    }
  }

  lemma AndOdd(x: nat, h: nat)
    ensures And(x, 2 * h + 1) == x % 2 + 2 * And(x / 2, h)
  {
    assert (2 * h + 1) / 2 == h && (2 * h + 1) % 2 == 1;
  }

  /** Masking with 2^n - 1 is the remainder modulo 2^n. */
  lemma {:induction false} AndMaskIsMod(x: nat, n: nat)
    ensures And(x, Pow2(n) - 1) == x % Pow2(n)
    decreases n
  {
    if n > 0 {
      AndOdd(x, Pow2(n - 1) - 1);
      AndMaskIsMod(x / 2, n - 1);
      ModDouble(x, Pow2(n - 1), And(x / 2, Pow2(n - 1) - 1));
    } else {
      assert x % 1 == 0;
    }
  }

  lemma ModDouble(x: nat, p: nat, a: nat)
    requires p > 0 && a == (x / 2) % p
    ensures x % (2 * p) == x % 2 + 2 * a
  {
    HalfDiv(x, p);
  }

  lemma {:induction false} Pow2Mono(a: nat, b: nat)
    requires a <= b
    ensures Pow2(a) <= Pow2(b)
    ensures a < b ==> 2 * Pow2(a) <= Pow2(b)
    decreases b - a
  {
    if a < b { Pow2Mono(a, b - 1); }
  }

  lemma Pow2Order(a: nat, b: nat)
    ensures a < b <==> Pow2(a) < Pow2(b)
  {
    if a < b { Pow2Mono(a, b); } else { Pow2Mono(b, a); }
  }
}
