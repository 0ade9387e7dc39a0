// Powers of two, and the shifts, masks and bit tests of the C code in terms of them.
module Powers {

  function Pow2(n: nat): (r: nat)
    ensures r >= 1
  {
    if n == 0 then 1 else 2 * Pow2(n - 1)
  }

  lemma {:induction false} Pow2Add(a: nat, b: nat)
    ensures Pow2(a + b) == Pow2(a) * Pow2(b)
  {
    if b == 0 {
    } else {
      Pow2Add(a, b - 1);
      assert Pow2(a + b) == 2 * Pow2(a + b - 1) == 2 * (Pow2(a) * Pow2(b - 1));
      assert Pow2(a) * Pow2(b) == Pow2(a) * (2 * Pow2(b - 1));
    }
  }

  lemma {:induction false} Pow2Mono(a: nat, b: nat)
    requires a <= b
    ensures Pow2(a) <= Pow2(b)
    decreases b - a
  {
    if a < b {
      Pow2Mono(a + 1, b);
    }
  }

  lemma Pow2Half(n: nat)
    requires n >= 1
    ensures Pow2(n) == 2 * Pow2(n - 1) && Pow2(n) / 2 == Pow2(n - 1)
  {
  }

  lemma Pow2Values()
    ensures Pow2(0) == 1 && Pow2(1) == 2 && Pow2(2) == 4 && Pow2(3) == 8 && Pow2(4) == 16
    ensures Pow2(8) == 256 && Pow2(12) == 4096 && Pow2(15) == 32768 && Pow2(16) == 65536
    ensures Pow2(32) == 0x1_0000_0000
  {
    assert Pow2(4) == 16;
    assert Pow2(8) == 256;
    assert Pow2(12) == 4096;
    assert Pow2(15) == 32768;
    assert Pow2(16) == 65536;
    Pow2Add(16, 16);
  }

  // (x * k) / (y * k) == x / y
  lemma DivScale(x: nat, y: nat, k: nat)
    requires y > 0 && k > 0
    ensures y * k > 0
    ensures (x * k) / (y * k) == x / y
  {
    var q, r := x / y, x % y;
    assert x == q * y + r;
    assert x * k == q * (y * k) + r * k by {
      assert x * k == (q * y + r) * k;
      assert (q * y) * k == q * (y * k);
    }
    assert 0 <= r * k < y * k by {
      assert (r + 1) * k <= y * k;
      assert (r + 1) * k == r * k + k;
    }
    DivUnique(x * k, y * k, q, r * k);
  }

  lemma MulMono(a: int, b: int, y: int)
    requires a <= b && 0 <= y
    ensures a * y <= b * y
  {
    assert (b - a) * y >= 0;
  }

  lemma EuclidUnique(y: int, q: int, r: int, q': int, r': int)
    requires 0 <= r < y && 0 <= r' < y
    requires q * y + r == q' * y + r'
    ensures q == q' && r == r'
  {
    if q < q' {
      MulMono(q + 1, q', y);
    } else if q > q' {
      MulMono(q' + 1, q, y);
    }
  }

  lemma DivUnique(x: int, y: int, q: int, r: int)
    requires y > 0 && x == q * y + r && 0 <= r < y
    ensures x / y == q && x % y == r
  {
    var q', r' := x / y, x % y;
    EuclidUnique(y, q, r, q', r');
  }

  lemma DivDiv(x: nat, a: nat, b: nat)
    requires a > 0 && b > 0
    ensures a * b > 0
    ensures x / (a * b) == x / a / b
  {
    var q, r := x / a, x % a;
    var q2, r2 := q / b, q % b;
    DivDivParts(x, a, b, q, r, q2, r2);
    DivUnique(x, a * b, q2, r2 * a + r);
  }

  lemma DivDivParts(x: nat, a: nat, b: nat, q: nat, r: nat, q2: nat, r2: nat)
    requires a > 0 && b > 0 && r < a && r2 < b
    requires x == q * a + r && q == q2 * b + r2
    ensures a * b > 0 && x == q2 * (a * b) + (r2 * a + r)
    ensures 0 <= r2 * a + r < a * b
  {
    assert (q2 * b) * a == q2 * (a * b);
    assert q * a == (q2 * b) * a + r2 * a;
    var d := b - r2 - 1;
    assert b * a == r2 * a + a + d * a;
    assert d * a >= 0 && r2 * a >= 0;
  }

  // a multiple of 2^b is a multiple of every smaller power of two
  lemma MultipleOfSmaller(x: nat, a: nat, b: nat)
    requires a <= b && x % Pow2(b) == 0
    ensures x % Pow2(a) == 0
  {
    Pow2Add(a, b - a);
    MultipleOfFactor(x, Pow2(a), Pow2(b - a));
  }

  lemma MultipleOfFactor(x: nat, m: nat, k: nat)
    requires m > 0 && k > 0 && m * k > 0 && x % (m * k) == 0
    ensures x % m == 0
  {
    var q := x / (m * k);
    DivMod(x, m * k);
    assert q * (m * k) == (q * k) * m;
    DivUnique(x, m, q * k, 0);
  }

  lemma MultipleSum(x: int, y: int, m: int)
    requires m > 0 && x % m == 0 && y % m == 0
    ensures (x + y) % m == 0 && (x - y) % m == 0
  {
    var p, q := x / m, y / m;
    assert x == p * m && y == q * m;
    assert x + y == (p + q) * m && x - y == (p - q) * m;
    DivUnique(x + y, m, p + q, 0);
    DivUnique(x - y, m, p - q, 0);
  }

  // two multiples of m that differ, differ by at least m
  lemma MultipleGap(x: int, y: int, m: int)
    requires m > 0 && x % m == 0 && y % m == 0 && x < y
    ensures x + m <= y
  {
    MultipleSum(y, x, m);
    var d := (y - x) / m;
    assert y - x == d * m;
    MulMono(1, if d <= 0 then 1 else d, m);
    if d <= 0 {
      MulMono(d, 0, m);
    }
  }

  lemma DivNonNegative(v: nat, m: nat)
    requires m > 0
    ensures v / m >= 0
  {
  }

  lemma DivMod(v: nat, m: nat)
    requires m > 0
    ensures v == v / m * m + v % m && 0 <= v % m < m
  {
  }

  lemma MulDist(a: int, b: int, c: int)
    ensures (a + b) * c == a * c + b * c
  {
  }

  lemma MulAssoc(a: int, b: int, c: int)
    ensures a * (b * c) == a * b * c
  {
  }

  lemma MulDouble(a: int, w: int)
    ensures a * (2 * w) == (2 * a) * w
  {
  }

  // a multiple of a small power of two among the larger ones
  lemma Pow2Multiple(a: nat, b: nat)
    requires a <= b
    ensures Pow2(b) % Pow2(a) == 0
  {
    DivUnique(Pow2(b), Pow2(b), 1, 0);
    MultipleOfSmaller(Pow2(b), a, b);
  }
}
