/// Small facts about multiplication, division and remainder.
module Arith {

  function Pow(b: nat, k: nat): (p: nat)
    ensures b > 0 ==> p > 0
  {
    if k == 0 then 1 else b * Pow(b, k - 1)
  }

  function Sum(c: seq<int>): int {
    if c == [] then 0 else c[|c| - 1] + Sum(c[..|c| - 1])
  }

  lemma {:induction false} SumUpdate(c: seq<int>, i: nat, v: int)
    requires i < |c|
    ensures Sum(c[i := v]) == Sum(c) - c[i] + v
  {
    var n := |c| - 1;
    if i < n {
      SumUpdate(c[..n], i, v);
      assert c[i := v][..n] == c[..n][i := v];
    } else {
      assert c[i := v][..n] == c[..n];
    }
  }

  lemma {:induction false} SumAtLeast(c: seq<int>, i: nat)
    requires i < |c| && forall k :: 0 <= k < |c| ==> c[k] >= 0
    ensures Sum(c) >= c[i] >= 0
  {
    var n := |c| - 1;
    if i < n {
      SumAtLeast(c[..n], i);
    } else if n > 0 {
      SumAtLeast(c[..n], 0);
    }
  }

  lemma {:induction false} SumZero(c: seq<int>)
    requires forall i :: 0 <= i < |c| ==> c[i] == 0
    ensures Sum(c) == 0
  {
    if c != [] {
      SumZero(c[..|c| - 1]);
    }
  }

  lemma MulMono(f: nat, a: nat, b: nat)
    requires a <= b
    ensures f * a <= f * b
  {
  }

  /** Strictly below one more multiple. */
  lemma MulBound(f: nat, a: nat, b: nat, low: nat)
    requires a < b && low < f
    ensures f * a + low < f * b
  {
    MulMono(f, a + 1, b);
    assert f * (a + 1) == f * a + f;
  }

  lemma {:induction false} PowOrder(n: nat, l: nat, i: nat)
    requires n > 0 && l <= i
    ensures Pow(n, l) <= Pow(n, i)
  {
    if l < i {
      PowOrder(n, l, i - 1);
      MulMono(Pow(n, i - 1), 1, n);
    }
  }

  lemma DivMod(x: nat, d: nat)
    requires d > 0
    ensures x == d * (x / d) + x % d && 0 <= x % d < d
  {
  }

  lemma QuotientUnique(d: nat, q: nat, r: nat, q': nat, r': nat)
    requires r < d && r' < d && d * q + r == d * q' + r'
    ensures q == q' && r == r'
  {
    if q < q' {
      MulBound(d, q, q', r);
    } else if q' < q {
      MulBound(d, q', q, r');
    }
  }

  lemma DivModUnique(x: nat, d: nat, q: nat, r: nat)
    requires d > 0 && x == d * q + r && r < d
    ensures x / d == q && x % d == r
  {
    DivMod(x, d);
    QuotientUnique(d, q, r, x / d, x % d);
  }

  lemma SmallMod(x: nat, d: nat)
    requires x < d
    ensures x / d == 0 && x % d == x
  {
    DivModUnique(x, d, 0, x);
  }

  lemma Regroup(n: nat, s: nat, a: nat, b: nat)
    ensures s * (n * a + b) == (n * s) * a + s * b
  {
    assert s * (n * a + b) == s * (n * a) + s * b;
    assert s * (n * a) == (s * n) * a;
  }

  /** Splitting by a product is splitting twice. */
  lemma ModProduct(r: nat, n: nat, s: nat)
    requires n > 0 && s > 0
    ensures n * s > 0
    ensures r % (n * s) == s * ((r / s) % n) + r % s
    ensures r / (n * s) == (r / s) / n
  {
    MulMono(n, 1, s);
    var q, u := r / s, r % s;
    DivMod(r, s);
    SplitTwice(r, n, s, q, u, q / n, q % n);
  }

  lemma SplitTwice(r: nat, n: nat, s: nat, q: nat, u: nat, a: nat, b: nat)
    requires n > 0 && s > 0 && n * s > 0
    requires r == s * q + u && u < s && a == q / n && b == q % n
    ensures r % (n * s) == s * b + u && r / (n * s) == a
  {
    DivMod(q, n);
    Regroup(n, s, a, b);
    MulBound(s, b, n, u);
    assert s * n == n * s;
    DivModUnique(r, n * s, a, s * b + u);
  }

  /** Digits compare lexicographically. */
  lemma LexDigits(s: nat, a: nat, x: nat, b: nat, y: nat)
    requires x < s && y < s
    ensures s * a + x <= s * b + y <==> a < b || (a == b && x <= y)
  {
    if a < b {
      MulBound(s, a, b, x);
    } else if b < a {
      MulBound(s, b, a, y);
    }
  }

  /** How many times y it takes to reach x. */
  function HowMany(x: nat, y: nat): nat
    requires y > 0
  {
    (x + y - 1) / y
  }

  lemma HowManyIs(x: nat, y: nat)
    requires y > 0
    ensures y * HowMany(x, y) >= x && (HowMany(x, y) > 0 ==> y * (HowMany(x, y) - 1) < x)
  {
    DivMod(x + y - 1, y);
    if HowMany(x, y) > 0 {
      assert y * HowMany(x, y) == y * (HowMany(x, y) - 1) + y;
    }
  }

  lemma HowManyLeast(x: nat, y: nat, k: nat)
    requires y > 0
    ensures x <= y * k ==> HowMany(x, y) <= k
    ensures k > 0 && y * (k - 1) < x ==> k <= HowMany(x, y)
  {
    HowManyIs(x, y);
    if HowMany(x, y) > k {
      MulMono(y, k, HowMany(x, y) - 1);
    }
    if HowMany(x, y) < k {
      MulMono(y, HowMany(x, y), k - 1);
    }
  }

  lemma HowManyMono(x: nat, x': nat, y: nat)
    requires y > 0 && x <= x'
    ensures HowMany(x, y) <= HowMany(x', y)
  {
    HowManyIs(x', y);
    HowManyLeast(x, y, HowMany(x', y));
  }

  /** The largest multiple of s up to r. */
  function Down(r: nat, s: nat): (d: nat)
    requires s > 0
    ensures d <= r
  {
    r - r % s
  }

  lemma DownIsProduct(r: nat, s: nat)
    requires s > 0
    ensures Down(r, s) == s * (r / s)
  {
    DivMod(r, s);
  }

  /** Adding less than s to a multiple of s leaves the low part to the addend. */
  lemma DownPlus(r: nat, s: nat, d: nat)
    requires d < s
    ensures (Down(r, s) + d) % s == d && (Down(r, s) + d) / s == r / s
  {
    DownIsProduct(r, s);
    DivModUnique(Down(r, s) + d, s, r / s, d);
  }

  lemma SameQuotientSameDown(r: nat, r': nat, s: nat)
    requires s > 0 && r / s == r' / s
    ensures Down(r, s) == Down(r', s)
  {
    DownIsProduct(r, s);
    DownIsProduct(r', s);
  }
}
