/** Values shared by every component: bytes, optional results, powers of two. */
module Basics {

  type byte = x: int | 0 <= x < 256

  type bytes = seq<byte>

  datatype Option<+T> = None | Some(value: T)

  function Min(a: int, b: int): int {
    if a <= b then a else b
  }

  /** 2 to the power n: `x << n` is `x * Pow2(n)` and `x >> n` is `x / Pow2(n)`. */
  function Pow2(n: nat): (p: nat)
    ensures p > 0
  {
    if n == 0 then 1 else 2 * Pow2(n - 1)
  }

  lemma {:induction false} Pow2Monotone(a: nat, b: nat)
    requires a <= b
    ensures Pow2(a) <= Pow2(b)
    decreases b
  {
    if a < b { Pow2Monotone(a, b - 1); }
  }

  lemma Pow2EightMore(i: nat)
    ensures Pow2(8 * (i + 1)) == 256 * Pow2(8 * i)
  {
    var e := 8 * i;
    assert Pow2(e + 8) == 2 * Pow2(e + 7) == 4 * Pow2(e + 6) == 8 * Pow2(e + 5) == 16 * Pow2(e + 4);
    assert Pow2(e + 4) == 2 * Pow2(e + 3) == 4 * Pow2(e + 2) == 8 * Pow2(e + 1) == 16 * Pow2(e);
  }

  lemma Pow2Words()
    ensures Pow2(24) == 0x100_0000 && Pow2(32) == 0x1_0000_0000
  {
    assert Pow2(0) == 1;
    Pow2EightMore(0); Pow2EightMore(1); Pow2EightMore(2); Pow2EightMore(3);
  }

  lemma HalfOfQuotient(x: nat, i: nat)
    ensures x / Pow2(i) / 2 == x / Pow2(i + 1)
  {
    var p := Pow2(i);
    var q, h := x / p, x / p / 2;
    assert Pow2(i + 1) == 2 * p;
    assert x == p * q + x % p;
    assert q == 2 * h + q % 2;
    assert p * q == 2 * p * h + p * (q % 2);
    DivisionUnique(x, 2 * p, h, p * (q % 2) + x % p);
  }

  lemma NonzeroMultiple(d: int, k: int)
    requires d >= 0
    ensures k >= 1 ==> d * k >= d
    ensures k <= -1 ==> d * k <= -d
  {
    if k >= 1 { assert d * (k - 1) >= 0; }
    if k <= -1 { assert d * (k + 1) <= 0; }
  }

  lemma DivisionUnique(x: nat, d: nat, q: nat, r: nat)
    requires d > 0 && r < d && x == d * q + r
    ensures x / d == q && x % d == r
  {
    assert d * (x / d - q) == r - x % d;
    NonzeroMultiple(d, x / d - q);
  }

  /** A slice of a slice is a slice. */
  lemma SliceOfSlice<T>(s: seq<T>, a: nat, b: nat, c: nat, d: nat)
    requires a <= b <= |s| && c <= d <= b - a
    ensures s[a..b][c..d] == s[a + c..a + d]
  {
    var x, y := s[a..b][c..d], s[a + c..a + d];
    assert |x| == |y|;
    assert forall i :: 0 <= i < |x| ==> x[i] == s[a + c + i] == y[i];
  }

  /** No two positions of the sequence hold the same element. */
  ghost predicate Distinct<T>(s: seq<T>) {
    forall i, j :: 0 <= i < j < |s| ==> s[i] != s[j]
  }
}
