/** Integer helpers: Go's truncated remainder and sums of sequences. */
module Ints {

  function Abs(a: int): nat {
    if a < 0 then -a else a
  }

  /** Go's `a % b` on `int`: the quotient is truncated toward zero, so the
      remainder takes the sign of the dividend (unlike Dafny's Euclidean `%`).
      Computed by stepping `a` toward zero by `|b|`. */
  function Rem(a: int, b: int): (r: int)
    requires b != 0
    ensures Abs(r) < Abs(b)
    ensures a >= 0 ==> r >= 0
    ensures a <= 0 ==> r <= 0
    decreases Abs(a)
  {
    var m: int := Abs(b);
    if -m < a < m then a
    else if a > 0 then Rem(a - m, b)
    else Rem(a + m, b)
  }

  /** `Rem` is the remainder of truncated division, as the Go specification
      defines it: `a % |b|` for non-negative `a` and `-((-a) % |b|)` otherwise. */
  lemma {:induction false} RemTruncates(a: int, b: int)
    requires b != 0
    ensures a >= 0 ==> Rem(a, b) == a % Abs(b)
    ensures a < 0 ==> Rem(a, b) == -((-a) % Abs(b))
    decreases Abs(a)
  {
    var m: int := Abs(b);
    if -m < a < m {
      if a >= 0 { ModSmall(a, m); } else { ModSmall(-a, m); }
    } else if a > 0 {
      RemTruncates(a - m, b);
      ModShift(a - m, m);
    } else {
      RemTruncates(a + m, b);
      ModShift(-a - m, m);
    }
  }

  /** Division with remainder is unique: the Euclidean remainder is the only
      `r` in `[0, m)` with `a == m * q + r`. */
  lemma ModUnique(a: int, m: int, q: int, r: int)
    requires m > 0 && 0 <= r < m
    requires a == m * q + r
    ensures a % m == r && a / m == q
  {
    var q', r' := a / m, a % m;
    assert a == m * q' + r';
    assert m * (q - q') == r' - r by {
      assert m * (q - q') == m * q - m * q';
    }
    if q - q' >= 1 {
      MulAtLeast(m, q - q');
      assert false;
    } else if q' - q >= 1 {
      MulAtLeast(m, q' - q);
      assert false;
    }
  }

  lemma {:induction false} MulAtLeast(m: int, k: int)
    requires m > 0 && k >= 1
    ensures m * k >= m
    decreases k
  {
    if k > 1 {
      MulAtLeast(m, k - 1);
      assert m * k == m * (k - 1) + m;
    }
  }

  /** The cursor update of `UpdateStats`, `((i+1) % C + C) % C` with Go's
      truncated `%`, is the non-negative remainder `(i+1) mod C` for every
      int `i` and every positive `C`: it never yields a negative index. */
  lemma {:induction false} WrapIndex(i: int, c: int)
    requires c > 0
    ensures 0 <= Rem(Rem(i + 1, c) + c, c) < c
    ensures Rem(Rem(i + 1, c) + c, c) == (i + 1) % c
  {
    var x := i + 1;
    var r1 := Rem(x, c);
    if r1 >= 0 {
      assert Rem(r1 + c, c) == r1;
      RemNonNegative(x, c);
    } else {
      assert Rem(r1 + c, c) == r1 + c;
      RemNegative(x, c);
    }
  }

  lemma RemNonNegative(x: int, c: int)
    requires c > 0 && Rem(x, c) >= 0
    ensures Rem(x, c) == x % c
  {
    RemTruncates(x, c);
    if x < 0 {
      var q := (-x) / c;
      assert -x == c * q;
      ModUnique(x, c, -q, 0);
    }
  }

  lemma RemNegative(x: int, c: int)
    requires c > 0 && Rem(x, c) < 0
    ensures Rem(x, c) + c == x % c
  {
    RemTruncates(x, c);
    var q, r := (-x) / c, (-x) % c;
    assert -x == c * q + r;
    assert 0 < r < c;
    assert x == c * (-q - 1) + (c - r) by {
      assert c * (-q - 1) == -(c * q) - c;
    }
    ModUnique(x, c, -q - 1, c - r);
  }

  /** Adding the modulus does not change the remainder. */
  lemma ModShift(m: int, c: int)
    requires c > 0
    ensures (m + c) % c == m % c
  {
    ModUnique(m + c, c, m / c + 1, m % c);
  }

  lemma ModSmall(m: int, c: int)
    requires 0 <= m < c
    ensures m % c == m
  {
    ModUnique(m, c, 0, m);
  }

  /** Sum of a sequence, folded from the right end. */
  function Sum(s: seq<int>): int
    decreases |s|
  {
    if s == [] then 0 else Sum(s[..|s| - 1]) + s[|s| - 1]
  }

  lemma {:induction false} SumConcat(a: seq<int>, b: seq<int>)
    ensures Sum(a + b) == Sum(a) + Sum(b)
    decreases |b|
  {
    if b == [] {
      assert a + b == a;
    } else {
      var b' := b[..|b| - 1];
      assert (a + b)[..|a + b| - 1] == a + b';
      SumConcat(a, b');
    }
  }

  /** Replacing one element changes the sum by the difference. */
  lemma {:induction false} SumUpdate(s: seq<int>, i: int, v: int)
    requires 0 <= i < |s|
    ensures Sum(s[i := v]) == Sum(s) - s[i] + v
  {
    assert s == s[..i] + [s[i]] + s[i + 1..];
    assert s[i := v] == s[..i] + [v] + s[i + 1..];
    SumConcat(s[..i] + [s[i]], s[i + 1..]);
    SumConcat(s[..i] + [v], s[i + 1..]);
    SumConcat(s[..i], [s[i]]);
    SumConcat(s[..i], [v]);
  }

  /** Extending a prefix by one element adds that element. */
  lemma SumPrefixStep(s: seq<int>, k: int)
    requires 0 <= k < |s|
    ensures Sum(s[..k + 1]) == Sum(s[..k]) + s[k]
  {
    assert s[..k + 1][..k] == s[..k];
  }

  /** Prefix sums of a sequence of non-negative values never decrease. */
  lemma {:induction false} SumPrefixMonotone(s: seq<int>, j: int, k: int)
    requires 0 <= j <= k <= |s|
    requires forall i :: 0 <= i < |s| ==> s[i] >= 0
    ensures 0 <= Sum(s[..j]) <= Sum(s[..k])
    decreases k
  {
    if k == 0 {
      assert s[..0] == [];
    } else if j == k {
      SumPrefixMonotone(s, j - 1, k - 1);
      SumPrefixStep(s, k - 1);
    } else {
      SumPrefixMonotone(s, j, k - 1);
      SumPrefixStep(s, k - 1);
    }
  }
}
