/** Small shared vocabulary: byte-sized integers, options, and the integer
    operations whose Rust meaning differs from Dafny's. */
module Prelude {

  /** Rust's `u8`. */
  type u8 = x: int | 0 <= x < 256

  datatype Option<+T> = None | Some(value: T)

  function Min(a: int, b: int): int {
    if a <= b then a else b
  }

  function Max(a: int, b: int): int {
    if a <= b then b else a
  }

  /** Rust's `clamp`, which panics unless `lo <= hi`. */
  function Clamp(x: int, lo: int, hi: int): (r: int)
    requires lo <= hi
  {
    if x < lo then lo else if x > hi then hi else x
  }

  /** Rust's `/` on signed integers: truncates toward zero, while Dafny's `/` rounds down here. */
  function TruncDiv(a: int, b: int): int
    requires b > 0
  {
    if a >= 0 then a / b else -((-a) / b)
  }

  /** A sequence with `x` put in before index `i`, index by index. */
  lemma InsertedAt<T>(s: seq<T>, i: nat, x: T, k: nat)
    requires i <= |s| && k < |s|
    ensures var r := s[..i] + [x] + s[i..];
            |r| == |s| + 1 && r[i] == x && (k < i ==> r[k] == s[k]) && (k >= i ==> r[k + 1] == s[k])
  {
  }

  lemma RemoveInserted<T>(s: seq<T>, i: nat, x: T)
    requires i <= |s|
    ensures var r := s[..i] + [x] + s[i..]; |r| == |s| + 1 && r[..i] + r[i + 1..] == s
  {
  }

  lemma ConcatAssociates<T>(a: seq<T>, b: seq<T>, c: seq<T>)
    ensures a + b + c == a + (b + c)
  {
  }

  /** Reduction modulo `n` of a value below `2 * n`. */
  lemma ModBelowTwice(x: int, n: int)
    requires 0 <= x < 2 * n
    ensures x % n == if x < n then x else x - n
  {
    var q := x / n;
    assert x == q * n + x % n;
    MultiplesOrdered(1, q, n);
    MultiplesOrdered(q, 0, n);
  }

  lemma Distribute(x: int, y: int, b: int)
    ensures (x + y) * b == x * b + y * b
  {
  }

  lemma NegateProduct(k: int, b: int)
    ensures (-k) * b == -(k * b)
  {
  }

  lemma ProductNonNegative(x: int, y: int)
    requires x >= 0 && y >= 0
    ensures x * y >= 0
  {
  }

  /** Distinct integers leave room for one more multiple between them. */
  lemma MultiplesOrdered(p: int, q: int, b: int)
    requires b > 0
    ensures p < q ==> p * b + b <= q * b
  {
    if p < q {
      Distribute(q - p - 1, p + 1, b);
      ProductNonNegative(q - p - 1, b);
      Distribute(p, 1, b);
    }
  }

  /** `a / b` is the one `q` with `q * b <= a < q * b + b`. */
  lemma DivIs(a: int, b: int, q: int)
    requires b > 0 && q * b <= a < q * b + b
    ensures a / b == q
  {
    var p := a / b;
    assert p * b <= a < p * b + b;
    MultiplesOrdered(p, q, b);
    MultiplesOrdered(q, p, b);
  }

  lemma DivMonotone(a: int, a': int, b: int)
    requires b > 0 && a <= a'
    ensures a / b <= a' / b
  {
    MultiplesOrdered(a' / b, a / b, b);
  }

  lemma TruncDivMonotone(a: int, a': int, b: int)
    requires b > 0 && a <= a'
    ensures TruncDiv(a, b) <= TruncDiv(a', b)
  {
    if a >= 0 {
      DivMonotone(a, a', b);
    } else if a' < 0 {
      DivMonotone(-a', -a, b);
    } else {
      DivMonotone(0, -a, b);
      DivMonotone(0, a', b);
    }
  }

  /** Truncation is exact on multiples. */
  lemma TruncDivExact(k: int, b: int)
    requires b > 0
    ensures TruncDiv(k * b, b) == k
  {
    if k >= 0 {
      assert k * b >= 0;
      DivIs(k * b, b, k);
    } else {
      assert k * b < 0 && -(k * b) == (-k) * b;
      DivIs((-k) * b, b, -k);
    }
  }

  lemma DivShift(a: int, k: int, b: int)
    requires b > 0
    ensures (a + k * b) / b == a / b + k
  {
    var q := a / b;
    assert q * b <= a < q * b + b;
    Distribute(q, k, b);
    DivIs(a + k * b, b, q + k);
  }

  /** Adding a whole number of units `u == k * b` before truncating gains at most `k`. */
  lemma TruncDivShift(a: int, u: int, k: int, b: int)
    requires b > 0 && k >= 0 && u == k * b
    ensures TruncDiv(a + u, b) <= TruncDiv(a, b) + k
  {
    ProductNonNegative(k, b);
    DivShift(a, k, b);
    DivShift(-a, -k, b);
    assert (-k) * b == -u;
    if a < 0 <= a + u {
      RoundsDown(a, b);
    }
  }

  /** Rounding down is below the negated rounding down of the negation. */
  lemma RoundsDown(a: int, b: int)
    requires b > 0
    ensures a / b <= -((-a) / b)
  {
    var p, q := a / b, (-a) / b;
    assert p * b <= a && q * b <= -a;
    Distribute(p, q, b);
    MultiplesOrdered(0, p + q, b);
  }
}
