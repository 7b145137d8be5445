/** What several modules share. */
module Basics {
  type Byte = x: int | 0 <= x < 0x100

  /** A code unit of UTF-16. */
  type Unit = x: int | 0 <= x < 0x1_0000

  function Max(a: int, b: int): (m: int)
    ensures m >= a && m >= b && (m == a || m == b)
  {
    if a < b then b else a
  }

  function Last<T>(s: seq<T>): T
    requires s != []
  {
    s[|s| - 1]
  }

  function Front<T>(s: seq<T>): seq<T>
    requires s != []
  {
    s[..|s| - 1]
  }

  /** Quotient and remainder are unique. */
  lemma DivMod(r: int, c: int, n: nat)
    requires 0 <= c < n
    ensures (r * n + c) / n == r && (r * n + c) % n == c
  {
    var x := r * n + c;
    var q, m := x / n, x % n;
    assert x == q * n + m;
    assert (q - r) * n == c - m && (r - q) * n == m - c;
    if q > r {
      AtLeastOnce(q - r, n);
    } else if q < r {
      AtLeastOnce(r - q, n);
    }
  }

  lemma AtLeastOnce(k: int, n: nat)
    requires k >= 1
    ensures k * n >= n
  {
    assert k * n == (k - 1) * n + n;
  }
}
