/** Facts about indices that wrap around a ring of n slots. */
module RingIndex {

  lemma {:induction false} ProductMono(a: int, b: int, n: nat)
    requires a <= b
    ensures a * n <= b * n
  {
  }

  lemma {:induction false} Distribute(a: int, b: int, n: int)
    ensures (b - a) * n == b * n - a * n
  {
  }

  /** The remainder is the one number below n that differs from x by a multiple of n. */
  lemma {:induction false} ModUnique(x: int, n: nat, q: int, r: int)
    requires n >= 1 && x == q * n + r && 0 <= r < n
    ensures x % n == r && x / n == q
  {
    var (p, s) := (x / n, x % n);
    Distribute(p, q, n);
    if q > p {
      ProductMono(1, q - p, n);
    } else if q < p {
      ProductMono(q - p, -1, n);
    }
  }

  /** Fewer than n steps never lead back. */
  lemma {:induction false} CloseIndicesDiffer(v: int, w: int, n: nat)
    requires v < w < v + n
    ensures v % n != w % n
  {
    if v % n == w % n {
      var (a, b) := (v / n, w / n);
      assert v == a * n + v % n && w == b * n + w % n;
      Distribute(a, b, n);
      if b - a >= 1 {
        ProductMono(1, b - a, n);
      } else {
        ProductMono(b - a, 0, n);
      }
    }
  }
}
