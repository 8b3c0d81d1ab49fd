/** Small things that several models share. */
module Common {

  /** A value that may be missing. */
  datatype Option<+T> = None | Some(value: T)

  lemma {:induction false} SubsetSize<T>(x: set<T>, y: set<T>)
    requires x <= y
    ensures |x| <= |y|
  {
    if x != {} {
      var e :| e in x;
      SubsetSize(x - {e}, y - {e});
    }
  }

  lemma {:induction false} SameSize<T>(x: set<T>, y: set<T>)
    requires x <= y && |x| == |y|
    ensures x == y
  {
    if e :| e in y && e !in x {
      SubsetSize(x, y - {e});
    }
  }

  lemma ModIs(q: int, n: nat, r: int)
    requires n > 0 && 0 <= r < n
    ensures (q * n + r) % n == r
  {
    var x := q * n + r;
    var k, m := x / n, x % n;
    assert x == k * n + m && 0 <= m < n;
    assert (k - q) * n == k * n - q * n;
    assert (q - k) * n == q * n - k * n;
    if k > q {
      AtLeastOnce(k - q, n);
    } else if k < q {
      AtLeastOnce(q - k, n);
    }
  }

  lemma AtLeastOnce(d: int, n: nat)
    requires d >= 1
    ensures d * n >= n
  {
  }
}
