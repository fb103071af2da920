/** What every other module uses: bytes, word sizes, error numbers, and a little arithmetic. */
module Bytes {
  type byte = x: int | 0 <= x < 256

  datatype Option<+T> = None | Some(value: T)

  const U32 := 0x1_0000_0000
  const U64 := 0x1_0000_0000_0000_0000

  const ENOENT := 2
  const EINTR := 4
  const EIO := 5
  const EAGAIN := 11
  const ENOMEM := 12
  const EBUSY := 16
  const EINVAL := 22

  const SECTOR_SIZE := 512

  function Min(a: nat, b: nat): nat {
    if a < b then a else b
  }

  lemma AtLeastOneTimes(k: int, b: int)
    requires k >= 1 && b > 0
    ensures k * b >= b
  {
    assert (k - 1) * b >= 0;
    assert k * b == (k - 1) * b + b;
  }

  /** Quotient and remainder are unique. */
  lemma QuotientIs(x: int, d: int, q: int, r: int)
    requires 0 <= r < d && x == q * d + r
    ensures x / d == q && x % d == r
  {
    var q', r' := x / d, x % d;
    assert (q' - q) * d == r - r' by {
      assert x == d * q' + r';
    }
    if q' - q >= 1 {
      AtLeastOneTimes(q' - q, d);
    } else if q - q' >= 1 {
      AtLeastOneTimes(q - q', d);
    }
  }

  lemma MultipleIs(k: int, d: int)
    requires d > 0
    ensures k * d % d == 0
  {
    QuotientIs(k * d, d, k, 0);
  }

  lemma Distribute(k: int, m: int, d: int)
    ensures k * d + m * d == (k + m) * d && k * d - m * d == (k - m) * d
  {
  }

  lemma WholeQuotient(x: int, d: int)
    requires d > 0 && x % d == 0
    ensures x / d * d == x
  {
  }
}
