/** Unsigned 64-bit arithmetic that reports overflow (src/base/checked.cpp). */
module Checked {
  import opened Bytes
  import opened Results

  function CheckedAdd(a: u64, b: u64): (r: Result<u64>)
    ensures r.Ok? <==> a + b < TWO_64
    ensures r.Ok? ==> r.value == a + b
    ensures r.Err? ==> r.error == ResourceLimit
  {
    if a > TWO_64 - 1 - b then Err(ResourceLimit) else Ok(a + b)
  }

  lemma {:induction false} QuotientBounds(a: nat, b: nat, m: nat)
    requires a > 0
    ensures b > m / a <==> a * b > m
  {
    var q, r := m / a, m % a;
    assert m == a * q + r;
    MultipleOrder(a, b, q);
  }

  lemma {:induction false} MultipleOrder(a: nat, b: nat, q: nat)
    requires a > 0
    ensures if b > q then a * b >= a * q + a else a * b <= a * q
  {
    if b > q {
      assert a * (b - q - 1) >= 0;
    } else {
      assert a * (q - b) >= 0;
    }
  }

  /** The division test is exact: it fails precisely when the product does not fit. */
  function CheckedMul(a: u64, b: u64): (r: Result<u64>)
    ensures r.Ok? <==> a * b < TWO_64
    ensures r.Ok? ==> r.value == a * b
    ensures r.Err? ==> r.error == ResourceLimit
  {
    if a != 0 then
      QuotientBounds(a, b, TWO_64 - 1);
      if b > (TWO_64 - 1) / a then Err(ResourceLimit) else
      assert 0 <= a * b;
      Ok(a * b)
    else Ok(0)
  }
}
