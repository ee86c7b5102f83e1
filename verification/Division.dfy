/** The few facts about division by a symbolic page size that the pages need. */
module Division {

  lemma Unique(x: int, size: nat, k: int)
    requires 1 <= size && k * size <= x < k * size + size
    ensures x / size == k && x % size == x - k * size
  {
    var q := x / size;
    assert q * size <= x < q * size + size;
    if q < k {
      NextMultiple(q, k, size);
    } else if k < q {
      NextMultiple(k, q, size);
    }
  }

  lemma {:induction false} NextMultiple(a: int, b: int, size: nat)
    requires a < b
    ensures a * size + size <= b * size
    decreases b - a
  {
    assert (b - 1) * size + size == b * size;
    if a < b - 1 { NextMultiple(a, b - 1, size); }
  }

  /** Consecutive numbers lie on one page or on neighbouring pages. */
  lemma NextLine(x: nat, size: nat)
    requires 1 <= size
    ensures (x + 1) / size == if (x + 1) % size == 0 then x / size + 1 else x / size
  {
    var k := x / size;
    if x + 1 < k * size + size {
      Unique(x + 1, size, k);
    } else {
      assert (k + 1) * size == k * size + size;
      Unique(x + 1, size, k + 1);
    }
  }

  lemma Monotonic(x: int, y: int, size: nat)
    requires 1 <= size && x <= y
    ensures x / size <= y / size
  {
    var q, r := x / size, y / size;
    assert q * size <= x && y < r * size + size;
    if r < q { NextMultiple(r, q, size); }
  }
}
