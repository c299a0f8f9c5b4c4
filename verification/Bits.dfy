/** Bitwise arithmetic on naturals, as the hash containers use it to pick a bin:
    `hash & (cap - 1)` and the split mask `(ncap - 1) ^ (cap - 1)`. */
module Bits {

  function And(a: nat, b: nat): nat {
    if a == 0 || b == 0 then 0
    else 2 * And(a / 2, b / 2) + (if a % 2 == 1 && b % 2 == 1 then 1 else 0)
  }

  function Xor(a: nat, b: nat): nat {
    if a == 0 then b
    else if b == 0 then a
    else 2 * Xor(a / 2, b / 2) + (if a % 2 != b % 2 then 1 else 0)
  }

  predicate PowerOfTwo(c: nat) {
    c == 1 || (c > 1 && c % 2 == 0 && PowerOfTwo(c / 2))
  }

  lemma ModUnique(x: nat, m: nat, q: nat, r: nat)
    requires m > 0 && x == m * q + r && r < m
    ensures x / m == q && x % m == r
  {
    var d := x / m - q;
    assert m * (x / m) + x % m == x;
    assert m * d == r - x % m by { assert m * d == m * (x / m) - m * q; }
    MulBound(m, d);
  }

  lemma MulBound(m: int, d: int)
    requires m >= 0
    ensures d >= 1 ==> m * d >= m
    ensures d <= -1 ==> m * d <= -m
  {
    if d >= 1 {
      assert m * d == m + m * (d - 1);
    } else if d <= -1 {
      assert m * d == -m - m * (-d - 1);
    }
  }

  lemma HalveMod(h: nat, d: nat)
    requires d > 0
    ensures h / (2 * d) == (h / 2) / d && h % (2 * d) == 2 * ((h / 2) % d) + h % 2
  {
    var q := (h / 2) / d;
    var r := (h / 2) % d;
    assert h / 2 == d * q + r;
    assert h == (2 * d) * q + (2 * r + h % 2) by { assert (2 * d) * q == 2 * (d * q); }
    ModUnique(h, 2 * d, q, 2 * r + h % 2);
  }

  /** `hash & (cap - 1)` is the remainder by cap. */
  lemma {:induction false} AndMask(h: nat, c: nat)
    requires PowerOfTwo(c)
    ensures And(h, c - 1) == h % c
  {
    if c > 1 {
      var d := c / 2;
      AndMask(h / 2, d);
      HalveMod(h, d);
      assert (c - 1) / 2 == d - 1 && (c - 1) % 2 == 1;
      assert d - 1 == 0 ==> And(h / 2, d - 1) == 0;
      if h == 0 { assert 0 % c == 0; }
    }
  }

  /** The split mask is the one bit that a doubled capacity adds. */
  lemma {:induction false} SplitMask(c: nat)
    requires PowerOfTwo(c)
    ensures Xor(2 * c - 1, c - 1) == c
  {
    if c > 1 {
      var d := c / 2;
      SplitMask(d);
      assert (2 * c - 1) / 2 == 2 * d - 1 && (c - 1) / 2 == d - 1;
    }
  }

  lemma {:induction false} AndBit(h: nat, c: nat)
    requires PowerOfTwo(c)
    ensures And(h, c) != 0 <==> (h / c) % 2 == 1
  {
    if c > 1 {
      AndBit(h / 2, c / 2);
      HalveMod(h, c / 2);
    } else {
      assert And(h, 1) == if h == 0 then 0 else 2 * And(h / 2, 0) + (if h % 2 == 1 then 1 else 0);
    }
  }

  /** Doubling the capacity keeps an element in its bin, or moves it by the old
      capacity, according to the bit under the split mask. */
  lemma DoubleMod(h: nat, c: nat)
    requires c > 0
    ensures h % (2 * c) == h % c + (if (h / c) % 2 == 1 then c else 0)
  {
    var q := h / c;
    Regrouped(c, q / 2, q % 2);
    ModUnique(h, 2 * c, q / 2, h % c + (if q % 2 == 1 then c else 0));
  }

  lemma Regrouped(c: nat, k: nat, b: nat)
    requires b <= 1
    ensures c * (2 * k + b) == (2 * c) * k + (if b == 1 then c else 0)
  {
  }

  predicate SplitBit(h: nat, c: nat)
    requires c > 0
  {
    And(h, Xor(2 * c - 1, c - 1)) != 0
  }

  function BinOf(h: nat, c: nat): nat
    requires c > 0
  {
    And(h, c - 1)
  }

  /** The two facts the containers rely on. */
  lemma BinAfterDoubling(h: nat, c: nat)
    requires PowerOfTwo(c)
    ensures BinOf(h, c) < c
    ensures PowerOfTwo(2 * c) && BinOf(h, 2 * c) == BinOf(h, c) + (if SplitBit(h, c) then c else 0)
  {
    assert (2 * c) / 2 == c;
    AndMask(h, c);
    AndMask(h, 2 * c);
    SplitMask(c);
    AndBit(h, c);
    DoubleMod(h, c);
  }
}
