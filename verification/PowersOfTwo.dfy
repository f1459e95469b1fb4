/** Powers of two and alignment: VG_(log2) (m_libcbase.c) and align_upwards (m_mallocfree.c). */
module PowersOfTwo {

  function Pow2(i: nat): (p: nat)
    ensures p >= 1
  {
    if i == 0 then 1 else 2 * Pow2(i - 1)
  }

  /** A power of two that fits a 32-bit word. */
  ghost predicate IsPowerOf2(x: nat) { exists i: nat :: i < 32 && Pow2(i) == x }

  /** VG_(log2): the exponent, or -1 if `x` is not one of the 32 powers of two. */
  method Log2(x: nat) returns (r: int)
    ensures -1 <= r < 32
    ensures r >= 0 ==> Pow2(r) == x
    ensures r == -1 <==> !IsPowerOf2(x)
  {
    for i := 0 to 32
      invariant forall k: nat :: k < i ==> Pow2(k) != x
    {
      if Pow2(i) == x {
        return i;
      }
    }
    return -1;
  }

  lemma {:induction false} Pow2Monotone(i: nat, j: nat)
    requires i <= j
    ensures Pow2(i) <= Pow2(j)
    decreases j
  {
    if i < j { Pow2Monotone(i, j - 1); }
  }

  /** A power of two that is at least 8 is a multiple of 8. */
  lemma {:induction false} MultipleOf8(i: nat)
    requires Pow2(i) >= 8
    ensures i >= 3 && Pow2(i) == 8 * Pow2(i - 3) && Pow2(i) % 8 == 0
  {
    assert Pow2(2) == 4;
    if i < 3 { Pow2Monotone(i, 2); }
    assert Pow2(i) == 2 * Pow2(i - 1) && Pow2(i - 1) == 2 * Pow2(i - 2) && Pow2(i - 2) == 2 * Pow2(i - 3);
  }

  /** align_upwards. */
  function AlignUpwards(a: nat, align: nat): (r: nat)
    requires align > 0
  {
    if a % align == 0 then a else a - a % align + align
  }

  /** The next multiple of `align`, less than `align` away; it is a multiple of 8 if `align` is. */
  lemma AlignUpwardsExact(a: nat, align: nat)
    requires align > 0
    ensures var r := AlignUpwards(a, align);
            r % align == 0 && a <= r < a + align && (align % 8 == 0 ==> r % 8 == 0)
  {
    var q, m := a / align, a % align;
    assert a == align * q + m;
    var k := if m == 0 then q else q + 1;
    assert AlignUpwards(a, align) == align * k by {
      assert align * (q + 1) == align * q + align;
    }
    MultipleMod(align, k);
    if align % 8 == 0 {
      var n := align / 8;
      assert align * k == 8 * (n * k) by {
        assert align == 8 * n;
      }
      MultipleMod(8, n * k);
    }
  }

  lemma MultipleMod(d: nat, k: nat)
    requires d > 0
    ensures (d * k) % d == 0
  {
    var q, m := (d * k) / d, (d * k) % d;
    assert d * k == d * q + m;
    assert d * (k - q) == m;
    MultipleBound(d, k - q);
  }

  lemma MultipleBound(d: nat, e: int)
    requires d > 0
    ensures e >= 1 ==> d * e >= d
    ensures e <= -1 ==> d * e + d <= 0
  {
  }
}
