/**
 * The alignment helpers of include/rtk_fwdesc.h, with their masks and their 64-bit wrap: masking with
 * the complement of a power of two less one is rounding down, and rounding up is that of the length
 * less one, a block further, which for length 0 wraps twice and for the last block once.
 */
module Align {
  import opened Words

  /** x & y */
  function BitAnd(x: nat, y: nat): nat {
    if x == 0 then 0 else 2 * BitAnd(x / 2, y / 2) + (x % 2) * (y % 2)
  }

  /** ~x on 64 bits */
  function Not64(x: nat): nat
    requires x < U64
  {
    U64 - 1 - x
  }

  /** SIZE_ALIGN_BOUNDARY_LESS: len & ~(size - 1) */
  function AlignLess(len: nat, size: nat): nat
    requires 0 < size <= U64
  {
    BitAnd(len, Not64(size - 1))
  }

  /** SIZE_ALIGN_BOUNDARY_MORE: ((len - 1) & ~(size - 1)) + size, where len - 1 may wrap */
  function AlignMore(len: nat, size: nat): u64
    requires 0 < size <= U64
  {
    (BitAnd((len - 1) % U64, Not64(size - 1)) + size) % U64
  }

  lemma HalveMod(x: nat, m: nat)
    requires m > 0
    ensures x % (2 * m) == 2 * ((x / 2) % m) + x % 2
  {
    var q, r := (x / 2) / m, (x / 2) % m;
    assert x == 2 * m * q + (2 * r + x % 2) by {
      assert x / 2 == m * q + r;
    }
    assert 0 <= 2 * r + x % 2 < 2 * m;
    ModUnique(x, 2 * m, q, 2 * r + x % 2);
  }

  lemma ModUnique(x: nat, m: nat, q: nat, r: nat)
    requires m > 0 && r < m && x == m * q + r
    ensures x % m == r && x / m == q
  {
    var d := x / m - q;
    assert m * d == r - x % m;
    MulSign(m, d);
  }

  lemma MulSign(m: int, d: int)
    requires m >= 0
    ensures d >= 1 ==> m * d >= m
    ensures d <= -1 ==> m * d <= -m
  {}

  /** Masking off the low k of w bits rounds down to a multiple of 2^k. */
  lemma {:induction false} MaskRoundsDown(x: nat, k: nat, w: nat)
    requires k <= w && x < Pow2(w)
    ensures Pow2(k) <= Pow2(w) && BitAnd(x, Pow2(w) - Pow2(k)) == x - x % Pow2(k)
    decreases w
  {
    if w == 0 {
    } else if k == 0 {
      var y := Pow2(w) - 1;
      assert y / 2 == Pow2(w - 1) - 1 && y % 2 == 1;
      MaskRoundsDown(x / 2, 0, w - 1);
    } else {
      var y := Pow2(w) - Pow2(k);
      MaskRoundsDown(x / 2, k - 1, w - 1);
      assert y / 2 == Pow2(w - 1) - Pow2(k - 1) && y % 2 == 0;
      HalveMod(x, Pow2(k - 1));
    }
  }

  lemma {:induction false} PowAdd(a: nat, b: nat)
    ensures Pow2(a + b) == Pow2(a) * Pow2(b)
  {
    if a > 0 { PowAdd(a - 1, b); }
  }

  lemma Pow64() returns (w: nat)
    ensures w == 64 && Pow2(w) == U64
  {
    assert Pow2(8) == 0x100;
    var octet := 8;
    PowAdd(octet, octet);
    PowAdd(2 * octet, 2 * octet);
    PowAdd(4 * octet, 4 * octet);
    w := 8 * octet;
  }

  lemma AlignLessIsFloor(len: nat, k: nat)
    requires k <= 64 && len < U64
    ensures Pow2(k) <= U64 && AlignLess(len, Pow2(k)) == len - len % Pow2(k)
  {
    var w := Pow64();
    MaskRoundsDown(len, k, w);
    assert Not64(Pow2(k) - 1) == Pow2(w) - Pow2(k);
  }

  /** The first multiple of size above x. */
  function NextMultiple(x: nat, size: nat): nat
    requires size > 0
  {
    x - x % size + size
  }

  lemma RoundTop(m: nat, size: nat)
    requires size > 0 && m > 0 && m % size == 0
    ensures NextMultiple(m - 1, size) == m
  {
    assert m == size * (m / size);
    MulSign(size, m / size);
    ModUnique(m - 1, size, m / size - 1, size - 1);
  }

  lemma RoundUp(x: nat, size: nat)
    requires size > 0
    ensures x < NextMultiple(x, size) <= x + size && NextMultiple(x, size) % size == 0
  {
    var q := x / size;
    assert NextMultiple(x, size) == size * (q + 1);
    ModUnique(size * (q + 1), size, q + 1, 0);
  }

  lemma AlignMoreForm(len: nat, k: nat) returns (n: nat)
    requires k < 64 && Pow2(k) <= U64 && len <= U64 - Pow2(k)
    ensures AlignMore(len, Pow2(k)) == n % U64
    ensures if len == 0 then n == U64 else len <= n < len + Pow2(k) && n % Pow2(k) == 0
  {
    var x := if len == 0 then U64 - 1 else len - 1;
    assert x == (len - 1) % U64;
    AlignLessIsFloor(x, k);
    n := NextMultiple(x, Pow2(k));
    if len == 0 {
      TopMultiple(k);
    } else {
      RoundUp(x, Pow2(k));
    }
  }

  lemma TopMultiple(k: nat)
    requires k < 64
    ensures NextMultiple(U64 - 1, Pow2(k)) == U64
  {
    var w := Pow64();
    PowDivides(k, w);
    RoundTop(U64, Pow2(k));
  }

  lemma WrapCeiling(len: nat, size: nat, n: nat)
    requires size > 0 && len + size <= U64
    requires if len == 0 then n == U64 else len <= n < len + size && n % size == 0
    ensures len <= n % U64 < len + size && (n % U64) % size == 0
  {
    if len == 0 { ModUnique(0, size, 0, 0); }
  }

  /** The least multiple of a power of two that is at least len, when it fits 64 bits. */
  lemma AlignMoreIsCeiling(len: nat, k: nat)
    requires k < 64 && Pow2(k) <= U64 && len <= U64 - Pow2(k)
    ensures var r := AlignMore(len, Pow2(k)); len <= r < len + Pow2(k) && r % Pow2(k) == 0
  {
    var n := AlignMoreForm(len, k);
    WrapCeiling(len, Pow2(k), n);
  }

  /** Only an empty length takes no space. */
  lemma AlignMoreZeroIff(len: nat, k: nat)
    requires k < 64 && Pow2(k) <= U64 && len <= U64 - Pow2(k)
    ensures AlignMore(len, Pow2(k)) == 0 <==> len == 0
  {
    AlignMoreIsCeiling(len, k);
    if len == 0 { SmallMultiple(AlignMore(len, Pow2(k)), Pow2(k)); }
  }

  lemma SmallMultiple(r: nat, size: nat)
    requires r < size && r % size == 0
    ensures r == 0
  {}

  /** For which lengths the result is not below the length: the last block of the 64 bits wraps to zero. */
  lemma AlignMoreCoversIff(len: u64, k: nat)
    requires k < 64 && Pow2(k) <= U64
    ensures len <= AlignMore(len, Pow2(k)) <==> len <= U64 - Pow2(k)
    ensures len > U64 - Pow2(k) ==> AlignMore(len, Pow2(k)) == 0
  {
    if len <= U64 - Pow2(k) {
      AlignMoreIsCeiling(len, k);
    } else {
      LastBlockWraps(len, k);
    }
  }

  /** The least multiple not below the length, or zero for lengths in the last block of the 64 bits. */
  lemma AlignMoreExact(len: u64, k: nat)
    requires k < 64 && Pow2(k) <= U64
    ensures var r := AlignMore(len, Pow2(k));
            if len <= U64 - Pow2(k) then len <= r < len + Pow2(k) && r % Pow2(k) == 0 else r == 0
  {
    AlignMoreCoversIff(len, k);
    if len <= U64 - Pow2(k) { AlignMoreIsCeiling(len, k); }
  }

  /** Up to a multiple, the result is at most that multiple. */
  lemma AlignMoreWithin(len: nat, limit: nat, k: nat)
    requires k < 64 && Pow2(k) <= U64 && len <= U64 - Pow2(k) && len <= limit && limit % Pow2(k) == 0
    ensures AlignMore(len, Pow2(k)) <= limit
  {
    AlignMoreIsCeiling(len, k);
    RoundUpWithin(len, AlignMore(len, Pow2(k)), limit, Pow2(k));
  }

  lemma AlignMoreBounds(len: nat, k: nat)
    requires k < 64 && Pow2(k) <= U64 && len <= U64 - Pow2(k)
    ensures len <= AlignMore(len, Pow2(k)) < len + Pow2(k)
  {
    AlignMoreIsCeiling(len, k);
  }

  lemma LastBlockWraps(len: u64, k: nat)
    requires k < 64 && Pow2(k) <= U64 && len > U64 - Pow2(k)
    ensures AlignMore(len, Pow2(k)) == 0
  {
    AlignMoreFromLess(len, Pow2(k));
    LastBlockStart(len - 1, k);
  }

  lemma AlignMoreFromLess(len: u64, size: nat)
    requires 0 < size <= U64 && len > 0
    ensures AlignMore(len, size) == (AlignLess(len - 1, size) + size) % U64
  {
    assert (len - 1) % U64 == len - 1;
  }

  lemma LastBlockStart(x: nat, k: nat)
    requires k < 64 && Pow2(k) <= U64 && U64 - Pow2(k) <= x < U64
    ensures AlignLess(x, Pow2(k)) + Pow2(k) == U64
  {
    var w := Pow64();
    AlignLessIsFloor(x, k);
    PowDivides(k, w);
    TopBlock(x, Pow2(k), U64);
  }

  lemma TopBlock(x: nat, m: nat, top: nat)
    requires 0 < m && top % m == 0 && top - m <= x < top
    ensures x - x % m + m == top
  {
    var q := top / m - 1;
    assert x == m * q + (x - (top - m)) by { assert top == m * (top / m); }
    MulSign(m, top / m);
    TopQuotient(top, m);
    ModUnique(x, m, q, x - (top - m));
  }

  lemma TopQuotient(top: nat, m: nat)
    requires 0 < m <= top
    ensures top / m >= 1
  {}

  lemma {:induction false} PowDivides(k: nat, w: nat)
    requires k <= w
    ensures Pow2(w) % Pow2(k) == 0 && Pow2(w) >= Pow2(k)
  {
    if k < w {
      PowDivides(k, w - 1);
      var m, q := Pow2(k), Pow2(w - 1) / Pow2(k);
      assert Pow2(w) == m * (2 * q);
      ModUnique(Pow2(w), m, 2 * q, 0);
    }
  }

  /** Rounding up a number that is at most a multiple of size stays at most that multiple. */
  lemma RoundUpWithin(len: nat, up: nat, limit: nat, size: nat)
    requires size > 0 && len <= limit && limit % size == 0 && len <= up < len + size && up % size == 0
    ensures up <= limit
  {
    var d := up / size - limit / size;
    assert up - limit == size * d;
    MulSign(size, d);
  }
}
