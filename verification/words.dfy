/**
 * Machine words as bounded naturals, with the bit operations the sources apply to them. Sums and
 * differences of 32 and 64 bits wrap by a case distinction rather than by a remainder, which is the
 * same and easier to reason about; single bits are read and set by halving.
 */
module Words {
  type byte = x: int | 0 <= x < 0x100
  const U32: int := 0x1_0000_0000
  const U64: int := 0x1_0000_0000_0000_0000

  type u64 = x: nat | x < 0x1_0000_0000_0000_0000

  /** Unsigned addition and subtraction, with their wrap-around. */
  function Add64(a: u64, b: u64): u64 {
    if a + b < U64 then a + b else a + b - U64
  }

  function Sub64(a: u64, b: u64): u64 {
    if a >= b then a - b else a + U64 - b
  }

  function Add32(a: nat, b: nat): nat
    requires a < U32 && b < U32
  {
    if a + b < U32 then a + b else a + b - U32
  }

  function Sub32(a: nat, b: nat): nat
    requires a < U32 && b < U32
  {
    if a >= b then a - b else a + U32 - b
  }

  /** An assignment to a 32-bit field. */
  function Low32(x: nat): nat {
    if x < U32 then x else x % U32
  }

  function Pow2(k: nat): (p: nat)
    ensures p >= 1
  {
    if k == 0 then 1 else 2 * Pow2(k - 1)
  }

  /** (v >> k) & 1 */
  predicate ToBit(v: nat, k: nat) {
    if k == 0 then v % 2 == 1 else ToBit(v / 2, k - 1)
  }

  /** v | (b << k) */
  function OrBit(v: nat, b: bool, k: nat): nat {
    if k > 0 then 2 * OrBit(v / 2, b, k - 1) + v % 2
    else if b && v % 2 == 0 then v + 1
    else v
  }

  lemma {:induction false} OrBitSets(v: nat, b: bool, j: nat, k: nat)
    ensures ToBit(OrBit(v, b, j), k) == (ToBit(v, k) || (j == k && b))
  {
    var w := OrBit(v, b, j);
    if j > 0 && k > 0 {
      assert w / 2 == OrBit(v / 2, b, j - 1);
      OrBitSets(v / 2, b, j - 1, k - 1);
    }
    if j == 0 { assert w / 2 == v / 2; }
  }

  lemma {:induction false} OrBitFits(v: nat, b: bool, j: nat, width: nat)
    requires j < width && v < Pow2(width)
    ensures OrBit(v, b, j) < Pow2(width)
  {
    var half := Pow2(width - 1);
    assert Pow2(width) == 2 * half;
    if j == 0 {
      assert v % 2 == 0 ==> v + 1 < 2 * half;
    } else {
      OrBitFits(v / 2, b, j - 1, width - 1);
      var w := OrBit(v / 2, b, j - 1);
      assert w < half && OrBit(v, b, j) == 2 * w + v % 2;
    }
  }

  lemma {:induction false} ZeroBits(k: nat)
    ensures !ToBit(0, k)
  {
    if k > 0 { ZeroBits(k - 1); }
  }

  /** A number of n bits is determined by them. */
  lemma {:induction false} SameBits(x: nat, y: nat, n: nat)
    requires x < Pow2(n) && y < Pow2(n) && forall k: nat | k < n :: ToBit(x, k) == ToBit(y, k)
    ensures x == y
  {
    if n > 0 {
      forall k: nat | k < n - 1 ensures ToBit(x / 2, k) == ToBit(y / 2, k) {
        assert ToBit(x, k + 1) == ToBit(y, k + 1);
      }
      assert ToBit(x, 0) == ToBit(y, 0);
      SameBits(x / 2, y / 2, n - 1);
    }
  }

  /** Four bytes as a little-endian word, and back. */
  function Le32(s: seq<byte>): (v: nat)
    requires |s| == 4
    ensures v < U32
  {
    (s[0] as int) + 0x100 * (s[1] as int) + 0x1_0000 * (s[2] as int) + 0x100_0000 * (s[3] as int)
  }

  function ToLe32(v: nat): (s: seq<byte>)
    requires v < U32
    ensures |s| == 4 && Le32(s) == v
  {
    var (b, c, d) := (v / 0x100, v / 0x100 / 0x100, v / 0x100 / 0x100 / 0x100);
    [v % 0x100, b % 0x100, c % 0x100, d]
  }
}
