/** The 78-bit NAND ECC encoder: unrolled byte stages, packing, and the ten check bytes. */
module NandEcc {
  import opened Gf2
  import opened Words
  import opened Lfsr

  const GEN_POLY_6B: Poly :=
    [true, false, true, true, true, true, true, false, true, false] +
    [false, false, true, true, false, true, true, false, false, true] +
    [true, true, false, true, false, false, true, true, true, false] +
    [true, true, false, false, false, false, true, true, true, true] +
    [false, false, true, false, false, true, true, true, false, false] +
    [false, false, true, true, false, false, true, false, false, true] +
    [false, false, true, true, false, false, true, true, true, true] +
    [false, false, true, true, true, true, true, true, true]

  lemma GenPolyIsGenerator()
    ensures |GEN_POLY_6B| == 79 && Generator(GEN_POLY_6B)
  {}

  /** The bits of a byte string in transmission order, top bit of each byte first. */
  function Bits(bytes: seq<byte>): (bits: seq<bool>)
    ensures |bits| == 8 * |bytes|
  {
    seq(8 * |bytes|, i requires 0 <= i < 8 * |bytes| => ToBit(bytes[i / 8], 7 - i % 8))
  }

  lemma BitsAppend(bytes: seq<byte>, k: nat)
    requires k < |bytes|
    ensures Bits(bytes[..k + 1]) == Bits(bytes[..k]) + Bits([bytes[k]])
  {}

  /** The register after the 518 protected bytes of a unit: 512 data and 6 tag bytes. */
  function UnitRegister(g: Poly, unit: seq<byte>): (r: Poly)
    requires |g| == 79 && |unit| >= 518
    ensures |r| == 78
  {
    Feed(g, Zeros(78), Bits(unit[..518]))
  }

  /** Bit k of check byte i as read off the register. */
  predicate EccBit(r: Poly, i: nat, k: nat)
    requires |r| == 78 && i < 10 && k < 8
  {
    if i < 9 then r[k + (8 - i) * 8 + 6] else k >= 2 && r[k - 2]
  }

  /** The ten check bytes of a 528-byte unit are the register of its first 518 bytes. */
  ghost predicate Sealed(g: Poly, unit: seq<byte>)
    requires |g| == 79 && |unit| == 528
  {
    forall i: nat, k: nat | i < 10 && k < 8 :: SealedBit(g, unit, i, k)
  }

  ghost predicate SealedBit(g: Poly, unit: seq<byte>, i: nat, k: nat)
    requires |g| == 79 && |unit| == 528 && i < 10 && k < 8
  {
    ToBit(unit[518 + i], k) == EccBit(UnitRegister(g, unit), i, k)
  }

  /** The register after the first k bits. */
  ghost function After(g: Poly, r: Poly, bits: seq<bool>, k: nat): (s: Poly)
    requires Fits(g, r) && k <= |bits|
    ensures |s| == |r|
  {
    if k == 0 then r else Step(g, After(g, r, bits, k - 1), bits[k - 1])
  }

  lemma {:induction false} AfterIsFeed(g: Poly, r: Poly, bits: seq<bool>, k: nat)
    requires Fits(g, r) && k <= |bits|
    ensures After(g, r, bits, k) == Feed(g, r, bits[..k])
  {
    if k > 0 {
      AfterIsFeed(g, r, bits, k - 1);
      assert bits[..k][..k - 1] == bits[..k - 1];
    } else {
      assert bits[..0] == [];
    }
  }

  /** r is the register after bits 7..k of a byte have been clocked into start. */
  ghost predicate Clocked(g: Poly, start: Poly, bits: seq<bool>, k: nat, r: Poly) {
    Fits(g, start) && |bits| == 8 && k <= 8 && r == After(g, start, bits, 8 - k)
  }

  lemma FullyClocked(g: Poly, start: Poly, bits: seq<bool>, r: Poly)
    requires Clocked(g, start, bits, 0, r)
    ensures r == Feed(g, start, bits)
  {
    AfterIsFeed(g, start, bits, 8);
    assert bits[..8] == bits;
  }

  lemma FeedByte(g: Poly, data: seq<byte>, i: nat)
    requires |g| == 79 && i < |data|
    ensures Feed(g, Zeros(78), Bits(data[..i + 1])) == Feed(g, Feed(g, Zeros(78), Bits(data[..i])), Bits([data[i]]))
  {
    BitsAppend(data, i);
    FeedConcat(g, Zeros(78), Bits(data[..i]), Bits([data[i]]));
  }

  lemma CheckBitAt(unit: seq<byte>, r: Poly, t: nat)
    requires |unit| == 528 && |r| == 78 && t < 80
    ensures Bits(unit)[4144 + t] == ToBit(unit[518 + t / 8], 7 - t % 8)
    ensures EccBit(r, t / 8, 7 - t % 8) == (t < 78 && Flush(r)[t])
  {
    assert (4144 + t) / 8 == 518 + t / 8 && (4144 + t) % 8 == t % 8;
  }

  /** The 518 protected bytes and the 78 check bits, as sent. */
  function Codeword(unit: seq<byte>): (bits: seq<bool>)
    requires |unit| == 528
  {
    Bits(unit)[..4222]
  }

  ghost predicate Flushed(g: Poly, unit: seq<byte>)
    requires |g| == 79 && |unit| == 528
  {
    Bits(unit)[4144..4222] == Flush(UnitRegister(g, unit)) && !Bits(unit)[4222] && !Bits(unit)[4223]
  }

  lemma SealedIsFlushed(g: Poly, unit: seq<byte>)
    requires |g| == 79 && |unit| == 528 && Sealed(g, unit)
    ensures Flushed(g, unit)
  {
    var r := UnitRegister(g, unit);
    forall t: nat | t < 80 ensures Bits(unit)[4144 + t] == (t < 78 && Flush(r)[t]) {
      CheckBitAt(unit, r, t);
      assert SealedBit(g, unit, t / 8, 7 - t % 8);
    }
    CheckBitAt(unit, r, 78);
    CheckBitAt(unit, r, 79);
    assert SealedBit(g, unit, 9, 1) && SealedBit(g, unit, 9, 0);
  }

  lemma FlushedIsSealed(g: Poly, unit: seq<byte>)
    requires |g| == 79 && |unit| == 528 && Flushed(g, unit)
    ensures Sealed(g, unit)
  {
    var r := UnitRegister(g, unit);
    forall i: nat, k: nat | i < 10 && k < 8 ensures SealedBit(g, unit, i, k) {
      var t := 8 * i + 7 - k;
      assert t / 8 == i && t % 8 == 7 - k;
      CheckBitAt(unit, r, t);
      if t < 78 { assert Bits(unit)[4144..4222][t] == Bits(unit)[4144 + t]; }
    }
  }

  /** A unit carries the encoder's check bytes exactly when it is a codeword padded by two zero bits. */
  lemma SealedIffCodeword(g: Poly, unit: seq<byte>)
    requires |g| == 79 && Generator(g) && |unit| == 528
    ensures Sealed(g, unit) <==>
            Divides(g, Message(Codeword(unit))) && !ToBit(unit[527], 1) && !ToBit(unit[527], 0)
  {
    var r := UnitRegister(g, unit);
    var check := Bits(unit)[4144..4222];
    assert Codeword(unit) == Bits(unit[..518]) + check;
    FeedConcat(g, Zeros(78), Bits(unit[..518]), check);
    OnlyFlushClears(g, r, check);
    ZeroRegisterIffDivisible(g, Codeword(unit));
    if Sealed(g, unit) { SealedIsFlushed(g, unit); }
    CheckBitAt(unit, r, 78);
    CheckBitAt(unit, r, 79);
    if Flushed(g, unit) { FlushedIsSealed(g, unit); }
  }

  /** No burst of at most 78 bits turns one sealed unit's codeword into another codeword. */
  lemma SealedBurstDetected(g: Poly, unit: seq<byte>, e: seq<bool>, at: nat)
    requires |g| == 79 && Generator(g) && |unit| == 528 && Sealed(g, unit)
    requires |e| == 4222 && Burst(e, at, 78)
    ensures !Divides(g, Message(Xor(Codeword(unit), e)))
  {
    SealedIffCodeword(g, unit);
    ZeroRegisterIffDivisible(g, Codeword(unit));
    BurstDetected(g, Codeword(unit), e, at);
    ZeroRegisterIffDivisible(g, Xor(Codeword(unit), e));
  }

  lemma StepFromZero(g: Poly, n: nat)
    requires n > 0 && |g| == n + 1
    ensures Step(g, Zeros(n), true) == g[..n]
  {
    forall i | 0 <= i < n ensures Step(g, Zeros(n), true)[i] == g[i] {}
  }

  lemma FeedLast(g: Poly, r: Poly, bits: seq<bool>, b: bool)
    requires Fits(g, r)
    ensures Feed(g, r, bits + [b]) == Step(g, Feed(g, r, bits), b)
  {
    assert (bits + [b])[..|bits|] == bits;
  }

  lemma OneAtEnd(g: Poly, k: nat, n: nat)
    requires n > 0 && |g| == n + 1
    ensures Feed(g, Zeros(n), Zeros(k) + [true]) == g[..n]
  {
    FeedLast(g, Zeros(n), Zeros(k), true);
    IdleZero(g, k, n);
    StepFromZero(g, n);
  }

  /** 517 zero bytes and a one. */
  predicate LastBitOnly(unit: seq<byte>) {
    |unit| == 528 && (forall i | 0 <= i < 517 :: unit[i] == 0) && unit[517] == 1
  }

  lemma LastBitRegister(g: Poly, unit: seq<byte>, k: nat)
    requires |g| == 79 && LastBitOnly(unit) && k == 4143
    ensures UnitRegister(g, unit) == g[..78]
  {
    var bits := Bits(unit[..518]);
    forall i: nat | i < 4144 ensures bits[i] == (i == k) {
      LastBitAt(unit, i);
    }
    assert bits == Zeros(k) + [true];
    OneAtEnd(g, k, 78);
  }

  lemma LastBitAt(unit: seq<byte>, i: nat)
    requires LastBitOnly(unit) && i < 4144
    ensures ToBit(unit[i / 8], 7 - i % 8) == (i == 4143)
  {
    ZeroBits(7 - i % 8);
    if i / 8 == 517 && i % 8 < 7 { ZeroBits(6 - i % 8); }
  }

  predicate CheckRow(r: Poly, i: nat, v: byte)
    requires |r| == 78 && i < 10
  {
    && ToBit(v, 0) == EccBit(r, i, 0) && ToBit(v, 1) == EccBit(r, i, 1)
    && ToBit(v, 2) == EccBit(r, i, 2) && ToBit(v, 3) == EccBit(r, i, 3)
    && ToBit(v, 4) == EccBit(r, i, 4) && ToBit(v, 5) == EccBit(r, i, 5)
    && ToBit(v, 6) == EccBit(r, i, 6) && ToBit(v, 7) == EccBit(r, i, 7)
  }

  lemma CheckRowAt(r: Poly, i: nat, v: byte, k: nat)
    requires |r| == 78 && i < 10 && k < 8 && CheckRow(r, i, v)
    ensures ToBit(v, k) == EccBit(r, i, k)
  {}

  /** A unit is sealed exactly when its last bytes are those read off the register. */
  lemma SealedBy(g: Poly, unit: seq<byte>, r: Poly, check: seq<byte>)
    requires |g| == 79 && |unit| == 528 && r == UnitRegister(g, unit)
    requires |check| == 10 && forall i: nat | i < 10 :: CheckRow(r, i, check[i])
    ensures Sealed(g, unit) <==> unit[518..] == check
  {
    if Sealed(g, unit) {
      forall i: nat | i < 10 ensures unit[518 + i] == check[i] {
        forall k: nat | k < 8 ensures ToBit(unit[518 + i], k) == ToBit(check[i], k) {
          assert SealedBit(g, unit, i, k);
          CheckRowAt(r, i, check[i], k);
        }
        assert Pow2(8) == 256;
        SameBits(unit[518 + i], check[i], 8);
      }
    }
    if unit[518..] == check {
      forall i: nat, k: nat | i < 10 && k < 8 ensures SealedBit(g, unit, i, k) {
        CheckRowAt(r, i, check[i], k);
        assert unit[518..][i] == unit[518 + i];
      }
    }
  }

  lemma CheckRow0(r: Poly)
    requires r == GEN_POLY_6B[..78]
    ensures CheckRow(r, 0, 0xfc)
  {}

  lemma CheckRows1To2(r: Poly)
    requires r == GEN_POLY_6B[..78]
    ensures CheckRow(r, 1, 0xf3)
    ensures CheckRow(r, 2, 0x24)
  {}

  lemma CheckRows3To4(r: Poly)
    requires r == GEN_POLY_6B[..78]
    ensures CheckRow(r, 3, 0xc3)
    ensures CheckRow(r, 4, 0x93)
  {}

  lemma CheckRows5To6(r: Poly)
    requires r == GEN_POLY_6B[..78]
    ensures CheckRow(r, 5, 0xc3)
    ensures CheckRow(r, 6, 0x72)
  {}

  lemma CheckRows7To8(r: Poly)
    requires r == GEN_POLY_6B[..78]
    ensures CheckRow(r, 7, 0xe6)
    ensures CheckRow(r, 8, 0xc5)
  {}

  lemma CheckRow9(r: Poly)
    requires r == GEN_POLY_6B[..78]
    ensures CheckRow(r, 9, 0xf4)
  {}

  /** The check bytes of that unit: the table, the order of the bits and that of the bytes in one example. */
  lemma KnownCheckBytes(unit: seq<byte>)
    requires LastBitOnly(unit)
    ensures Sealed(GEN_POLY_6B, unit) <==>
            unit[518..] == [0xfc, 0xf3, 0x24, 0xc3, 0x93, 0xc3, 0x72, 0xe6, 0xc5, 0xf4]
  {
    var r := GEN_POLY_6B[..78];
    LastBitRegister(GEN_POLY_6B, unit, 4143);
    CheckRow0(r);
    CheckRows1To2(r);
    CheckRows3To4(r);
    CheckRows5To6(r);
    CheckRows7To8(r);
    CheckRow9(r);
    SealedBy(GEN_POLY_6B, unit, r, [0xfc, 0xf3, 0x24, 0xc3, 0x93, 0xc3, 0x72, 0xe6, 0xc5, 0xf4]);
  }

  class Encoder {
    /** The table the stages multiply by; GEN_POLY_6B in the sources. */
    const gen: Poly
    const R7: array<bool>
    const R6: array<bool>
    const R5: array<bool>
    const R4: array<bool>
    const R3: array<bool>
    const R2: array<bool>
    const R1: array<bool>
    const R0: array<bool>
    const R: array<bool>
    const synd: array<nat>

    ghost predicate Valid() {
      && |gen| == 79 && Generator(gen)
      && synd.Length == 6 && R.Length == 78
      && R7.Length == R6.Length == R5.Length == R4.Length == 78
      && R3.Length == R2.Length == R1.Length == R0.Length == 78
      && R != R7 && R7 != R6 && R6 != R5 && R5 != R4 && R4 != R3 && R3 != R2 && R2 != R1 && R1 != R0
    }

    ghost function Arrays(): set<object> { {R7, R6, R5, R4, R3, R2, R1, R0, R, synd} }

    constructor ()
      ensures Valid() && fresh(Arrays()) && gen == GEN_POLY_6B
    {
      gen := GEN_POLY_6B;
      R7, R6, R5, R4 := new bool[78], new bool[78], new bool[78], new bool[78];
      R3, R2, R1, R0 := new bool[78], new bool[78], new bool[78], new bool[78];
      R, synd := new bool[78], new nat[6];
      new;
      GenPolyIsGenerator();
    }

    /** One of the eight unrolled loops: clock the register once with bit k of the input. */
    method Stage(input: byte, k: nat, src: array<bool>, dst: array<bool>, ghost start: Poly)
      requires Valid() && k < 8 && src.Length == dst.Length == 78 && src != dst
      requires Clocked(gen, start, Bits([input]), k + 1, src[..])
      modifies dst
      ensures Clocked(gen, start, Bits([input]), k, dst[..])
    {
      ghost var next := Step(gen, src[..], ToBit(input, k));
      for i := 0 to 78
        invariant forall j | 0 <= j < i :: dst[j] == next[j]
      {
        if i == 0 {
          dst[0] := false != (gen[0] && ToBit(input, k) != src[77]);
        } else {
          dst[i] := src[i - 1] != (gen[i] && ToBit(input, k) != src[77]);
        }
      }
      assert dst[..] == next;
      assert Bits([input])[7 - k] == ToBit(input, k);
    }

    /** Eight unrolled stages, then the register goes through six 13-bit words and back. */
    method EncodeEccByte(input: byte)
      requires Valid()
      modifies Arrays()
      ensures R[..] == Feed(gen, old(R[..]), Bits([input]))
    {
      ghost var start := R[..];
      ClockHighBits(input, start);
      ClockLowBits(input, start);
      FullyClocked(gen, start, Bits([input]), R0[..]);
      PackSyndromes();
      UnpackSyndromes(R0[..]);
    }

    method ClockHighBits(input: byte, ghost start: Poly)
      requires Valid() && Clocked(gen, start, Bits([input]), 8, R[..])
      modifies R7, R6, R5, R4
      ensures Clocked(gen, start, Bits([input]), 4, R4[..])
    {
      Stage(input, 7, R, R7, start);
      Stage(input, 6, R7, R6, start);
      Stage(input, 5, R6, R5, start);
      Stage(input, 4, R5, R4, start);
    }

    method ClockLowBits(input: byte, ghost start: Poly)
      requires Valid() && Clocked(gen, start, Bits([input]), 4, R4[..])
      modifies R3, R2, R1, R0
      ensures Clocked(gen, start, Bits([input]), 0, R0[..])
    {
      Stage(input, 3, R4, R3, start);
      Stage(input, 2, R3, R2, start);
      Stage(input, 1, R2, R1, start);
      Stage(input, 0, R1, R0, start);
    }

    method PackSyndromes()
      requires Valid()
      modifies synd
      ensures forall i, k | 0 <= i < 6 && 0 <= k < 13 :: ToBit(synd[i], k) == R0[k + i * 13]
    {
      forall i | 0 <= i < 6 { synd[i] := 0; }
      forall k | 0 <= k < 13 ensures !ToBit(0, k) { ZeroBits(k); }
      for i := 0 to 6
        invariant forall m, k | i <= m < 6 && 0 <= k < 13 :: !ToBit(synd[m], k)
        invariant forall m, k | 0 <= m < i && 0 <= k < 13 :: ToBit(synd[m], k) == R0[k + m * 13]
      {
        for j := 13 downto 0
          invariant forall m, k | i < m < 6 && 0 <= k < 13 :: !ToBit(synd[m], k)
          invariant forall m, k | 0 <= m < i && 0 <= k < 13 :: ToBit(synd[m], k) == R0[k + m * 13]
          invariant forall k | 0 <= k < 13 :: ToBit(synd[i], k) == (k >= j && R0[k + i * 13])
        {
          ghost var was := synd[i];
          synd[i] := OrBit(synd[i], R0[j + i * 13], j);
          forall k | 0 <= k < 13
            ensures ToBit(synd[i], k) == (ToBit(was, k) || (j == k && R0[j + i * 13]))
          {
            OrBitSets(was, R0[j + i * 13], j, k);
          }
        }
      }
    }

    method UnpackSyndromes(ghost packed: Poly)
      requires Valid() && |packed| == 78
      requires forall i, k | 0 <= i < 6 && 0 <= k < 13 :: ToBit(synd[i], k) == packed[k + i * 13]
      modifies R
      ensures R[..] == packed
    {
      for i := 0 to 6
        invariant forall t | 0 <= t < i * 13 :: R[t] == packed[t]
      {
        for j := 0 to 13
          invariant forall t | 0 <= t < i * 13 + j :: R[t] == packed[t]
        {
          R[i * 13 + j] := ToBit(synd[i], j);
        }
      }
    }

    /** v is old with check byte i OR-ed in, from bit j up. */
    ghost predicate Ored(v: byte, old_: byte, r: Poly, i: nat, j: nat)
      requires |r| == 78 && i < 10
    {
      forall k: nat | k < 8 :: ToBit(v, k) == (ToBit(old_, k) || (k >= j && EccBit(r, i, k)))
    }

    /** The ten check bytes are OR-ed into whatever the caller left in them. */
    method Gen10BytesEcc(buf: array<byte>)
      requires Valid() && buf.Length == 528 && buf as object !in Arrays()
      modifies Arrays(), buf
      ensures buf[..518] == old(buf[..518])
      ensures forall m | 518 <= m < 528 :: Ored(buf[m], old(buf[m]), UnitRegister(gen, old(buf[..])), m - 518, 0)
    {
      ghost var was := buf[..];
      RunRegister(buf);
      ghost var r := R[..];
      for i := 0 to 9
        invariant R[..] == r
        invariant forall m | 0 <= m < 518 || 518 + i <= m < 528 :: buf[m] == was[m]
        invariant forall m | 518 <= m < 518 + i :: Ored(buf[m], was[m], r, m - 518, 0)
      {
        StoreCheckByte(buf, i);
      }
      StoreLastCheckByte(buf);
    }

    /** On a unit whose check bytes start out clear the result is sealed. */
    method SealUnit(buf: array<byte>)
      requires Valid() && buf.Length == 528 && buf as object !in Arrays()
      requires forall m | 518 <= m < 528 :: buf[m] == 0
      modifies Arrays(), buf
      ensures buf[..518] == old(buf[..518]) && Sealed(gen, buf[..])
    {
      Gen10BytesEcc(buf);
      assert UnitRegister(gen, buf[..]) == UnitRegister(gen, old(buf[..])) by {
        assert buf[..][..518] == old(buf[..])[..518];
      }
      forall i: nat, k: nat | i < 10 && k < 8
        ensures SealedBit(gen, buf[..], i, k)
      {
        ZeroBits(k);
        assert Ored(buf[518 + i], old(buf[518 + i]), UnitRegister(gen, old(buf[..])), i, 0);
      }
    }

    method RunRegister(buf: array<byte>)
      requires Valid() && buf.Length == 528 && buf as object !in Arrays()
      modifies Arrays()
      ensures R[..] == UnitRegister(gen, buf[..])
    {
      ghost var data := buf[..518];
      forall i | 0 <= i < 78 { R[i] := false; }
      assert R[..] == Zeros(78) == Feed(gen, Zeros(78), Bits(data[..0]));
      for i := 0 to 518
        invariant data == buf[..518]
        invariant R[..] == Feed(gen, Zeros(78), Bits(data[..i]))
      {
        EncodeEccByte(buf[i]);
        FeedByte(gen, data, i);
        assert buf[i] == data[i];
      }
      assert data[..518] == data == buf[..][..518];
    }

    method StoreCheckByte(buf: array<byte>, i: nat)
      requires R.Length == 78 && buf.Length == 528 && i < 9
      modifies buf
      ensures forall m | 0 <= m < 528 && m != 518 + i :: buf[m] == old(buf[m])
      ensures Ored(buf[518 + i], old(buf[518 + i]), R[..], i, 0)
    {
      for j := 8 downto 0
        invariant forall m | 0 <= m < 528 && m != 518 + i :: buf[m] == old(buf[m])
        invariant Ored(buf[518 + i], old(buf[518 + i]), R[..], i, j)
      {
        OrIntoByte(buf, 518 + i, R[j + ((8 - i) * 8 + 6)], j);
      }
    }

    method StoreLastCheckByte(buf: array<byte>)
      requires R.Length == 78 && buf.Length == 528
      modifies buf
      ensures forall m | 0 <= m < 527 :: buf[m] == old(buf[m])
      ensures Ored(buf[527], old(buf[527]), R[..], 9, 0)
    {
      for j := 6 downto 0
        invariant forall m | 0 <= m < 527 :: buf[m] == old(buf[m])
        invariant Ored(buf[527], old(buf[527]), R[..], 9, j + 2)
      {
        OrIntoByte(buf, 527, R[j], j + 2);
      }
    }

    static method OrIntoByte(buf: array<byte>, at: nat, b: bool, j: nat)
      requires at < buf.Length && j < 8
      modifies buf
      ensures forall m | 0 <= m < buf.Length && m != at :: buf[m] == old(buf[m])
      ensures forall k: nat | k < 8 :: ToBit(buf[at], k) == (ToBit(old(buf[at]), k) || (k == j && b))
    {
      ghost var was := buf[at];
      assert Pow2(8) == 256;
      OrBitFits(was, b, j, 8);
      buf[at] := OrBit(buf[at], b, j);
      forall k: nat | k < 8 ensures ToBit(buf[at], k) == (ToBit(was, k) || (k == j && b)) {
        OrBitSets(was, b, j, k);
      }
    }
  }
}
