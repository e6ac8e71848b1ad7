/** The NAND boot code: the reservation computed for it, and the four copies of its two parts. */
module BootCode {
  import opened Align
  import opened Words

  const UBOOT_SIZE := 0x8_0000
  const FACTORY_SIZE := 0x40_0000
  const COPIES := 4
  const HWSETTING_START_BLOCK := 6

  function Gross(eraseSize: nat): (r: nat)
    requires 0 < eraseSize < U32
    ensures r < U32
  {
    Add32(Low32(Low32(AlignMore(UBOOT_SIZE, eraseSize) * 4) + AlignMore(FACTORY_SIZE, eraseSize)), Low32(10 * eraseSize))
  }

  function FactoryStart(eraseSize: nat): (r: nat)
    requires 0 < eraseSize < U32
    ensures r < U32
  {
    Sub32(Low32(AlignMore(Gross(eraseSize) * 6 / 5, eraseSize)), FACTORY_SIZE)
  }

  /** Where the last copy ends when both parts are as large as they may be. */
  function WorstEnd(eraseSize: nat): nat
    requires 0 < eraseSize < U32
  {
    10 * eraseSize + 4 * AlignMore(UBOOT_SIZE, eraseSize)
  }

  lemma BigPowers()
    ensures Pow2(27) == 0x800_0000 && Pow2(28) == 0x1000_0000 && Pow2(29) == 0x2000_0000 && Pow2(31) == 0x8000_0000
  {
    assert Pow2(9) == 512;
    PowAdd(9, 9);
    PowAdd(18, 9);
  }

  /** Up to 128 MB blocks nothing wraps, and the whole reservation holds the worst case and the factory area. */
  lemma Reservation(k: nat)
    requires k <= 27 && 0 < Pow2(k) < U32
    ensures var x := AlignMore(Gross(Pow2(k)) * 6 / 5, Pow2(k));
            WorstEnd(Pow2(k)) + FACTORY_SIZE <= x < U32 && x % Pow2(k) == 0
  {
    GrossIs(k);
    AlignMoreIsCeiling(UBOOT_SIZE, k);
    AlignMoreIsCeiling(FACTORY_SIZE, k);
    AlignMoreIsCeiling(Gross(Pow2(k)) * 6 / 5, k);
  }

  /**
   * For such blocks the boot code and the factory area together take six fifths of four boot loaders of 512 KB, a
   * factory area of 4 MB and ten blocks, in whole blocks throughout.
   */
  lemma ReservationExact(k: nat)
    requires k <= 27 && 0 < Pow2(k) < U32
    ensures var e := Pow2(k);
            var gross := 4 * AlignMore(0x8_0000, e) + AlignMore(0x40_0000, e) + 10 * e;
            var all := FactoryStart(e) + 0x40_0000;
            gross * 6 / 5 <= all < gross * 6 / 5 + e && all % e == 0
  {
    StartAndFactory(k);
    GrossIs(k);
    AlignMoreIsCeiling(Gross(Pow2(k)) * 6 / 5, k);
  }

  lemma StartAndFactory(k: nat)
    requires k <= 27 && 0 < Pow2(k) < U32
    ensures FactoryStart(Pow2(k)) + FACTORY_SIZE == AlignMore(Gross(Pow2(k)) * 6 / 5, Pow2(k))
  {
    Reservation(k);
  }

  lemma GrossIs(k: nat)
    requires k <= 27 && 0 < Pow2(k) < U32
    ensures var e := Pow2(k);
            Gross(e) == 4 * AlignMore(UBOOT_SIZE, e) + AlignMore(FACTORY_SIZE, e) + 10 * e && Gross(e) * 6 / 5 < U32 - e
  {
    var e := Pow2(k);
    BigPowers();
    PowDivides(k, 27);
    AlignMoreIsCeiling(UBOOT_SIZE, k);
    AlignMoreIsCeiling(FACTORY_SIZE, k);
    GrossExact(AlignMore(UBOOT_SIZE, e), AlignMore(FACTORY_SIZE, e), e);
  }

  lemma GrossExact(a: nat, f: nat, e: nat)
    requires a < UBOOT_SIZE + e && f < FACTORY_SIZE + e && e <= 0x800_0000
    ensures Add32(Low32(Low32(a * 4) + f), Low32(10 * e)) == 4 * a + f + 10 * e
    ensures 4 * a + f + 10 * e <= (4 * a + f + 10 * e) * 6 / 5 < U32 - e
  {}

  /** From 256 MB blocks on the reservation is too small: it wraps, or it is below 4 GB and the copies are not. */
  lemma LargeBlocksDoNot(k: nat)
    requires 28 <= k && 0 < Pow2(k) < U32
    ensures FactoryStart(Pow2(k)) < WorstEnd(Pow2(k))
  {
    BigPowers();
    if k == 28 {
      Blocks256M();
    } else {
      PowDivides(29, k);
    }
  }

  /** Lengths of up to a block fill one block. */
  lemma OneBlock(len: nat)
    requires 0 < len <= 0x1000_0000
    ensures AlignMore(len, 0x1000_0000) == 0x1000_0000
  {
    BigPowers();
    AlignMoreIsCeiling(len, 28);
    AlignMoreWithin(len, 0x1000_0000, 28);
  }

  lemma Blocks256M()
    ensures FactoryStart(0x1000_0000) < WorstEnd(0x1000_0000)
  {
    BigPowers();
    OneBlock(UBOOT_SIZE);
    OneBlock(FACTORY_SIZE);
    AlignMoreIsCeiling(0x1_2000_0000, 28);
    AlignMoreWithin(0x1_2000_0000, 0x1_2000_0000, 28);
  }

  /** The reservation fits the boot code exactly for erase blocks of up to 128 MB. */
  lemma ReservationFitsIff(k: nat)
    requires 0 < Pow2(k) < U32
    ensures WorstEnd(Pow2(k)) <= FactoryStart(Pow2(k)) <==> Pow2(k) <= 0x800_0000
  {
    BigPowers();
    if k <= 27 {
      PowDivides(k, 27);
      Reservation(k);
    } else {
      PowDivides(28, k);
      LargeBlocksDoNot(k);
    }
  }

  /**
   * set_system_param for NAND: the boot code area ends where the factory area starts, which is far
   * enough for the worst case exactly when erase blocks are at most 128 MB. The factor 1.2 on the
   * whole number is its floor of six fifths.
   */
  method SetSystemParam(eraseSize: nat, ghost k: nat) returns (bootcodeSize: nat, factoryStart: nat, factorySize: nat)
    requires eraseSize == Pow2(k) < U32
    ensures factorySize == FACTORY_SIZE && factoryStart == bootcodeSize == FactoryStart(eraseSize)
    ensures WorstEnd(eraseSize) <= factoryStart <==> eraseSize <= 0x800_0000
  {
    factorySize := FACTORY_SIZE;
    var reserved := Low32(AlignMore(UBOOT_SIZE, eraseSize) * 4);
    reserved := Low32(reserved + AlignMore(factorySize, eraseSize));
    reserved := Add32(reserved, Low32((6 + 1 * 4) * eraseSize));
    reserved := Low32(AlignMore(reserved * 6 / 5, eraseSize));
    bootcodeSize := Sub32(reserved, factorySize);
    factoryStart := Sub32(reserved, factorySize);
    ReservationFitsIff(k);
  }

  // ---------------------------------------------------------------- writing the copies

  /** The data at that place, and erased bytes up to the next. */
  predicate Holds(flash: seq<byte>, at: nat, need: nat, data: seq<byte>) {
    && |data| <= need && at + need <= |flash| && flash[at..at + |data|] == data
    && forall x | at + |data| <= x < at + need :: flash[x] == 0xff
  }

  /** The j-th copy of data, laid out every need bytes from offset on. */
  predicate CopyAt(flash: seq<byte>, offset: nat, need: nat, data: seq<byte>, j: nat) {
    Holds(flash, offset + j * need, need, data)
  }

  lemma HoldsElsewhere(was: seq<byte>, now: seq<byte>, at: nat, need: nat, data: seq<byte>, lo: nat, hi: nat)
    requires Holds(was, at, need, data) && at + need <= lo && SameOutside(was, now, lo, hi)
    ensures Holds(now, at, need, data)
  {
    assert now[at..at + |data|] == was[at..at + |data|];
  }

  predicate AllCopies(flash: seq<byte>, offset: nat, need: nat, data: seq<byte>, n: nat) {
    forall j: nat | j < n :: CopyAt(flash, offset, need, data, j)
  }

  predicate SameOutside(was: seq<byte>, now: seq<byte>, lo: nat, hi: nat) {
    |now| == |was| && forall x | 0 <= x < |was| && !(lo <= x < hi) :: now[x] == was[x]
  }

  /** Space from lo on that needs size bytes is clear of the ones before it. */
  lemma EarlierCopies(was: seq<byte>, now: seq<byte>, offset: nat, need: nat, data: seq<byte>, n: nat)
    requires |data| <= need && AllCopies(was, offset, need, data, n)
    requires SameOutside(was, now, offset + n * need, offset + n * need + need)
    ensures AllCopies(now, offset, need, data, n)
  {
    forall j: nat | j < n ensures CopyAt(now, offset, need, data, j) {
      assert CopyAt(was, offset, need, data, j);
      assert j * need + need <= n * need by { MulOrder(j + 1, n, need); }
      HoldsElsewhere(was, now, offset + j * need, need, data, offset + n * need, offset + n * need + need);
    }
  }

  lemma NextCopy(was: seq<byte>, now: seq<byte>, offset: nat, need: nat, data: seq<byte>, n: nat, at: nat)
    requires |data| <= need && AllCopies(was, offset, need, data, n) && at == offset + n * need
    requires SameOutside(was, now, at, at + need) && Holds(now, at, need, data)
    ensures AllCopies(now, offset, need, data, n + 1)
  {
    EarlierCopies(was, now, offset, need, data, n);
    assert CopyAt(now, offset, need, data, n);
  }

  lemma KeptBefore(was: seq<byte>, now: seq<byte>, offset: nat, need: nat, data: seq<byte>, lo: nat, hi: nat)
    requires |data| <= need && AllCopies(was, offset, need, data, COPIES) && offset + COPIES * need <= lo
    requires SameOutside(was, now, lo, hi)
    ensures AllCopies(now, offset, need, data, COPIES)
  {
    forall j: nat | j < COPIES ensures CopyAt(now, offset, need, data, j) {
      assert CopyAt(was, offset, need, data, j);
      MulOrder(j + 1, COPIES, need);
      assert j * need + need == (j + 1) * need;
      HoldsElsewhere(was, now, offset + j * need, need, data, lo, hi);
    }
  }

  lemma MulOrder(a: nat, b: nat, c: nat)
    requires a <= b
    ensures a * c <= b * c
  {}

  class BootNand {
    const flash: array<byte>
    const eraseSize: nat

    ghost predicate Valid(k: nat) {
      k < 32 && eraseSize == Pow2(k) < U32 && flash.Length < U32 && flash.Length % eraseSize == 0
    }

    /** flash_erase of whole blocks and nandwrite of the file; both refuse to leave the device. */
    method EraseAndWrite(offset: nat, need: nat, data: seq<byte>) returns (ok: bool)
      requires |data| <= need || |data| > flash.Length
      modifies flash
      ensures ok <==> offset + need <= flash.Length && |data| <= flash.Length
      ensures ok ==> Holds(flash[..], offset, need, data)
      ensures SameOutside(old(flash[..]), flash[..], offset, offset + need)
    {
      if offset + need > flash.Length || |data| > flash.Length {
        return false;
      }
      forall x | offset <= x < offset + need { flash[x] := 0xff; }
      forall x | 0 <= x < |data| { flash[offset + x] := data[x]; }
      ok := true;
    }

    /** The rounded-up length; a file that would wrap it is larger than any device. */
    lemma NeedCovers(len: nat, k: nat)
      requires Valid(k) && len < U32
      ensures var need := Low32(AlignMore(len, eraseSize));
              len > flash.Length || (len <= need < len + eraseSize && need % eraseSize == 0)
    {
      AlignMoreIsCeiling(len, k);
      if len <= flash.Length {
        RoundUpWithin(len, AlignMore(len, eraseSize), flash.Length, eraseSize);
      }
    }

    /**
     * rtk_burn_bootcode_part: on success four disjoint copies can be read back, and only their blocks
     * have changed; the result is where the next part goes.
     */
    method BurnPart(data: seq<byte>, offset: nat, ghost k: nat) returns (next: int)
      requires Valid(k) && |data| < U32 && offset < U32
      modifies flash
      ensures var need := Low32(AlignMore(|data|, eraseSize));
        && SameOutside(old(flash[..]), flash[..], offset, offset + 4 * need)
        && (next >= 0 ==> next == offset + 4 * need && |data| <= need && AllCopies(flash[..], offset, need, data, 4))
        && (next >= 0 <==> |data| <= flash.Length && offset + 4 * need <= flash.Length && offset + 4 * need < 0x8000_0000)
    {
      NeedCovers(|data|, k);
      var need := Low32(AlignMore(|data|, eraseSize));
      var ok := WriteCopies(data, offset, need);
      var at := offset + COPIES * need;
      next := if !ok then -1 else if at < 0x8000_0000 then at else at - U32;
    }

    method WriteCopies(data: seq<byte>, offset: nat, need: nat) returns (ok: bool)
      requires |data| <= need || |data| > flash.Length
      modifies flash
      ensures SameOutside(old(flash[..]), flash[..], offset, offset + COPIES * need)
      ensures ok <==> offset + COPIES * need <= flash.Length && |data| <= flash.Length
      ensures ok ==> |data| <= need && AllCopies(flash[..], offset, need, data, COPIES)
    {
      var at := offset;
      ghost var was := flash[..];
      for i := 0 to COPIES
        invariant at == offset + i * need && SameOutside(was, flash[..], offset, at)
        invariant i > 0 ==> at <= flash.Length && |data| <= flash.Length
        invariant AllCopies(flash[..], offset, need, data, i)
      {
        assert (i + 1) * need == i * need + need;
        MulOrder(i + 1, COPIES, need);
        ok := WriteCopy(at, need, data, offset, i, was);
        if !ok {
          return;
        }
        at := at + need;
      }
      ok := true;
    }

    /** The i-th copy, behind the ones before it. */
    method WriteCopy(at: nat, need: nat, data: seq<byte>, ghost offset: nat, ghost i: nat, ghost was: seq<byte>)
      returns (ok: bool)
      requires |data| <= need || |data| > flash.Length
      requires at == offset + i * need && SameOutside(was, flash[..], offset, at)
      requires AllCopies(flash[..], offset, need, data, i)
      modifies flash
      ensures ok <==> at + need <= flash.Length && |data| <= flash.Length
      ensures SameOutside(was, flash[..], offset, at + need)
      ensures ok ==> AllCopies(flash[..], offset, need, data, i + 1)
    {
      ghost var before := flash[..];
      ok := EraseAndWrite(at, need, data);
      Outside(was, before, flash[..], offset, at, at + need);
      if ok { NextCopy(before, flash[..], offset, need, data, i, at); }
    }

    /**
     * rtk_burn_bootcode_nand: the hardware settings, then the boot loader. Parts within their allowed
     * sizes leave the blocks before them and everything from the factory area on alone, even when the
     * burn fails; on success all eight copies can be read back.
     */
    method BurnBootcode(hwSetting: seq<byte>, uboot: seq<byte>, ghost k: nat) returns (ret: int)
      requires Valid(k) && |hwSetting| < U32 && |uboot| < U32
      modifies flash
      ensures ret == 0 || ret == -1
      ensures ret == 0 ==>
        var start := Low32(6 * eraseSize);
        var (n, m) := (Low32(AlignMore(|hwSetting|, eraseSize)), Low32(AlignMore(|uboot|, eraseSize)));
        && AllCopies(flash[..], start, n, hwSetting, 4) && |hwSetting| <= n
        && AllCopies(flash[..], start + 4 * n, m, uboot, 4) && |uboot| <= m
      ensures ret == 0 <==>
        var start := Low32(6 * eraseSize);
        var (n, m) := (Low32(AlignMore(|hwSetting|, eraseSize)), Low32(AlignMore(|uboot|, eraseSize)));
        |hwSetting| <= flash.Length && |uboot| <= flash.Length && start + 4 * n + 4 * m <= flash.Length
        && start + 4 * n + 4 * m < 0x8000_0000
      ensures |hwSetting| <= eraseSize <= 0x800_0000 && |uboot| <= UBOOT_SIZE ==>
        SameOutside(old(flash[..]), flash[..], 6 * eraseSize, FactoryStart(eraseSize))
    {
      var offset := Low32(eraseSize * HWSETTING_START_BLOCK);
      ret := BurnBoth(hwSetting, uboot, offset, k);
      EndsBelowFactory(k, |hwSetting|, |uboot|);
    }

    method BurnBoth(hwSetting: seq<byte>, uboot: seq<byte>, offset: nat, ghost k: nat) returns (ret: int)
      requires Valid(k) && |hwSetting| < U32 && |uboot| < U32 && offset < U32
      modifies flash
      ensures ret == 0 || ret == -1
      ensures var (n, m) := (Low32(AlignMore(|hwSetting|, eraseSize)), Low32(AlignMore(|uboot|, eraseSize)));
        && SameOutside(old(flash[..]), flash[..], offset, offset + COPIES * n + COPIES * m)
        && (ret == 0 ==>
            && AllCopies(flash[..], offset, n, hwSetting, COPIES) && |hwSetting| <= n
            && AllCopies(flash[..], offset + COPIES * n, m, uboot, COPIES) && |uboot| <= m)
        && (ret == 0 <==>
            |hwSetting| <= flash.Length && |uboot| <= flash.Length
            && offset + 4 * n + 4 * m <= flash.Length && offset + 4 * n + 4 * m < 0x8000_0000)
    {
      ghost var was := flash[..];
      ghost var (n, m) := (Low32(AlignMore(|hwSetting|, eraseSize)), Low32(AlignMore(|uboot|, eraseSize)));
      var next := BurnPart(hwSetting, offset, k);
      if next < 0 {
        return -1;
      }
      ghost var mid := flash[..];
      next := BurnPart(uboot, next, k);
      KeptBefore(mid, flash[..], offset, n, hwSetting, offset + COPIES * n, offset + COPIES * n + COPIES * m);
      Outside(was, mid, flash[..], offset, offset + COPIES * n, offset + COPIES * n + COPIES * m);
      ret := if next < 0 then -1 else 0;
    }

    lemma EndsBelowFactory(k: nat, hw: nat, uboot: nat)
      requires Valid(k)
      ensures hw <= eraseSize <= 0x800_0000 && uboot <= UBOOT_SIZE ==>
        6 * eraseSize + COPIES * Low32(AlignMore(hw, eraseSize)) + COPIES * Low32(AlignMore(uboot, eraseSize))
        <= FactoryStart(eraseSize)
    {
      if hw <= eraseSize <= 0x800_0000 && uboot <= UBOOT_SIZE {
        ReservationFitsIff(k);
        AlignMoreIsCeiling(hw, k);
        AlignMoreIsCeiling(uboot, k);
        AlignMoreIsCeiling(UBOOT_SIZE, k);
        RoundUpWithin(hw, AlignMore(hw, eraseSize), eraseSize, eraseSize);
        RoundUpWithin(uboot, AlignMore(uboot, eraseSize), AlignMore(UBOOT_SIZE, eraseSize), eraseSize);
      }
    }
  }

  lemma Outside(a: seq<byte>, b: seq<byte>, c: seq<byte>, lo: nat, mid: nat, hi: nat)
    requires lo <= mid <= hi && SameOutside(a, b, lo, mid) && SameOutside(b, c, mid, hi)
    ensures SameOutside(a, c, lo, hi)
  {}
}
