/** Soundness of the layout: the single scalar check implies a disjoint layout inside the flash. */
module LayoutSound {
  import opened Words
  import opened Align
  import opened Sums
  import opened Stacks
  import opened FlashLayout

  lemma TwoTotals(values: seq<nat>, a: seq<nat>, b: seq<nat>)
    requires Lists(a + b, |values|)
    ensures Lists(a, |values|) && Lists(b, |values|)
    ensures Total(Pick(values, a + b)) == Total(Pick(values, a)) + Total(Pick(values, b))
  {
    assert forall i | 0 <= i < |a| :: (a + b)[i] == a[i];
    assert forall i | 0 <= i < |b| :: (a + b)[|a| + i] == b[i];
    PickConcat(values, a, b);
  }

  /** Three groups and what is in none of them make up the whole. */
  lemma PartsTotal(values: seq<nat>, a: seq<nat>, b: seq<nat>, c: seq<nat>)
    requires Lists(a + b + c, |values|)
    ensures Lists(a, |values|) && Lists(b, |values|) && Lists(c, |values|)
    ensures Total(values) == Total(Pick(values, a)) + Total(Pick(values, b)) + Total(Pick(values, c))
                             + Total(Unlisted(values, a + b + c))
  {
    TwoTotals(values, a + b, c);
    TwoTotals(values, a, b);
    ListedAndRest(values, a + b + c);
  }

  lemma CountedPick(alloc: seq<u64>, ids: seq<nat>)
    requires |alloc| == FW_UNKNOWN && Bounded(ids, FW_UNKNOWN) && forall i | 0 <= i < |ids| :: !Uncounted(ids[i])
    ensures Pick(Counted(alloc), ids) == Pick(alloc, ids)
  {}

  /** Counted reservations, firmware, partitions and what is none of these make up the counted total. */
  lemma CountedParts(alloc: seq<u64>, fixed: seq<nat>, c: seq<nat>, order: seq<nat>)
    requires |alloc| == FW_UNKNOWN && Lists(fixed, FW_UNKNOWN) && Lists(c, FW_ROOTFS) && PartitionList(order)
    requires forall i | 0 <= i < |fixed| :: fixed[i] > FW_USR_LOCAL_ETC && !Uncounted(fixed[i])
    ensures Total(Counted(alloc)) == Total(Pick(alloc, fixed)) + Total(Pick(alloc, c)) + Total(Pick(alloc, order))
                                     + Total(Unlisted(Counted(alloc), fixed + c + order))
  {
    TypesDistinct(fixed, c, order);
    PartsTotal(Counted(alloc), fixed, c, order);
    CountedPick(alloc, fixed);
    CountedPick(alloc, c);
    CountedPick(alloc, order);
  }

  /** Counted reservations, firmware and partitions together are no larger than the counted total. */
  lemma CountedCovers(alloc: seq<u64>, fixed: seq<nat>, c: seq<nat>, order: seq<nat>)
    requires |alloc| == FW_UNKNOWN && Lists(fixed, FW_UNKNOWN) && Lists(c, FW_ROOTFS) && PartitionList(order)
    requires forall i | 0 <= i < |fixed| :: fixed[i] > FW_USR_LOCAL_ETC && !Uncounted(fixed[i])
    ensures Total(Pick(alloc, fixed)) + Total(Pick(alloc, c)) + Total(Pick(alloc, order)) <= Total(Counted(alloc))
  {
    CountedParts(alloc, fixed, c, order);
  }

  /** The two stacks fit between bottom and the end of the flash, and the free space is the gap. */
  ghost predicate Sound(alloc: seq<u64>, offset: seq<u64>, order: seq<nat>, c: seq<nat>, bottom: u64, flash: u64) {
    && |alloc| == |offset| == FW_UNKNOWN
    && Lists(c, FW_UNKNOWN) && Lists(order, FW_UNKNOWN) && Lists(c + order, FW_UNKNOWN)
    && SoundBetween(alloc, offset, order, c, bottom, bottom + Total(Pick(alloc, c)), flash - Total(Pick(alloc, order)), flash)
  }

  ghost predicate SoundBetween(alloc: seq<u64>, offset: seq<u64>, order: seq<nat>, c: seq<nat>,
                               bottom: u64, high: int, low: int, flash: u64)
    requires |alloc| == |offset| == FW_UNKNOWN
    requires Lists(c, FW_UNKNOWN) && Lists(order, FW_UNKNOWN) && Lists(c + order, FW_UNKNOWN)
  {
    && high <= low
    && Stacked(alloc, offset, c, bottom) && Stacked(alloc, offset, order, low)
    && AllApart(alloc, offset, c + order) && AllWithin(alloc, offset, c + order, bottom, flash)
    && (high < low ==> offset[FW_P_FREE_SPACE] == high && alloc[FW_P_FREE_SPACE] == low - high)
  }

  /** The firmware chain, the partitions and the counted reservations below them never repeat a type. */
  lemma TypesDistinct(fixed: seq<nat>, c: seq<nat>, order: seq<nat>)
    requires Lists(fixed, FW_UNKNOWN) && Lists(c, FW_ROOTFS) && PartitionList(order)
    requires forall i | 0 <= i < |fixed| :: fixed[i] > FW_USR_LOCAL_ETC
    ensures Lists(fixed + c + order, FW_UNKNOWN) && Lists(c + order, FW_UNKNOWN)
  {}

  lemma ChainEnd(alloc: seq<u64>, offset: seq<u64>, c: seq<nat>, bottom: u64)
    requires IsChain(c) && Stacked(alloc, offset, c, bottom)
    ensures End(alloc, offset, c[14]) == bottom + Total(Pick(alloc, c))
  {
    assert SumTo(Pick(alloc, c), 15) == SumTo(Pick(alloc, c), 14) + alloc[c[14]];
  }

  /** Whatever was placed in wrapping arithmetic is sound exactly when the lengths fit in unbounded arithmetic. */
  lemma SoundIff(alloc: seq<u64>, offset: seq<u64>, order: seq<nat>, c: seq<nat>, bottom: u64, flash: u64)
    requires StacksPlaced(alloc, offset, order, c, bottom, flash) && Lists(c, FW_ROOTFS)
    ensures Sound(alloc, offset, order, c, bottom, flash)
            <==> bottom as int + Total(Pick(alloc, c)) + Total(Pick(alloc, order)) <= flash as int
  {
    TypesDistinct([], c, order);
    assert [] + c + order == c + order;
    if bottom as int + Total(Pick(alloc, c)) + Total(Pick(alloc, order)) <= flash as int {
      FitsSound(alloc, offset, order, c, bottom, flash);
    }
  }

  lemma FitsSound(alloc: seq<u64>, offset: seq<u64>, order: seq<nat>, c: seq<nat>, bottom: u64, flash: u64)
    requires StacksPlaced(alloc, offset, order, c, bottom, flash) && Lists(c + order, FW_UNKNOWN)
    requires bottom as int + Total(Pick(alloc, c)) + Total(Pick(alloc, order)) <= flash as int
    ensures Sound(alloc, offset, order, c, bottom, flash)
  {
    var low := flash - Total(Pick(alloc, order));
    UpFits(alloc, offset, c, bottom);
    DownFits(alloc, offset, order, flash);
    StacksApart(alloc, offset, order, c, bottom, low, flash);
    ChainEnd(alloc, offset, c, bottom);
    assert offset[order[0]] == low + SumTo(Pick(alloc, order), 0);
    assert SoundBetween(alloc, offset, order, c, bottom, bottom + Total(Pick(alloc, c)), low, flash);
  }

  /** Passing the scalar check is enough, provided the reservations cover everything below bottom. */
  lemma CheckSuffices(alloc: seq<u64>, offset: seq<u64>, order: seq<nat>, c: seq<nat>, fixed: seq<nat>,
                      bottom: u64, flash: u64)
    requires StacksPlaced(alloc, offset, order, c, bottom, flash) && Lists(c, FW_ROOTFS)
    requires Lists(fixed, FW_UNKNOWN)
    requires forall i | 0 <= i < |fixed| :: fixed[i] > FW_USR_LOCAL_ETC && !Uncounted(fixed[i])
    requires bottom <= Total(Pick(alloc, fixed))
    requires Total(Counted(alloc)) <= flash
    ensures Sound(alloc, offset, order, c, bottom, flash)
  {
    CountedCovers(alloc, fixed, c, order);
    SoundIff(alloc, offset, order, c, bottom, flash);
  }

  lemma StacksApart(alloc: seq<u64>, offset: seq<u64>, order: seq<nat>, c: seq<nat>, bottom: u64, low: nat, flash: u64)
    requires Tables(alloc, offset, c + order)
    requires Stacked(alloc, offset, c, bottom) && Stacked(alloc, offset, order, low)
    requires bottom + Total(Pick(alloc, c)) <= low && low + Total(Pick(alloc, order)) == flash
    ensures AllApart(alloc, offset, c + order) && AllWithin(alloc, offset, c + order, bottom, flash)
  {
    StackSound(alloc, offset, c, bottom);
    StackSound(alloc, offset, order, low);
    Widen(alloc, offset, c, bottom, bottom + Total(Pick(alloc, c)), low);
    BandsApart(alloc, offset, c, order, bottom, low, flash);
  }

  lemma Widen(alloc: seq<u64>, offset: seq<u64>, ids: seq<nat>, lo: int, mid: int, hi: int)
    requires Tables(alloc, offset, ids) && AllWithin(alloc, offset, ids, lo, mid) && mid <= hi
    ensures AllWithin(alloc, offset, ids, lo, hi)
  {}

  /** The parameters as set_system_param produces them, with 32-bit sums that do not wrap. */
  ghost predicate Consistent(cfg: Config) {
    cfg.Valid() && cfg.bootcodeSize == cfg.factoryStart && cfg.factoryStart + 2 * cfg.factorySize + cfg.erase <= U32
  }

  lemma NoWrap64(x: nat)
    ensures x < U64 ==> x % U64 == x
  {}

  lemma Aligned(cfg: Config)
    requires cfg.Valid()
    ensures cfg.bootcodeSize <= AlignMore(cfg.bootcodeSize, cfg.erase) < cfg.bootcodeSize + cfg.erase
    ensures var r := AlignMore(cfg.Section(), cfg.erase); cfg.Section() <= r < cfg.Section() + cfg.erase && r % cfg.erase == 0
  {
    AlignMoreIsCeiling(cfg.bootcodeSize, cfg.eraseBits);
    AlignMoreIsCeiling(cfg.Section(), cfg.eraseBits);
  }

  /** Where the NAND firmware begins. */
  function NandBottom(cfg: Config): nat {
    cfg.factoryStart + 2 * cfg.factorySize + cfg.erase
  }

  /**
   * Without gaps from the bottom: rescue and kernel device tree, audio, kernel, rescue and kernel root file system
   * (types 1, 2, 8, 0, 3, 4), then of audio, image and video in turn the boot file, the first and the second logo.
   */
  lemma ChainPositions(alloc: seq<u64>, offset: seq<u64>, order: seq<nat>, c: seq<nat>, bottom: u64, flash: u64)
    requires Sound(alloc, offset, order, c, bottom, flash) && IsChain(c)
    ensures offset[1] == bottom
    ensures Joins(alloc, offset, 1, 2) && Joins(alloc, offset, 2, 8) && Joins(alloc, offset, 8, 0)
    ensures Joins(alloc, offset, 0, 3) && Joins(alloc, offset, 3, 4) && Joins(alloc, offset, 4, 13)
    ensures Joins(alloc, offset, 13, 16) && Joins(alloc, offset, 16, 19) && Joins(alloc, offset, 19, 14)
    ensures Joins(alloc, offset, 14, 17) && Joins(alloc, offset, 17, 20) && Joins(alloc, offset, 20, 15)
    ensures Joins(alloc, offset, 15, 18) && Joins(alloc, offset, 18, 21)
  {
    FirstAt(alloc, offset, c, bottom);
    forall k, next | 0 <= k < 14 && next == k + 1 ensures Joins(alloc, offset, c[k], c[next]) {
      StackNext(alloc, offset, c, bottom, k, next);
    }
  }

  lemma FirstAt(alloc: seq<u64>, offset: seq<u64>, ids: seq<nat>, base: int)
    requires Stacked(alloc, offset, ids, base) && ids != []
    ensures offset[ids[0]] == base
  {}

  /** NAND: any layout that passes the check is disjoint and inside the flash, unless the counted total has wrapped. */
  lemma NandSound(alloc: seq<u64>, offset: seq<u64>, cfg: Config, order: seq<nat>, c: seq<nat>, flash: u64)
    requires NandPlaced(alloc, offset, cfg, order, c, flash) && Consistent(cfg)
    ensures offset[FW_FW_TBL] + alloc[FW_FW_TBL] == NandBottom(cfg)
    ensures Total(Counted(alloc)) < U64 ==> Sound(alloc, offset, order, c, NandBottom(cfg), flash) && NandBottom(cfg) <= flash
  {
    var fixed := [FW_BOOTCODE, FW_FACTORY, FW_FW_TBL];
    NandReservations(alloc, offset, cfg);
    ChainListed(c);
    if Total(Counted(alloc)) < U64 {
      NoWrap64(Total(Counted(alloc)));
      CheckSuffices(alloc, offset, order, c, fixed, NandBottom(cfg), flash);
    }
  }

  /** The reservations cover everything below the firmware, with less than two blocks to spare. */
  lemma NandReservations(alloc: seq<u64>, offset: seq<u64>, cfg: Config)
    requires NandReserved(alloc, offset, cfg) && Consistent(cfg)
    ensures End(alloc, offset, FW_FW_TBL) == NandBottom(cfg)
    ensures NandBottom(cfg) <= Total(Pick(alloc, [FW_BOOTCODE, FW_FACTORY, FW_FW_TBL])) <= NandBottom(cfg) + 2 * cfg.erase
  {
    Aligned(cfg);
    ThreeTotal(alloc, [FW_BOOTCODE, FW_FACTORY, FW_FW_TBL]);
  }

  lemma ThreeTotal(values: seq<nat>, ids: seq<nat>)
    requires |ids| == 3 && Bounded(ids, |values|)
    ensures Total(Pick(values, ids)) == values[ids[0]] + values[ids[1]] + values[ids[2]]
  {
    var p := Pick(values, ids);
    assert SumTo(p, 3) == SumTo(p, 2) + p[2];
    assert SumTo(p, 2) == SumTo(p, 1) + p[1];
    assert SumTo(p, 1) == SumTo(p, 0) + p[0];
  }

  /** The NAND descriptor table begins right behind the factory slots exactly when these begin where the boot code ends. */
  lemma TableBehindSlotsIff(alloc: seq<u64>, offset: seq<u64>, cfg: Config)
    requires NandReserved(alloc, offset, cfg)
    requires cfg.bootcodeSize + 2 * cfg.factorySize < U32 && cfg.factoryStart + 2 * cfg.factorySize < U32
    ensures offset[FW_FW_TBL] == offset[FW_FACTORY] + 2 * cfg.factorySize <==> cfg.bootcodeSize == cfg.factoryStart
  {
    assert cfg.Section() == 2 * cfg.factorySize;
  }

  /** On NAND and eMMC the boot code has its size in whole blocks, from its start on. */
  lemma BootCodeFits(alloc: seq<u64>, offset: seq<u64>, cfg: Config)
    requires NandReserved(alloc, offset, cfg) || EmmcReserved(alloc, offset, cfg)
    ensures offset[FW_BOOTCODE] == cfg.bootcodeStart && offset[FW_FACTORY] == cfg.factoryStart
    ensures cfg.bootcodeSize <= alloc[FW_BOOTCODE] < cfg.bootcodeSize + cfg.erase
  {
    Aligned(cfg);
  }

  /** The two factory slots and the descriptor table do not meet exactly when the slots fill whole blocks. */
  lemma FactoryClearOfTable(alloc: seq<u64>, offset: seq<u64>, cfg: Config)
    requires NandReserved(alloc, offset, cfg) && Consistent(cfg) && cfg.factorySize > 0
    ensures Apart(alloc, offset, FW_FACTORY, FW_FW_TBL) <==> (2 * cfg.factorySize) % cfg.erase == 0
  {
    Aligned(cfg);
    MultipleBelow(alloc[FW_FACTORY], cfg.Section(), cfg.erase);
  }

  lemma MultipleBelow(r: nat, len: nat, size: nat)
    requires size > 0 && len <= r < len + size && r % size == 0
    ensures r <= len <==> len % size == 0
  {
    if len % size == 0 {
      assert r == size * (r / size) && len == size * (len / size);
      MulSign(size, r / size - len / size);
      assert size * (r / size - len / size) == r - len;
    }
  }

  /**
   * A firmware type outside the chain gets an allocation but no offset. In a table that began with
   * zero offsets its image lies on the boot code, exactly when there is one.
   */
  lemma UnplacedCollides(was: seq<u64>, alloc: seq<u64>, offset: seq<u64>, cfg: Config, c: seq<nat>, e: nat)
    requires NandReserved(alloc, offset, cfg) && Unmoved(was, offset, c) && e < FW_ROOTFS && e !in c && was[e] == 0
    requires cfg.bootcodeStart == 0 && cfg.bootcodeSize > 0
    ensures Apart(alloc, offset, e, FW_BOOTCODE) <==> cfg.img[e] == 0 || Dropped(e, cfg.avFiles)
  {
    Aligned(cfg);
    AlignMoreZeroIff(cfg.img[e], cfg.eraseBits);
  }

  lemma EmmcReservations(alloc: seq<u64>, offset: seq<u64>, cfg: Config)
    requires EmmcReserved(alloc, offset, cfg) && Consistent(cfg)
    ensures End(alloc, offset, FW_FACTORY) == offset[FW_FW_TBL]
    ensures End(alloc, offset, FW_FW_TBL) == offset[FW_GOLD_FW_TBL]
    ensures cfg.factoryStart <= alloc[FW_BOOTCODE] <= cfg.factoryStart + cfg.erase
    ensures offset[FW_FACTORY] == cfg.factoryStart && 2 * cfg.factorySize <= alloc[FW_FACTORY]
    ensures End(alloc, offset, FW_GOLD_FW_TBL) < U64
  {
    Aligned(cfg);
  }

  /** On eMMC such an image lies over the master boot record, exactly when there is one. */
  lemma EmmcUnplacedCollides(was: seq<u64>, alloc: seq<u64>, offset: seq<u64>, cfg: Config, c: seq<nat>, e: nat)
    requires EmmcReserved(alloc, offset, cfg) && Unmoved(was, offset, c) && IsChain(c) && e < FW_ROOTFS && e !in c
    requires was[e] == 0
    ensures alloc[e] == 0 || 512 <= offset[e] <==> cfg.img[e] == 0 || Dropped(e, cfg.avFiles)
    ensures alloc[e] != 0 ==> offset[e] == 0 && cfg.img[e] <= alloc[e]
  {
    assert c[0] in c && c[1] in c;
    AlignMoreZeroIff(cfg.img[e], cfg.eraseBits);
    AlignMoreBounds(cfg.img[e], cfg.eraseBits);
  }

  lemma FourTotal(values: seq<nat>, ids: seq<nat>)
    requires |ids| == 4 && Bounded(ids, |values|)
    ensures Total(Pick(values, ids)) == values[ids[0]] + values[ids[1]] + values[ids[2]] + values[ids[3]]
  {
    var p := Pick(values, ids);
    ThreeTotal(values, ids[..3]);
    SumSame(p, Pick(values, ids[..3]), 3);
    assert SumTo(p, 4) == SumTo(p, 3) + p[3];
  }

  /** Where the eMMC firmware begins. */
  function EmmcBottom(offset: seq<u64>): u64
    requires |offset| == FW_UNKNOWN
  {
    Add64(offset[FW_GOLD_FW_TBL], BOOTTABLE)
  }

  /**
   * eMMC: any layout that passes the check is disjoint, above the factory slots and both descriptor tables, unless
   * the counted total has wrapped.
   */
  lemma EmmcSound(alloc: seq<u64>, offset: seq<u64>, cfg: Config, order: seq<nat>, c: seq<nat>, flash: u64)
    requires EmmcPlaced(alloc, offset, cfg, order, c, flash) && Consistent(cfg)
    ensures Total(Counted(alloc)) < U64 ==> Sound(alloc, offset, order, c, EmmcBottom(offset), flash)
    ensures cfg.factoryStart + 2 * cfg.factorySize <= End(alloc, offset, FW_FACTORY) == offset[FW_FW_TBL]
    ensures End(alloc, offset, FW_FW_TBL) == offset[FW_GOLD_FW_TBL]
    ensures End(alloc, offset, FW_GOLD_FW_TBL) == EmmcBottom(offset)
  {
    var fixed := [FW_BOOTCODE, FW_FACTORY, FW_FW_TBL, FW_GOLD_FW_TBL];
    EmmcReservations(alloc, offset, cfg);
    EmmcCovered(alloc, offset, cfg);
    ChainListed(c);
    if Total(Counted(alloc)) < U64 {
      NoWrap64(Total(Counted(alloc)));
      CheckSuffices(alloc, offset, order, c, fixed, EmmcBottom(offset), flash);
    }
  }

  /** The reservations cover everything below the firmware, with at most a block to spare. */
  lemma EmmcCovered(alloc: seq<u64>, offset: seq<u64>, cfg: Config)
    requires EmmcReserved(alloc, offset, cfg) && Consistent(cfg)
    ensures EmmcBottom(offset) == End(alloc, offset, FW_GOLD_FW_TBL)
    ensures EmmcBottom(offset) as int <= Total(Pick(alloc, [FW_BOOTCODE, FW_FACTORY, FW_FW_TBL, FW_GOLD_FW_TBL]))
            <= EmmcBottom(offset) as int + cfg.erase
  {
    EmmcReservations(alloc, offset, cfg);
    FourTotal(alloc, [FW_BOOTCODE, FW_FACTORY, FW_FW_TBL, FW_GOLD_FW_TBL]);
  }

  /** An image has its size in whole blocks, or none if the A/V count does not reach it; no other region enters it. */
  lemma FirmwareFits(alloc: seq<u64>, offset: seq<u64>, cfg: Config, e: nat)
    requires NandReserved(alloc, offset, cfg) && e < FW_ROOTFS
    ensures if 13 <= e <= 21 && 0 <= cfg.avFiles <= (e - 13) / 3 then alloc[e] == 0
            else cfg.img[e] <= alloc[e] < cfg.img[e] + cfg.erase && alloc[e] % cfg.erase == 0
  {
    DroppedIff(e, cfg.avFiles);
    AlignMoreIsCeiling(cfg.img[e], cfg.eraseBits);
  }

  /** On eMMC that leaves room for all images exactly when both device trees are within their fixed size. */
  lemma EmmcFirmwareFitsIff(alloc: seq<u64>, offset: seq<u64>, cfg: Config)
    requires EmmcReserved(alloc, offset, cfg)
    ensures (forall e | 0 <= e < FW_ROOTFS ::
               cfg.img[e] <= alloc[e] || (13 <= e <= 21 && 0 <= cfg.avFiles <= (e - 13) / 3 && alloc[e] == 0))
            <==> cfg.img[FW_RESCUE_DT] <= 0x4_0000 && cfg.img[FW_KERNEL_DT] <= 0x4_0000
  {
    forall e | 0 <= e < FW_ROOTFS && !IsDeviceTree(e)
      ensures cfg.img[e] <= alloc[e] || (13 <= e <= 21 && 0 <= cfg.avFiles <= (e - 13) / 3 && alloc[e] == 0)
    {
      DroppedIff(e, cfg.avFiles);
      AlignMoreIsCeiling(cfg.img[e], cfg.eraseBits);
    }
  }
}
