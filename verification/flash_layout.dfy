/** fill_rtkimgdesc_layout for NAND and eMMC. */
module FlashLayout {
  import opened Words
  import opened Align
  import opened Sums
  import opened Stacks

  // Firmware is stacked upwards above the reservations, partitions downwards from the end of the flash,
  // and one scalar check decides whether the result is used.

  // enum FWTYPE
  const FW_KERNEL: nat := 0
  const FW_RESCUE_DT: nat := 1
  const FW_KERNEL_DT: nat := 2
  const FW_RESCUE_ROOTFS: nat := 3
  const FW_KERNEL_ROOTFS: nat := 4
  const FW_AUDIO: nat := 8
  const FW_AUDIO_BOOTFILE: nat := 13
  const FW_IMAGE_BOOTFILE: nat := 14
  const FW_VIDEO_BOOTFILE: nat := 15
  const FW_AUDIO_CLOGO1: nat := 16
  const FW_IMAGE_CLOGO1: nat := 17
  const FW_VIDEO_CLOGO1: nat := 18
  const FW_AUDIO_CLOGO2: nat := 19
  const FW_IMAGE_CLOGO2: nat := 20
  const FW_VIDEO_CLOGO2: nat := 21
  const FW_ROOTFS: nat := 22
  const FW_USR_LOCAL_ETC: nat := 35
  const FW_BOOTCODE: nat := 36
  const FW_FACTORY: nat := 37
  const FW_FW_TBL: nat := 38
  const FW_P_SSU_WORKING: nat := 41
  const FW_P_FREE_SPACE: nat := 42
  const FW_GOLD_FW_TBL: nat := 48
  const FW_UBOOT: nat := 49
  const FW_UNKNOWN: nat := 53

  const BOOTTABLE: nat := 0x8000    // reserved_boottable_size on eMMC
  const DT_SIZE: nat := 256 * 1024

  /** c is the order in which the firmware images are stacked. */
  ghost predicate IsChain(c: seq<nat>) {
    && |c| == 15
    && c[0] == FW_RESCUE_DT && c[1] == FW_KERNEL_DT && c[2] == FW_AUDIO
    && c[3] == FW_KERNEL && c[4] == FW_RESCUE_ROOTFS && c[5] == FW_KERNEL_ROOTFS
    && c[6] == FW_AUDIO_BOOTFILE && c[7] == FW_AUDIO_CLOGO1 && c[8] == FW_AUDIO_CLOGO2
    && c[9] == FW_IMAGE_BOOTFILE && c[10] == FW_IMAGE_CLOGO1 && c[11] == FW_IMAGE_CLOGO2
    && c[12] == FW_VIDEO_BOOTFILE && c[13] == FW_VIDEO_CLOGO1 && c[14] == FW_VIDEO_CLOGO2
  }

  lemma ChainListed(c: seq<nat>)
    requires IsChain(c)
    ensures Lists(c, FW_ROOTFS)
  {}

  /** The partition types in the slots of rtk_part_list_sort, where a negative number is an empty slot. */
  function Listed(slots: seq<int>): (order: seq<nat>)
    ensures |order| <= |slots|
  {
    if slots == [] then []
    else Listed(slots[..|slots| - 1]) + if slots[|slots| - 1] < 0 then [] else [slots[|slots| - 1]]
  }

  /** Filled slot i holds the list entry that the filled slots before it count to. */
  lemma {:induction false} ListedAt(slots: seq<int>, i: nat)
    requires i < |slots|
    ensures var j := |Listed(slots[..i])|;
            && |Listed(slots[..i + 1])| == (if slots[i] < 0 then j else j + 1) <= |Listed(slots)|
            && (slots[i] >= 0 ==> Listed(slots)[j] == slots[i])
  {
    var last := |slots| - 1;
    assert slots[..i + 1][..i] == slots[..i];
    if i < last {
      ListedAt(slots[..last], i);
      assert slots[..last][..i] == slots[..i] && slots[..last][..i + 1] == slots[..i + 1];
    } else {
      assert slots[..i + 1] == slots;
    }
  }

  lemma {:induction false} ListedFull(order: seq<nat>)
    ensures Listed(order) == order
  {
    if order != [] { ListedFull(order[..|order| - 1]); }
  }

  /** A usable partition list: not empty, each type once. */
  ghost predicate PartitionList(order: seq<nat>) {
    Lists(order, FW_UNKNOWN) && order != [] && forall i | 0 <= i < |order| :: FW_ROOTFS <= order[i] <= FW_USR_LOCAL_ETC
  }

  class Layout {
    const flashSize: u64
    const alloc: array<u64>
    const offset: array<u64>

    constructor (flashSize: u64, alloc: array<u64>, offset: array<u64>)
      ensures this.flashSize == flashSize && this.alloc == alloc && this.offset == offset
    {
      this.flashSize, this.alloc, this.offset := flashSize, alloc, offset;
    }

    ghost predicate Valid() {
      alloc.Length == offset.Length == FW_UNKNOWN && alloc != offset
    }

    /** The first k + 1 images of the chain are in place, and nothing outside it has moved. */
    ghost predicate ChainTo(c: seq<nat>, k: nat, base: int, was: seq<u64>)
      requires Valid() && k < |c| && Lists(c, FW_UNKNOWN) && |was| == FW_UNKNOWN
      reads alloc, offset
    {
      && offset[c[0]] == base
      && (forall m | 0 < m <= k :: Follows(alloc[..], offset[..], c, m))
      && (forall e | 0 <= e < FW_UNKNOWN && e !in c :: offset[e] == was[e])
    }

    /** fw[e].flash_offset = fw[prev].flash_offset + fw[prev].flash_allo_size */
    method PlaceAfter(prev: nat, e: nat, ghost c: seq<nat>, ghost k: nat, ghost base: int, ghost was: seq<u64>)
      requires Valid() && Lists(c, FW_UNKNOWN) && k + 1 < |c| && |was| == FW_UNKNOWN && ChainTo(c, k, base, was)
      requires prev == c[k] && e == c[k + 1]
      modifies offset
      ensures ChainTo(c, k + 1, base, was)
    {
      ghost var before := offset[..];
      offset[e] := Add64(offset[prev], alloc[prev]);
      forall m | 0 < m <= k ensures Follows(alloc[..], offset[..], c, m) {
        assert Follows(alloc[..], before, c, m);
      }
    }

    /** The firmware images, bottom up; returns flash_bottom_high_limit. */
    method PlaceChain(bottom: u64, ghost c: seq<nat>) returns (high: u64)
      requires Valid() && IsChain(c) && Lists(c, FW_UNKNOWN)
      modifies offset
      ensures PlacedUp(alloc[..], offset[..], c, bottom)
      ensures forall e | 0 <= e < FW_UNKNOWN && e !in c :: offset[e] == old(offset[e])
      ensures high == Add64(offset[c[14]], alloc[c[14]])
    {
      ghost var was := offset[..];
      offset[FW_RESCUE_DT] := bottom;
      PlaceAfter(FW_RESCUE_DT, FW_KERNEL_DT, c, 0, bottom, was);
      PlaceAfter(FW_KERNEL_DT, FW_AUDIO, c, 1, bottom, was);
      PlaceAfter(FW_AUDIO, FW_KERNEL, c, 2, bottom, was);
      PlaceAfter(FW_KERNEL, FW_RESCUE_ROOTFS, c, 3, bottom, was);
      PlaceAfter(FW_RESCUE_ROOTFS, FW_KERNEL_ROOTFS, c, 4, bottom, was);
      PlaceAfter(FW_KERNEL_ROOTFS, FW_AUDIO_BOOTFILE, c, 5, bottom, was);
      PlaceAfter(FW_AUDIO_BOOTFILE, FW_AUDIO_CLOGO1, c, 6, bottom, was);
      PlaceAfter(FW_AUDIO_CLOGO1, FW_AUDIO_CLOGO2, c, 7, bottom, was);
      PlaceAfter(FW_AUDIO_CLOGO2, FW_IMAGE_BOOTFILE, c, 8, bottom, was);
      PlaceAfter(FW_IMAGE_BOOTFILE, FW_IMAGE_CLOGO1, c, 9, bottom, was);
      PlaceAfter(FW_IMAGE_CLOGO1, FW_IMAGE_CLOGO2, c, 10, bottom, was);
      PlaceAfter(FW_IMAGE_CLOGO2, FW_VIDEO_BOOTFILE, c, 11, bottom, was);
      PlaceAfter(FW_VIDEO_BOOTFILE, FW_VIDEO_CLOGO1, c, 12, bottom, was);
      PlaceAfter(FW_VIDEO_CLOGO1, FW_VIDEO_CLOGO2, c, 13, bottom, was);
      high := Add64(offset[FW_VIDEO_CLOGO2], alloc[FW_VIDEO_CLOGO2]);
    }

    /** The partitions, last slot first and empty slots skipped; returns flash_top_low_limit. */
    method PlaceTopDown(slots: seq<int>, top: u64) returns (low: u64)
      requires Valid() && PartitionList(Listed(slots))
      modifies offset
      ensures PlacedDown(alloc[..], offset[..], Listed(slots), top)
      ensures forall e | 0 <= e < FW_UNKNOWN && e !in Listed(slots) :: offset[e] == old(offset[e])
      ensures low == offset[Listed(slots)[0]]
    {
      ghost var order := Listed(slots);
      ghost var j := |order|;
      var prev := FW_UNKNOWN;
      assert slots[..|slots|] == slots;
      for i := |slots| downto 0
        invariant j == |Listed(slots[..i])| <= |order| && prev == if j == |order| then FW_UNKNOWN else order[j]
        invariant DownTo(order, j, top, old(offset[..]))
      {
        ListedAt(slots, i);
        if slots[i] < 0 {
          continue;
        }
        j := j - 1;
        PlaceBelow(prev, slots[i], top, order, j, old(offset[..]));
        prev := slots[i];
      }
      low := offset[prev];
    }

    /** The list entries from the j-th on are in place, and nothing outside the list has moved. */
    ghost predicate DownTo(order: seq<nat>, j: nat, top: u64, was: seq<u64>)
      requires Valid() && j <= |order| && PartitionList(order) && |was| == FW_UNKNOWN
      reads alloc, offset
    {
      && (j < |order| ==> offset[order[|order| - 1]] == Sub64(top, alloc[order[|order| - 1]]))
      && (forall k | j < k < |order| :: Precedes(alloc[..], offset[..], order, k))
      && (forall e | 0 <= e < FW_UNKNOWN && e !in order :: offset[e] == was[e])
    }

    method PlaceBelow(prev: nat, e: nat, top: u64, ghost order: seq<nat>, ghost j: nat, ghost was: seq<u64>)
      requires Valid() && j < |order| && PartitionList(order) && |was| == FW_UNKNOWN && DownTo(order, j + 1, top, was)
      requires e == order[j] && prev == if j + 1 == |order| then FW_UNKNOWN else order[j + 1]
      modifies offset
      ensures DownTo(order, j, top, was)
    {
      ghost var before := offset[..];
      if prev == FW_UNKNOWN {
        offset[e] := Sub64(top, alloc[e]);
      } else {
        offset[e] := Sub64(offset[prev], alloc[e]);
      }
      forall k | j < k < |order| ensures Precedes(alloc[..], offset[..], order, k) {
        if k > j + 1 { assert Precedes(alloc[..], before, order, k); }
      }
    }

    /** FW_P_FREE_SPACE is set only when the stacks leave a gap. */
    method SetFreeSpace(low: u64, high: u64)
      requires Valid()
      modifies alloc, offset
      ensures offset[..] == if low > high then old(offset[..])[FW_P_FREE_SPACE := high] else old(offset[..])
      ensures alloc[..] == if low > high then old(alloc[..])[FW_P_FREE_SPACE := low - high] else old(alloc[..])
    {
      if low > high {
        offset[FW_P_FREE_SPACE] := high;
        alloc[FW_P_FREE_SPACE] := low - high;
      }
    }

    /** Selection sort of all types by descending offset. */
    method SortByOffset() returns (sort: array<nat>)
      requires Valid()
      ensures fresh(sort) && sort.Length == FW_UNKNOWN
      ensures Lists(sort[..], FW_UNKNOWN) && Covers(sort[..], FW_UNKNOWN)
      ensures Descending(offset[..], sort[..], FW_UNKNOWN)
    {
      sort := new nat[FW_UNKNOWN](i => i);
      forall e | 0 <= e < FW_UNKNOWN ensures e in sort[..] { assert sort[..][e] == e; }
      for i := 0 to FW_UNKNOWN
        invariant Lists(sort[..], FW_UNKNOWN) && Covers(sort[..], FW_UNKNOWN)
        invariant Descending(offset[..], sort[..], i)
      {
        var max := MaxFrom(sort, i);
        SwapKeeps(sort[..], i, max);
        SwapDescends(offset[..], sort[..], i, max);
        sort[i], sort[max] := sort[max], sort[i];
      }
    }

    method MaxFrom(sort: array<nat>, i: nat) returns (max: nat)
      requires Valid() && sort.Length == FW_UNKNOWN && Bounded(sort[..], FW_UNKNOWN) && i < FW_UNKNOWN
      ensures i <= max < FW_UNKNOWN
      ensures forall b | i <= b < FW_UNKNOWN :: offset[sort[..][max]] >= offset[sort[..][b]]
    {
      max := i;
      for j := i + 1 to FW_UNKNOWN
        invariant i <= max < FW_UNKNOWN
        invariant forall b | i <= b < j :: offset[sort[..][max]] >= offset[sort[..][b]]
      {
        if offset[sort[..][max]] < offset[sort[..][j]] {
          max := j;
        }
      }
    }

    /** flash_total_need_size, added up in sorted order. */
    method NeedSize() returns (need: u64)
      requires Valid()
      ensures need == Total(Counted(alloc[..])) % U64
    {
      var sort := SortByOffset();
      ghost var s := sort[..];
      ghost var listed := Pick(Counted(alloc[..]), s);
      need := 0;
      for i := 0 to FW_UNKNOWN
        invariant sort[..] == s && need == SumTo(listed, i) % U64
      {
        var e := sort[i];
        assert e == s[i];
        AddMod(SumTo(listed, i), listed[i]);
        if alloc[e] != 0 && e != FW_P_FREE_SPACE && e != FW_P_SSU_WORKING && e != FW_UBOOT {
          need := Add64(need, alloc[e]);
        }
      }
      ListedTotal(Counted(alloc[..]), s);
    }

    /**
     * fill_rtk_install_av_count: exactly the first count files of each kind keep their space. The types from 13 on
     * are files 0, 1 and 2 of audio, image and video in turn.
     */
    method FillInstallAvCount(count: int) returns (ret: int)
      requires Valid()
      modifies alloc
      ensures ret == if 0 <= count <= 3 then 0 else -1
      ensures forall e | 0 <= e < FW_UNKNOWN :: alloc[e] == if Dropped(e, count) then 0 else old(alloc[e])
      ensures forall e | 0 <= e < FW_UNKNOWN ::
        alloc[e] == if 13 <= e <= 21 && 0 <= count <= (e - 13) / 3 then 0 else old(alloc[e])
    {
      if count < 0 || count > 3 {
        return -1;
      }
      if count == 0 {
        alloc[FW_AUDIO_BOOTFILE], alloc[FW_IMAGE_BOOTFILE], alloc[FW_VIDEO_BOOTFILE] := 0, 0, 0;
      }
      if count <= 1 {
        alloc[FW_AUDIO_CLOGO1], alloc[FW_IMAGE_CLOGO1], alloc[FW_VIDEO_CLOGO1] := 0, 0, 0;
      }
      if count <= 2 {
        alloc[FW_AUDIO_CLOGO2], alloc[FW_IMAGE_CLOGO2], alloc[FW_VIDEO_CLOGO2] := 0, 0, 0;
      }
      return 0;
    }

    method AlignFirmware(cfg: Config)
      requires Valid() && cfg.Valid()
      modifies alloc
      ensures forall e | 0 <= e < FW_UNKNOWN ::
        alloc[e] == if e < FW_ROOTFS then AlignMore(cfg.img[e], cfg.erase) else old(alloc[e])
    {
      for e := FW_KERNEL to FW_ROOTFS
        invariant forall i | 0 <= i < FW_UNKNOWN ::
          alloc[i] == if i < e then AlignMore(cfg.img[i], cfg.erase) else old(alloc[i])
      {
        alloc[e] := AlignMore(cfg.img[e], cfg.erase);
      }
    }

    method PlaceBoth(bottom: u64, slots: seq<int>, ghost c: seq<nat>) returns (low: u64, high: u64)
      requires Valid() && PartitionList(Listed(slots)) && IsChain(c)
      modifies offset
      ensures PlacedUp(alloc[..], offset[..], c, bottom) && PlacedDown(alloc[..], offset[..], Listed(slots), flashSize)
      ensures low == offset[Listed(slots)[0]] && high == Add64(offset[c[14]], alloc[c[14]])
      ensures forall e | 0 <= e < FW_UNKNOWN && e !in c && e !in Listed(slots) :: offset[e] == old(offset[e])
    {
      ChainListed(c);
      high := PlaceChain(bottom, c);
      ghost var up := offset[..];
      low := PlaceTopDown(slots, flashSize);
      FrameUp(alloc[..], up, alloc[..], offset[..], c, bottom);
    }

    /** The two stacks and the gap between them. */
    method PlaceStacks(bottom: u64, slots: seq<int>, ghost c: seq<nat>)
      requires Valid() && PartitionList(Listed(slots)) && IsChain(c)
      modifies alloc, offset
      ensures StacksPlaced(alloc[..], offset[..], Listed(slots), c, bottom, flashSize)
      ensures forall e | 0 <= e < FW_UNKNOWN && e != FW_P_FREE_SPACE :: alloc[e] == old(alloc[e])
      ensures Untouched(old(offset[..]), offset[..], Listed(slots), c)
    {
      ChainListed(c);
      var low, high := PlaceBoth(bottom, slots, c);
      RecordGap(low, high, bottom, Listed(slots), c);
    }

    /** The gap between the two stacks becomes free space, and nothing else moves. */
    method RecordGap(low: u64, high: u64, ghost bottom: u64, ghost order: seq<nat>, ghost c: seq<nat>)
      requires Valid() && PartitionList(order) && IsChain(c) && Lists(c, FW_ROOTFS)
      requires PlacedUp(alloc[..], offset[..], c, bottom) && PlacedDown(alloc[..], offset[..], order, flashSize)
      requires low == offset[order[0]] && high == Add64(offset[c[14]], alloc[c[14]])
      modifies alloc, offset
      ensures StacksPlaced(alloc[..], offset[..], order, c, bottom, flashSize)
      ensures forall e | 0 <= e < FW_UNKNOWN && e != FW_P_FREE_SPACE :: alloc[e] == old(alloc[e]) && offset[e] == old(offset[e])
    {
      ghost var a, o := alloc[..], offset[..];
      SetFreeSpace(low, high);
      FrameUp(a, o, alloc[..], offset[..], c, bottom);
      FrameDown(a, o, alloc[..], offset[..], order, flashSize);
    }

    /** The stacks and the scalar check, which an installation of the factory area only skips; 0 is success. */
    method StackAndCheck(bottom: u64, slots: seq<int>, onlyFactory: bool, ghost c: seq<nat>) returns (ret: int)
      requires Valid() && PartitionList(Listed(slots)) && IsChain(c)
      modifies alloc, offset
      ensures StacksPlaced(alloc[..], offset[..], Listed(slots), c, bottom, flashSize)
      ensures ret == if onlyFactory || Total(Counted(alloc[..])) % U64 <= flashSize then 0 else -1
      ensures forall e | 0 <= e < FW_UNKNOWN && e != FW_P_FREE_SPACE :: alloc[e] == old(alloc[e])
      ensures Untouched(old(offset[..]), offset[..], Listed(slots), c)
    {
      PlaceStacks(bottom, slots, c);
      if onlyFactory {
        return 0;
      }
      var need := NeedSize();
      ret := if need > flashSize then -1 else 0;
    }

    /** What lies below the NAND firmware: bootcode, the two factory slots, the descriptor table. */
    method ReserveNand(cfg: Config) returns (ret: int)
      requires Valid() && cfg.Valid()
      modifies alloc, offset
      ensures ret == if 0 <= cfg.avFiles <= 3 && !cfg.safeUpgrade then 0 else -1
      ensures ret == 0 ==> NandReserved(alloc[..], offset[..], cfg)
      ensures forall e | 0 <= e < FW_UNKNOWN && !(FW_BOOTCODE <= e <= FW_FW_TBL) ::
        (e >= FW_ROOTFS ==> alloc[e] == old(alloc[e])) && offset[e] == old(offset[e])
    {
      alloc[FW_BOOTCODE] := AlignMore(cfg.bootcodeSize, cfg.erase);
      AlignFirmware(cfg);
      ret := FillInstallAvCount(cfg.avFiles);
      if ret < 0 {
        return -1;
      }
      var section := Add32(cfg.factorySize, cfg.factorySize);
      offset[FW_FACTORY] := cfg.factoryStart;
      alloc[FW_FACTORY] := AlignMore(section, cfg.erase);
      offset[FW_FW_TBL] := Add32(cfg.bootcodeSize, section);
      alloc[FW_FW_TBL] := cfg.erase;
      if cfg.safeUpgrade {
        return -1;
      }
      offset[FW_BOOTCODE] := cfg.bootcodeStart;
    }

    method LayoutNand(cfg: Config, slots: seq<int>, ghost c: seq<nat>) returns (ret: int)
      requires Valid() && cfg.Valid() && PartitionList(Listed(slots)) && IsChain(c)
      modifies alloc, offset
      ensures ret == 0 ==> NandLaid(alloc[..], offset[..], cfg, Listed(slots), c, flashSize)
      ensures ret == 0 && !cfg.onlyFactory ==> Passes(alloc[..], flashSize)
      ensures ret != 0 ==> !(0 <= cfg.avFiles <= 3) || cfg.safeUpgrade || (!cfg.onlyFactory && !Passes(alloc[..], flashSize))
      ensures ret == 0 ==> 0 <= cfg.avFiles <= 3 && !cfg.safeUpgrade
      ensures ret == 0 ==> Unmoved(old(offset[..]), offset[..], c)
      ensures forall e | FW_ROOTFS <= e < FW_UNKNOWN && !(FW_BOOTCODE <= e <= FW_FW_TBL) && e != FW_P_FREE_SPACE ::
        alloc[e] == old(alloc[e])
      ensures forall e | 0 <= e < FW_UNKNOWN && !(FW_BOOTCODE <= e <= FW_FW_TBL) && e != FW_P_FREE_SPACE
                         && e !in Listed(slots) && e !in c :: offset[e] == old(offset[e])
    {
      ret := ReserveNand(cfg);
      if ret < 0 {
        return;
      }
      ChainListed(c);
      ret := StackAndCheck(Add64(offset[FW_FW_TBL], alloc[FW_FW_TBL]), slots, cfg.onlyFactory, c);
    }

    /** The sizes that do not depend on the reservations: boot code and firmware. */
    method SizeEmmcFirmware(cfg: Config) returns (ret: int)
      requires Valid() && cfg.Valid()
      modifies alloc
      ensures ret == if 0 <= cfg.avFiles <= 3 then 0 else -1
      ensures alloc[FW_BOOTCODE] == AlignMore(cfg.bootcodeSize, cfg.erase)
      ensures ret == 0 ==> EmmcFirmwareSized(alloc[..], cfg)
      ensures forall e | FW_ROOTFS <= e < FW_UNKNOWN && e != FW_BOOTCODE :: alloc[e] == old(alloc[e])
    {
      alloc[FW_BOOTCODE] := AlignMore(cfg.bootcodeSize, cfg.erase);
      AlignFirmware(cfg);
      alloc[FW_RESCUE_DT] := DT_SIZE;
      alloc[FW_KERNEL_DT] := DT_SIZE;
      ret := FillInstallAvCount(cfg.avFiles);
    }

    /** What lies below the eMMC firmware: two factory slots and two descriptor tables. */
    method ReserveEmmc(cfg: Config) returns (ret: int)
      requires Valid() && cfg.Valid()
      modifies alloc, offset
      ensures ret == if 0 <= cfg.avFiles <= 3 then 0 else -1
      ensures ret == 0 ==> EmmcReserved(alloc[..], offset[..], cfg)
      ensures forall e | 0 <= e < FW_UNKNOWN && !(FW_BOOTCODE <= e <= FW_FW_TBL) && e != FW_GOLD_FW_TBL ::
        (e >= FW_ROOTFS ==> alloc[e] == old(alloc[e])) && offset[e] == old(offset[e])
    {
      ret := SizeEmmcFirmware(cfg);
      if ret < 0 {
        return -1;
      }
      PlaceEmmcTables(cfg);
      assert EmmcFirmwareSized(alloc[..], cfg);
    }

    method PlaceEmmcTables(cfg: Config)
      requires Valid() && cfg.Valid()
      modifies alloc, offset
      ensures EmmcTables(alloc[..], offset[..], cfg)
      ensures forall e | 0 <= e < FW_UNKNOWN && !(FW_FACTORY <= e <= FW_FW_TBL) && e != FW_GOLD_FW_TBL ::
        alloc[e] == old(alloc[e]) && (e != FW_BOOTCODE ==> offset[e] == old(offset[e]))
    {
      var section := Add32(cfg.factorySize, cfg.factorySize);
      offset[FW_FACTORY] := cfg.factoryStart;
      alloc[FW_FACTORY] := AlignMore(section, cfg.erase);
      var reserved := Low32(offset[FW_FACTORY] as int + alloc[FW_FACTORY] as int);
      offset[FW_FW_TBL] := reserved;
      alloc[FW_FW_TBL] := BOOTTABLE;
      offset[FW_GOLD_FW_TBL] := offset[FW_FW_TBL] + BOOTTABLE;
      alloc[FW_GOLD_FW_TBL] := BOOTTABLE;
      offset[FW_BOOTCODE] := cfg.bootcodeStart;
    }

    /** The eMMC branch with backup off; its erase size is 512. */
    method LayoutEmmc(cfg: Config, slots: seq<int>, ghost c: seq<nat>) returns (ret: int)
      requires Valid() && cfg.Valid() && cfg.erase == 512 && PartitionList(Listed(slots)) && IsChain(c)
      modifies alloc, offset
      ensures ret == 0 ==> EmmcLaid(alloc[..], offset[..], cfg, Listed(slots), c, flashSize)
      ensures ret == 0 && !cfg.onlyFactory ==> Passes(alloc[..], flashSize)
      ensures ret != 0 ==> !(0 <= cfg.avFiles <= 3) || (!cfg.onlyFactory && !Passes(alloc[..], flashSize))
      ensures ret == 0 ==> 0 <= cfg.avFiles <= 3
      ensures ret == 0 ==> Unmoved(old(offset[..]), offset[..], c)
      ensures forall e | FW_ROOTFS <= e < FW_UNKNOWN && !(FW_BOOTCODE <= e <= FW_FW_TBL)
                         && e != FW_GOLD_FW_TBL && e != FW_P_FREE_SPACE :: alloc[e] == old(alloc[e])
      ensures forall e | 0 <= e < FW_UNKNOWN && !(FW_BOOTCODE <= e <= FW_FW_TBL)
                         && e != FW_GOLD_FW_TBL && e != FW_P_FREE_SPACE
                         && e !in Listed(slots) && e !in c :: offset[e] == old(offset[e])
    {
      ret := ReserveEmmc(cfg);
      if ret < 0 {
        return;
      }
      ChainListed(c);
      ret := StackAndCheck(Add64(offset[FW_GOLD_FW_TBL], alloc[FW_GOLD_FW_TBL]), slots, cfg.onlyFactory, c);
    }
  }

  /** The inputs the layout reads; sizes of images are 32-bit, erase sizes powers of two. */
  datatype Config = Config(eraseBits: nat, factoryStart: nat, factorySize: nat,
                           bootcodeStart: nat, bootcodeSize: nat, avFiles: int, safeUpgrade: bool, onlyFactory: bool,
                           img: seq<nat>) {
    const erase: nat := Pow2(eraseBits)

    ghost predicate Valid() {
      && |img| == FW_UNKNOWN && (forall e | 0 <= e < FW_UNKNOWN :: img[e] < U32)
      && eraseBits < 32 && erase <= U32
      && factoryStart < U32 && factorySize < U32 && bootcodeStart < U32 && bootcodeSize < U32
    }

    /** What the branches give firmware image e, in whole erase blocks. */
    function FirmwareSize(e: nat): u64
      requires e < |img| && 0 < erase <= U64
    {
      if Dropped(e, avFiles) then 0 else AlignMore(img[e], erase)
    }

    /** factory_section_size */
    function Section(): nat
      requires factorySize < U32
    {
      Add32(factorySize, factorySize)
    }
  }

  /** The two device trees have a fixed allocation on eMMC. */
  predicate IsDeviceTree(e: nat) { e == FW_RESCUE_DT || e == FW_KERNEL_DT }

  predicate Dropped(e: nat, count: int) {
    || (count == 0 && (e == FW_AUDIO_BOOTFILE || e == FW_IMAGE_BOOTFILE || e == FW_VIDEO_BOOTFILE))
    || (0 <= count <= 1 && (e == FW_AUDIO_CLOGO1 || e == FW_IMAGE_CLOGO1 || e == FW_VIDEO_CLOGO1))
    || (0 <= count <= 2 && (e == FW_AUDIO_CLOGO2 || e == FW_IMAGE_CLOGO2 || e == FW_VIDEO_CLOGO2))
  }

  /** File number (e - 13) / 3 of its kind is dropped if the count does not reach it. */
  lemma DroppedIff(e: nat, count: int)
    ensures Dropped(e, count) <==> 13 <= e <= 21 && 0 <= count <= (e - 13) / 3
  {}

  ghost predicate StacksPlaced(alloc: seq<u64>, offset: seq<u64>, order: seq<nat>, c: seq<nat>, bottom: u64, flash: u64) {
    && |alloc| == |offset| == FW_UNKNOWN && PartitionList(order) && IsChain(c)
    && PlacedUp(alloc, offset, c, bottom) && PlacedDown(alloc, offset, order, flash)
    && var low, high := offset[order[0]], Add64(offset[c[14]], alloc[c[14]]);
       low > high ==> offset[FW_P_FREE_SPACE] == high && alloc[FW_P_FREE_SPACE] == low - high
  }

  ghost predicate NandReserved(alloc: seq<u64>, offset: seq<u64>, cfg: Config) {
    && cfg.Valid() && |alloc| == |offset| == FW_UNKNOWN
    && alloc[FW_BOOTCODE] == AlignMore(cfg.bootcodeSize, cfg.erase) && offset[FW_BOOTCODE] == cfg.bootcodeStart
    && alloc[FW_FACTORY] == AlignMore(cfg.Section(), cfg.erase) && offset[FW_FACTORY] == cfg.factoryStart
    && alloc[FW_FW_TBL] == cfg.erase && offset[FW_FW_TBL] == Add32(cfg.bootcodeSize, cfg.Section())
    && forall e | 0 <= e < FW_ROOTFS :: alloc[e] == cfg.FirmwareSize(e)
  }

  /** The layout space check. */
  ghost predicate Passes(alloc: seq<u64>, flash: u64) {
    Total(Counted(alloc)) % U64 <= flash
  }

  /** What the NAND branch does, before the check. */
  ghost predicate NandLaid(alloc: seq<u64>, offset: seq<u64>, cfg: Config, order: seq<nat>, c: seq<nat>, flash: u64) {
    && NandReserved(alloc, offset, cfg)
    && StacksPlaced(alloc, offset, order, c, Add64(offset[FW_FW_TBL], alloc[FW_FW_TBL]), flash)
  }

  ghost predicate NandPlaced(alloc: seq<u64>, offset: seq<u64>, cfg: Config, order: seq<nat>, c: seq<nat>, flash: u64) {
    NandLaid(alloc, offset, cfg, order, c, flash) && Passes(alloc, flash)
  }

  ghost predicate EmmcTables(alloc: seq<u64>, offset: seq<u64>, cfg: Config) {
    && cfg.Valid() && |alloc| == |offset| == FW_UNKNOWN
    && alloc[FW_FACTORY] == AlignMore(cfg.Section(), cfg.erase) && offset[FW_FACTORY] == cfg.factoryStart
    && alloc[FW_FW_TBL] == 0x8000 && offset[FW_FW_TBL] == Low32(cfg.factoryStart + alloc[FW_FACTORY])
    && alloc[FW_GOLD_FW_TBL] == 0x8000 && offset[FW_GOLD_FW_TBL] == offset[FW_FW_TBL] + 0x8000
    && offset[FW_BOOTCODE] == cfg.bootcodeStart
  }

  ghost predicate EmmcFirmwareSized(alloc: seq<u64>, cfg: Config) {
    && cfg.Valid() && |alloc| == FW_UNKNOWN
    && forall e | 0 <= e < FW_ROOTFS :: alloc[e] == if IsDeviceTree(e) then DT_SIZE else cfg.FirmwareSize(e)
  }

  ghost predicate EmmcReserved(alloc: seq<u64>, offset: seq<u64>, cfg: Config) {
    && EmmcTables(alloc, offset, cfg) && EmmcFirmwareSized(alloc, cfg)
    && alloc[FW_BOOTCODE] == AlignMore(cfg.bootcodeSize, cfg.erase)
  }

  /** What the eMMC branch does, before the check. */
  ghost predicate EmmcLaid(alloc: seq<u64>, offset: seq<u64>, cfg: Config, order: seq<nat>, c: seq<nat>, flash: u64) {
    && EmmcReserved(alloc, offset, cfg)
    && StacksPlaced(alloc, offset, order, c, Add64(offset[FW_GOLD_FW_TBL], alloc[FW_GOLD_FW_TBL]), flash)
  }

  ghost predicate EmmcPlaced(alloc: seq<u64>, offset: seq<u64>, cfg: Config, order: seq<nat>, c: seq<nat>, flash: u64) {
    EmmcLaid(alloc, offset, cfg, order, c, flash) && Passes(alloc, flash)
  }

  /** Firmware types that the chain does not name keep their offsets. */
  ghost predicate Unmoved(was: seq<u64>, now: seq<u64>, c: seq<nat>) {
    |was| == |now| == FW_UNKNOWN && forall e | 0 <= e < FW_ROOTFS && e !in c :: now[e] == was[e]
  }

  /** And so do all types that are in neither stack, except the free space. */
  ghost predicate Untouched(was: seq<u64>, now: seq<u64>, order: seq<nat>, c: seq<nat>) {
    && |was| == |now| == FW_UNKNOWN
    && forall e | 0 <= e < FW_UNKNOWN && e !in order && e !in c && e != FW_P_FREE_SPACE :: now[e] == was[e]
  }

  lemma FrameUp(a: seq<u64>, o: seq<u64>, a': seq<u64>, o': seq<u64>, ids: seq<nat>, base: int)
    requires PlacedUp(a, o, ids, base) && |a'| == |o'| == |a|
    requires forall i | 0 <= i < |ids| :: a'[ids[i]] == a[ids[i]] && o'[ids[i]] == o[ids[i]]
    ensures PlacedUp(a', o', ids, base)
  {
    forall k | 0 < k < |ids| ensures Follows(a', o', ids, k) { assert Follows(a, o, ids, k); }
  }

  lemma FrameDown(a: seq<u64>, o: seq<u64>, a': seq<u64>, o': seq<u64>, ids: seq<nat>, top: u64)
    requires PlacedDown(a, o, ids, top) && |a'| == |o'| == |a|
    requires forall i | 0 <= i < |ids| :: a'[ids[i]] == a[ids[i]] && o'[ids[i]] == o[ids[i]]
    ensures PlacedDown(a', o', ids, top)
  {
    forall k | 0 < k < |ids| ensures Precedes(a', o', ids, k) { assert Precedes(a, o, ids, k); }
  }

  ghost predicate Covers(order: seq<nat>, n: nat) {
    forall e | 0 <= e < n :: e in order
  }

  /** Counted types that the eMMC branch neither reserves nor places. */
  predicate Foreign(e: nat) {
    && FW_USR_LOCAL_ETC < e && !Uncounted(e)
    && e != FW_BOOTCODE && e != FW_FACTORY && e != FW_FW_TBL && e != FW_GOLD_FW_TBL
  }

  predicate Uncounted(e: nat) {
    e == FW_P_FREE_SPACE || e == FW_P_SSU_WORKING || e == FW_UBOOT
  }

  /** The first n places hold the largest offsets, in descending order. */
  ghost predicate Descending(offset: seq<nat>, sort: seq<nat>, n: nat)
    requires Bounded(sort, |offset|) && n <= |sort|
  {
    forall a, b | 0 <= a < n && a < b < |sort| :: offset[sort[a]] >= offset[sort[b]]
  }

  lemma SwapDescends(offset: seq<nat>, s: seq<nat>, i: nat, max: nat)
    requires Bounded(s, |offset|) && i <= max < |s| && Descending(offset, s, i)
    requires forall b | i <= b < |s| :: offset[s[max]] >= offset[s[b]]
    ensures Descending(offset, s[i := s[max]][max := s[i]], i + 1)
  {
    var t := s[i := s[max]][max := s[i]];
    forall a, b | 0 <= a < i + 1 && a < b < |s| ensures offset[t[a]] >= offset[t[b]] {
      var b' := if b == i then max else if b == max then i else b;
      assert t[b] == s[b'];
    }
  }

  lemma SwapKeeps(s: seq<nat>, i: nat, j: nat)
    requires i < |s| && j < |s| && Lists(s, |s|) && Covers(s, |s|)
    ensures var t := s[i := s[j]][j := s[i]]; Lists(t, |s|) && Covers(t, |s|)
  {
    var t := s[i := s[j]][j := s[i]];
    forall e | 0 <= e < |s| ensures e in t {
      assert e in s;
      var k :| 0 <= k < |s| && s[k] == e;
      assert t[if k == i then j else if k == j then i else k] == e;
    }
  }

  lemma AddMod(a: nat, b: nat)
    ensures (a % U64 + b) % U64 == (a + b) % U64
  {}

  /** What each type contributes to flash_total_need_size. */
  function Counted(alloc: seq<nat>): (s: seq<nat>)
    ensures |s| == |alloc|
    ensures forall e | 0 <= e < |s| :: s[e] == if Uncounted(e) then 0 else alloc[e]
  {
    seq(|alloc|, e requires 0 <= e < |alloc| => if Uncounted(e) then 0 else alloc[e])
  }

  /** Every type counts but free space, the part of the running system and the boot loader (42, 41 and 49). */
  lemma CountedAllBut(alloc: seq<nat>)
    requires |alloc| == FW_UNKNOWN
    ensures Total(Counted(alloc)) + alloc[41] + alloc[42] + alloc[49] == Total(alloc)
  {
    CountedTo(alloc, FW_UNKNOWN);
  }

  lemma {:induction false} CountedTo(alloc: seq<nat>, n: nat)
    requires n <= |alloc| == FW_UNKNOWN
    ensures SumTo(Counted(alloc), n) + (if n > 41 then alloc[41] else 0) + (if n > 42 then alloc[42] else 0)
            + (if n > 49 then alloc[49] else 0) == SumTo(alloc, n)
  {
    if n > 0 { CountedTo(alloc, n - 1); }
  }
}
