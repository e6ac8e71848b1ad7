/**
 * The NOR/SPI branch with safe upgrade: each upgrade writes the half of the flash that the
 * running system does not use, and the protected half becomes FW_P_SSU_WORKING.
 */
module SafeUpgrade {
  import opened Words
  import opened Align
  import opened Sums
  import opened Stacks
  import opened FlashLayout
  import opened LayoutSound

  const FW_VIDEO: nat := 10
  const FW_VIDEO2: nat := 11
  const FW_DATA: nat := 25
  const P_PARTITION1: nat := 27
  const P_PARTITION2: nat := 28
  const P_PARTITION3: nat := 29
  const P_PARTITION4: nat := 30
  const P_PARTITION5: nat := 31

  /** Placed downwards from the top of the half, so listed here from the lowest up. */
  ghost predicate IsUpper(u: seq<nat>) {
    && |u| == 14
    && u[0] == P_PARTITION1 && u[1] == P_PARTITION2 && u[2] == P_PARTITION3 && u[3] == P_PARTITION4
    && u[4] == P_PARTITION5 && u[5] == FW_AUDIO_CLOGO2 && u[6] == FW_VIDEO_CLOGO2 && u[7] == FW_AUDIO_CLOGO1
    && u[8] == FW_VIDEO_CLOGO1 && u[9] == FW_AUDIO_BOOTFILE && u[10] == FW_VIDEO_BOOTFILE && u[11] == FW_KERNEL
    && u[12] == FW_AUDIO && u[13] == FW_VIDEO
  }

  /** Placed upwards from the bottom of the half. */
  ghost predicate IsLower(l: seq<nat>) {
    |l| == 2 && l[0] == FW_USR_LOCAL_ETC && l[1] == FW_ROOTFS
  }

  lemma SsuTypes(l: seq<nat>, u: seq<nat>)
    requires IsLower(l) && IsUpper(u)
    ensures Lists(l, FW_UNKNOWN) && Lists(u, FW_UNKNOWN)
    ensures forall e | FW_USR_LOCAL_ETC < e < FW_UNKNOWN :: e !in u && e !in l
    ensures forall i | 0 <= i < |l| :: l[i] !in u
  {}

  /** Firmware and partition types that the branch never gives an offset. */
  predicate Unplaced(e: nat) {
    || (FW_KERNEL < e < FW_AUDIO) || e == 9 || e == FW_VIDEO2 || e == 12
    || e == FW_IMAGE_BOOTFILE || e == FW_IMAGE_CLOGO1 || e == FW_IMAGE_CLOGO2
    || (FW_ROOTFS < e < P_PARTITION1) || (P_PARTITION5 < e < FW_USR_LOCAL_ETC)
  }

  lemma UnplacedIff(l: seq<nat>, u: seq<nat>, e: nat)
    requires IsLower(l) && IsUpper(u) && e <= FW_USR_LOCAL_ETC
    ensures Unplaced(e) <==> e !in l + u
  {
    assert u == [P_PARTITION1, P_PARTITION2, P_PARTITION3, P_PARTITION4, P_PARTITION5, FW_AUDIO_CLOGO2, FW_VIDEO_CLOGO2,
                 FW_AUDIO_CLOGO1, FW_VIDEO_CLOGO1, FW_AUDIO_BOOTFILE, FW_VIDEO_BOOTFILE, FW_KERNEL, FW_AUDIO, FW_VIDEO];
    assert l == [FW_USR_LOCAL_ETC, FW_ROOTFS];
  }

  lemma UnplacedTypes(l: seq<nat>, u: seq<nat>)
    requires IsLower(l) && IsUpper(u)
    ensures forall e: nat | Unplaced(e) :: e <= FW_USR_LOCAL_ETC && e !in l && e !in u
  {
    forall e: nat | Unplaced(e) ensures e !in l && e !in u { UnplacedIff(l, u, e); }
  }

  /**
   * What the branch reads. bootCheck is the answer of check_spi_bootcode_size, which is negative when it fails, and
   * the rescue area is what it left; without a boot code to install it is 0.
   */
  datatype Config = Config(eraseBits: nat, bootCheck: int, rescueStart: nat, rescueSize: nat, bootcodeStart: nat,
                           factoryStart: nat, factorySize: nat, avFiles: int, onlyFactory: bool, img: seq<nat>) {
    const erase: nat := Pow2(eraseBits)

    ghost predicate Valid() {
      && |img| == FW_UNKNOWN && (forall e | 0 <= e < FW_UNKNOWN :: img[e] < U32)
      && eraseBits < 32 && erase <= U32 && bootCheck <= 0
      && rescueStart < U32 && rescueSize < U32 && bootcodeStart < U32 && factoryStart < U32 && factorySize < U32
    }
  }

  /** The part written by this upgrade and the part kept for the running system. */
  datatype Halves = Halves(bottom: u64, top: u64, workOffset: u64, workAlloc: u64)

  /** less and more are the block boundaries around the middle of the flash. */
  function HalvesOf(flash: u64, less: u64, more: u64, section: u64, bootEnd: u64, work: nat): Halves {
    if work == 1 then Halves(more, Sub64(flash, section), bootEnd, Sub64(less, bootEnd))
    else Halves(bootEnd, less, more, Sub64(Sub64(flash, section), more))
  }

  function Low64(x: nat): u64 {
    if x < U64 then x else x % U64
  }

  /** The part that is current after a completed upgrade. */
  function NextPart(work: nat): nat {
    if work == 1 then 2 else 1
  }

  /** The last whole block of the low half, and the first whole block of the high half. */
  function LowEnd(cfg: Config, flash: u64): u64
    requires 0 < cfg.erase <= U64
  {
    Low64(AlignLess(flash / 2, cfg.erase))
  }

  function HighStart(cfg: Config, flash: u64): u64
    requires 0 < cfg.erase <= U64
  {
    AlignMore(flash / 2, cfg.erase)
  }

  /** Where the boot area ends, and how long the factory section is. */
  function BootAlloc(cfg: Config): u64
    requires cfg.rescueStart < U32 && cfg.rescueSize < U32 && 0 < cfg.erase <= U64
  {
    AlignMore(Add32(cfg.rescueStart, cfg.rescueSize), cfg.erase)
  }

  function BootEnd(cfg: Config): u64
    requires cfg.rescueStart < U32 && cfg.rescueSize < U32 && cfg.bootcodeStart < U32 && 0 < cfg.erase <= U64
  {
    Add64(cfg.bootcodeStart, BootAlloc(cfg))
  }

  function SectionOf(cfg: Config): u64
    requires cfg.factorySize < U32 && 0 < cfg.erase <= U64
  {
    Low32(AlignMore(Add32(cfg.factorySize, cfg.factorySize), cfg.erase))
  }

  function HalvesFor(cfg: Config, flash: u64, work: nat): Halves
    requires cfg.rescueStart < U32 && cfg.rescueSize < U32 && cfg.bootcodeStart < U32 && cfg.factorySize < U32
    requires 0 < cfg.erase <= U64
  {
    HalvesOf(flash, LowEnd(cfg, flash), HighStart(cfg, flash), SectionOf(cfg), BootEnd(cfg), work)
  }

  method PlaceBefore(s: Layout, e: nat, next: nat, ghost u: seq<nat>, ghost k: nat, ghost top: u64, ghost was: seq<u64>)
    requires s.Valid() && Lists(u, FW_UNKNOWN) && 0 < k < |u| && |was| == FW_UNKNOWN
    requires UpperFrom(s.alloc[..], s.offset[..], u, k, top, was) && e == u[k - 1] && next == u[k]
    modifies s.offset
    ensures UpperFrom(s.alloc[..], s.offset[..], u, k - 1, top, was)
  {
    ghost var before := s.offset[..];
    s.offset[e] := Sub64(s.offset[next], s.alloc[e]);
    forall m | k < m < |u| ensures Precedes(s.alloc[..], s.offset[..], u, m) {
      assert Precedes(s.alloc[..], before, u, m);
    }
  }

  /** The upper stack is in place from its k-th region up, and nothing outside it has moved. */
  ghost predicate UpperFrom(alloc: seq<u64>, offset: seq<u64>, u: seq<nat>, k: nat, top: u64, was: seq<u64>)
    requires |alloc| == |offset| == |was| == FW_UNKNOWN && Lists(u, FW_UNKNOWN) && k < |u|
  {
    && offset[u[|u| - 1]] == Sub64(top, alloc[u[|u| - 1]])
    && (forall m | k < m < |u| :: Precedes(alloc, offset, u, m))
    && (forall e | 0 <= e < FW_UNKNOWN && e !in u :: offset[e] == was[e])
  }

  method PlaceUpper(s: Layout, top: u64, ghost u: seq<nat>) returns (low: u64)
    requires s.Valid() && IsUpper(u) && Lists(u, FW_UNKNOWN)
    modifies s.offset
    ensures PlacedDown(s.alloc[..], s.offset[..], u, top) && low == s.offset[P_PARTITION1]
    ensures forall e | 0 <= e < FW_UNKNOWN && e !in u :: s.offset[e] == old(s.offset[e])
  {
    ghost var was := s.offset[..];
    s.offset[FW_VIDEO] := Sub64(top, s.alloc[FW_VIDEO]);
    PlaceBefore(s, FW_AUDIO, FW_VIDEO, u, 13, top, was);
    PlaceBefore(s, FW_KERNEL, FW_AUDIO, u, 12, top, was);
    PlaceBefore(s, FW_VIDEO_BOOTFILE, FW_KERNEL, u, 11, top, was);
    PlaceBefore(s, FW_AUDIO_BOOTFILE, FW_VIDEO_BOOTFILE, u, 10, top, was);
    PlaceBefore(s, FW_VIDEO_CLOGO1, FW_AUDIO_BOOTFILE, u, 9, top, was);
    PlaceBefore(s, FW_AUDIO_CLOGO1, FW_VIDEO_CLOGO1, u, 8, top, was);
    PlaceBefore(s, FW_VIDEO_CLOGO2, FW_AUDIO_CLOGO1, u, 7, top, was);
    PlaceBefore(s, FW_AUDIO_CLOGO2, FW_VIDEO_CLOGO2, u, 6, top, was);
    PlaceBefore(s, P_PARTITION5, FW_AUDIO_CLOGO2, u, 5, top, was);
    PlaceBefore(s, P_PARTITION4, P_PARTITION5, u, 4, top, was);
    PlaceBefore(s, P_PARTITION3, P_PARTITION4, u, 3, top, was);
    PlaceBefore(s, P_PARTITION2, P_PARTITION3, u, 2, top, was);
    PlaceBefore(s, P_PARTITION1, P_PARTITION2, u, 1, top, was);
    low := s.offset[P_PARTITION1];
  }

  predicate AlignedByNor(e: nat) {
    e == FW_KERNEL || e == FW_AUDIO_BOOTFILE || e == FW_VIDEO_BOOTFILE || e == FW_AUDIO || e == FW_VIDEO || e == FW_VIDEO2
  }

  ghost predicate NorReserved(alloc: seq<u64>, offset: seq<u64>, cfg: Config) {
    && cfg.Valid() && |alloc| == |offset| == FW_UNKNOWN
    && alloc[FW_BOOTCODE] == BootAlloc(cfg) && offset[FW_BOOTCODE] == cfg.bootcodeStart
    && alloc[FW_FACTORY] == SectionOf(cfg) && offset[FW_FACTORY] == cfg.factoryStart
    && forall e | 0 <= e < FW_ROOTFS && AlignedByNor(e) ::
         alloc[e] == if Dropped(e, cfg.avFiles) then 0 else AlignMore(cfg.img[e], cfg.erase)
  }

  /** The space of firmware or partition e, which had was before. */
  function SpaceFor(was: u64, cfg: Config, e: nat): u64
    requires e < |cfg.img| && 0 < cfg.erase <= U64
  {
    if Dropped(e, cfg.avFiles) then 0
    else if e < FW_ROOTFS && AlignedByNor(e) then AlignMore(cfg.img[e], cfg.erase)
    else was
  }

  method ReserveNor(s: Layout, cfg: Config) returns (ret: int)
    requires s.Valid() && cfg.Valid()
    modifies s.alloc, s.offset
    ensures ret == if cfg.bootCheck < 0 then cfg.bootCheck else if 0 <= cfg.avFiles <= 3 then 0 else -1
    ensures ret == 0 ==> NorReserved(s.alloc[..], s.offset[..], cfg)
    ensures ret == 0 ==> forall e | 0 <= e <= FW_USR_LOCAL_ETC :: s.alloc[e] == SpaceFor(old(s.alloc[e]), cfg, e)
    ensures forall e | 0 <= e < FW_UNKNOWN && e != FW_BOOTCODE && e != FW_FACTORY ::
      s.offset[e] == old(s.offset[e]) && (e >= FW_ROOTFS ==> s.alloc[e] == old(s.alloc[e]))
  {
    if cfg.bootCheck < 0 {
      return cfg.bootCheck;
    }
    s.alloc[FW_BOOTCODE] := AlignMore(Add32(cfg.rescueStart, cfg.rescueSize), cfg.erase);
    for e := FW_KERNEL to FW_ROOTFS
      invariant s.offset[..] == old(s.offset[..])
      invariant s.alloc[FW_BOOTCODE] == AlignMore(Add32(cfg.rescueStart, cfg.rescueSize), cfg.erase)
      invariant forall i | 0 <= i < FW_UNKNOWN && i != FW_BOOTCODE ::
        s.alloc[i] == if i < e && AlignedByNor(i) then AlignMore(cfg.img[i], cfg.erase) else old(s.alloc[i])
    {
      if AlignedByNor(e) {
        s.alloc[e] := AlignMore(cfg.img[e], cfg.erase);
      }
    }
    ret := s.FillInstallAvCount(cfg.avFiles);
    if ret < 0 {
      return -1;
    }
    s.offset[FW_FACTORY] := cfg.factoryStart;
    s.alloc[FW_FACTORY] := Low32(AlignMore(Add32(cfg.factorySize, cfg.factorySize), cfg.erase));
    s.offset[FW_BOOTCODE] := cfg.bootcodeStart;
  }

  /** What the safe-upgrade branch does, before the check. */
  ghost predicate SsuLaid(alloc: seq<u64>, offset: seq<u64>, cfg: Config, flash: u64, work: nat, l: seq<nat>, u: seq<nat>) {
    && NorReserved(alloc, offset, cfg) && IsLower(l) && IsUpper(u) && work <= 2
    && var h := HalvesFor(cfg, flash, work);
       && PlacedUp(alloc, offset, l, h.bottom) && PlacedDown(alloc, offset, u, h.top)
       && offset[FW_P_SSU_WORKING] == h.workOffset && alloc[FW_P_SSU_WORKING] == h.workAlloc
       && FreeIsGap(alloc, offset, l, u)
  }

  /** The safe-upgrade space check. */
  ghost predicate RoomEnough(alloc: seq<u64>, cfg: Config, flash: u64, work: nat) {
    cfg.Valid() && Total(Counted(alloc)) % U64 <= Room(HalvesFor(cfg, flash, work), BootAlloc(cfg), SectionOf(cfg))
  }

  /** An upgrade layout that passed the space check of the safe-upgrade branch. */
  ghost predicate SsuPlaced(alloc: seq<u64>, offset: seq<u64>, cfg: Config, flash: u64, work: nat, l: seq<nat>, u: seq<nat>) {
    SsuLaid(alloc, offset, cfg, flash, work, l, u) && RoomEnough(alloc, cfg, flash, work)
  }

  /** A gap between the two stacks is recorded as free space. */
  ghost predicate FreeIsGap(alloc: seq<u64>, offset: seq<u64>, l: seq<nat>, u: seq<nat>)
    requires |alloc| == |offset| == FW_UNKNOWN && IsLower(l) && IsUpper(u)
  {
    var low, high := offset[u[0]], Add64(offset[l[1]], alloc[l[1]]);
    low > high ==> offset[FW_P_FREE_SPACE] == high && alloc[FW_P_FREE_SPACE] == low - high
  }

  /** The right-hand side of the safe-upgrade space check. */
  function Room(h: Halves, boot: u64, section: u64): u64 {
    Add64(Add64(Sub64(h.top, h.bottom), boot), section)
  }

  method PlaceLower(s: Layout, bottom: u64, ghost l: seq<nat>) returns (high: u64)
    requires s.Valid() && IsLower(l)
    modifies s.offset
    ensures PlacedUp(s.alloc[..], s.offset[..], l, bottom) && high == Add64(s.offset[FW_ROOTFS], s.alloc[FW_ROOTFS])
    ensures forall e | 0 <= e < FW_UNKNOWN && e !in l :: s.offset[e] == old(s.offset[e])
  {
    s.offset[FW_USR_LOCAL_ETC] := bottom;
    s.offset[FW_ROOTFS] := Add64(s.offset[FW_USR_LOCAL_ETC], s.alloc[FW_USR_LOCAL_ETC]);
    high := Add64(s.offset[FW_ROOTFS], s.alloc[FW_ROOTFS]);
    assert Follows(s.alloc[..], s.offset[..], l, 1);
  }

  /** Types above the partitions, but for the free space and the part of the running system. */
  predicate Above(e: nat) {
    e > FW_USR_LOCAL_ETC && e != FW_P_FREE_SPACE && e != FW_P_SSU_WORKING
  }

  method PlaceHalves(s: Layout, h: Halves, ghost l: seq<nat>, ghost u: seq<nat>)
    requires s.Valid() && IsLower(l) && IsUpper(u)
    modifies s.alloc, s.offset
    ensures PlacedUp(s.alloc[..], s.offset[..], l, h.bottom) && PlacedDown(s.alloc[..], s.offset[..], u, h.top)
    ensures s.offset[FW_P_SSU_WORKING] == h.workOffset && s.alloc[FW_P_SSU_WORKING] == h.workAlloc
    ensures FreeIsGap(s.alloc[..], s.offset[..], l, u)
    ensures forall e | 0 <= e < FW_UNKNOWN && (Unplaced(e) || Above(e)) :: s.offset[e] == old(s.offset[e])
    ensures forall e | 0 <= e < FW_UNKNOWN && e != FW_P_FREE_SPACE && e != FW_P_SSU_WORKING :: s.alloc[e] == old(s.alloc[e])
  {
    SsuTypes(l, u);
    UnplacedTypes(l, u);
    s.offset[FW_P_SSU_WORKING], s.alloc[FW_P_SSU_WORKING] := h.workOffset, h.workAlloc;
    var low, high := PlaceRegions(s, h.bottom, h.top, l, u);
    ghost var a, o := s.alloc[..], s.offset[..];
    s.SetFreeSpace(low, high);
    FrameUp(a, o, s.alloc[..], s.offset[..], l, h.bottom);
    FrameDown(a, o, s.alloc[..], s.offset[..], u, h.top);
  }

  /** Both stacks of the half, and their ends towards each other. */
  method PlaceRegions(s: Layout, bottom: u64, top: u64, ghost l: seq<nat>, ghost u: seq<nat>) returns (low: u64, high: u64)
    requires s.Valid() && IsLower(l) && IsUpper(u)
    modifies s.offset
    ensures PlacedUp(s.alloc[..], s.offset[..], l, bottom) && PlacedDown(s.alloc[..], s.offset[..], u, top)
    ensures low == s.offset[u[0]] && high == Add64(s.offset[l[1]], s.alloc[l[1]])
    ensures forall e | 0 <= e < FW_UNKNOWN && e !in l && e !in u :: s.offset[e] == old(s.offset[e])
  {
    SsuTypes(l, u);
    low := PlaceUpper(s, top, u);
    ghost var up := s.offset[..];
    high := PlaceLower(s, bottom, l);
    FrameDown(s.alloc[..], up, s.alloc[..], s.offset[..], u, top);
  }

  /** All firmware and partitions have the space they ask for, and the unplaced ones the offset they had. */
  ghost predicate LeftWhere(was: seq<u64>, at: seq<u64>, alloc: seq<u64>, offset: seq<u64>, cfg: Config) {
    && cfg.Valid() && |was| == |at| == |alloc| == |offset| == FW_UNKNOWN
    && (forall e | 0 <= e <= FW_USR_LOCAL_ETC :: alloc[e] == SpaceFor(was[e], cfg, e))
    && (forall e | 0 <= e < FW_UNKNOWN && Unplaced(e) :: offset[e] == at[e])
  }

  /**
   * Kernel, audio, video and the two boot files get their size in whole blocks, unless the A/V count leaves them
   * out; every other type keeps the space it had, with the same exception.
   */
  lemma NorFirmwareFits(was: seq<u64>, at: seq<u64>, alloc: seq<u64>, offset: seq<u64>, cfg: Config, e: nat)
    requires LeftWhere(was, at, alloc, offset, cfg) && e <= FW_USR_LOCAL_ETC
    ensures if 13 <= e <= 21 && 0 <= cfg.avFiles <= (e - 13) / 3 then alloc[e] == 0
            else if e == FW_KERNEL || e == FW_AUDIO || e == FW_VIDEO || e == FW_VIDEO2
                    || e == FW_AUDIO_BOOTFILE || e == FW_VIDEO_BOOTFILE then
              cfg.img[e] <= alloc[e] < cfg.img[e] + cfg.erase && alloc[e] % cfg.erase == 0
            else alloc[e] == was[e]
  {
    DroppedIff(e, cfg.avFiles);
    AlignMoreIsCeiling(cfg.img[e], cfg.eraseBits);
  }

  /** 0 is success; next is the part to record as working once the upgrade is complete. */
  method LayoutSsu(s: Layout, cfg: Config, work: int, ghost l: seq<nat>, ghost u: seq<nat>) returns (ret: int, next: nat)
    requires s.Valid() && cfg.Valid() && IsLower(l) && IsUpper(u)
    modifies s.alloc, s.offset
    ensures ret <= 0
    ensures ret != 0 ==> cfg.bootCheck < 0 || !(0 <= work <= 2) || !(0 <= cfg.avFiles <= 3) ||
                         (!cfg.onlyFactory && !RoomEnough(s.alloc[..], cfg, s.flashSize, work))
    ensures !(0 <= work <= 2) ==> ret < 0
    ensures ret == 0 ==> SsuLaid(s.alloc[..], s.offset[..], cfg, s.flashSize, work, l, u) && next == NextPart(work)
    ensures ret == 0 ==> cfg.bootCheck == 0 && 0 <= cfg.avFiles <= 3
    ensures ret == 0 && !cfg.onlyFactory ==> RoomEnough(s.alloc[..], cfg, s.flashSize, work)
    ensures ret == 0 ==> LeftWhere(old(s.alloc[..]), old(s.offset[..]), s.alloc[..], s.offset[..], cfg)
    ensures forall e | 0 <= e < FW_UNKNOWN && Above(e) && e != FW_BOOTCODE && e != FW_FACTORY ::
      s.alloc[e] == old(s.alloc[e]) && s.offset[e] == old(s.offset[e])
  {
    next := 0;
    ret := ReserveNor(s, cfg);
    if ret < 0 {
      return;
    }
    var less, more := LowEnd(cfg, s.flashSize), HighStart(cfg, s.flashSize);
    var bootEnd := Add64(s.offset[FW_BOOTCODE], s.alloc[FW_BOOTCODE]);
    var section := s.alloc[FW_FACTORY];
    var h;
    if work == 0 || work == 2 {
      h := Halves(bootEnd, less, more, Sub64(Sub64(s.flashSize, section), more));
      next := 1;
    } else if work == 1 {
      h := Halves(more, Sub64(s.flashSize, section), bootEnd, Sub64(less, bootEnd));
      next := 2;
    } else {
      return -1, 0;
    }
    PlaceHalves(s, h, l, u);
    if cfg.onlyFactory {
      return 0, next;
    }
    var need := s.NeedSize();
    ret := if need > Room(h, s.alloc[FW_BOOTCODE], s.alloc[FW_FACTORY]) then -1 else 0;
  }

  // ---------------------------------------------------------------- one upgrade

  /** The flash has at least one erase block. */
  ghost predicate Board(cfg: Config, flash: u64) {
    cfg.Valid() && cfg.erase <= flash
  }

  /** The boundaries around the middle of the flash are in order. */
  lemma Middle(cfg: Config, flash: u64)
    requires Board(cfg, flash)
    ensures LowEnd(cfg, flash) <= flash / 2 <= HighStart(cfg, flash) <= flash
  {
    AlignLessIsFloor(flash / 2, cfg.eraseBits);
    AlignMoreIsCeiling(flash / 2, cfg.eraseBits);
    if flash / 2 < cfg.erase { OneMultiple(HighStart(cfg, flash), cfg.erase); }
  }

  lemma OneMultiple(r: nat, size: nat)
    requires size > 0 && r < 2 * size && r % size == 0
    ensures r <= size
  {
    assert r == size * (r / size);
    MulSign(size, r / size - 1);
    assert size * (r / size - 1) == r - size;
  }

  lemma BootNoWrap(cfg: Config)
    requires cfg.Valid()
    ensures BootAlloc(cfg) < 2 * U32 && BootEnd(cfg) == cfg.bootcodeStart + BootAlloc(cfg)
  {
    AlignMoreIsCeiling(Add32(cfg.rescueStart, cfg.rescueSize), cfg.eraseBits);
  }

  /** Those boundaries are block boundaries, and the nearest ones. */
  lemma MiddleBlocks(cfg: Config, flash: u64)
    requires Board(cfg, flash)
    ensures LowEnd(cfg, flash) % cfg.erase == 0 && flash / 2 - cfg.erase < LowEnd(cfg, flash) <= flash / 2
    ensures HighStart(cfg, flash) % cfg.erase == 0 && flash / 2 <= HighStart(cfg, flash) < flash / 2 + cfg.erase
  {
    AlignLessIsFloor(flash / 2, cfg.eraseBits);
    AlignMoreIsCeiling(flash / 2, cfg.eraseBits);
    FloorMultiple(flash / 2, cfg.erase);
  }

  lemma FloorMultiple(x: nat, size: nat)
    requires size > 0
    ensures (x - x % size) % size == 0 && x - size < x - x % size <= x
  {
    assert x == size * (x / size) + x % size;
    ModUnique(x - x % size, size, x / size, 0);
  }

  /** The boot area covers the rescue area, in whole blocks, exactly when the end of that is no 32-bit wrap. */
  lemma BootCoversIff(cfg: Config)
    requires cfg.Valid()
    ensures cfg.rescueStart + cfg.rescueSize <= BootAlloc(cfg) <==> cfg.rescueStart + cfg.rescueSize < U32
    ensures cfg.rescueStart + cfg.rescueSize < U32 ==> BootAlloc(cfg) < cfg.rescueStart + cfg.rescueSize + cfg.erase
    ensures BootAlloc(cfg) % cfg.erase == 0
  {
    AlignMoreIsCeiling(Add32(cfg.rescueStart, cfg.rescueSize), cfg.eraseBits);
    var w := Pow32Above(cfg.eraseBits);
  }

  lemma Pow32Above(k: nat) returns (w: nat)
    requires k < 32
    ensures w == 32 && Pow2(w) == U32 && Pow2(k) <= U32 / 2 && U32 % Pow2(k) == 0
  {
    var octet := 8;
    assert Pow2(8) == 0x100;
    PowAdd(octet, octet);
    PowAdd(2 * octet, 2 * octet);
    w := 4 * octet;
    PowDivides(k, w);
    PowDivides(k, w - 1);
    assert Pow2(w) == 2 * Pow2(w - 1);
  }

  /** The factory section covers both slots, in whole blocks, exactly when those end before the last block of 4 GB. */
  lemma SectionCoversIff(cfg: Config)
    requires cfg.Valid()
    ensures 2 * cfg.factorySize <= SectionOf(cfg) <==> 2 * cfg.factorySize + cfg.erase <= U32
    ensures 2 * cfg.factorySize + cfg.erase <= U32 ==>
              SectionOf(cfg) < 2 * cfg.factorySize + cfg.erase && SectionOf(cfg) % cfg.erase == 0
  {
    var w := Pow32Above(cfg.eraseBits);
    var need := Add32(cfg.factorySize, cfg.factorySize);
    AlignMoreIsCeiling(need, cfg.eraseBits);
    if U32 - cfg.erase < need {
      RoundUpWithin(need, AlignMore(need, cfg.erase), U32, cfg.erase);
      LastMultiple(AlignMore(need, cfg.erase), U32, cfg.erase);
    }
  }

  lemma LastMultiple(x: nat, limit: nat, size: nat)
    requires size > 0 && x % size == 0 && limit % size == 0 && limit - size < x
    ensures limit <= x
  {
    var d := limit / size - x / size;
    assert limit - x == size * d;
    MulSign(size, d);
  }

  /**
   * An accepted upgrade fits between bottom and top of its half, with no wrap-around, exactly when the
   * boot area does not begin behind the low half and the length of the factory section.
   */
  lemma RoomSufficesIff(cfg: Config, flash: u64, work: nat, stacks: nat)
    requires Board(cfg, flash)
    requires BootAlloc(cfg) as int + SectionOf(cfg) as int + stacks
             <= Room(HalvesFor(cfg, flash, work), BootAlloc(cfg), SectionOf(cfg))
    ensures var h := HalvesFor(cfg, flash, work);
            h.bottom + stacks <= h.top <==> work == 1 || cfg.bootcodeStart <= LowEnd(cfg, flash) + SectionOf(cfg)
  {
    Middle(cfg, flash);
    BootNoWrap(cfg);
    RoomArithmetic(flash, LowEnd(cfg, flash), HighStart(cfg, flash), SectionOf(cfg),
                   cfg.bootcodeStart, BootAlloc(cfg), work, stacks);
  }

  lemma RoomArithmetic(flash: u64, less: u64, more: u64, section: u64, start: u64, boot: u64, work: nat, stacks: nat)
    requires less <= flash / 2 <= more <= flash && section < U32 && start < U32 && boot < 2 * U32
    requires var h := HalvesOf(flash, less, more, section, Add64(start, boot), work);
             boot + section + stacks <= Room(h, boot, section)
    ensures var h := HalvesOf(flash, less, more, section, Add64(start, boot), work);
            h.bottom + stacks <= h.top <==> work == 1 || start <= less + section
  {}

  /** What counts towards the total without being reserved or placed. */
  function Elsewhere(alloc: seq<u64>, l: seq<nat>, u: seq<nat>): nat {
    Total(Unlisted(Counted(alloc), [FW_BOOTCODE, FW_FACTORY] + l + u))
  }

  lemma CountedHalves(alloc: seq<u64>, l: seq<nat>, u: seq<nat>)
    requires |alloc| == FW_UNKNOWN && IsLower(l) && IsUpper(u)
    ensures Lists(l, FW_UNKNOWN) && Lists(u, FW_UNKNOWN) && Lists(l + u, FW_UNKNOWN)
    ensures alloc[FW_BOOTCODE] as int + alloc[FW_FACTORY] as int + Total(Pick(alloc, l)) + Total(Pick(alloc, u))
            + Elsewhere(alloc, l, u) == Total(Counted(alloc))
  {
    var fixed := [FW_BOOTCODE, FW_FACTORY];
    HalvesListed(l, u);
    PartsTotal(Counted(alloc), fixed, l, u);
    CountedPick(alloc, l);
    CountedPick(alloc, u);
    TwoTotal(Counted(alloc), fixed);
  }

  lemma HalvesListed(l: seq<nat>, u: seq<nat>)
    requires IsLower(l) && IsUpper(u)
    ensures Lists(l + u, FW_UNKNOWN) && Lists([FW_BOOTCODE, FW_FACTORY] + l + u, FW_UNKNOWN)
    ensures forall i | 0 <= i < |l| :: !Uncounted(l[i])
    ensures forall i | 0 <= i < |u| :: !Uncounted(u[i])
  {
    SsuTypes(l, u);
    DistinctGroups([FW_BOOTCODE, FW_FACTORY], l, u);
  }

  lemma TwoTotal(values: seq<nat>, ids: seq<nat>)
    requires |ids| == 2 && Bounded(ids, |values|)
    ensures Total(Pick(values, ids)) == values[ids[0]] + values[ids[1]]
  {
    var p := Pick(values, ids);
    assert SumTo(p, 2) == SumTo(p, 1) + p[1] && SumTo(p, 1) == SumTo(p, 0) + p[0];
  }

  lemma DistinctGroups(f: seq<nat>, l: seq<nat>, u: seq<nat>)
    requires Lists(f, FW_UNKNOWN) && Lists(l, FW_UNKNOWN) && Lists(u, FW_UNKNOWN)
    requires forall i | 0 <= i < |f| :: f[i] !in l && f[i] !in u
    requires forall i | 0 <= i < |l| :: l[i] !in u
    ensures Lists(f + l + u, FW_UNKNOWN) && Lists(l + u, FW_UNKNOWN)
  {}

  datatype Image = Image(alloc: seq<u64>, offset: seq<u64>)

  ghost predicate Placed(m: Image, cfg: Config, flash: u64, work: nat, l: seq<nat>, u: seq<nat>) {
    SsuPlaced(m.alloc, m.offset, cfg, flash, work, l, u) && Total(Counted(m.alloc)) < U64
  }

  /** The half an upgrade writes when part work is current. */
  function HalfLo(cfg: Config, flash: u64, work: nat): int
    requires cfg.rescueStart < U32 && cfg.rescueSize < U32 && cfg.bootcodeStart < U32 && 0 < cfg.erase <= U64
  {
    if work == 1 then HighStart(cfg, flash) as int else BootEnd(cfg) as int
  }

  function HalfHi(cfg: Config, flash: u64, work: nat): int
    requires cfg.factorySize < U32 && 0 < cfg.erase <= U64
  {
    if work == 1 then flash as int - SectionOf(cfg) as int else LowEnd(cfg, flash) as int
  }

  /** The boot area does not begin behind the part it shares with the low half. */
  ghost predicate BootLow(cfg: Config, flash: u64, work: nat)
    requires cfg.Valid()
  {
    work == 1 || cfg.bootcodeStart <= LowEnd(cfg, flash) + SectionOf(cfg)
  }

  /** One upgrade: the regions that it places are disjoint and inside the target half. */
  lemma StacksSound(m: Image, cfg: Config, flash: u64, work: nat, l: seq<nat>, u: seq<nat>)
    requires Board(cfg, flash) && BootLow(cfg, flash, work) && Placed(m, cfg, flash, work, l, u)
    ensures Lists(l + u, FW_UNKNOWN) && AllApart(m.alloc, m.offset, l + u)
    ensures HalfLo(cfg, flash, work) <= HalfHi(cfg, flash, work)
    ensures AllWithin(m.alloc, m.offset, l + u, HalfLo(cfg, flash, work), HalfHi(cfg, flash, work))
  {
    var h := HalvesFor(cfg, flash, work);
    LengthsFit(m, cfg, flash, work, l, u);
    HalfStacks(m.alloc, m.offset, l, u, h.bottom, h.top);
  }

  /**
   * From the bottom of the half upwards the etc partition (type 35) and the root file system; from the top downwards
   * video, audio, kernel, the video and audio boot files, first and second logos, and partitions 5 to 1.
   */
  lemma HalfPositions(m: Image, cfg: Config, flash: u64, work: nat, l: seq<nat>, u: seq<nat>)
    requires Board(cfg, flash) && BootLow(cfg, flash, work) && Placed(m, cfg, flash, work, l, u)
    ensures m.offset[35] as int == HalfLo(cfg, flash, work) && Joins(m.alloc, m.offset, 35, 22)
    ensures End(m.alloc, m.offset, 10) == HalfHi(cfg, flash, work)
    ensures Joins(m.alloc, m.offset, 8, 10) && Joins(m.alloc, m.offset, 0, 8) && Joins(m.alloc, m.offset, 15, 0)
    ensures Joins(m.alloc, m.offset, 13, 15) && Joins(m.alloc, m.offset, 18, 13) && Joins(m.alloc, m.offset, 16, 18)
    ensures Joins(m.alloc, m.offset, 21, 16) && Joins(m.alloc, m.offset, 19, 21) && Joins(m.alloc, m.offset, 31, 19)
    ensures Joins(m.alloc, m.offset, 30, 31) && Joins(m.alloc, m.offset, 29, 30) && Joins(m.alloc, m.offset, 28, 29)
    ensures Joins(m.alloc, m.offset, 27, 28)
  {
    LengthsFit(m, cfg, flash, work, l, u);
    var h := HalvesFor(cfg, flash, work);
    UpFits(m.alloc, m.offset, l, h.bottom);
    DownFits(m.alloc, m.offset, u, h.top);
    StackNext(m.alloc, m.offset, l, h.bottom, 0, 1);
    NextInHalf(m.alloc, m.offset, u, h.top - Total(Pick(m.alloc, u)));
  }

  lemma NextInHalf(alloc: seq<u64>, offset: seq<u64>, u: seq<nat>, base: int)
    requires IsUpper(u) && |alloc| == FW_UNKNOWN && Stacked(alloc, offset, u, base)
    ensures End(alloc, offset, u[13]) == base + Total(Pick(alloc, u))
    ensures forall k, next | 0 <= k < 13 && next == k + 1 :: Joins(alloc, offset, u[k], u[next])
  {
    StackNext(alloc, offset, u, base, 13, 14);
    forall k, next | 0 <= k < 13 && next == k + 1 ensures Joins(alloc, offset, u[k], u[next]) {
      StackNext(alloc, offset, u, base, k, next);
    }
  }

  /** The check of a total that has not wrapped, in terms of the half. */
  lemma LengthsFit(m: Image, cfg: Config, flash: u64, work: nat, l: seq<nat>, u: seq<nat>)
    requires Board(cfg, flash) && BootLow(cfg, flash, work) && Placed(m, cfg, flash, work, l, u)
    ensures Lists(l + u, FW_UNKNOWN)
    ensures HalfLo(cfg, flash, work) + Total(Pick(m.alloc, l)) + Total(Pick(m.alloc, u)) <= HalfHi(cfg, flash, work)
    ensures HalvesFor(cfg, flash, work).bottom as int == HalfLo(cfg, flash, work)
    ensures HalvesFor(cfg, flash, work).top as int == HalfHi(cfg, flash, work)
  {
    var stacks := Total(Pick(m.alloc, l)) + Total(Pick(m.alloc, u));
    CountedHalves(m.alloc, l, u);
    NoWrap64(Total(Counted(m.alloc)));
    RoomSufficesIff(cfg, flash, work, stacks);
    HalfEnds(cfg, flash, work, stacks);
  }

  /** With room for an accepted upgrade, the half runs from bottom to top. */
  lemma HalfEnds(cfg: Config, flash: u64, work: nat, stacks: nat)
    requires Board(cfg, flash)
    requires BootAlloc(cfg) as int + SectionOf(cfg) as int + stacks
             <= Room(HalvesFor(cfg, flash, work), BootAlloc(cfg), SectionOf(cfg))
    ensures HalvesFor(cfg, flash, work).bottom as int == HalfLo(cfg, flash, work)
    ensures HalvesFor(cfg, flash, work).top as int == HalfHi(cfg, flash, work)
  {
    Middle(cfg, flash);
    BootNoWrap(cfg);
    TopArithmetic(flash, HighStart(cfg, flash), SectionOf(cfg), BootAlloc(cfg), stacks);
  }

  lemma TopArithmetic(flash: u64, more: u64, section: u64, boot: u64, stacks: nat)
    requires flash / 2 <= more <= flash && section < U32 && boot < 2 * U32
    ensures boot + section + stacks <= Add64(Add64(Sub64(Sub64(flash, section), more), boot), section) ==> section <= flash
  {}

  lemma HalfStacks(alloc: seq<u64>, offset: seq<u64>, l: seq<nat>, u: seq<nat>, bottom: u64, top: u64)
    requires Tables(alloc, offset, l + u) && PlacedUp(alloc, offset, l, bottom) && PlacedDown(alloc, offset, u, top)
    requires bottom + Total(Pick(alloc, l)) + Total(Pick(alloc, u)) <= top
    ensures AllApart(alloc, offset, l + u) && AllWithin(alloc, offset, l + u, bottom, top)
  {
    UpFits(alloc, offset, l, bottom);
    DownFits(alloc, offset, u, top);
    StacksApart(alloc, offset, u, l, bottom, top - Total(Pick(alloc, u)), top);
  }

  /** The protected part lies clear of the half, for the high half exactly when the boot area ends in the low one. */
  lemma WorkingClearIff(m: Image, cfg: Config, flash: u64, work: nat, l: seq<nat>, u: seq<nat>)
    requires Board(cfg, flash) && BootLow(cfg, flash, work) && Placed(m, cfg, flash, work, l, u)
    ensures work != 1 ==> BootEnd(cfg) <= LowEnd(cfg, flash) && m.offset[FW_P_SSU_WORKING] >= HalfHi(cfg, flash, work)
    ensures work == 1 ==> (End(m.alloc, m.offset, FW_P_SSU_WORKING) <= HalfLo(cfg, flash, work) <==>
                           BootEnd(cfg) <= LowEnd(cfg, flash))
  {
    StacksSound(m, cfg, flash, work, l, u);
    Middle(cfg, flash);
  }

  /** And it is the other half, from end to end, exactly when that has its ends in order. */
  lemma WorkingIsOtherHalfIff(m: Image, cfg: Config, flash: u64, work: nat, l: seq<nat>, u: seq<nat>)
    requires Board(cfg, flash) && SsuLaid(m.alloc, m.offset, cfg, flash, work, l, u)
    ensures m.offset[FW_P_SSU_WORKING] as int == HalfLo(cfg, flash, NextPart(work))
    ensures End(m.alloc, m.offset, FW_P_SSU_WORKING) == HalfHi(cfg, flash, NextPart(work)) <==>
            HalfLo(cfg, flash, NextPart(work)) <= HalfHi(cfg, flash, NextPart(work))
  {
    Middle(cfg, flash);
    BootNoWrap(cfg);
  }

  // ---------------------------------------------------------------- all regions of an upgrade

  /** No firmware or partition has space but no place. */
  ghost predicate AllPlaced(m: Image) {
    |m.alloc| == |m.offset| == FW_UNKNOWN && forall e: nat | Unplaced(e) :: m.alloc[e] == 0
  }

  /** The table began with zero offsets, which the branch leaves to the types that it does not place. */
  ghost predicate FromZero(m: Image) {
    |m.alloc| == |m.offset| == FW_UNKNOWN && forall e: nat | Unplaced(e) :: m.offset[e] == 0
  }

  /** All firmware and partitions lie between lo and hi. */
  ghost predicate AllInside(m: Image, lo: int, hi: int) {
    && |m.alloc| == |m.offset| == FW_UNKNOWN
    && forall e | 0 <= e <= FW_USR_LOCAL_ETC && m.alloc[e] != 0 :: lo <= m.offset[e] && End(m.alloc, m.offset, e) <= hi
  }

  ghost predicate AllDisjoint(m: Image) {
    && |m.alloc| == |m.offset| == FW_UNKNOWN
    && forall e, f | 0 <= e < f <= FW_USR_LOCAL_ETC :: Apart(m.alloc, m.offset, e, f)
  }

  lemma RegionAt(l: seq<nat>, u: seq<nat>, e: nat) returns (i: nat)
    requires IsLower(l) && IsUpper(u) && e <= FW_USR_LOCAL_ETC && !Unplaced(e)
    ensures i < |l + u| && (l + u)[i] == e
  {
    UnplacedIff(l, u, e);
    i :| i < |l + u| && (l + u)[i] == e;
  }

  /** The firmware and partitions of an accepted upgrade are disjoint and inside the half, if each has a place. */
  lemma UpgradeSound(m: Image, cfg: Config, flash: u64, work: nat, l: seq<nat>, u: seq<nat>)
    requires Board(cfg, flash) && BootLow(cfg, flash, work) && Placed(m, cfg, flash, work, l, u) && AllPlaced(m)
    ensures HalfLo(cfg, flash, work) <= HalfHi(cfg, flash, work)
    ensures AllInside(m, HalfLo(cfg, flash, work), HalfHi(cfg, flash, work)) && AllDisjoint(m)
  {
    StacksSound(m, cfg, flash, work, l, u);
    ListedInside(m, l, u, HalfLo(cfg, flash, work), HalfHi(cfg, flash, work));
    ListedDisjoint(m, l, u);
  }

  lemma ListedInside(m: Image, l: seq<nat>, u: seq<nat>, lo: int, hi: int)
    requires IsLower(l) && IsUpper(u) && AllPlaced(m) && Lists(l + u, FW_UNKNOWN)
    requires AllWithin(m.alloc, m.offset, l + u, lo, hi)
    ensures AllInside(m, lo, hi)
  {
    forall e | 0 <= e <= FW_USR_LOCAL_ETC && m.alloc[e] != 0
      ensures lo <= m.offset[e] && End(m.alloc, m.offset, e) <= hi
    {
      var i := RegionAt(l, u, e);
    }
  }

  lemma ListedDisjoint(m: Image, l: seq<nat>, u: seq<nat>)
    requires IsLower(l) && IsUpper(u) && AllPlaced(m) && Lists(l + u, FW_UNKNOWN)
    requires AllApart(m.alloc, m.offset, l + u)
    ensures AllDisjoint(m)
  {
    forall e, f | 0 <= e < f <= FW_USR_LOCAL_ETC ensures Apart(m.alloc, m.offset, e, f) {
      if m.alloc[e] != 0 && m.alloc[f] != 0 {
        var i := RegionAt(l, u, e);
        var j := RegionAt(l, u, f);
        if i < j {
          assert Apart(m.alloc, m.offset, (l + u)[i], (l + u)[j]);
        } else {
          assert Apart(m.alloc, m.offset, (l + u)[j], (l + u)[i]);
        }
      }
    }
  }

  /** From zero offsets an accepted upgrade keeps to its half exactly when each firmware and partition has a place. */
  lemma InsideIff(m: Image, cfg: Config, flash: u64, work: nat, l: seq<nat>, u: seq<nat>)
    requires Board(cfg, flash) && BootLow(cfg, flash, work) && Placed(m, cfg, flash, work, l, u) && FromZero(m)
    requires HalfLo(cfg, flash, work) > 0
    ensures AllInside(m, HalfLo(cfg, flash, work), HalfHi(cfg, flash, work)) <==> AllPlaced(m)
  {
    if AllPlaced(m) { UpgradeSound(m, cfg, flash, work, l, u); }
  }

  /** What that means for the sizes before the layout. */
  lemma AllPlacedIff(was: seq<u64>, at: seq<u64>, m: Image, cfg: Config)
    requires LeftWhere(was, at, m.alloc, m.offset, cfg)
    ensures AllPlaced(m) <==> forall e: nat | Unplaced(e) && !Dropped(e, cfg.avFiles) ::
                                if e == FW_VIDEO2 then cfg.img[e] == 0 else was[e] == 0
  {
    AlignMoreZeroIff(cfg.img[FW_VIDEO2], cfg.eraseBits);
    forall e: nat | Unplaced(e) && !Dropped(e, cfg.avFiles)
      ensures m.alloc[e] == 0 <==> if e == FW_VIDEO2 then cfg.img[e] == 0 else was[e] == 0
    {
      assert m.alloc[e] == SpaceFor(was[e], cfg, e);
    }
    forall e: nat | Unplaced(e) && Dropped(e, cfg.avFiles) ensures m.alloc[e] == 0 {
      assert m.alloc[e] == SpaceFor(was[e], cfg, e);
    }
  }

  // ---------------------------------------------------------------- what else lies on the flash

  /** Two address ranges share an address. */
  predicate Meet(p: int, q: int, lo: int, hi: int) {
    p < q && lo < hi && p < hi && lo < q
  }

  ghost predicate SameBoard(a: Config, b: Config) {
    && a.eraseBits == b.eraseBits && a.rescueStart == b.rescueStart && a.rescueSize == b.rescueSize
    && a.bootcodeStart == b.bootcodeStart && a.factoryStart == b.factoryStart && a.factorySize == b.factorySize
  }

  /** The image's firmware and partitions leave the addresses from p up to q alone. */
  ghost predicate Spares(m: Image, p: int, q: int) {
    && |m.alloc| == |m.offset| == FW_UNKNOWN
    && forall e | 0 <= e <= FW_USR_LOCAL_ETC :: !Meet(m.offset[e], End(m.alloc, m.offset, e), p, q)
  }

  /** And so does every upgrade that this board accepts and that has a place for all it installs. */
  ghost predicate AllSpare(cfg: Config, flash: u64, work: nat, l: seq<nat>, u: seq<nat>, p: int, q: int)
    requires cfg.Valid()
  {
    forall m: Image, b: Config | SameBoard(b, cfg) && Placed(m, b, flash, work, l, u) && AllPlaced(m) :: Spares(m, p, q)
  }

  /** Addresses are left alone by all accepted upgrades exactly when they lie outside the half. */
  lemma AllSpareIff(cfg: Config, flash: u64, work: nat, l: seq<nat>, u: seq<nat>, p: int, q: int)
    requires Board(cfg, flash) && BootLow(cfg, flash, work) && work <= 2 && IsLower(l) && IsUpper(u)
    ensures AllSpare(cfg, flash, work, l, u, p, q) <==> !Meet(p, q, HalfLo(cfg, flash, work), HalfHi(cfg, flash, work))
  {
    var (lo, hi) := (HalfLo(cfg, flash, work), HalfHi(cfg, flash, work));
    if !Meet(p, q, lo, hi) {
      forall m: Image, b: Config | SameBoard(b, cfg) && Placed(m, b, flash, work, l, u) && AllPlaced(m)
        ensures Spares(m, p, q)
      {
        UpgradeSpares(m, b, flash, work, l, u, p, q);
      }
    } else {
      var b := BareConfig(cfg);
      var m := LoneUpgrade(b, flash, work, hi - lo, 0);
      LonePlaced(b, flash, work, hi - lo, 0, l, u);
      assert Meet(m.offset[FW_USR_LOCAL_ETC], End(m.alloc, m.offset, FW_USR_LOCAL_ETC), p, q);
      assert !Spares(m, p, q);
    }
  }

  lemma UpgradeSpares(m: Image, cfg: Config, flash: u64, work: nat, l: seq<nat>, u: seq<nat>, p: int, q: int)
    requires Board(cfg, flash) && BootLow(cfg, flash, work) && Placed(m, cfg, flash, work, l, u) && AllPlaced(m)
    requires !Meet(p, q, HalfLo(cfg, flash, work), HalfHi(cfg, flash, work))
    ensures Spares(m, p, q)
  {
    UpgradeSound(m, cfg, flash, work, l, u);
  }

  /** An upgrade from zero offsets leaves the boot area at the start of the flash alone exactly when all has a place. */
  lemma BootSparedIff(m: Image, cfg: Config, flash: u64, work: nat, l: seq<nat>, u: seq<nat>)
    requires Board(cfg, flash) && Placed(m, cfg, flash, work, l, u) && FromZero(m)
    requires cfg.bootcodeStart == 0 < BootAlloc(cfg) && (work == 1 ==> BootEnd(cfg) <= HighStart(cfg, flash))
    ensures Spares(m, 0, BootEnd(cfg)) <==> AllPlaced(m)
  {
    BootNoWrap(cfg);
    if AllPlaced(m) {
      UpgradeSpares(m, cfg, flash, work, l, u, 0, BootEnd(cfg));
    } else {
      var e: nat :| Unplaced(e) && m.alloc[e] != 0;
      assert Meet(m.offset[e], End(m.alloc, m.offset, e), 0, BootEnd(cfg));
    }
  }

  /** The same board, with no firmware to install. */
  function BareConfig(cfg: Config): Config {
    cfg.(bootCheck := 0, avFiles := 3, onlyFactory := false, img := seq(FW_UNKNOWN, _ => 0))
  }

  function LoneAlloc(size: u64, data: u64, boot: u64, section: u64, working: u64, gap: u64): (s: seq<u64>)
    ensures |s| == FW_UNKNOWN
  {
    seq<u64>(FW_UNKNOWN, e => if e == FW_USR_LOCAL_ETC then size
                              else if e == FW_DATA then data
                              else if e == FW_BOOTCODE then boot
                              else if e == FW_FACTORY then section
                              else if e == FW_P_SSU_WORKING then working
                              else if e == FW_P_FREE_SPACE then gap
                              else 0)
  }

  function LoneOffset(bottom: u64, next: u64, start: u64, factory: u64, working: u64, top: u64): (s: seq<u64>)
    ensures |s| == FW_UNKNOWN
  {
    seq<u64>(FW_UNKNOWN, e => if e == FW_USR_LOCAL_ETC then bottom
                              else if e == FW_ROOTFS || e == FW_P_FREE_SPACE then next
                              else if e == FW_BOOTCODE then start
                              else if e == FW_FACTORY then factory
                              else if e == FW_P_SSU_WORKING then working
                              else if 0 <= e && Unplaced(e) then 0
                              else top)
  }

  /** An upgrade that installs a partition of the given size, the lowest of its half, and a data partition. */
  function LoneUpgrade(cfg: Config, flash: u64, work: nat, size: u64, data: u64): Image
    requires cfg.rescueStart < U32 && cfg.rescueSize < U32 && cfg.bootcodeStart < U32 && cfg.factoryStart < U32
    requires cfg.factorySize < U32 && 0 < cfg.erase <= U64
  {
    var h := HalvesFor(cfg, flash, work);
    var next := Add64(h.bottom, size);
    Image(LoneAlloc(size, data, BootAlloc(cfg), SectionOf(cfg), h.workAlloc, Sub64(h.top, next)),
          LoneOffset(h.bottom, next, cfg.bootcodeStart, cfg.factoryStart, h.workOffset, h.top))
  }

  lemma LoneTotal(cfg: Config, flash: u64, work: nat, size: u64, data: u64)
    requires cfg.Valid()
    ensures Total(Counted(LoneUpgrade(cfg, flash, work, size, data).alloc))
            == size as int + data as int + BootAlloc(cfg) as int + SectionOf(cfg) as int
  {
    var values := Counted(LoneUpgrade(cfg, flash, work, size, data).alloc);
    var ids := [FW_USR_LOCAL_ETC, FW_DATA, FW_BOOTCODE, FW_FACTORY];
    ListedTotal(values, ids);
    FourTotal(values, ids);
  }

  /** Up to the size of the half such an upgrade is accepted, whatever the place of the data partition. */
  lemma LonePlaced(cfg: Config, flash: u64, work: nat, size: u64, data: u64, l: seq<nat>, u: seq<nat>)
    requires Board(cfg, flash) && work <= 2 && IsLower(l) && IsUpper(u) && cfg == BareConfig(cfg)
    requires 0 < size && size as int + data as int <= HalfHi(cfg, flash, work) - HalfLo(cfg, flash, work)
    ensures var m := LoneUpgrade(cfg, flash, work, size, data);
            Placed(m, cfg, flash, work, l, u) && FromZero(m) && (AllPlaced(m) <==> data == 0)
    ensures LoneUpgrade(cfg, flash, work, size, data).offset[FW_USR_LOCAL_ETC] as int == HalfLo(cfg, flash, work)
  {
    LoneRoom(cfg, flash, work, size, data);
    LoneEnough(cfg, flash, work, size, data);
    LoneLaid(cfg, flash, work, size, data, l, u);
    LoneAt(cfg, flash, work, size, data);
    LoneUnplaced(cfg, flash, work, size, data);
  }

  lemma LoneUnplaced(cfg: Config, flash: u64, work: nat, size: u64, data: u64)
    requires cfg.Valid()
    ensures var m := LoneUpgrade(cfg, flash, work, size, data); FromZero(m) && (AllPlaced(m) <==> data == 0)
  {
    assert Unplaced(FW_DATA) && LoneUpgrade(cfg, flash, work, size, data).alloc[FW_DATA] == data;
  }

  lemma LoneEnough(cfg: Config, flash: u64, work: nat, size: u64, data: u64)
    requires Board(cfg, flash) && 0 < size && size as int + data as int <= HalfHi(cfg, flash, work) - HalfLo(cfg, flash, work)
    ensures var alloc := LoneUpgrade(cfg, flash, work, size, data).alloc;
            RoomEnough(alloc, cfg, flash, work) && Total(Counted(alloc)) < U64
  {
    LoneRoom(cfg, flash, work, size, data);
    LoneTotal(cfg, flash, work, size, data);
    NoWrap64(Total(Counted(LoneUpgrade(cfg, flash, work, size, data).alloc)));
  }

  lemma LoneAt(cfg: Config, flash: u64, work: nat, size: u64, data: u64)
    requires cfg.Valid()
    ensures var m := LoneUpgrade(cfg, flash, work, size, data);
            m.offset[FW_USR_LOCAL_ETC] == HalvesFor(cfg, flash, work).bottom && m.alloc[FW_USR_LOCAL_ETC] == size
            && m.offset[FW_FACTORY] == cfg.factoryStart && m.alloc[FW_FACTORY] == SectionOf(cfg)
            && m.offset[FW_BOOTCODE] == cfg.bootcodeStart && m.alloc[FW_BOOTCODE] == BootAlloc(cfg)
            && m.offset[FW_DATA] == 0 && m.alloc[FW_DATA] == data
  {}

  lemma LoneRoom(cfg: Config, flash: u64, work: nat, size: u64, data: u64)
    requires Board(cfg, flash) && 0 < size && size as int + data as int <= HalfHi(cfg, flash, work) - HalfLo(cfg, flash, work)
    ensures var h := HalvesFor(cfg, flash, work);
            && h.bottom as int == HalfLo(cfg, flash, work)
            && size as int + data as int + BootAlloc(cfg) as int + SectionOf(cfg) as int
               <= Room(h, BootAlloc(cfg), SectionOf(cfg))
  {
    Middle(cfg, flash);
    BootNoWrap(cfg);
    SpareRoom(flash, LowEnd(cfg, flash), HighStart(cfg, flash), SectionOf(cfg), BootEnd(cfg), BootAlloc(cfg), work,
              size + data);
  }

  lemma SpareRoom(flash: u64, less: u64, more: u64, section: u64, bootEnd: u64, boot: u64, work: nat, size: u64)
    requires less <= flash / 2 <= more <= flash && section < U32 && boot < 2 * U32
    requires 0 < size <= if work == 1 then flash - section - more else less - bootEnd
    ensures var h := HalvesOf(flash, less, more, section, bootEnd, work);
            && h.bottom as int == (if work == 1 then more else bootEnd)
            && size as int + boot as int + section as int <= Room(h, boot, section)
  {}

  lemma LoneReserved(cfg: Config, flash: u64, work: nat, size: u64, data: u64)
    requires cfg.Valid() && cfg == BareConfig(cfg) && AlignMore(0, cfg.erase) == 0
    ensures var m := LoneUpgrade(cfg, flash, work, size, data); NorReserved(m.alloc, m.offset, cfg)
  {}

  lemma LoneStacks(alloc: seq<u64>, offset: seq<u64>, size: u64, bottom: u64, top: u64, l: seq<nat>, u: seq<nat>)
    requires |alloc| == |offset| == FW_UNKNOWN && IsLower(l) && IsUpper(u)
    requires alloc[FW_USR_LOCAL_ETC] == size && offset[FW_USR_LOCAL_ETC] == bottom && offset[FW_ROOTFS] == Add64(bottom, size)
    requires forall i | 0 <= i < |u| :: u[i] < FW_UNKNOWN && alloc[u[i]] == 0 && offset[u[i]] == top
    ensures PlacedUp(alloc, offset, l, bottom) && PlacedDown(alloc, offset, u, top)
  {
    SsuTypes(l, u);
    assert Follows(alloc, offset, l, 1);
    forall k | 0 < k < |u| ensures Precedes(alloc, offset, u, k) {}
  }

  lemma LoneUpper(alloc: seq<u64>, offset: seq<u64>, top: u64, u: seq<nat>)
    requires |alloc| == |offset| == FW_UNKNOWN && IsUpper(u)
    requires forall e: nat | e < FW_USR_LOCAL_ETC && e != FW_ROOTFS && !Unplaced(e) :: alloc[e] == 0 && offset[e] == top
    ensures forall i | 0 <= i < |u| :: u[i] < FW_UNKNOWN && alloc[u[i]] == 0 && offset[u[i]] == top
  {
    assert forall i | 0 <= i < |u| :: u[i] < FW_USR_LOCAL_ETC && u[i] != FW_ROOTFS && !Unplaced(u[i]);
  }

  lemma LoneLaid(cfg: Config, flash: u64, work: nat, size: u64, data: u64, l: seq<nat>, u: seq<nat>)
    requires cfg.Valid() && work <= 2 && IsLower(l) && IsUpper(u) && cfg == BareConfig(cfg)
    ensures var m := LoneUpgrade(cfg, flash, work, size, data); SsuLaid(m.alloc, m.offset, cfg, flash, work, l, u)
  {
    var m, h := LoneUpgrade(cfg, flash, work, size, data), HalvesFor(cfg, flash, work);
    AlignMoreZeroIff(0, cfg.eraseBits);
    LoneReserved(cfg, flash, work, size, data);
    LoneUpper(m.alloc, m.offset, h.top, u);
    LoneStacks(m.alloc, m.offset, size, h.bottom, h.top, l, u);
  }

  /** No accepted upgrade writes over the factory section exactly when it lies outside the half. */
  lemma FactorySafeIff(cfg: Config, flash: u64, work: nat, l: seq<nat>, u: seq<nat>)
    requires Board(cfg, flash) && BootLow(cfg, flash, work) && work <= 2 && IsLower(l) && IsUpper(u)
    ensures AllSpare(cfg, flash, work, l, u, cfg.factoryStart, cfg.factoryStart + SectionOf(cfg) as int)
            <==> !Meet(cfg.factoryStart, cfg.factoryStart + SectionOf(cfg) as int,
                       HalfLo(cfg, flash, work), HalfHi(cfg, flash, work))
  {
    AllSpareIff(cfg, flash, work, l, u, cfg.factoryStart, cfg.factoryStart + SectionOf(cfg) as int);
  }

  /** The low half begins behind the boot area; the high one does exactly when the boot area ends before the middle. */
  lemma BootSafeIff(cfg: Config, flash: u64, work: nat, l: seq<nat>, u: seq<nat>)
    requires Board(cfg, flash) && BootLow(cfg, flash, work) && work <= 2 && IsLower(l) && IsUpper(u)
    ensures AllSpare(cfg, flash, work, l, u, cfg.bootcodeStart, BootEnd(cfg))
            <==> work != 1 || !Meet(cfg.bootcodeStart, BootEnd(cfg), HighStart(cfg, flash), HalfHi(cfg, flash, 1))
    ensures cfg.bootcodeStart <= HighStart(cfg, flash) < HalfHi(cfg, flash, 1) ==>
              (AllSpare(cfg, flash, work, l, u, cfg.bootcodeStart, BootEnd(cfg))
               <==> work != 1 || BootEnd(cfg) <= HighStart(cfg, flash))
  {
    AllSpareIff(cfg, flash, work, l, u, cfg.bootcodeStart, BootEnd(cfg));
    BootMeets(cfg.bootcodeStart, BootEnd(cfg), HighStart(cfg, flash), HalfHi(cfg, flash, 1), LowEnd(cfg, flash));
  }

  lemma BootMeets(start: int, end: int, more: int, top: int, less: int)
    ensures start <= more < top ==> (Meet(start, end, more, top) <==> end > more)
    ensures !Meet(start, end, end, less)
  {}

  /**
   * A 16 MB flash of 64 KB blocks. The SPI parameters give the factory area 128 KB, which factory_init halves into
   * two slots of 64 KB.
   */
  function ExampleBoard(rescueStart: nat, factoryStart: nat): Config {
    Config.Config(16, 0, rescueStart, 0, 0, factoryStart, 0x1_0000, 3, false, seq(FW_UNKNOWN, _ => 0))
  }

  lemma Block64K()
    ensures Pow2(16) == 0x1_0000
  {
    assert Pow2(8) == 0x100;
    PowAdd(8, 8);
  }

  /** The next multiple of 64 KB. */
  lemma Align64K(len: nat, r: nat)
    requires len <= r < len + 0x1_0000 && r % 0x1_0000 == 0 && r < U32
    ensures AlignMore(len, 0x1_0000) == r
  {
    Block64K();
    AlignMoreIsCeiling(len, 16);
  }

  lemma ExampleSizes(rescueStart: nat, factoryStart: nat, boot: nat)
    requires factoryStart < U32 && rescueStart <= boot < rescueStart + 0x1_0000 && boot % 0x1_0000 == 0 && boot < U32
    ensures var cfg := ExampleBoard(rescueStart, factoryStart);
      && cfg.erase == 0x1_0000 && Board(cfg, 0x100_0000) && SectionOf(cfg) == 0x2_0000
      && BootAlloc(cfg) == BootEnd(cfg) == boot
      && LowEnd(cfg, 0x100_0000) == HighStart(cfg, 0x100_0000) == 0x80_0000
  {
    var cfg := ExampleBoard(rescueStart, factoryStart);
    Block64K();
    Align64K(rescueStart, boot);
    Align64K(0x2_0000, 0x2_0000);
    Align64K(0x80_0000, 0x80_0000);
    HalfOf16M();
  }

  lemma HalfOf16M()
    ensures AlignLess(0x80_0000, 0x1_0000) == 0x80_0000
  {
    Block64K();
    AlignLessIsFloor(0x80_0000, 16);
  }

  /** With the factory start that the SPI parameters give, a 2 MB partition is put over the factory section. */
  lemma FactoryOverwritten(l: seq<nat>, u: seq<nat>)
    requires IsLower(l) && IsUpper(u)
    ensures var cfg := ExampleBoard(0x4_3000, 0xE_0000);
            cfg.Valid() && var m := LoneUpgrade(cfg, 0x100_0000, 0, 0x20_0000, 0);
            Placed(m, cfg, 0x100_0000, 0, l, u) && AllPlaced(m)
            && !Apart(m.alloc, m.offset, FW_USR_LOCAL_ETC, FW_FACTORY)
  {
    var cfg := ExampleBoard(0x4_3000, 0xE_0000);
    ExampleSizes(0x4_3000, 0xE_0000, 0x5_0000);
    LonePlaced(cfg, 0x100_0000, 0, 0x20_0000, 0, l, u);
    LoneAt(cfg, 0x100_0000, 0, 0x20_0000, 0);
  }

  /** With a boot area of 9 MB the high half begins inside it. */
  lemma BootOverwritten(l: seq<nat>, u: seq<nat>)
    requires IsLower(l) && IsUpper(u)
    ensures var cfg := ExampleBoard(0x90_0000, 0xFE_0000);
            cfg.Valid() && var m := LoneUpgrade(cfg, 0x100_0000, 1, 0x20_0000, 0);
            Placed(m, cfg, 0x100_0000, 1, l, u) && AllPlaced(m)
            && !Apart(m.alloc, m.offset, FW_USR_LOCAL_ETC, FW_BOOTCODE)
  {
    var cfg := ExampleBoard(0x90_0000, 0xFE_0000);
    ExampleSizes(0x90_0000, 0xFE_0000, 0x90_0000);
    LonePlaced(cfg, 0x100_0000, 1, 0x20_0000, 0, l, u);
    LoneAt(cfg, 0x100_0000, 1, 0x20_0000, 0);
    BootNoWrap(cfg);
  }

  // ---------------------------------------------------------------- runs of upgrades

  /** Region a of one image shares no address with region b of another. */
  predicate Clear(m: Image, a: nat, n: Image, b: nat)
    requires a < |m.alloc| == |m.offset| && b < |n.alloc| == |n.offset|
  {
    m.alloc[a] == 0 || n.alloc[b] == 0 || End(m.alloc, m.offset, a) <= n.offset[b] || End(n.alloc, n.offset, b) <= m.offset[a]
  }

  /** No firmware or partition of the second image shares an address with one of the first. */
  ghost predicate KeptBy(m: Image, n: Image) {
    && |m.alloc| == |m.offset| == |n.alloc| == |n.offset| == FW_UNKNOWN
    && forall a, b | 0 <= a <= FW_USR_LOCAL_ETC && 0 <= b <= FW_USR_LOCAL_ETC :: Clear(m, a, n, b)
  }

  /** All firmware and partitions of the first image lie in what the second one protects. */
  ghost predicate ProtectedBy(m: Image, n: Image) {
    && |n.alloc| == |n.offset| == FW_UNKNOWN
    && AllInside(m, n.offset[FW_P_SSU_WORKING], End(n.alloc, n.offset, FW_P_SSU_WORKING))
  }

  /** A run of completed upgrades; cfgs[i] describes the i-th, and works[i] is current when it is written. */
  ghost predicate History(images: seq<Image>, works: seq<nat>, cfgs: seq<Config>, flash: u64, l: seq<nat>, u: seq<nat>) {
    && |works| == |images| + 1 && |cfgs| == |images| && works[0] <= 2
    && forall i | 0 <= i < |images| ::
         && Board(cfgs[i], flash) && BootLow(cfgs[i], flash, works[i]) && cfgs[i].eraseBits == cfgs[0].eraseBits
         && Placed(images[i], cfgs[i], flash, works[i], l, u) && works[i + 1] == NextPart(works[i])
  }

  /** The halves are the same whatever an upgrade consists of: they depend on the erase size only. */
  lemma SameMiddle(a: Config, b: Config, flash: u64)
    requires Board(a, flash) && Board(b, flash) && a.eraseBits == b.eraseBits
    ensures LowEnd(a, flash) == LowEnd(b, flash) && HighStart(a, flash) == HighStart(b, flash)
  {}

  /**
   * Over every run of upgrades that have a place for all they install, each leaves the image before it untouched.
   * If boot area and factory section have stayed as they were, the image also lies in the protected part.
   */
  lemma PreviousImageKept(images: seq<Image>, works: seq<nat>, cfgs: seq<Config>, flash: u64, l: seq<nat>, u: seq<nat>, i: nat)
    requires History(images, works, cfgs, flash, l, u) && i + 1 < |images|
    requires AllPlaced(images[i]) && AllPlaced(images[i + 1])
    ensures KeptBy(images[i], images[i + 1])
    ensures SameBoard(cfgs[i], cfgs[i + 1]) ==> ProtectedBy(images[i], images[i + 1])
  {
    TwoUpgrades(images[i], images[i + 1], cfgs[i], cfgs[i + 1], flash, works[i], l, u);
  }

  lemma TwoUpgrades(m: Image, n: Image, c: Config, d: Config, flash: u64, work: nat, l: seq<nat>, u: seq<nat>)
    requires Board(c, flash) && BootLow(c, flash, work) && Placed(m, c, flash, work, l, u) && AllPlaced(m)
    requires Board(d, flash) && BootLow(d, flash, NextPart(work)) && Placed(n, d, flash, NextPart(work), l, u) && AllPlaced(n)
    requires c.eraseBits == d.eraseBits && work <= 2
    ensures KeptBy(m, n)
    ensures SameBoard(c, d) ==> ProtectedBy(m, n)
  {
    Middle(c, flash);
    SameMiddle(c, d, flash);
    UpgradeSound(m, c, flash, work, l, u);
    UpgradeSound(n, d, flash, NextPart(work), l, u);
    WorkingClearIff(m, c, flash, work, l, u);
    WorkingClearIff(n, d, flash, NextPart(work), l, u);
  }

  /** Both install the same kinds of firmware and partitions, among those that get no place. */
  ghost predicate SameKinds(m: Image, n: Image) {
    && |m.alloc| == |m.offset| == |n.alloc| == |n.offset| == FW_UNKNOWN
    && forall e: nat | Unplaced(e) :: m.alloc[e] == 0 <==> n.alloc[e] == 0
  }

  /** An upgrade of the same kinds leaves the image before it untouched exactly when there is a place for everything. */
  lemma PreviousImageKeptIff(images: seq<Image>, works: seq<nat>, cfgs: seq<Config>, flash: u64,
                             l: seq<nat>, u: seq<nat>, i: nat)
    requires History(images, works, cfgs, flash, l, u) && i + 1 < |images|
    requires FromZero(images[i]) && FromZero(images[i + 1]) && SameKinds(images[i], images[i + 1])
    ensures KeptBy(images[i], images[i + 1]) <==> AllPlaced(images[i])
  {
    var m, n := images[i], images[i + 1];
    if AllPlaced(m) {
      PreviousImageKept(images, works, cfgs, flash, l, u, i);
    } else {
      var e: nat :| Unplaced(e) && m.alloc[e] != 0;
      assert n.alloc[e] != 0 && !Clear(m, e, n, e);
    }
  }

  /** The two halves of the example board in turn, with a data partition of 1 MB beside another one. */
  function ExampleUpgrade(work: nat): Image {
    Block64K();
    var cfg := ExampleBoard(0x4_3000, 0xFE_0000);
    LoneUpgrade(cfg, 0x100_0000, work, 0x10_0000, 0x10_0000)
  }

  /** Data partition and boot area begin with the flash. */
  ghost predicate DataFirst(m: Image) {
    && |m.alloc| == |m.offset| == FW_UNKNOWN && m.offset[FW_DATA] == m.offset[FW_BOOTCODE] == 0
    && m.alloc[FW_DATA] > 0 && m.alloc[FW_BOOTCODE] > 0
  }

  lemma ExamplePlaced(work: nat, l: seq<nat>, u: seq<nat>)
    requires IsLower(l) && IsUpper(u) && work <= 1
    ensures var cfg, m := ExampleBoard(0x4_3000, 0xFE_0000), ExampleUpgrade(work);
            && Board(cfg, 0x100_0000) && BootLow(cfg, 0x100_0000, work) && Placed(m, cfg, 0x100_0000, work, l, u)
            && DataFirst(m)
  {
    var cfg := ExampleBoard(0x4_3000, 0xFE_0000);
    ExampleSizes(0x4_3000, 0xFE_0000, 0x5_0000);
    LonePlaced(cfg, 0x100_0000, work, 0x10_0000, 0x10_0000, l, u);
    LoneAt(cfg, 0x100_0000, work, 0x10_0000, 0x10_0000);
  }

  lemma TwoCompleted(m: Image, n: Image, cfg: Config, flash: u64, l: seq<nat>, u: seq<nat>)
    requires Board(cfg, flash) && BootLow(cfg, flash, 0) && Placed(m, cfg, flash, 0, l, u) && Placed(n, cfg, flash, 1, l, u)
    ensures History([m, n], [0, 1, 2], [cfg, cfg], flash, l, u)
  {}

  lemma ExampleOverlaps(m: Image, n: Image)
    requires DataFirst(m) && DataFirst(n)
    ensures !Apart(m.alloc, m.offset, FW_DATA, FW_BOOTCODE) && !Apart(n.alloc, n.offset, FW_DATA, FW_BOOTCODE)
    ensures !Clear(m, FW_DATA, n, FW_DATA)
  {}

  /** A run of two such upgrades: each puts the data partition over the boot area, and the second over the first's. */
  lemma DataOverwritten(l: seq<nat>, u: seq<nat>)
    requires IsLower(l) && IsUpper(u)
    ensures var (m, n, cfg) := (ExampleUpgrade(0), ExampleUpgrade(1), ExampleBoard(0x4_3000, 0xFE_0000));
            && History([m, n], [0, 1, 2], [cfg, cfg], 0x100_0000, l, u)
            && !Apart(m.alloc, m.offset, FW_DATA, FW_BOOTCODE) && !Apart(n.alloc, n.offset, FW_DATA, FW_BOOTCODE)
            && !Clear(m, FW_DATA, n, FW_DATA)
  {
    ExamplePlaced(0, l, u);
    ExamplePlaced(1, l, u);
    ExampleOverlaps(ExampleUpgrade(0), ExampleUpgrade(1));
    TwoCompleted(ExampleUpgrade(0), ExampleUpgrade(1), ExampleBoard(0x4_3000, 0xFE_0000), 0x100_0000, l, u);
  }

  // ---------------------------------------------------------------- totals that wrap

  /** The two stacks fill their half from both ends, without wrap-around. */
  ghost predicate HalfSound(m: Image, cfg: Config, flash: u64, work: nat, l: seq<nat>, u: seq<nat>)
    requires cfg.Valid()
  {
    && Tables(m.alloc, m.offset, l) && Tables(m.alloc, m.offset, u)
    && HalfLo(cfg, flash, work) + Total(Pick(m.alloc, l)) + Total(Pick(m.alloc, u)) <= HalfHi(cfg, flash, work)
    && Stacked(m.alloc, m.offset, l, HalfLo(cfg, flash, work))
    && Stacked(m.alloc, m.offset, u, HalfHi(cfg, flash, work) - Total(Pick(m.alloc, u)))
  }

  /** What was placed in wrapping arithmetic is sound exactly when the lengths fit the half in unbounded arithmetic. */
  lemma HalfFitsIff(m: Image, cfg: Config, flash: u64, work: nat, l: seq<nat>, u: seq<nat>)
    requires Board(cfg, flash) && SsuLaid(m.alloc, m.offset, cfg, flash, work, l, u)
    ensures HalfSound(m, cfg, flash, work, l, u) <==>
            HalfLo(cfg, flash, work) + Total(Pick(m.alloc, l)) + Total(Pick(m.alloc, u)) <= HalfHi(cfg, flash, work)
  {
    if HalfLo(cfg, flash, work) + Total(Pick(m.alloc, l)) + Total(Pick(m.alloc, u)) <= HalfHi(cfg, flash, work) {
      UpFits(m.alloc, m.offset, l, HalfLo(cfg, flash, work));
      DownFits(m.alloc, m.offset, u, HalfHi(cfg, flash, work));
    }
  }

  /** With a flash that is not near 2^64 an upgrade that passes is sound exactly when its total has not wrapped. */
  lemma HalfSoundIff(m: Image, cfg: Config, flash: u64, work: nat, l: seq<nat>, u: seq<nat>)
    requires Board(cfg, flash) && BootLow(cfg, flash, work) && SsuPlaced(m.alloc, m.offset, cfg, flash, work, l, u)
    requires flash as int + 3 * U32 + Elsewhere(m.alloc, l, u) < U64
    ensures HalfSound(m, cfg, flash, work, l, u) <==> Total(Counted(m.alloc)) < U64
  {
    HalfFitsIff(m, cfg, flash, work, l, u);
    CountedHalves(m.alloc, l, u);
    if Total(Counted(m.alloc)) < U64 {
      LengthsFit(m, cfg, flash, work, l, u);
    } else {
      BootNoWrap(cfg);
      Middle(cfg, flash);
    }
  }

  /** A partition that brings the total to 2^64 passes the check of any board without firmware, in either half. */
  lemma WrapAccepted(cfg: Config, flash: u64, work: nat, size: u64, l: seq<nat>, u: seq<nat>)
    requires Board(cfg, flash) && work <= 2 && IsLower(l) && IsUpper(u) && cfg == BareConfig(cfg)
    requires size as int + BootAlloc(cfg) as int + SectionOf(cfg) as int == U64 && size > flash
    ensures var m := LoneUpgrade(cfg, flash, work, size, 0);
            SsuPlaced(m.alloc, m.offset, cfg, flash, work, l, u) && AllPlaced(m) && !HalfSound(m, cfg, flash, work, l, u)
  {
    WrapPlaced(cfg, flash, work, size, l, u);
    LoneUnplaced(cfg, flash, work, size, 0);
    WrapTooLong(cfg, flash, work, size, l, u);
  }

  lemma WrapPlaced(cfg: Config, flash: u64, work: nat, size: u64, l: seq<nat>, u: seq<nat>)
    requires cfg.Valid() && work <= 2 && IsLower(l) && IsUpper(u) && cfg == BareConfig(cfg)
    requires size as int + BootAlloc(cfg) as int + SectionOf(cfg) as int == U64
    ensures var m := LoneUpgrade(cfg, flash, work, size, 0); SsuPlaced(m.alloc, m.offset, cfg, flash, work, l, u)
  {
    LoneLaid(cfg, flash, work, size, 0, l, u);
    LoneTotal(cfg, flash, work, size, 0);
    WrapRoom(LoneUpgrade(cfg, flash, work, size, 0).alloc, cfg, flash, work);
  }

  lemma WrapTooLong(cfg: Config, flash: u64, work: nat, size: u64, l: seq<nat>, u: seq<nat>)
    requires Board(cfg, flash) && IsLower(l) && size > flash
    ensures !HalfSound(LoneUpgrade(cfg, flash, work, size, 0), cfg, flash, work, l, u)
  {
    LoneAt(cfg, flash, work, size, 0);
    LongerThanHalf(LoneUpgrade(cfg, flash, work, size, 0), cfg, flash, work, l, u);
  }

  lemma WrapRoom(alloc: seq<u64>, cfg: Config, flash: u64, work: nat)
    requires cfg.Valid() && Total(Counted(alloc)) == U64
    ensures RoomEnough(alloc, cfg, flash, work)
  {}

  lemma LongerThanHalf(m: Image, cfg: Config, flash: u64, work: nat, l: seq<nat>, u: seq<nat>)
    requires Board(cfg, flash) && IsLower(l) && |m.alloc| == FW_UNKNOWN && m.alloc[FW_USR_LOCAL_ETC] > flash
    ensures !HalfSound(m, cfg, flash, work, l, u)
  {
    var p := Pick(m.alloc, l);
    SumMonotone(p, 0, 2);
    Middle(cfg, flash);
  }
}
