/** Where the space check goes wrong: its 64-bit total can wrap, and then it accepts what does not fit. */
module LayoutWrap {
  import opened Words
  import opened Align
  import opened Sums
  import opened Stacks
  import opened FlashLayout
  import opened LayoutSound

  /** What counts towards the total without being a reservation, in the chain or in the list. */
  function Elsewhere(alloc: seq<u64>, fixed: seq<nat>, c: seq<nat>, order: seq<nat>): nat {
    Total(Unlisted(Counted(alloc), fixed + c + order))
  }

  const NAND_FIXED: seq<nat> := [FW_BOOTCODE, FW_FACTORY, FW_FW_TBL]
  const EMMC_FIXED: seq<nat> := [FW_BOOTCODE, FW_FACTORY, FW_FW_TBL, FW_GOLD_FW_TBL]

  /** Types that are reserved below the firmware, and counted. */
  ghost predicate Reservations(fixed: seq<nat>) {
    Lists(fixed, FW_UNKNOWN) && forall i | 0 <= i < |fixed| :: fixed[i] > FW_USR_LOCAL_ETC && !Uncounted(fixed[i])
  }

  lemma FixedTypes()
    ensures Reservations(NAND_FIXED) && Reservations(EMMC_FIXED)
  {}

  /** What is sound in a flash not near 2^64 has not wrapped, if the reservations spare little of what they cover. */
  lemma SoundTotal(alloc: seq<u64>, offset: seq<u64>, order: seq<nat>, c: seq<nat>, fixed: seq<nat>,
                   bottom: u64, spare: nat, flash: u64)
    requires StacksPlaced(alloc, offset, order, c, bottom, flash) && Reservations(fixed)
    requires Total(Pick(alloc, fixed)) <= bottom as int + spare
    requires flash as int + spare + Elsewhere(alloc, fixed, c, order) < U64
    requires Sound(alloc, offset, order, c, bottom, flash)
    ensures Total(Counted(alloc)) < U64
  {
    ChainListed(c);
    SoundIff(alloc, offset, order, c, bottom, flash);
    CountedParts(alloc, fixed, c, order);
  }

  /** With a flash that is not near 2^64 a NAND layout that passes is sound exactly when the total has not wrapped. */
  lemma NandSoundIff(alloc: seq<u64>, offset: seq<u64>, cfg: Config, order: seq<nat>, c: seq<nat>, flash: u64)
    requires NandPlaced(alloc, offset, cfg, order, c, flash) && Consistent(cfg)
    requires flash as int + 2 * cfg.erase + Elsewhere(alloc, NAND_FIXED, c, order) < U64
    ensures Sound(alloc, offset, order, c, NandBottom(cfg), flash) <==> Total(Counted(alloc)) < U64
  {
    NandSound(alloc, offset, cfg, order, c, flash);
    if Sound(alloc, offset, order, c, NandBottom(cfg), flash) {
      FixedTypes();
      NandReservations(alloc, offset, cfg);
      SoundTotal(alloc, offset, order, c, NAND_FIXED, NandBottom(cfg), 2 * cfg.erase, flash);
    }
  }

  /** And so is an eMMC layout. */
  lemma EmmcSoundIff(alloc: seq<u64>, offset: seq<u64>, cfg: Config, order: seq<nat>, c: seq<nat>, flash: u64)
    requires EmmcPlaced(alloc, offset, cfg, order, c, flash) && Consistent(cfg)
    requires flash as int + cfg.erase + Elsewhere(alloc, EMMC_FIXED, c, order) < U64
    ensures Sound(alloc, offset, order, c, EmmcBottom(offset), flash) <==> Total(Counted(alloc)) < U64
  {
    EmmcSound(alloc, offset, cfg, order, c, flash);
    if Sound(alloc, offset, order, c, EmmcBottom(offset), flash) {
      FixedTypes();
      EmmcCovered(alloc, offset, cfg);
      SoundTotal(alloc, offset, order, c, EMMC_FIXED, EmmcBottom(offset), cfg.erase, flash);
    }
  }

  // ---------------------------------------------------------------- totals that wrap

  /** Blocks of 512 bytes, boot code and factory slots of one block each, and no firmware. */
  function SmallBoard(): Config {
    Config.Config(9, 512, 256, 0, 512, 3, false, false, seq(FW_UNKNOWN, _ => 0))
  }

  /** The size of a partition that brings the total to 2^64. */
  function WrapSize(table: nat, gold: nat, dt: nat): nat
    requires 1024 + table + gold + 2 * dt <= U64
  {
    U64 - (1024 + table + gold + 2 * dt)
  }

  function WrapAlloc(table: u64, gold: u64, dt: u64, size: u64, gap: u64): (s: seq<u64>)
    ensures |s| == FW_UNKNOWN
  {
    seq<u64>(FW_UNKNOWN, e => if e == FW_BOOTCODE || e == FW_FACTORY then 512
                              else if e == FW_FW_TBL then table
                              else if e == FW_GOLD_FW_TBL then gold
                              else if e == FW_RESCUE_DT || e == FW_KERNEL_DT then dt
                              else if e == FW_USR_LOCAL_ETC then size
                              else if e == FW_P_FREE_SPACE then gap
                              else 0)
  }

  function WrapOffset(bottom: u64, high: u64, dt: u64, low: u64): (s: seq<u64>)
    ensures |s| == FW_UNKNOWN
  {
    seq<u64>(FW_UNKNOWN, e => if e == FW_FACTORY then 512
                              else if e == FW_FW_TBL then 1024
                              else if e == FW_GOLD_FW_TBL then 1024 + BOOTTABLE
                              else if e == FW_RESCUE_DT then bottom
                              else if e == FW_KERNEL_DT then Add64(bottom, dt)
                              else if e < FW_ROOTFS || e == FW_P_FREE_SPACE then high
                              else if e == FW_USR_LOCAL_ETC then low
                              else 0)
  }

  lemma WrapTotal(table: u64, gold: u64, dt: u64, gap: u64)
    requires table < U32 && gold < U32 && dt < U32
    ensures Total(Counted(WrapAlloc(table, gold, dt, WrapSize(table, gold, dt), gap))) == U64
  {
    var values := Counted(WrapAlloc(table, gold, dt, WrapSize(table, gold, dt), gap));
    var a, b := EMMC_FIXED, [FW_RESCUE_DT, FW_KERNEL_DT, FW_USR_LOCAL_ETC];
    WrapListed(values, a, b);
    FourTotal(values, a);
    ThreeTotal(values, b);
  }

  lemma WrapListed(values: seq<nat>, a: seq<nat>, b: seq<nat>)
    requires Lists(a + b, |values|) && forall e | 0 <= e < |values| && e !in a && e !in b :: values[e] == 0
    ensures Bounded(a, |values|) && Bounded(b, |values|)
    ensures Total(values) == Total(Pick(values, a)) + Total(Pick(values, b))
  {
    ListedTotal(values, a + b);
    PickConcat(values, a, b);
  }

  /** Both stacks, whatever the partition's size. */
  lemma WrapStacks(alloc: seq<u64>, offset: seq<u64>, table: u64, gold: u64, dt: u64, size: u64, bottom: u64, flash: u64,
                   c: seq<nat>)
    requires IsChain(c)
    requires var (low, high) := (Sub64(flash, size), Add64(Add64(bottom, dt), dt));
             alloc == WrapAlloc(table, gold, dt, size, Sub64(low, high)) && offset == WrapOffset(bottom, high, dt, low)
    ensures StacksPlaced(alloc, offset, [FW_USR_LOCAL_ETC], c, bottom, flash)
  {
    ChainListed(c);
    forall k | 0 < k < |c| ensures Follows(alloc, offset, c, k) {}
  }

  /** A partition longer than the flash does not leave a sound layout. */
  lemma TooLong(alloc: seq<u64>, offset: seq<u64>, c: seq<nat>, bottom: u64, flash: u64)
    requires StacksPlaced(alloc, offset, [FW_USR_LOCAL_ETC], c, bottom, flash) && alloc[FW_USR_LOCAL_ETC] > flash
    ensures !Sound(alloc, offset, [FW_USR_LOCAL_ETC], c, bottom, flash)
  {
    ChainListed(c);
    SoundIff(alloc, offset, [FW_USR_LOCAL_ETC], c, bottom, flash);
    var p := Pick(alloc, [FW_USR_LOCAL_ETC]);
    assert SumTo(p, 1) == SumTo(p, 0) + p[0];
  }

  lemma SmallSizes()
    ensures var cfg := SmallBoard();
            cfg.Valid() && cfg.erase == 512 && Consistent(cfg) && cfg.Section() == 512
            && AlignMore(0, 512) == 0 && AlignMore(512, 512) == 512
  {
    assert Pow2(8) == 256;
    RoundTo512(0);
    RoundTo512(512);
  }

  lemma RoundTo512(len: nat)
    requires len == 0 || len == 512
    ensures AlignMore(len, 512) == len
  {
    assert Pow2(8) == 256;
    AlignMoreIsCeiling(len, 9);
    AlignMoreWithin(len, len, 9);
  }

  /** A partition of almost 2^64 bytes passes the check of a 1 MB NAND flash. */
  lemma NandWrapAccepted(c: seq<nat>)
    requires IsChain(c)
    ensures exists alloc: seq<u64>, offset: seq<u64> ::
              NandPlaced(alloc, offset, SmallBoard(), [FW_USR_LOCAL_ETC], c, 0x10_0000)
              && Consistent(SmallBoard()) && !Sound(alloc, offset, [FW_USR_LOCAL_ETC], c, NandBottom(SmallBoard()), 0x10_0000)
  {
    var cfg, flash := SmallBoard(), 0x10_0000;
    SmallSizes();
    var size := WrapSize(512, 0, 0);
    var low, bottom := Sub64(flash, size), NandBottom(cfg);
    var alloc, offset := WrapAlloc(512, 0, 0, size, Sub64(low, bottom)), WrapOffset(bottom, bottom, 0, low);
    WrapTotal(512, 0, 0, Sub64(low, bottom));
    WrapStacks(alloc, offset, 512, 0, 0, size, bottom, flash, c);
    TooLong(alloc, offset, c, bottom, flash);
    assert NandReserved(alloc, offset, cfg);
    assert NandPlaced(alloc, offset, cfg, [FW_USR_LOCAL_ETC], c, flash);
  }

  lemma WrapEmmcReserved(alloc: seq<u64>, offset: seq<u64>, cfg: Config, size: u64, gap: u64,
                         bottom: u64, high: u64, low: u64)
    requires cfg == SmallBoard()
    requires alloc == WrapAlloc(BOOTTABLE, BOOTTABLE, DT_SIZE, size, gap) && offset == WrapOffset(bottom, high, DT_SIZE, low)
    ensures EmmcReserved(alloc, offset, cfg)
  {
    SmallSizes();
  }

  /** And the check of a 1 MB eMMC. */
  lemma EmmcWrapAccepted(c: seq<nat>)
    requires IsChain(c)
    ensures exists alloc: seq<u64>, offset: seq<u64> ::
              EmmcPlaced(alloc, offset, SmallBoard(), [FW_USR_LOCAL_ETC], c, 0x10_0000)
              && Consistent(SmallBoard()) && !Sound(alloc, offset, [FW_USR_LOCAL_ETC], c, EmmcBottom(offset), 0x10_0000)
  {
    var cfg, flash := SmallBoard(), 0x10_0000;
    SmallSizes();
    var size := WrapSize(BOOTTABLE, BOOTTABLE, DT_SIZE);
    var low, bottom := Sub64(flash, size), 1024 + 2 * BOOTTABLE;
    var high := bottom + 2 * DT_SIZE;
    var alloc := WrapAlloc(BOOTTABLE, BOOTTABLE, DT_SIZE, size, Sub64(low, high));
    var offset := WrapOffset(bottom, high, DT_SIZE, low);
    WrapTotal(BOOTTABLE, BOOTTABLE, DT_SIZE, Sub64(low, high));
    WrapStacks(alloc, offset, BOOTTABLE, BOOTTABLE, DT_SIZE, size, bottom, flash, c);
    TooLong(alloc, offset, c, bottom, flash);
    WrapEmmcReserved(alloc, offset, cfg, size, Sub64(low, high), bottom, high, low);
    assert EmmcPlaced(alloc, offset, cfg, [FW_USR_LOCAL_ETC], c, flash);
  }
}
