/** The eMMC layout and the partition tables together: what a reader finds after an installation. */
module EmmcInstall {
  import opened Words
  import opened Sums
  import opened MbrChain
  import opened MbrDecode
  import opened BurnPosition
  import Stacks
  import Align
  import FlashLayout
  import LayoutSound

  /** The order of the partitions as the table writer numbers them, from FW_ROOTFS. */
  function FromRootfs(order: seq<nat>): (r: seq<nat>)
    requires FlashLayout.PartitionList(order)
    ensures |r| == |order| && forall i | 0 <= i < |r| :: r[i] == order[i] - FlashLayout.FW_ROOTFS
  {
    seq(|order|, i requires 0 <= i < |order| => order[i] - FlashLayout.FW_ROOTFS)
  }

  /** The table writer reads the allocations of the partition types. */
  ghost predicate Shows(a: seq<nat>, alloc: seq<u64>) {
    |a| == NUM_RTKPART && |alloc| == FlashLayout.FW_UNKNOWN
    && forall e | 0 <= e < NUM_RTKPART :: a[e] == alloc[FlashLayout.FW_ROOTFS + e]
  }

  /** Every partition with space is listed, and no other. */
  ghost predicate ListsAll(alloc: seq<u64>, order: seq<nat>) {
    && |alloc| == FlashLayout.FW_UNKNOWN && FlashLayout.PartitionList(order)
    && forall e | FlashLayout.FW_ROOTFS <= e <= FlashLayout.FW_USR_LOCAL_ETC :: e in order <==> alloc[e] != 0
  }

  lemma ShownListing(a: seq<nat>, alloc: seq<u64>, order: seq<nat>)
    requires Shows(a, alloc) && ListsAll(alloc, order)
    ensures Listing(a, FromRootfs(order))
  {
    var o := FromRootfs(order);
    forall e | 0 <= e < NUM_RTKPART ensures e in o <==> a[e] != 0 {
      var f := FlashLayout.FW_ROOTFS + e;
      if f in order {
        var i :| 0 <= i < |order| && order[i] == f;
        assert o[i] == e;
      }
      if e in o {
        var i :| 0 <= i < |o| && o[i] == e;
        assert order[i] == f;
      }
    }
  }

  /** Both number systems describe the same sizes, and so the same plan. */
  lemma SameSizes(a: seq<nat>, alloc: seq<u64>, order: seq<nat>)
    requires Shows(a, alloc) && FlashLayout.PartitionList(order)
    ensures Sizes(a, FromRootfs(order)) == SectorCounts(Pick(alloc, order))
  {}

  /** A reader finds every listed partition, under its device number, where the layout put it. */
  ghost predicate Installed(disk: map<int, Table>, alloc: seq<u64>, offset: seq<u64>, order: seq<nat>,
                            partIdx: seq<int>, limit: nat)
  {
    && |alloc| == |offset| == FlashLayout.FW_UNKNOWN && FlashLayout.PartitionList(order) && |partIdx| == NUM_RTKPART
    && var found := Decode(disk, limit);
       |found| == |order| && forall i | 0 <= i < |order| :: InstalledAt(found[i], alloc, offset, order, partIdx, i)
  }

  ghost predicate InstalledAt(f: Found, alloc: seq<u64>, offset: seq<u64>, order: seq<nat>, partIdx: seq<int>, i: nat)
    requires |alloc| == |offset| == FlashLayout.FW_UNKNOWN && FlashLayout.PartitionList(order) && |partIdx| == NUM_RTKPART
    requires i < |order|
  {
    f.device == partIdx[order[i] - FlashLayout.FW_ROOTFS] && AtLayout(f, alloc, offset, order, i)
  }

  /** The exact condition for the tables and the layout to agree, on the partitions of a list. */
  ghost predicate WholeAndLong(alloc: seq<u64>, order: seq<nat>, flash: u64) {
    && |alloc| == FlashLayout.FW_UNKNOWN && FlashLayout.PartitionList(order) && flash % 512 == 0
    && forall i | 0 <= i < |order| :: alloc[order[i]] % 512 == 0 && alloc[order[i]] > 0x2000
  }

  /** The tables of the plan for this list are on the medium, and its device numbers are recorded. */
  ghost predicate TablesFor(was: map<int, Table>, disk: map<int, Table>, idx: seq<int>, partIdx: seq<int>,
                            alloc: seq<u64>, order: seq<nat>, flash: nat)
  {
    && |alloc| == FlashLayout.FW_UNKNOWN && FlashLayout.PartitionList(order) && |idx| == NUM_RTKPART
    && Total(Pick(alloc, order)) <= flash
    && disk == Written(was, SectorPlan(Pick(alloc, order), flash))
    && partIdx == Numbered(idx, FromRootfs(order), |order|)
  }

  /** The recorded device number of a listed partition. */
  lemma DeviceRecorded(idx: seq<int>, order: seq<nat>, i: nat)
    requires FlashLayout.PartitionList(order) && |idx| == NUM_RTKPART && i < |order|
    ensures Numbered(idx, FromRootfs(order), |order|)[order[i] - FlashLayout.FW_ROOTFS] == DeviceOf(|order|, i)
  {
    NumberedAt(idx, FromRootfs(order), |order|);
    assert FromRootfs(order)[i] == order[i] - FlashLayout.FW_ROOTFS;
  }

  lemma TablesInstalled(was: map<int, Table>, disk: map<int, Table>, idx: seq<int>, partIdx: seq<int>,
                        alloc: seq<u64>, offset: seq<u64>, order: seq<nat>, c: seq<nat>, bottom: u64, flash: u64, limit: nat)
    requires LayoutSound.Sound(alloc, offset, order, c, bottom, flash) && WholeAndLong(alloc, order, flash)
    requires TablesFor(was, disk, idx, partIdx, alloc, order, flash)
    requires bottom >= 512 && flash / 512 < U32 && limit >= |order|
    ensures Installed(disk, alloc, offset, order, partIdx, limit)
  {
    InstalledPartitions(alloc, offset, order, c, bottom, flash, was, limit);
    forall i | 0 <= i < |order| ensures InstalledAt(Decode(disk, limit)[i], alloc, offset, order, partIdx, i) {
      DeviceRecorded(idx, order, i);
    }
  }

  /**
   * No sector of a partition that is found has changed, and none between sector 0 and the partitions,
   * which take the last sectors of the medium.
   */
  ghost predicate DataUntouched(was: map<int, Table>, now: map<int, Table>, alloc: seq<u64>, order: seq<nat>,
                                flash: u64, limit: nat)
    requires |alloc| == FlashLayout.FW_UNKNOWN && FlashLayout.PartitionList(order)
  {
    && (forall s | 0 < s < flash / 512 - Total(SectorCounts(Pick(alloc, order))) :: SameSector(was, now, s))
    && var found := Decode(now, limit);
       forall i, s | 0 <= i < |found| && found[i].start <= s < found[i].start + found[i].len :: SameSector(was, now, s)
  }

  lemma TablesKeepData(was: map<int, Table>, disk: map<int, Table>, idx: seq<int>, partIdx: seq<int>,
                       alloc: seq<u64>, order: seq<nat>, bottom: u64, flash: u64, limit: nat)
    requires WholeAndLong(alloc, order, flash) && TablesFor(was, disk, idx, partIdx, alloc, order, flash)
    requires bottom >= 512 && bottom as int + Total(Pick(alloc, order)) <= flash as int
    requires order != [] && flash / 512 < U32 && limit >= |order|
    ensures DataUntouched(was, disk, alloc, order, flash, limit)
  {
    var a := Pick(alloc, order);
    var q, found := SectorPlan(a, flash), Decode(disk, limit);
    DecodedPlan(a, flash, bottom, was, limit);
    TablesFrame(was, q, TableCount(q.n));
    forall s | 0 < s < flash / 512 - Total(SectorCounts(a)) ensures SameSector(was, disk, s) {
      DataKept(was, disk, q, q.n, s);
    }
    forall i, s | 0 <= i < |found| && found[i].start <= s < found[i].start + found[i].len
      ensures SameSector(was, disk, s)
    {
      assert found[i] == Expected(q, i);
      DataSizes(a, flash, i);
      DataKept(was, disk, q, i, s);
    }
  }

  lemma DataSizes(a: seq<nat>, flash: nat, i: nat)
    requires i < |a| && Total(a) <= flash && a[i] % 512 == 0 && a[i] > MBR_RESERVE_SIZE
    ensures SectorPlan(a, flash).size[i] > RESERVE
  {
    assert a[i] == 512 * (a[i] / 512);
  }

  /** Layout and tables keep the same table of image descriptions; here the partitions' part of it is copied. */
  method ShowAllocations(layout: FlashLayout.Layout, emmc: Emmc)
    requires layout.Valid() && emmc.alloc.Length == NUM_RTKPART && emmc.alloc as object != layout.alloc
    modifies emmc.alloc
    ensures Shows(emmc.alloc[..], layout.alloc[..])
  {
    forall e | 0 <= e < NUM_RTKPART { emmc.alloc[e] := layout.alloc[FlashLayout.FW_ROOTFS + e]; }
  }

  method WritePartitionTables(emmc: Emmc, order: seq<nat>, ghost alloc: seq<u64>) returns (ret: int)
    requires Shows(emmc.alloc[..], alloc) && ListsAll(alloc, order) && |order| <= 9
    requires emmc.partIdx.Length == NUM_RTKPART && emmc.alloc as object != emmc.partIdx
    requires Total(SectorCounts(Pick(alloc, order))) < U32 && emmc.flashSize / 512 < U32
    modifies emmc, emmc.partIdx
    ensures ret == if Total(SectorCounts(Pick(alloc, order))) < emmc.flashSize / 512 then 0 else -1
    ensures ret != 0 ==> emmc.disk == old(emmc.disk)
    ensures ret == 0 && Total(Pick(alloc, order)) <= emmc.flashSize ==>
              TablesFor(old(emmc.disk), emmc.disk, old(emmc.partIdx[..]), emmc.partIdx[..], alloc, order, emmc.flashSize)
  {
    ShownListing(emmc.alloc[..], alloc, order);
    SameSizes(emmc.alloc[..], alloc, order);
    ret := emmc.WriteBoottable(FromRootfs(order));
    SectorTotal(Pick(alloc, order), |order|);
  }

  /** A layout that is sound leaves sectors for the firmware, so the tables get written. */
  lemma SectorsLeft(alloc: seq<u64>, offset: seq<u64>, order: seq<nat>, c: seq<nat>, bottom: u64, flash: u64)
    requires LayoutSound.Sound(alloc, offset, order, c, bottom, flash) && bottom >= 512
    ensures Total(Pick(alloc, order)) <= flash && Total(SectorCounts(Pick(alloc, order))) < flash / 512
  {
    LayoutPositions(alloc, offset, order, c, bottom, flash);
    SectorTotal(Pick(alloc, order), |order|);
  }

  /** Types that the branch does not know take less than 2^58 bytes each; in a cleared table they take none. */
  ghost predicate LittleElse(alloc: seq<u64>) {
    |alloc| == FlashLayout.FW_UNKNOWN
    && forall e | 0 <= e < FlashLayout.FW_UNKNOWN && FlashLayout.Foreign(e) :: alloc[e] < 0x400_0000_0000_0000
  }

  /** The parameters of an installation for which the space check is exact. */
  ghost predicate Checked(alloc: seq<u64>, cfg: FlashLayout.Config) {
    !cfg.onlyFactory && LayoutSound.Consistent(cfg) && LittleElse(alloc)
  }

  /** Listed partitions whose sectors are counted in 32 bits are far below 2^58 bytes. */
  lemma PartitionBelow(alloc: seq<u64>, order: seq<nat>, e: nat)
    requires ListsAll(alloc, order) && Total(SectorCounts(Pick(alloc, order))) < U32
    requires FlashLayout.FW_ROOTFS <= e <= FlashLayout.FW_USR_LOCAL_ETC
    ensures alloc[e] < 512 * U32
  {
    if alloc[e] != 0 {
      var i :| 0 <= i < |order| && order[i] == e;
      SumMonotone(SectorCounts(Pick(alloc, order)), 0, i);
      SumMonotone(SectorCounts(Pick(alloc, order)), i, |order|);
    }
  }

  lemma FirmwareBelow(alloc: seq<u64>, cfg: FlashLayout.Config, e: nat)
    requires FlashLayout.EmmcFirmwareSized(alloc, cfg) && e < FlashLayout.FW_ROOTFS
    ensures alloc[e] < 2 * U32
  {
    Align.AlignMoreBounds(cfg.img[e], cfg.eraseBits);
  }

  lemma ReservedBelow(alloc: seq<u64>, offset: seq<u64>, cfg: FlashLayout.Config)
    requires FlashLayout.EmmcReserved(alloc, offset, cfg)
    ensures alloc[FlashLayout.FW_BOOTCODE] < 2 * U32 && alloc[FlashLayout.FW_FACTORY] < 2 * U32
    ensures alloc[FlashLayout.FW_FW_TBL] < U32 && alloc[FlashLayout.FW_GOLD_FW_TBL] < U32
  {
    Align.AlignMoreBounds(cfg.bootcodeSize, cfg.eraseBits);
    Align.AlignMoreBounds(cfg.Section(), cfg.eraseBits);
  }

  /** So the counted total of such an installation does not wrap. */
  lemma TotalBelow(alloc: seq<u64>, offset: seq<u64>, cfg: FlashLayout.Config, order: seq<nat>)
    requires FlashLayout.EmmcReserved(alloc, offset, cfg) && LittleElse(alloc)
    requires ListsAll(alloc, order) && Total(SectorCounts(Pick(alloc, order))) < U32
    ensures Total(FlashLayout.Counted(alloc)) < U64
  {
    ReservedBelow(alloc, offset, cfg);
    forall e | 0 <= e < FlashLayout.FW_UNKNOWN ensures FlashLayout.Counted(alloc)[e] < 0x400_0000_0000_0000 {
      if e < FlashLayout.FW_ROOTFS {
        FirmwareBelow(alloc, cfg, e);
      } else if e <= FlashLayout.FW_USR_LOCAL_ETC {
        PartitionBelow(alloc, order, e);
      }
    }
    SumBelow(FlashLayout.Counted(alloc), FlashLayout.FW_UNKNOWN);
  }

  lemma EmmcBottom(alloc: seq<u64>, offset: seq<u64>, cfg: FlashLayout.Config, order: seq<nat>, c: seq<nat>, flash: u64)
    requires FlashLayout.EmmcPlaced(alloc, offset, cfg, order, c, flash) && Checked(alloc, cfg)
    requires ListsAll(alloc, order) && Total(SectorCounts(Pick(alloc, order))) < U32
    ensures var bottom := LayoutSound.EmmcBottom(offset);
            bottom >= 512 && LayoutSound.Sound(alloc, offset, order, c, bottom, flash)
  {
    TotalBelow(alloc, offset, cfg, order);
    LayoutSound.EmmcSound(alloc, offset, cfg, order, c, flash);
    LayoutSound.EmmcReservations(alloc, offset, cfg);
  }

  /** An installation that is checked passes on to the tables, and its partitions are found. */
  lemma CheckedInstall(was: map<int, Table>, disk: map<int, Table>, idx: seq<int>, partIdx: seq<int>,
                       alloc: seq<u64>, offset: seq<u64>, cfg: FlashLayout.Config,
                       order: seq<nat>, c: seq<nat>, flash: u64)
    requires FlashLayout.EmmcPlaced(alloc, offset, cfg, order, c, flash) && Checked(alloc, cfg)
    requires ListsAll(alloc, order) && Total(SectorCounts(Pick(alloc, order))) < U32 && flash / 512 < U32
    ensures Total(Pick(alloc, order)) <= flash && Total(SectorCounts(Pick(alloc, order))) < flash / 512
    ensures TablesFor(was, disk, idx, partIdx, alloc, order, flash) && WholeAndLong(alloc, order, flash) ==>
              forall limit: nat | limit >= |order| ::
                Installed(disk, alloc, offset, order, partIdx, limit) && DataUntouched(was, disk, alloc, order, flash, limit)
  {
    var bottom := LayoutSound.EmmcBottom(offset);
    EmmcBottom(alloc, offset, cfg, order, c, flash);
    SectorsLeft(alloc, offset, order, c, bottom, flash);
    if TablesFor(was, disk, idx, partIdx, alloc, order, flash) && WholeAndLong(alloc, order, flash) {
      LayoutPositions(alloc, offset, order, c, bottom, flash);
      forall limit: nat | limit >= |order|
        ensures Installed(disk, alloc, offset, order, partIdx, limit) && DataUntouched(was, disk, alloc, order, flash, limit)
      {
        TablesInstalled(was, disk, idx, partIdx, alloc, offset, order, c, bottom, flash, limit);
        TablesKeepData(was, disk, idx, partIdx, alloc, order, bottom, flash, limit);
      }
    }
  }

  /**
   * The eMMC layout followed by the partition tables. When the space check passes, the tables get
   * written, and with partitions of whole sectors above the reserve any reader finds every partition,
   * of which no sector has changed.
   */
  method InstallEmmc(layout: FlashLayout.Layout, cfg: FlashLayout.Config, order: seq<nat>, emmc: Emmc, ghost c: seq<nat>)
    returns (ret: int)
    requires layout.Valid() && cfg.Valid() && cfg.erase == 512 && FlashLayout.IsChain(c)
    requires ListsAll(layout.alloc[..], order) && |order| <= 9
    requires emmc.flashSize == layout.flashSize && layout.flashSize / 512 < U32
    requires Total(SectorCounts(Pick(layout.alloc[..], order))) < U32
    requires emmc.alloc.Length == emmc.partIdx.Length == NUM_RTKPART && emmc.alloc as object != emmc.partIdx
    requires emmc.alloc as object !in {layout.alloc as object, layout.offset}
    requires emmc.partIdx as object !in {layout.alloc as object, layout.offset}
    modifies layout.alloc, layout.offset, emmc, emmc.alloc, emmc.partIdx
    ensures old(Checked(layout.alloc[..], cfg)) ==>
              (ret == 0 <==> 0 <= cfg.avFiles <= 3 && FlashLayout.Passes(layout.alloc[..], layout.flashSize))
    ensures old(Checked(layout.alloc[..], cfg)) && ret == 0 && WholeAndLong(layout.alloc[..], order, layout.flashSize) ==>
              forall limit: nat | limit >= |order| ::
                Installed(emmc.disk, layout.alloc[..], layout.offset[..], order, emmc.partIdx[..], limit)
                && DataUntouched(old(emmc.disk), emmc.disk, layout.alloc[..], order, layout.flashSize, limit)
    ensures ret != 0 ==> emmc.disk == old(emmc.disk)
  {
    ret := LayoutListed(layout, cfg, order, c);
    if ret == 0 {
      ret := InstallTables(layout, cfg, order, emmc, c);
    }
  }

  /** What the layout leaves for the tables. */
  ghost predicate LaidOut(layout: FlashLayout.Layout, cfg: FlashLayout.Config, order: seq<nat>, c: seq<nat>)
    requires layout.Valid()
    reads layout.alloc, layout.offset
  {
    && FlashLayout.EmmcLaid(layout.alloc[..], layout.offset[..], cfg, order, c, layout.flashSize)
    && ListsAll(layout.alloc[..], order) && Total(SectorCounts(Pick(layout.alloc[..], order))) < U32
  }

  /** The layout of a list without gaps. */
  method LayoutListed(layout: FlashLayout.Layout, cfg: FlashLayout.Config, order: seq<nat>, ghost c: seq<nat>)
    returns (ret: int)
    requires layout.Valid() && cfg.Valid() && cfg.erase == 512 && FlashLayout.IsChain(c)
    requires ListsAll(layout.alloc[..], order) && Total(SectorCounts(Pick(layout.alloc[..], order))) < U32
    modifies layout.alloc, layout.offset
    ensures ret == 0 ==> LaidOut(layout, cfg, order, c)
    ensures !cfg.onlyFactory ==>
              (ret == 0 ==> FlashLayout.Passes(layout.alloc[..], layout.flashSize))
              && (ret != 0 ==> !(0 <= cfg.avFiles <= 3) || !FlashLayout.Passes(layout.alloc[..], layout.flashSize))
    ensures ret == 0 ==> 0 <= cfg.avFiles <= 3
    ensures old(LittleElse(layout.alloc[..])) ==> LittleElse(layout.alloc[..])
  {
    ghost var before := layout.alloc[..];
    FlashLayout.ListedFull(order);
    ret := layout.LayoutEmmc(cfg, order, c);
    SameListing(before, layout.alloc[..], order);
  }

  /** The partitions' allocations are as the caller gave them. */
  lemma SameListing(was: seq<u64>, now: seq<u64>, order: seq<nat>)
    requires ListsAll(was, order) && |now| == FlashLayout.FW_UNKNOWN
    requires forall e | FlashLayout.FW_ROOTFS <= e <= FlashLayout.FW_USR_LOCAL_ETC :: now[e] == was[e]
    ensures ListsAll(now, order) && Pick(now, order) == Pick(was, order)
  {}

  method InstallTables(layout: FlashLayout.Layout, cfg: FlashLayout.Config, order: seq<nat>, emmc: Emmc, ghost c: seq<nat>)
    returns (ret: int)
    requires layout.Valid() && LaidOut(layout, cfg, order, c) && |order| <= 9
    requires !cfg.onlyFactory ==> FlashLayout.Passes(layout.alloc[..], layout.flashSize)
    requires emmc.flashSize == layout.flashSize && layout.flashSize / 512 < U32
    requires emmc.alloc.Length == emmc.partIdx.Length == NUM_RTKPART && emmc.alloc as object != emmc.partIdx
    requires emmc.alloc as object !in {layout.alloc as object, layout.offset}
    requires emmc.partIdx as object !in {layout.alloc as object, layout.offset}
    modifies emmc, emmc.alloc, emmc.partIdx
    ensures Checked(layout.alloc[..], cfg) ==> ret == 0
    ensures Checked(layout.alloc[..], cfg) && WholeAndLong(layout.alloc[..], order, layout.flashSize) ==>
              forall limit: nat | limit >= |order| ::
                Installed(emmc.disk, layout.alloc[..], layout.offset[..], order, emmc.partIdx[..], limit)
                && DataUntouched(old(emmc.disk), emmc.disk, layout.alloc[..], order, layout.flashSize, limit)
    ensures ret != 0 ==> emmc.disk == old(emmc.disk)
  {
    ghost var idx, was, alloc, offset := emmc.partIdx[..], emmc.disk, layout.alloc[..], layout.offset[..];
    ShowAllocations(layout, emmc);
    ret := WritePartitionTables(emmc, order, alloc);
    if Checked(alloc, cfg) {
      CheckedInstall(was, emmc.disk, idx, emmc.partIdx[..], alloc, offset, cfg, order, c, layout.flashSize);
    }
  }
}
