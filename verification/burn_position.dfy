/**
 * Three views of one partition: the byte offset the layout computed, the sector the partition
 * tables record, and the place where the burner writes the image.
 */
module BurnPosition {
  import opened Words
  import opened Align
  import opened Sums
  import opened MbrChain
  import opened MbrDecode
  import Stacks
  import FlashLayout
  import LayoutSound

  const MBR_RESERVE_SIZE: nat := 8192

  /** Where the downward stack puts entry i of a list of byte sizes. */
  function LayoutOffset(a: seq<nat>, flash: nat, i: nat): int
    requires i <= |a|
  {
    flash - Total(a) + SumTo(a, i)
  }

  /** The table plan for the same list, with sizes and medium cut to sectors. */
  function SectorPlan(a: seq<nat>, flash: nat): (q: Plan)
    requires Total(a) <= flash
    ensures q.Valid() && q.size == SectorCounts(a) && q.start[|a|] == flash / 512
  {
    SectorTotal(a, |a|);
    PlanOf(SectorCounts(a), flash / 512)
  }

  lemma {:induction false} SectorTotal(a: seq<nat>, n: nat)
    requires n <= |a|
    ensures 512 * SumTo(SectorCounts(a), n) <= SumTo(a, n)
  {
    if n > 0 { SectorTotal(a, n - 1); }
  }

  /** How far the layout is ahead of the tables at entry i. */
  function Drift(a: seq<nat>, flash: nat, i: nat): int
    requires Total(a) <= flash && i <= |a|
  {
    LayoutOffset(a, flash, i) - 512 * SectorPlan(a, flash).start[i]
  }

  lemma DriftStep(a: seq<nat>, flash: nat, i: nat)
    requires Total(a) <= flash && i < |a|
    ensures Drift(a, flash, i + 1) - Drift(a, flash, i) == a[i] % 512
  {
    var q := SectorPlan(a, flash);
    assert q.start[i + 1] == q.start[i] + a[i] / 512;
  }

  lemma DriftLast(a: seq<nat>, flash: nat)
    requires Total(a) <= flash
    ensures Drift(a, flash, |a|) == flash % 512
  {
    assert SectorPlan(a, flash).start[|a|] == flash / 512;
  }

  /** All sizes are whole sectors, and the last one ends with the medium. */
  ghost predicate WholeSectors(a: seq<nat>, flash: nat)
    requires a != []
  {
    a[|a| - 1] % 512 == flash % 512 && forall k | 0 <= k < |a| - 1 :: a[k] % 512 == 0
  }

  /** The same drift, counted back from the end of the medium. */
  function Residue(a: seq<nat>, flash: nat, i: nat): int
    requires i <= |a|
    decreases |a| - i
  {
    if i == |a| then flash % 512 else Residue(a, flash, i + 1) - a[i] % 512
  }

  /** Steps of that size that end there are the residues. */
  lemma {:induction false} ResidueUnique(a: seq<nat>, flash: nat, d: seq<int>, i: nat)
    requires |d| == |a| + 1 && i <= |a| && d[|a|] == flash % 512
    requires forall k | 0 <= k < |a| :: d[k + 1] == d[k] + a[k] % 512
    ensures d[i] == Residue(a, flash, i)
    decreases |a| - i
  {
    if i < |a| { ResidueUnique(a, flash, d, i + 1); }
  }

  lemma DriftIsResidue(a: seq<nat>, flash: nat, i: nat)
    requires Total(a) <= flash && i <= |a|
    ensures Drift(a, flash, i) == Residue(a, flash, i)
  {
    var d := seq(|a| + 1, k requires 0 <= k <= |a| => Drift(a, flash, k));
    forall k | 0 <= k < |a| ensures d[k + 1] == d[k] + a[k] % 512 { DriftStep(a, flash, k); }
    DriftLast(a, flash);
    ResidueUnique(a, flash, d, i);
  }

  lemma {:induction false} ResidueZero(a: seq<nat>, flash: nat, i: nat)
    requires a != [] && i < |a|
    ensures (forall k | i <= k < |a| :: Residue(a, flash, k) == 0) <==>
            a[|a| - 1] % 512 == flash % 512 && forall k | i <= k < |a| - 1 :: a[k] % 512 == 0
    decreases |a| - i
  {
    assert Residue(a, flash, i) == Residue(a, flash, i + 1) - a[i] % 512;
    if i + 1 < |a| { ResidueZero(a, flash, i + 1); }
  }

  /** Layout and tables name the same bytes exactly when all sizes are whole sectors. */
  lemma PositionsAgree(a: seq<nat>, flash: nat)
    requires a != [] && Total(a) <= flash
    ensures (forall i | 0 <= i < |a| :: Drift(a, flash, i) == 0) <==> WholeSectors(a, flash)
  {
    ResidueZero(a, flash, 0);
    if forall i | 0 <= i < |a| :: Drift(a, flash, i) == 0 {
      forall k | 0 <= k < |a| ensures Residue(a, flash, k) == 0 { DriftIsResidue(a, flash, k); }
    }
    if WholeSectors(a, flash) {
      forall k: nat | k < |a| ensures Drift(a, flash, k) == 0 { DriftIsResidue(a, flash, k); }
    }
  }

  /** The extra offset rtk_burn_single_part gives partition e on eMMC; the list stops at its first gap. */
  method BurnOffset(order: seq<nat>, e: nat) returns (offset: nat)
    requires forall i, j | 0 <= i < j < |order| :: order[i] != order[j]
    ensures forall i: nat | i < |order| && order[i] == e ::
      offset == if Logical(|order|, i) then MBR_RESERVE_SIZE else 0
    ensures e !in order ==> offset == 0
  {
    offset := 0;
    var partOrder := 0;
    for i := 0 to |order|
      invariant partOrder <= i && (partOrder == 0 ==> e !in order[..i])
      invariant partOrder > 0 ==> order[partOrder - 1] == e
    {
      if order[i] == e {
        partOrder := i + 1;
      }
    }
    assert order[..|order|] == order;
    if |order| > 4 && partOrder > 3 {
      offset := MBR_RESERVE_SIZE;
    }
  }

  /** fill_rtk_part for a raw image: the allocation leaves room for the boot record. */
  function RawAllocation(img: nat, minSize: nat, k: nat): u64
    requires img < U32 && Pow2(k) <= U32
  {
    var a := AlignMore(Low32(img + MBR_RESERVE_SIZE), Pow2(k));
    if minSize > a then AlignMore(minSize, Pow2(k)) else a
  }

  /** The image and its reserve fit exactly when their 32-bit sum does not wrap, or the minimum size covers them anyway. */
  lemma RawAllocationFitsIff(img: nat, minSize: u64, k: nat)
    requires img < U32 && k < 32 && Pow2(k) < U32
    ensures img + MBR_RESERVE_SIZE <= RawAllocation(img, minSize, k) <==>
            minSize <= U64 - Pow2(k) && (img + MBR_RESERVE_SIZE < U32 || img + MBR_RESERVE_SIZE <= AlignMore(minSize, Pow2(k)))
  {
    var need := Low32Once(img + MBR_RESERVE_SIZE);
    var a := AlignMore(need, Pow2(k));
    AlignMoreBounds(need, k);
    AlignMoreExact(minSize, k);
    if minSize <= U64 - Pow2(k) && minSize <= a { BelowImage(need, minSize, k); }
    RawFits(img + MBR_RESERVE_SIZE, need, minSize, Pow2(k), a, AlignMore(minSize, Pow2(k)));
  }

  lemma Low32Once(x: nat) returns (need: nat)
    requires x < 2 * U32
    ensures need == Low32(x) && need < U32 && need == if x < U32 then x else x - U32
  {
    need := Low32(x);
  }

  /** The larger of two allocations covers the whole sum, of which need is what 32 bits hold. */
  lemma RawFits(sum: nat, need: nat, minSize: u64, size: nat, a: nat, c: nat)
    requires 0 < size < U32 && 0 < sum < 2 * U32 && need == (if sum < U32 then sum else sum - U32) && need <= a < need + size
    requires if minSize <= U64 - size then minSize <= c else c == 0
    requires minSize <= U64 - size && minSize <= a ==> c <= a
    ensures sum <= (if minSize > a then c else a) <==> minSize <= U64 - size && (sum < U32 || sum <= c)
  {}

  lemma BelowImage(need: nat, minSize: nat, k: nat)
    requires need < U32 && k < 32 && Pow2(k) < U32 && minSize <= AlignMore(need, Pow2(k)) && minSize <= U64 - Pow2(k)
    ensures AlignMore(minSize, Pow2(k)) <= AlignMore(need, Pow2(k))
  {
    AlignMoreIsCeiling(need, k);
    AlignMoreWithin(minSize, AlignMore(need, Pow2(k)), k);
  }

  lemma {:induction false} ResidueWhole(a: seq<nat>, flash: nat, i: nat)
    requires i <= |a| && flash % 512 == 0 && forall k | 0 <= k < |a| :: a[k] % 512 == 0
    ensures Residue(a, flash, i) == 0
    decreases |a| - i
  {
    if i < |a| { ResidueWhole(a, flash, i + 1); }
  }

  lemma DriftZero(a: seq<nat>, flash: nat, i: nat)
    requires Total(a) <= flash && i <= |a| && flash % 512 == 0 && forall k | 0 <= k < |a| :: a[k] % 512 == 0
    ensures 512 * SectorPlan(a, flash).start[i] == LayoutOffset(a, flash, i)
  {
    DriftIsResidue(a, flash, i);
    ResidueWhole(a, flash, i);
  }

  /** A region of whole sectors above the reserve has its length less the reserve in data sectors. */
  lemma DataSectorsAt(q: Plan, i: nat)
    requires Placed(q) && i < q.n && q.size[i] > RESERVE
    ensures 0 < DataSectors(q.size[i]) == q.size[i] - RESERVE
  {
    q.Monotone(i, q.n);
    q.Monotone(i + 1, q.n);
  }

  /** The expected partition, in bytes: the layout's region less the reserve. */
  lemma PartitionBytes(a: seq<nat>, flash: nat, i: nat)
    requires Total(a) <= flash && i < |a| && Placed(SectorPlan(a, flash))
    requires flash % 512 == 0 && (forall k | 0 <= k < |a| :: a[k] % 512 == 0) && a[i] > MBR_RESERVE_SIZE
    ensures var f := Expected(SectorPlan(a, flash), i);
      && 512 * f.start == LayoutOffset(a, flash, i) + (if Logical(|a|, i) then MBR_RESERVE_SIZE else 0)
      && 512 * f.len == a[i] - MBR_RESERVE_SIZE
  {
    var q := SectorPlan(a, flash);
    DriftZero(a, flash, i);
    assert a[i] == 512 * q.size[i];
    DataSectorsAt(q, i);
  }

  /**
   * The image lands on the decoded partition and ends inside it, and on no boot record.
   * offset is what BurnOffset adds to the layout's position.
   */
  lemma ImageInPartition(a: seq<nat>, flash: nat, i: nat, offset: nat, img: nat, t: nat)
    requires Total(a) <= flash && i < |a| && Placed(SectorPlan(a, flash)) && t < TableCount(|a|)
    requires flash % 512 == 0 && forall k | 0 <= k < |a| :: a[k] % 512 == 0
    requires a[i] > MBR_RESERVE_SIZE && offset == if Logical(|a|, i) then MBR_RESERVE_SIZE else 0
    requires img + MBR_RESERVE_SIZE <= a[i]
    ensures var q := SectorPlan(a, flash);
      var first := LayoutOffset(a, flash, i) + offset;
      && first == 512 * Expected(q, i).start
      && first + img <= 512 * (Expected(q, i).start + Expected(q, i).len)
      && (512 * TableSector(q, t) + 512 <= first || first + img <= 512 * TableSector(q, t))
  {
    PartitionBytes(a, flash, i);
    RecordClear(SectorPlan(a, flash), i, t);
  }

  /** A boot record is never inside a partition's data: it owns the first sector of a reserve. */
  lemma RecordClear(q: Plan, i: nat, t: nat)
    requires Placed(q) && i < q.n && q.size[i] > RESERVE && t < TableCount(q.n)
    ensures TableSector(q, t) < Expected(q, i).start || Expected(q, i).start + Expected(q, i).len <= TableSector(q, t)
  {
    assert q.Adjacent(i);
    q.Monotone(i, q.n);
    q.Monotone(i + 1, q.n);
    q.Monotone(0, i);
    if t > 0 {
      if t + 2 < i { q.Monotone(t + 2, i); }
      if i < t + 2 { q.Monotone(i + 1, t + 2); }
    }
  }

  /** A table write leaves the data of each partition as they are, and all sectors before the first region but sector 0. */
  lemma DataKept(was: map<int, Table>, now: map<int, Table>, q: Plan, i: nat, s: int)
    requires Placed(q) && OnlyRecords(was, now, q) && i <= q.n
    requires if i == q.n then 0 < s < q.start[0]
             else q.size[i] > RESERVE && Expected(q, i).start <= s < Expected(q, i).start + Expected(q, i).len
    ensures SameSector(was, now, s)
  {
    if RecordSector(q, s) {
      if s == 0 {
        RecordClear(q, i, 0);
      } else {
        var j :| 3 <= j < q.n && s == q.start[j];
        q.Monotone(0, j);
        if i < q.n { RecordClear(q, i, j - 2); }
      }
    }
  }

  /**
   * After a sound layout and a table write a reader finds each partition where the
   * layout put it (behind the reserve for logical ones), under the recorded device number.
   */
  lemma InstalledPartitions(alloc: seq<u64>, offset: seq<u64>, order: seq<nat>, c: seq<nat>, bottom: u64, flash: u64,
                            disk: map<int, Table>, limit: nat)
    requires LayoutSound.Sound(alloc, offset, order, c, bottom, flash)
    requires bottom >= 512 && flash % 512 == 0 && flash / 512 < U32 && limit >= |order| > 0
    requires forall i | 0 <= i < |order| :: alloc[order[i]] % 512 == 0 && alloc[order[i]] > MBR_RESERVE_SIZE
    ensures Total(Pick(alloc, order)) <= flash
    ensures var found := Decode(Written(disk, SectorPlan(Pick(alloc, order), flash)), limit);
      && |found| == |order|
      && forall i | 0 <= i < |order| ::
           found[i].device == DeviceOf(|order|, i) && AtLayout(found[i], alloc, offset, order, i)
  {
    LayoutPositions(alloc, offset, order, c, bottom, flash);
    PartitionsFound(alloc, offset, order, bottom, flash, disk, limit);
  }

  /** The same from the positions that the layout has given the partitions. */
  lemma PartitionsFound(alloc: seq<u64>, offset: seq<u64>, order: seq<nat>, bottom: u64, flash: u64,
                        disk: map<int, Table>, limit: nat)
    requires Bounded(order, |alloc|) && |alloc| == |offset| && bottom as int + Total(Pick(alloc, order)) <= flash as int
    requires forall i | 0 <= i < |order| :: offset[order[i]] == LayoutOffset(Pick(alloc, order), flash, i)
    requires bottom >= 512 && flash % 512 == 0 && flash / 512 < U32 && limit >= |order| > 0
    requires forall i | 0 <= i < |order| :: alloc[order[i]] % 512 == 0 && alloc[order[i]] > MBR_RESERVE_SIZE
    ensures var found := Decode(Written(disk, SectorPlan(Pick(alloc, order), flash)), limit);
      && |found| == |order|
      && forall i | 0 <= i < |order| ::
           found[i].device == DeviceOf(|order|, i) && AtLayout(found[i], alloc, offset, order, i)
  {
    var a := Pick(alloc, order);
    DecodedPlan(a, flash, bottom, disk, limit);
    forall i: nat | i < |order| ensures AtLayout(Expected(SectorPlan(a, flash), i), alloc, offset, order, i) {
      ExpectedAtLayout(alloc, offset, order, flash, i);
    }
  }

  /** Partition i begins where the layout put it, behind the reserve if it is a logical one; and its length. */
  ghost predicate AtLayout(f: Found, alloc: seq<u64>, offset: seq<u64>, order: seq<nat>, i: nat)
    requires i < |order| && Bounded(order, |alloc|) && |alloc| == |offset|
  {
    && 512 * f.start == offset[order[i]] + (if Logical(|order|, i) then MBR_RESERVE_SIZE else 0)
    && 512 * f.len == alloc[order[i]] - MBR_RESERVE_SIZE
    && 512 * (f.start + f.len) <= Stacks.End(alloc, offset, order[i])
  }

  lemma ExpectedAtLayout(alloc: seq<u64>, offset: seq<u64>, order: seq<nat>, flash: u64, i: nat)
    requires i < |order| && Bounded(order, |alloc|) && |alloc| == |offset|
    requires Total(Pick(alloc, order)) <= flash && Placed(SectorPlan(Pick(alloc, order), flash)) && flash % 512 == 0
    requires forall k | 0 <= k < |order| :: alloc[order[k]] % 512 == 0 && alloc[order[k]] > MBR_RESERVE_SIZE
    requires offset[order[i]] == LayoutOffset(Pick(alloc, order), flash, i)
    ensures AtLayout(Expected(SectorPlan(Pick(alloc, order), flash), i), alloc, offset, order, i)
  {
    PartitionBytes(Pick(alloc, order), flash, i);
  }

  lemma DecodedPlan(a: seq<nat>, flash: nat, bottom: nat, disk: map<int, Table>, limit: nat)
    requires a != [] && bottom >= 512 && bottom + Total(a) <= flash && flash % 512 == 0 && flash / 512 < U32
    requires (forall i | 0 <= i < |a| :: a[i] % 512 == 0 && a[i] > MBR_RESERVE_SIZE) && limit >= |a|
    ensures Placed(SectorPlan(a, flash))
    ensures var q := SectorPlan(a, flash); var found := Decode(Written(disk, q), limit);
            |found| == |a| && forall i | 0 <= i < |a| :: found[i] == Expected(q, i)
  {
    var q := SectorPlan(a, flash);
    SizesPlaced(a, flash, bottom);
    WrittenChain(disk, q);
    DecodeChain(Written(disk, q), q, limit);
    RunFromStart(Decode(Written(disk, q), limit), q);
  }

  lemma LayoutPositions(alloc: seq<u64>, offset: seq<u64>, order: seq<nat>, c: seq<nat>, bottom: u64, flash: u64)
    requires LayoutSound.Sound(alloc, offset, order, c, bottom, flash)
    ensures bottom + Total(Pick(alloc, order)) <= flash
    ensures forall i | 0 <= i < |order| :: offset[order[i]] == LayoutOffset(Pick(alloc, order), flash, i)
  {
    assert Stacks.Stacked(alloc, offset, order, flash - Total(Pick(alloc, order)));
  }

  lemma SizesPlaced(a: seq<nat>, flash: nat, bottom: nat)
    requires a != [] && bottom >= 512 && bottom + Total(a) <= flash && flash % 512 == 0 && flash / 512 < U32
    requires forall i | 0 <= i < |a| :: a[i] % 512 == 0 && a[i] > MBR_RESERVE_SIZE
    ensures Placed(SectorPlan(a, flash))
    ensures forall i | 0 <= i < |a| :: 0 < DataSectors(SectorPlan(a, flash).size[i]) == SectorPlan(a, flash).size[i] - RESERVE
  {
    var q := SectorPlan(a, flash);
    DriftZero(a, flash, 0);
    forall i | 0 <= i < |a| ensures q.size[i] > RESERVE { assert a[i] == 512 * q.size[i]; }
    assert Placed(q);
    forall i: nat | i < |a| ensures 0 < DataSectors(q.size[i]) == q.size[i] - RESERVE {
      DataSectorsAt(q, i);
    }
  }
}
