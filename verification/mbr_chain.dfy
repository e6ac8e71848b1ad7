/** The eMMC partition tables: a master boot record followed by a chain of extended boot records. */
module MbrChain {
  import opened Words
  import opened Sums

  // The Legacy MBR format of section 5.2.1 of the UEFI Specification. All positions and lengths are in
  // 512-byte sectors.

  const NUM_RTKPART: nat := 14
  const RESERVE: nat := 16        // MBR_RESERVE_SIZE / 512
  const SIGNATURE: nat := 0xaa55
  const LINUX: nat := 0x83
  const EXTENDED: nat := 0x05

  datatype Entry = Entry(id: int, relSectorStart: int, sectorNum: int)
  datatype Table = Table(part: seq<Entry>, signature: int)

  const EMPTY := Entry(0, 0, 0)

  // ---------------------------------------------------------------- what the tables should say

  /** Partition i owns the sectors start[i] up to start[i + 1]; the last region ends the medium. */
  datatype Plan = Plan(size: seq<nat>, start: seq<int>) {
    const n: nat := |size|

    ghost predicate Valid() {
      |start| == n + 1 && start[0] >= 0 && forall i: nat | i < n :: Adjacent(i)
    }

    ghost predicate Adjacent(i: nat)
      requires |start| == n + 1 && i < n
    {
      start[i + 1] == start[i] + size[i]
    }

    lemma {:induction false} Monotone(i: nat, j: nat)
      requires Valid() && i <= j <= n
      ensures 0 <= start[i] <= start[j]
      ensures i < j ==> start[i] + size[i] <= start[j]
      decreases j
    {
      if i < j {
        Monotone(i, j - 1);
        assert Adjacent(j - 1);
      } else if i > 0 {
        Monotone(i - 1, i - 1);
        assert Adjacent(i - 1);
      }
    }
  }

  /** The regions stacked against the end of the medium. */
  function PlanOf(size: seq<nat>, total: nat): (q: Plan)
    requires Total(size) <= total
    ensures q.Valid() && q.size == size && q.start[|size|] == total && q.start[0] == total - Total(size)
  {
    Plan(size, seq(|size| + 1, i requires 0 <= i <= |size| => total - Total(size) + SumTo(size, i)))
  }

  /** Partition i of n is a logical one, behind its own boot record. */
  predicate Logical(n: nat, i: nat) {
    n > 4 && i >= 3
  }

  function DeviceOf(n: nat, i: nat): nat {
    if Logical(n, i) then i + 2 else i + 1
  }

  function TableCount(n: nat): nat {
    if n <= 4 then 1 else n - 2
  }

  const MBR_TABLES := 8   // mbr[8]

  /** Up to ten partitions the chain fits the tables. */
  lemma ChainFitsIff(n: nat)
    ensures TableCount(n) <= MBR_TABLES <==> n <= 10
  {}

  /** 32-bit parted_sectors - 16. */
  function DataSectors(size: nat): int {
    (size + U32 - RESERVE) % U32
  }

  /** Slot k of the master boot record once the first i partitions are written. */
  function PrimaryAfter(q: Plan, i: nat, k: nat): Entry
    requires |q.start| == q.n + 1 && i <= q.n
  {
    if Logical(q.n, k) then
      if k > 3 || i < 3 then EMPTY
      else if i == 3 then Entry(0, q.start[3], 0)
      else Entry(EXTENDED, q.start[3], q.start[q.n] - q.start[3])
    else if k < i then Entry(LINUX, q.start[k], DataSectors(q.size[k]))
    else if k == i && (k < q.n || k == 0) then Entry(0, q.start[k], 0)
    else EMPTY
  }

  /** Slot k of the boot record of the j-th partition, j >= 3, after i partitions. */
  function LogicalAfter(q: Plan, i: nat, j: nat, k: nat): Entry
    requires |q.start| == q.n + 1 && i <= q.n
  {
    if k > 1 || j >= i || !Logical(q.n, j) then EMPTY
    else if k == 0 then Entry(LINUX, RESERVE, DataSectors(q.size[j]))
    else if j + 1 == q.n then EMPTY
    else if j + 1 == i then Entry(0, q.start[j + 1] - q.start[3], 0)
    else Entry(EXTENDED, q.start[j + 1] - q.start[3], q.size[j + 1])
  }

  function EntryAfter(q: Plan, i: nat, t: nat, k: nat): Entry
    requires |q.start| == q.n + 1 && i <= q.n
  {
    if t == 0 then PrimaryAfter(q, i, k) else LogicalAfter(q, i, t + 2, k)
  }

  /** Where partition j's slot says it begins: logical ones count from the extended partition. */
  function LinkTo(q: Plan, j: nat): int
    requires |q.start| == q.n + 1 && j <= q.n
  {
    if q.n > 4 && j > 3 then q.start[j] - q.start[3] else q.start[j]
  }

  /** Entry k of table t once the slot of partition i has been opened, and before it is filled. */
  function OpenedEntry(q: Plan, i: nat, t: nat, k: nat): Entry
    requires |q.start| == q.n + 1 && i < q.n
  {
    var e := EntryAfter(q, i, t, k);
    if !Logical(q.n, i) then e
    else Opening(e, t, k, i - 3, if i == 3 then 3 else 1, if i == 3 then q.start[q.n] - q.start[3] else q.size[i])
  }

  function Opening(e: Entry, t: int, k: int, t0: nat, k0: nat, num: int): Entry {
    if t == t0 && k == k0 then e.(id := EXTENDED, sectorNum := num)
    else if t == t0 + 1 && k == 0 then e.(relSectorStart := RESERVE)
    else e
  }

  function Filling(q: Plan, i: nat, e: Entry, t: int, k: int, tt: nat, kk: nat): Entry
    requires |q.start| == q.n + 1 && i < q.n
  {
    if t == tt && k == kk then e.(id := LINUX, sectorNum := DataSectors(q.size[i]))
    else if t == tt && k == kk + 1 && i + 1 < q.n then e.(relSectorStart := LinkTo(q, i + 1))
    else e
  }

  lemma FilledStep(q: Plan, i: nat, t: nat, k: nat)
    requires q.Valid() && i < q.n && k < 4
    ensures var (tt, kk) := if Logical(q.n, i) then (i - 2, 0) else (0, i);
            EntryAfter(q, i + 1, t, k) == Filling(q, i, OpenedEntry(q, i, t, k), t, k, tt, kk)
  {}

  function ChainTable(q: Plan, t: nat): Table
    requires |q.start| == q.n + 1
  {
    Table([EntryAfter(q, q.n, t, 0), EntryAfter(q, q.n, t, 1), EntryAfter(q, q.n, t, 2), EntryAfter(q, q.n, t, 3)],
          SIGNATURE)
  }

  function TableSector(q: Plan, t: nat): int
    requires |q.start| == q.n + 1 && t < TableCount(q.n)
  {
    if t == 0 then 0 else q.start[t + 2]
  }

  /** The medium after the first k tables have been written. */
  function WriteTables(disk: map<int, Table>, q: Plan, k: nat): map<int, Table>
    requires |q.start| == q.n + 1 && k <= TableCount(q.n)
  {
    if k == 0 then disk
    else WriteTables(disk, q, k - 1)[TableSector(q, k - 1) := ChainTable(q, k - 1)]
  }

  /** Sector 0, and the first sector of each logical partition's region. */
  ghost predicate RecordSector(q: Plan, s: int)
    requires |q.start| == q.n + 1
  {
    s == 0 || (q.n > 4 && exists j :: 3 <= j < q.n && s == q.start[j])
  }

  /** Sector s is on the medium or not, with the same content, exactly as before. */
  ghost predicate SameSector(was: map<int, Table>, now: map<int, Table>, s: int) {
    (s in now <==> s in was) && (s in now ==> now[s] == was[s])
  }

  /** All others are the same. */
  ghost predicate OnlyRecords(was: map<int, Table>, now: map<int, Table>, q: Plan)
    requires |q.start| == q.n + 1
  {
    forall s: int | !RecordSector(q, s) :: SameSector(was, now, s)
  }

  lemma {:induction false} TablesFrame(disk: map<int, Table>, q: Plan, k: nat)
    requires |q.start| == q.n + 1 && k <= TableCount(q.n)
    ensures OnlyRecords(disk, WriteTables(disk, q, k), q)
  {
    if k > 0 {
      TablesFrame(disk, q, k - 1);
      assert RecordSector(q, TableSector(q, k - 1));
    }
  }

  // ---------------------------------------------------------------- the installer

  /** rtk_part_list_sort up to its first gap: each partition with space, once. */
  ghost predicate Listing(alloc: seq<nat>, order: seq<nat>) {
    && |alloc| == NUM_RTKPART && Lists(order, NUM_RTKPART)
    && forall e | 0 <= e < NUM_RTKPART :: e in order <==> alloc[e] != 0
  }

  function SectorCounts(alloc: seq<nat>): (s: seq<nat>)
    ensures |s| == |alloc| && forall e | 0 <= e < |s| :: s[e] == alloc[e] / 512
  {
    seq(|alloc|, e requires 0 <= e < |alloc| => alloc[e] / 512)
  }

  /** The sizes in sectors, in list order. */
  function Sizes(alloc: seq<nat>, order: seq<nat>): (p: seq<nat>)
    requires Lists(order, |alloc|)
    ensures |p| == |order| && forall i | 0 <= i < |order| :: p[i] == alloc[order[i]] / 512
  {
    Pick(SectorCounts(alloc), order)
  }

  function Ones(alloc: seq<nat>): (s: seq<nat>)
    ensures |s| == |alloc| && forall e | 0 <= e < |s| :: s[e] == if alloc[e] != 0 then 1 else 0
  {
    seq(|alloc|, e requires 0 <= e < |alloc| => if alloc[e] != 0 then 1 else 0)
  }

  lemma {:induction false} AllOnes(s: seq<nat>, n: nat)
    requires n <= |s| && forall i | 0 <= i < n :: s[i] == 1
    ensures SumTo(s, n) == n
  {
    if n > 0 { AllOnes(s, n - 1); }
  }

  lemma CountsAgree(alloc: seq<nat>, order: seq<nat>)
    requires Listing(alloc, order)
    ensures Total(SectorCounts(alloc)) == Total(Sizes(alloc, order)) && Total(Ones(alloc)) == |order|
  {
    ListedTotal(SectorCounts(alloc), order);
    ListedTotal(Ones(alloc), order);
    AllOnes(Pick(Ones(alloc), order), |order|);
  }

  /** The device numbers once the first i list entries have theirs. */
  function Numbered(idx: seq<int>, order: seq<nat>, i: nat): (r: seq<int>)
    requires Lists(order, |idx|) && i <= |order|
    ensures |r| == |idx|
  {
    if i == 0 then idx else Numbered(idx, order, i - 1)[order[i - 1] := DeviceOf(|order|, i - 1)]
  }

  lemma {:induction false} NumberedAt(idx: seq<int>, order: seq<nat>, i: nat)
    requires Lists(order, |idx|) && i <= |order|
    ensures forall m | 0 <= m < i :: Numbered(idx, order, i)[order[m]] == DeviceOf(|order|, m)
    ensures forall e | 0 <= e < |idx| && e !in order :: Numbered(idx, order, i)[e] == idx[e]
  {
    if i > 0 { NumberedAt(idx, order, i - 1); }
  }

  lemma NoWrap(x: int)
    ensures 0 <= x < U32 ==> x % U32 == x
  {}

  lemma ReserveCancels(size: nat)
    requires size < U32
    ensures (RESERVE + DataSectors(size)) % U32 == size
  {}

  class Emmc {
    const flashSize: nat
    /** fw[FW_ROOTFS + e].flash_allo_size and fw[FW_ROOTFS + e].emmc_partIdx */
    const alloc: array<nat>
    const partIdx: array<int>
    var disk: map<int, Table>

    constructor (flashSize: nat, alloc: array<nat>, partIdx: array<int>)
      ensures this.flashSize == flashSize && this.alloc == alloc && this.partIdx == partIdx && disk == map[]
    {
      this.flashSize, this.alloc, this.partIdx, disk := flashSize, alloc, partIdx, map[];
    }

    method CountPartitions(order: seq<nat>) returns (parted: nat, count: nat)
      requires Listing(alloc[..], order) && Total(Sizes(alloc[..], order)) < U32
      ensures parted == Total(Sizes(alloc[..], order)) && count == |order|
    {
      ghost var sizes, ones := SectorCounts(alloc[..]), Ones(alloc[..]);
      CountsAgree(alloc[..], order);
      parted, count := 0, 0;
      for e := 0 to NUM_RTKPART
        invariant parted == SumTo(sizes, e) && count == SumTo(ones, e)
      {
        SumMonotone(sizes, e + 1, NUM_RTKPART);
        if alloc[e] != 0 {
          parted := (parted + alloc[e] / 512) % U32;
          count := count + 1;
        }
      }
    }

    /** The first i partitions are in the tables, and t of them are sealed by a signature. */
    ghost predicate Built(part: array2<Entry>, signature: array<int>, q: Plan, i: nat, t: nat)
      requires q.Valid() && i <= q.n
      reads part, signature
    {
      && part.Length0 == signature.Length == 8 && part.Length1 == 4
      && (forall m, j | 0 <= m < 8 && 0 <= j < 4 :: part[m, j] == EntryAfter(q, i, m, j))
      && (forall m | 0 <= m < 8 :: signature[m] == if m < t then SIGNATURE else 0)
    }

    /** One round of the table loop: the i-th partition of parted sectors goes in. */
    method AddPartition(part: array2<Entry>, signature: array<int>, parted: nat, count: nat, i: nat,
                        t0: nat, k0: nat, acc0: nat, total: nat, kernel: nat, e: nat, ghost q: Plan)
      returns (t: nat, k: nat, acc: nat)
      requires q.Valid() && q.n == count <= 10 && i < count && parted == q.size[i]
      requires q.start[count] == total < U32 && q.start[0] == kernel
      requires t0 == (if count > 4 && i > 3 then i - 3 else 0)
      requires k0 == (if count > 4 && i > 3 then 1 else i)
      requires acc0 == q.start[i] - kernel && Built(part, signature, q, i, t0)
      requires e < partIdx.Length && partIdx != signature
      modifies part, signature, partIdx
      ensures t == (if count > 4 && i + 1 > 3 then i + 1 - 3 else 0)
      ensures k == (if count > 4 && i + 1 > 3 then 1 else i + 1)
      ensures acc == q.start[i + 1] - kernel && Built(part, signature, q, i + 1, t)
      ensures partIdx[..] == old(partIdx[..])[e := DeviceOf(count, i)]
    {
      t, k := t0, k0;
      assert q.Adjacent(i);
      q.Monotone(i, count);
      q.Monotone(i + 1, count);
      if i + 1 >= 4 && count > 4 {
        t, k := OpenExtended(part, signature, t, k, if i + 1 == 4 then total - acc0 - kernel else parted);
      }
      forall m, j | 0 <= m < 8 && 0 <= j < 4 ensures part[m, j] == OpenedEntry(q, i, m, j) {
        assert old(part[m, j]) == EntryAfter(q, i, m, j);
      }
      FillAndLink(part, t, k, parted, count, i, q);
      forall m, j | 0 <= m < 8 && 0 <= j < 4 ensures part[m, j] == EntryAfter(q, i + 1, m, j) {
        FilledStep(q, i, m, j);
      }
      acc := (acc0 + parted) % U32;
      partIdx[e] := if i + 1 < 4 then i + 1 else if count > 4 then i + 2 else i + 1;
      k := k + 1;
    }

    /** The current slot becomes an extended partition and a new table begins. */
    method OpenExtended(part: array2<Entry>, signature: array<int>, t0: nat, k0: nat, num: nat)
      returns (t: nat, k: nat)
      requires part.Length0 == signature.Length == 8 && part.Length1 == 4 && t0 < 7 && k0 < 4
      modifies part, signature
      ensures t == t0 + 1 && k == 0
      ensures forall m, j | 0 <= m < 8 && 0 <= j < 4 :: part[m, j] == Opening(old(part[m, j]), m, j, t0, k0, num)
      ensures signature[..] == old(signature[..])[t0 := SIGNATURE]
    {
      t, k := t0, k0;
      part[t, k] := part[t, k].(id := EXTENDED);
      part[t, k] := part[t, k].(sectorNum := num);
      signature[t] := SIGNATURE;
      t, k := t + 1, 0;
      part[t, k] := part[t, k].(relSectorStart := RESERVE);
    }

    /** The data entry of the partition, and where the next one begins. */
    method FillAndLink(part: array2<Entry>, t: nat, k: nat, parted: nat, count: nat, i: nat, ghost q: Plan)
      requires part.Length0 == 8 && part.Length1 == 4
      requires q.Valid() && q.n == count <= 10 && i < count && parted == q.size[i] && q.start[count] < U32
      requires if Logical(count, i) then t == i - 2 && k == 0 else t == 0 && k == i
      requires part[t, k].relSectorStart == if t == 0 then q.start[i] else RESERVE
      requires t > 1 ==> part[t - 1, 1].relSectorStart == q.start[i] - q.start[3]
      modifies part
      ensures forall m, j | 0 <= m < 8 && 0 <= j < 4 :: part[m, j] == Filling(q, i, old(part[m, j]), m, j, t, k)
    {
      part[t, k] := part[t, k].(id := LINUX, sectorNum := (parted + U32 - RESERVE) % U32);
      if i + 1 < count {
        var next := NextStart(part, t, k, parted, q, i);
        part[t, k + 1] := part[t, k + 1].(relSectorStart := next);
      }
    }

    /** The three ways the sources find the start of the next partition. */
    method NextStart(part: array2<Entry>, t: nat, k: nat, parted: nat, ghost q: Plan, ghost i: nat) returns (next: int)
      requires part.Length0 == 8 && part.Length1 == 4 && t < 8 && k < 4
      requires q.Valid() && i + 1 < q.n && parted == q.size[i] && q.start[q.n] < U32
      requires if Logical(q.n, i) then t == i - 2 && k == 0 else t == 0
      requires part[t, k].relSectorStart == if t == 0 then q.start[i] else RESERVE
      requires part[t, k].sectorNum == DataSectors(parted)
      requires t > 1 ==> part[t - 1, 1].relSectorStart == q.start[i] - q.start[3]
      ensures next == LinkTo(q, i + 1)
    {
      assert q.Adjacent(i);
      q.Monotone(i, q.n);
      q.Monotone(i + 1, q.n);
      NoWrap(LinkTo(q, i + 1));
      if t > 1 {
        q.Monotone(3, i);
        next := (parted + part[t - 1, 1].relSectorStart) % U32;
      } else if t == 1 {
        assert q.start[4] == q.start[3] + parted;
        ReserveCancels(parted);
        next := (part[t, 0].relSectorStart + part[t, 0].sectorNum) % U32;
      } else {
        next := (part[t, k].relSectorStart + parted) % U32;
      }
    }

    /** Fails exactly when the partitions leave no sector for the firmware. */
    method WriteBoottable(order: seq<nat>) returns (ret: int)
      requires Listing(alloc[..], order) && partIdx.Length == NUM_RTKPART && alloc as object != partIdx
      requires |order| <= 9
      requires flashSize / 512 < U32 && Total(Sizes(alloc[..], order)) < U32
      modifies this, partIdx
      ensures var p, total := Sizes(old(alloc[..]), order), flashSize / 512;
        if total <= Total(p) then ret == -1 && disk == old(disk) && partIdx[..] == old(partIdx[..])
        else
          && ret == 0
          && disk == WriteTables(old(disk), PlanOf(p, total), TableCount(|p|))
          && OnlyRecords(old(disk), disk, PlanOf(p, total))
          && partIdx[..] == Numbered(old(partIdx[..]), order, |order|)
    {
      ghost var p := Sizes(alloc[..], order);
      var total := flashSize / 512;
      var parted, count := CountPartitions(order);
      if total <= parted {
        return -1;
      }
      ghost var q := PlanOf(p, total);
      var part, signature := BuildTables(order, total, total - parted, count, q);
      WriteChain(part, signature, total, q);
      ret := 0;
    }

    method BuildTables(order: seq<nat>, total: nat, kernel: nat, count: nat, ghost q: Plan)
      returns (part: array2<Entry>, signature: array<int>)
      requires Lists(order, NUM_RTKPART) && |order| == count <= 10
      requires alloc.Length == partIdx.Length == NUM_RTKPART && alloc as object != partIdx
      requires q.Valid() && q.size == Sizes(alloc[..], order) && q.start[count] == total < U32 && q.start[0] == kernel
      modifies partIdx
      ensures fresh(part) && fresh(signature) && Built(part, signature, q, count, TableCount(count))
      ensures partIdx[..] == Numbered(old(partIdx[..]), order, count)
    {
      part, signature := EmptyTables(kernel, q);
      var t, k, acc := 0, 0, 0;
      for i := 0 to count
        invariant t == (if count > 4 && i > 3 then i - 3 else 0)
        invariant k == (if count > 4 && i > 3 then 1 else i)
        invariant acc == q.start[i] - kernel
        invariant Built(part, signature, q, i, t)
        invariant partIdx[..] == Numbered(old(partIdx[..]), order, i)
      {
        t, k, acc := AddPartition(part, signature, alloc[order[i]] / 512, count, i, t, k, acc, total, kernel, order[i], q);
      }
      signature[t] := SIGNATURE;
    }

    method EmptyTables(kernel: nat, ghost q: Plan) returns (part: array2<Entry>, signature: array<int>)
      requires q.Valid() && q.start[0] == kernel
      ensures fresh(part) && fresh(signature) && Built(part, signature, q, 0, 0)
    {
      part := new Entry[8, 4]((_, _) => EMPTY);
      signature := new int[8](_ => 0);
      part[0, 0] := part[0, 0].(relSectorStart := kernel);
    }

    /** The write-back finds a table without signature, and so stops, exactly up to nine partitions. */
    lemma WriteBackStopsIff(part: array2<Entry>, signature: array<int>, q: Plan)
      requires q.Valid() && q.n <= 10 && Built(part, signature, q, q.n, TableCount(q.n))
      ensures (exists t :: 0 <= t < MBR_TABLES && signature[t] != SIGNATURE) <==> q.n <= 9
    {
      if q.n <= 9 {
        assert signature[MBR_TABLES - 1] != SIGNATURE;
      }
    }

    /** The write-back loop: stops at the first table without a signature. */
    method WriteChain(part: array2<Entry>, signature: array<int>, ghost total: nat, ghost q: Plan)
      requires q.Valid() && q.n <= 9 && q.start[q.n] == total < U32
      requires Built(part, signature, q, q.n, TableCount(q.n))
      modifies this`disk
      ensures disk == WriteTables(old(disk), q, TableCount(q.n))
      ensures OnlyRecords(old(disk), disk, q)
    {
      var t := 0;
      while signature[t] == SIGNATURE
        invariant t <= TableCount(q.n)
        invariant disk == WriteTables(old(disk), q, t)
        decreases TableCount(q.n) - t
      {
        var sector := TableOffset(part, t, q);
        assert Table([part[t, 0], part[t, 1], part[t, 2], part[t, 3]], SIGNATURE) == ChainTable(q, t);
        disk := disk[sector := Table([part[t, 0], part[t, 1], part[t, 2], part[t, 3]], signature[t])];
        t := t + 1;
      }
      TablesFrame(old(disk), q, TableCount(q.n));
    }

    method TableOffset(part: array2<Entry>, t: nat, ghost q: Plan) returns (sector: int)
      requires q.Valid() && t < TableCount(q.n) <= 8 && q.start[q.n] < U32
      requires part.Length0 == 8 && part.Length1 == 4
      requires forall m, j | 0 <= m < 8 && 0 <= j < 4 :: part[m, j] == EntryAfter(q, q.n, m, j)
      ensures sector == TableSector(q, t)
    {
      if t == 0 {
        sector := 0;
      } else if t == 1 {
        sector := part[0, 3].relSectorStart;
      } else {
        q.Monotone(3, t + 2);
        q.Monotone(t + 2, q.n);
        sector := (part[t - 1, 1].relSectorStart + part[0, 3].relSectorStart) % U32;
      }
    }
  }
}
