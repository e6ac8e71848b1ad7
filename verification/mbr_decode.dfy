/** An independent reader of partition tables, and what it finds on a medium the installer wrote. */
module MbrDecode {
  import opened Words
  import opened Sums
  import opened MbrChain

  // Links are relative to the extended partition, logical starts to their own boot record.

  datatype Found = Found(device: nat, start: int, len: int)

  ghost predicate Readable(disk: map<int, Table>, at: int) {
    at in disk && disk[at].signature == 0xaa55 && |disk[at].part| == 4
  }

  ghost function DataEntry(e: Entry, device: nat, origin: int): seq<Found> {
    if e.id == 0x83 && e.sectorNum > 0 then [Found(device, origin + e.relSectorStart, e.sectorNum)] else []
  }

  /** The chain of extended boot records from sector at; readers bound its length. */
  ghost function Logicals(disk: map<int, Table>, base: int, at: int, device: nat, limit: nat): seq<Found>
    decreases limit
  {
    if limit == 0 || !Readable(disk, at) then []
    else
      var here := DataEntry(disk[at].part[0], device, at);
      var link := disk[at].part[1];
      here + if link.id != 0x05 then []
             else Logicals(disk, base, base + link.relSectorStart, device + |here|, limit - 1)
  }

  ghost function Decode(disk: map<int, Table>, limit: nat): seq<Found> {
    if !Readable(disk, 0) then []
    else
      var part := disk[0].part;
      DataEntry(part[0], 1, 0) + DataEntry(part[1], 2, 0) + DataEntry(part[2], 3, 0) +
      if part[3].id == 0x05 then Logicals(disk, part[3].relSectorStart, part[3].relSectorStart, 5, limit)
      else DataEntry(part[3], 4, 0)
  }

  /** What a reader should find: one partition per list entry, in order. */
  ghost function Expected(q: Plan, i: nat): Found
    requires q.Valid() && i < q.n
  {
    Found(DeviceOf(q.n, i), q.start[i] + (if Logical(q.n, i) then RESERVE else 0), DataSectors(q.size[i]))
  }

  /** A plan of non-empty regions that begins after sector 0 and fits 32-bit sector numbers. */
  ghost predicate Placed(q: Plan) {
    q.Valid() && q.start[0] > 0 && q.start[q.n] < U32 && forall i | 0 <= i < q.n :: q.size[i] > 0
  }

  ghost function Written(disk: map<int, Table>, q: Plan): map<int, Table>
    requires q.Valid()
  {
    WriteTables(disk, q, TableCount(q.n))
  }

  lemma {:induction false} TableAt(disk: map<int, Table>, q: Plan, k: nat, t: nat)
    requires Placed(q) && t < k <= TableCount(q.n)
    ensures TableSector(q, t) in WriteTables(disk, q, k)
    ensures WriteTables(disk, q, k)[TableSector(q, t)] == ChainTable(q, t)
  {
    if t < k - 1 {
      TableAt(disk, q, k - 1, t);
      if t > 0 { q.Monotone(t + 2, k + 1); } else { q.Monotone(0, k + 1); }
    }
  }

  /** The boot record of the j-th partition is in place, and links to the next. */
  ghost predicate RecordOn(w: map<int, Table>, q: Plan, j: nat)
    requires q.Valid() && j < q.n && Logical(q.n, j)
  {
    && Readable(w, q.start[j])
    && w[q.start[j]].part[0] == Entry(LINUX, RESERVE, DataSectors(q.size[j]))
    && w[q.start[j]].part[1] ==
       (if j + 1 == q.n then EMPTY else Entry(EXTENDED, q.start[j + 1] - q.start[3], q.size[j + 1]))
    && w[q.start[j]].part[2] == w[q.start[j]].part[3] == Entry(0, 0, 0)
  }

  ghost predicate ChainOn(w: map<int, Table>, q: Plan)
    requires q.Valid()
  {
    && Readable(w, 0)
    && (forall k | 0 <= k < 4 :: w[0].part[k] == PrimaryAfter(q, q.n, k))
    && (forall j | 0 <= j < q.n && Logical(q.n, j) :: RecordOn(w, q, j))
  }

  lemma WrittenChain(disk: map<int, Table>, q: Plan)
    requires Placed(q)
    ensures ChainOn(Written(disk, q), q)
  {
    TableAt(disk, q, TableCount(q.n), 0);
    forall j | 0 <= j < q.n && Logical(q.n, j) ensures RecordOn(Written(disk, q), q, j) {
      TableAt(disk, q, TableCount(q.n), j - 2);
    }
  }

  /** The partitions from the j-th on, as they should be found. */
  ghost predicate IsRun(found: seq<Found>, q: Plan, j: nat)
    requires q.Valid()
  {
    |found| == q.n - j && forall m | j <= m < q.n :: found[m - j] == Expected(q, m)
  }

  lemma RunGrows(rest: seq<Found>, q: Plan, j: nat)
    requires q.Valid() && j + 1 < q.n && IsRun(rest, q, j + 1)
    ensures IsRun([Expected(q, j)] + rest, q, j)
  {
    forall m | j <= m < q.n ensures ([Expected(q, j)] + rest)[m - j] == Expected(q, m) {
      if m > j { assert rest[m - (j + 1)] == Expected(q, m); }
    }
  }

  lemma {:induction false} LogicalsFound(w: map<int, Table>, q: Plan, j: nat, limit: nat)
    requires q.Valid() && ChainOn(w, q) && Logical(q.n, j) && j < q.n && limit >= q.n - j
    requires forall i | j <= i < q.n :: DataSectors(q.size[i]) > 0
    ensures IsRun(Logicals(w, q.start[3], q.start[j], j + 2, limit), q, j)
    decreases q.n - j
  {
    assert RecordOn(w, q, j);
    assert DataEntry(w[q.start[j]].part[0], j + 2, q.start[j]) == [Expected(q, j)];
    if j + 1 < q.n {
      LogicalsFound(w, q, j + 1, limit - 1);
      RunGrows(Logicals(w, q.start[3], q.start[j + 1], j + 3, limit - 1), q, j);
    }
  }

  /** One link of the chain: a partition if there are data sectors, and what follows. */
  lemma LogicalsStep(w: map<int, Table>, q: Plan, j: nat, device: nat, limit: nat)
    requires q.Valid() && ChainOn(w, q) && Logical(q.n, j) && j < q.n && limit > 0
    ensures var here := if DataSectors(q.size[j]) > 0 then 1 else 0;
      |Logicals(w, q.start[3], q.start[j], device, limit)| == here +
        if j + 1 == q.n then 0 else |Logicals(w, q.start[3], q.start[j + 1], device + here, limit - 1)|
  {
    assert RecordOn(w, q, j);
  }

  /** How many partitions a chain of that length yields. */
  function DataCount(q: Plan, j: nat, limit: nat): (r: nat)
    requires j <= q.n
    ensures r <= q.n - j
    ensures r == q.n - j ==> forall i | j <= i < q.n :: DataSectors(q.size[i]) > 0
    decreases limit
  {
    if limit == 0 || j == q.n then 0
    else (if DataSectors(q.size[j]) > 0 then 1 else 0) + DataCount(q, j + 1, limit - 1)
  }

  /** A chain yields one partition for each entry that is not empty, as far as the reader goes. */
  lemma {:induction false} LogicalsCount(w: map<int, Table>, q: Plan, j: nat, device: nat, limit: nat)
    requires q.Valid() && ChainOn(w, q) && Logical(q.n, j) && j < q.n
    ensures |Logicals(w, q.start[3], q.start[j], device, limit)| == DataCount(q, j, limit)
    decreases limit
  {
    if limit > 0 {
      LogicalsStep(w, q, j, device, limit);
      if j + 1 < q.n {
        LogicalsCount(w, q, j + 1, device + (if DataSectors(q.size[j]) > 0 then 1 else 0), limit - 1);
      }
    }
  }

  /** Decoding what was written gives back the list: devices, order, starts and lengths. */
  lemma DecodeChain(w: map<int, Table>, q: Plan, limit: nat)
    requires q.Valid() && ChainOn(w, q) && limit >= q.n
    requires forall i | 0 <= i < q.n :: DataSectors(q.size[i]) > 0
    ensures IsRun(Decode(w, limit), q, 0)
  {
    assert forall i: nat | i < q.n && !Logical(q.n, i) ::
      DataEntry(w[0].part[i], i + 1, 0) == [Expected(q, i)];
    if q.n > 4 {
      LogicalsFound(w, q, 3, limit);
    }
  }

  lemma DecodeAtMost(w: map<int, Table>, q: Plan, limit: nat)
    requires q.Valid() && ChainOn(w, q)
    ensures |Decode(w, limit)| <= q.n
    ensures |Decode(w, limit)| == q.n ==> forall i | 0 <= i < q.n :: DataSectors(q.size[i]) > 0
  {
    if q.n > 4 {
      LogicalsCount(w, q, 3, 5, limit);
    }
  }

  /** Found exactly once per list entry, non-empty and inside the region the layout gave it. */
  ghost predicate Faithful(found: seq<Found>, q: Plan)
    requires q.Valid()
  {
    |found| == q.n && forall i | 0 <= i < q.n :: found[i].len > 0 && Inside(found[i], q, i)
  }

  ghost predicate Inside(f: Found, q: Plan, i: nat)
    requires q.Valid() && i < q.n
  {
    q.start[i] <= f.start && f.start + f.len <= q.start[i + 1]
  }

  lemma ExpectedInside(q: Plan, i: nat)
    requires Placed(q) && i < q.n
    ensures Expected(q, i).len > 0 && Inside(Expected(q, i), q, i) <==> q.size[i] > RESERVE
  {
    assert q.Adjacent(i);
    q.Monotone(i, q.n);
    q.Monotone(i + 1, q.n);
  }

  lemma FaithfulChain(w: map<int, Table>, q: Plan, limit: nat)
    requires Placed(q) && ChainOn(w, q) && limit >= q.n
    ensures Faithful(Decode(w, limit), q) <==> forall i | 0 <= i < q.n :: q.size[i] > RESERVE
  {
    if forall i | 0 <= i < q.n :: DataSectors(q.size[i]) > 0 {
      DecodeChain(w, q, limit);
      RunFromStart(Decode(w, limit), q);
      FaithfulExpected(Decode(w, limit), q);
    } else {
      DecodeAtMost(w, q, limit);
      if forall i | 0 <= i < q.n :: q.size[i] > RESERVE { AllLongHaveData(q); }
    }
  }

  /** What was expected is faithful exactly when it is long. */
  lemma FaithfulExpected(found: seq<Found>, q: Plan)
    requires Placed(q) && |found| == q.n && forall i | 0 <= i < q.n :: found[i] == Expected(q, i)
    ensures Faithful(found, q) <==> forall i | 0 <= i < q.n :: q.size[i] > RESERVE
  {
    forall i | 0 <= i < q.n ensures found[i].len > 0 && Inside(found[i], q, i) <==> q.size[i] > RESERVE {
      ExpectedInside(q, i);
    }
  }

  lemma AllLongHaveData(q: Plan)
    requires Placed(q) && forall i | 0 <= i < q.n :: q.size[i] > RESERVE
    ensures forall i | 0 <= i < q.n :: DataSectors(q.size[i]) > 0
  {
    forall i | 0 <= i < q.n ensures DataSectors(q.size[i]) > 0 { ExpectedInside(q, i); }
  }

  lemma RunFromStart(found: seq<Found>, q: Plan)
    requires q.Valid() && IsRun(found, q, 0)
    ensures |found| == q.n && forall i | 0 <= i < q.n :: found[i] == Expected(q, i)
  {
    forall i | 0 <= i < q.n ensures found[i] == Expected(q, i) { assert found[i - 0] == Expected(q, i); }
  }

  /** The tables are right exactly when every partition is longer than the 16-sector reserve. */
  lemma FaithfulIffLong(disk: map<int, Table>, q: Plan, limit: nat)
    requires Placed(q) && limit >= q.n
    ensures Faithful(Decode(Written(disk, q), limit), q) <==> forall i | 0 <= i < q.n :: q.size[i] > 16
  {
    WrittenChain(disk, q);
    FaithfulChain(Written(disk, q), q, limit);
  }

  /** The extended partition is the regions from the fourth on, to the end of the medium; each link spans the next region. */
  lemma ExtendedCoversRest(disk: map<int, Table>, q: Plan, j: nat)
    requires Placed(q) && q.n > 4 && 3 <= j < q.n
    ensures Readable(Written(disk, q), 0) && Readable(Written(disk, q), q.start[j])
    ensures var e := Written(disk, q)[0].part[3];
            e.id == 0x05 && e.relSectorStart == q.start[3] && e.relSectorStart + e.sectorNum == q.start[q.n]
    ensures Written(disk, q)[q.start[j]].part[2].id == Written(disk, q)[q.start[j]].part[3].id == 0
    ensures var link := Written(disk, q)[q.start[j]].part[1];
            if j + 1 == q.n then link.id == 0
            else link.id == 0x05 && q.start[3] + link.relSectorStart == q.start[j + 1]
                 && q.start[3] + link.relSectorStart + link.sectorNum == q.start[j + 2]
  {
    WrittenChain(disk, q);
    if j + 1 < q.n { assert q.Adjacent(j + 1); }
    assert RecordOn(Written(disk, q), q, j);
    assert Written(disk, q)[0].part[3] == PrimaryAfter(q, q.n, 3);
  }

  /** Partitions found inside their regions do not overlap, and come in the order of the list. */
  lemma FoundApart(found: seq<Found>, q: Plan, i: nat, j: nat)
    requires q.Valid() && Faithful(found, q) && i < j < q.n
    ensures found[i].start + found[i].len <= found[j].start
  {
    q.Monotone(i + 1, j);
    assert Inside(found[i], q, i) && Inside(found[j], q, j);
  }
}
