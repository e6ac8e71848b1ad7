/**
 * The firmware descriptor table: a 32-byte header, partition entries, firmware entries, and the
 * additive checksum over everything behind the checksum field.
 */
module FwDesc {
  import opened Align
  import opened TarHeader
  import opened Words

  type PartEntry = s: seq<byte> | |s| == 48 witness seq(48, _ => 0)
  /** A firmware entry with its signature part; the table of an unsigned system has the first 64 bytes only. */
  type FwEntry = s: seq<byte> | |s| == 352 witness seq(352, _ => 0)
  const PLAIN := 64
  const SIGNED := 352

  datatype Table = Table(signature: seq<byte>, checksum: nat, version: byte, reserved: seq<byte>, paddings: nat,
                         partListLen: nat, fwListLen: nat)

  predicate TableOk(t: Table) {
    |t.signature| == 8 && |t.reserved| == 7 && t.checksum < U32 && t.paddings < U32 && t.partListLen < U32 && t.fwListLen < U32
  }

  /** Bytes 12 to 31 of the header. */
  function TableTail(t: Table): (s: seq<byte>)
    requires TableOk(t)
    ensures |s| == 20
  {
    [t.version] + t.reserved + ToLe32(t.paddings) + ToLe32(t.partListLen) + ToLe32(t.fwListLen)
  }

  function TableBytes(t: Table): (s: seq<byte>)
    requires TableOk(t)
    ensures |s| == 32
  {
    t.signature + ToLe32(t.checksum) + TableTail(t)
  }

  lemma TableFields(t: Table, rest: seq<byte>)
    requires TableOk(t)
    ensures var image := TableBytes(t) + rest;
      && image[..8] == t.signature && image[12] == t.version && image[13..20] == t.reserved
      && Le32(image[8..12]) == t.checksum && image[12..] == TableTail(t) + rest
      && Le32(image[20..24]) == t.paddings && Le32(image[24..28]) == t.partListLen && Le32(image[28..32]) == t.fwListLen
  {
    var image := TableBytes(t) + rest;
    assert image[..8] == t.signature;
    assert image[8..12] == ToLe32(t.checksum);
    assert image[12..32] == TableTail(t);
    assert image[13..20] == TableTail(t)[1..8] == t.reserved;
    assert image[20..24] == TableTail(t)[8..12] == ToLe32(t.paddings);
    assert image[24..28] == TableTail(t)[12..16] == ToLe32(t.partListLen);
    assert image[28..32] == TableTail(t)[16..20] == ToLe32(t.fwListLen);
  }

  // ---------------------------------------------------------------- entry lists

  /** The partition entries, one after the other. */
  function PartBytes(parts: seq<PartEntry>): (s: seq<byte>)
    ensures |s| == 48 * |parts|
  {
    if parts == [] then [] else PartBytes(parts[..|parts| - 1]) + parts[|parts| - 1]
  }

  /** The first 64 bytes, or all 352, of every firmware entry, one after the other. */
  function FwBytes(fws: seq<FwEntry>, full: bool): (s: seq<byte>)
    ensures |s| == Width(full) * |fws|
  {
    if fws == [] then [] else FwBytes(fws[..|fws| - 1], full) + fws[|fws| - 1][..Width(full)]
  }

  function Width(full: bool): nat { if full then SIGNED else PLAIN }

  lemma {:induction false} PartAt(parts: seq<PartEntry>, i: nat)
    requires i < |parts|
    ensures PartBytes(parts)[48 * i..48 * i + 48] == parts[i]
  {
    var last := |parts| - 1;
    if i < last {
      PartAt(parts[..last], i);
      SliceOfPrefix(PartBytes(parts[..last]), parts[last], 48 * i, 48);
    }
  }

  lemma {:induction false} FwAt(fws: seq<FwEntry>, full: bool, i: nat)
    requires i < |fws|
    ensures FwBytes(fws, full)[Width(full) * i..Width(full) * i + Width(full)] == fws[i][..Width(full)]
  {
    var last := |fws| - 1;
    if i < last {
      FwAt(fws[..last], full, i);
      SliceOfPrefix(FwBytes(fws[..last], full), fws[last][..Width(full)], Width(full) * i, Width(full));
    }
  }

  lemma SliceOfPrefix(a: seq<byte>, b: seq<byte>, at: nat, len: nat)
    requires at + len <= |a|
    ensures (a + b)[at..at + len] == a[at..at + len]
  {}

  lemma SliceOfSuffix(a: seq<byte>, b: seq<byte>, at: nat, len: nat)
    requires at + len <= |b|
    ensures (a + b)[|a| + at..|a| + at + len] == b[at..at + len]
  {}

  lemma PartNext(parts: seq<PartEntry>, k: nat)
    requires k < |parts|
    ensures PartBytes(parts[..k + 1]) == PartBytes(parts[..k]) + parts[k]
    ensures ByteSum(PartBytes(parts[..k + 1])) == ByteSum(PartBytes(parts[..k])) + ByteSum(parts[k])
  {
    assert parts[..k + 1][..k] == parts[..k];
    ByteSumConcat(PartBytes(parts[..k]), parts[k]);
  }

  lemma FwNext(fws: seq<FwEntry>, full: bool, k: nat)
    requires k < |fws|
    ensures FwBytes(fws[..k + 1], full) == FwBytes(fws[..k], full) + fws[k][..Width(full)]
    ensures ByteSum(FwBytes(fws[..k + 1], full)) == ByteSum(FwBytes(fws[..k], full)) + ByteSum(fws[k][..Width(full)])
  {
    assert fws[..k + 1][..k] == fws[..k];
    ByteSumConcat(FwBytes(fws[..k], full), fws[k][..Width(full)]);
  }

  /** Adding on 32 bits follows the exact sum. */
  lemma AddFollows(c: nat, exact: nat, more: nat, exactMore: nat)
    requires c == exact % U32 && more == exactMore % U32
    ensures Add32(c, more) == (exact + exactMore) % U32
  {}

  method GetChecksum(p: seq<byte>) returns (checksum: nat)
    ensures checksum == ByteSum(p) % U32
  {
    checksum := 0;
    for i := 0 to |p|
      invariant checksum == ByteSum(p[..i]) % U32
    {
      assert p[..i + 1][..i] == p[..i];
      AddFollows(checksum, ByteSum(p[..i]), p[i], p[i]);
      checksum := Add32(checksum, p[i]);
    }
    assert p[..|p|] == p;
  }

  // ---------------------------------------------------------------- the table image

  /** What a reader of the table checks: the stored sum is the sum of everything behind it. */
  predicate SumOk(image: seq<byte>)
    requires |image| >= 32
  {
    Le32(image[8..12]) == ByteSum(image[12..]) % U32
  }

  function Lists(parts: seq<PartEntry>, fws: seq<FwEntry>, full: bool): (s: seq<byte>)
    ensures |s| == 48 * |parts| + Width(full) * |fws|
  {
    PartBytes(parts) + FwBytes(fws, full)
  }

  function Image(t: Table, parts: seq<PartEntry>, fws: seq<FwEntry>, full: bool): (image: seq<byte>)
    requires TableOk(t)
    ensures |image| == 32 + 48 * |parts| + Width(full) * |fws|
  {
    TableBytes(t) + Lists(parts, fws, full)
  }

  function ListSum(parts: seq<PartEntry>, fws: seq<FwEntry>, full: bool): nat {
    ByteSum(PartBytes(parts)) + ByteSum(FwBytes(fws, full))
  }

  lemma SumOkIff(t: Table, parts: seq<PartEntry>, fws: seq<FwEntry>, full: bool)
    requires TableOk(t)
    ensures SumOk(Image(t, parts, fws, full)) <==>
            t.checksum == (ListSum(parts, fws, full) + ByteSum(TableTail(t))) % U32
  {
    TableFields(t, Lists(parts, fws, full));
    ByteSumConcat(TableTail(t), Lists(parts, fws, full));
    ByteSumConcat(PartBytes(parts), FwBytes(fws, full));
  }

  /** With the list lengths in the header, the image has the right size and every entry is found in it again. */
  lemma EntriesReadBack(t: Table, parts: seq<PartEntry>, fws: seq<FwEntry>, full: bool)
    requires TableOk(t) && t.partListLen == 48 * |parts| && t.fwListLen == Width(full) * |fws|
    ensures var image := Image(t, parts, fws, full);
            |image| == 32 + Le32(image[24..28]) + Le32(image[28..32])
    ensures forall i: nat | i < |parts| :: FoundAt(Image(t, parts, fws, full), 32 + 48 * i, parts[i])
    ensures forall i: nat | i < |fws| ::
              var w := if full then 352 else 64;
              FoundAt(Image(t, parts, fws, full), 32 + t.partListLen + w * i, fws[i][..w])
  {
    TableFields(t, Lists(parts, fws, full));
    forall i: nat | i < |parts| ensures FoundAt(Image(t, parts, fws, full), 32 + 48 * i, parts[i]) {
      PartReadsBack(t, parts, fws, full, i);
    }
    forall i: nat | i < |fws|
      ensures FoundAt(Image(t, parts, fws, full), 32 + t.partListLen + Width(full) * i, fws[i][..Width(full)])
    {
      FwReadsBack(t, parts, fws, full, i);
    }
  }

  predicate FoundAt(image: seq<byte>, at: nat, entry: seq<byte>) {
    at + |entry| <= |image| && image[at..at + |entry|] == entry
  }

  lemma PartReadsBack(t: Table, parts: seq<PartEntry>, fws: seq<FwEntry>, full: bool, i: nat)
    requires TableOk(t) && i < |parts|
    ensures FoundAt(Image(t, parts, fws, full), 32 + 48 * i, parts[i])
  {
    PartAt(parts, i);
    SliceOfPrefix(PartBytes(parts), FwBytes(fws, full), 48 * i, 48);
    SliceOfSuffix(TableBytes(t), Lists(parts, fws, full), 48 * i, 48);
  }

  lemma FwReadsBack(t: Table, parts: seq<PartEntry>, fws: seq<FwEntry>, full: bool, i: nat)
    requires TableOk(t) && i < |fws|
    ensures FoundAt(Image(t, parts, fws, full), 32 + 48 * |parts| + Width(full) * i, fws[i][..Width(full)])
  {
    FwAt(fws, full, i);
    WidthTimes(full, i, |fws|);
    SliceBehind(TableBytes(t), PartBytes(parts), FwBytes(fws, full), Width(full) * i, Width(full));
  }

  lemma WidthTimes(full: bool, i: nat, n: nat)
    requires i < n
    ensures Width(full) * i + Width(full) <= Width(full) * n
  {}

  lemma SliceBehind(a: seq<byte>, b: seq<byte>, c: seq<byte>, at: nat, len: nat)
    requires at + len <= |c|
    ensures (a + (b + c))[|a| + |b| + at..|a| + |b| + at + len] == c[at..at + len]
  {
    SliceOfSuffix(b, c, at, len);
    SliceOfSuffix(a, b + c, |b| + at, len);
  }

  class FwHeader {
    var table: Table
    const partDesc: array<PartEntry>
    const fwDesc: array<FwEntry>
    const secureBoot: bool
    const partCount: nat
    const fwCount: nat

    ghost predicate Valid()
      reads this
    {
      TableOk(table) && partDesc.Length == 10 && fwDesc.Length == 30 && partCount <= 10 && fwCount <= 30
    }

    ghost function Parts(): seq<PartEntry>
      requires Valid()
      reads this, partDesc
    {
      partDesc[..partCount]
    }

    ghost function Fws(): seq<FwEntry>
      requires Valid()
      reads this, fwDesc
    {
      fwDesc[..fwCount]
    }

    /** The two loops that add up the entries. */
    method SumEntries() returns (sum: nat)
      requires Valid()
      ensures sum == ListSum(Parts(), Fws(), secureBoot) % U32
    {
      sum := SumPartitions();
      sum := SumFirmware(sum, ByteSum(PartBytes(Parts())));
    }

    method SumPartitions() returns (sum: nat)
      requires Valid()
      ensures sum == ByteSum(PartBytes(Parts())) % U32
    {
      ghost var parts := Parts();
      sum := 0;
      for i := 0 to partCount
        invariant sum == ByteSum(PartBytes(parts[..i])) % U32
      {
        var more := GetChecksum(partDesc[i]);
        PartNext(parts, i);
        AddFollows(sum, ByteSum(PartBytes(parts[..i])), more, ByteSum(parts[i]));
        sum := Add32(sum, more);
      }
      assert parts[..partCount] == parts;
    }

    method SumFirmware(start: nat, ghost exact: nat) returns (sum: nat)
      requires Valid() && start == exact % U32
      ensures sum == (exact + ByteSum(FwBytes(Fws(), secureBoot))) % U32
    {
      ghost var fws := Fws();
      sum := start;
      for i := 0 to fwCount
        invariant sum == (exact + ByteSum(FwBytes(fws[..i], secureBoot))) % U32
      {
        var more := GetChecksum(fwDesc[i][..Width(secureBoot)]);
        FwNext(fws, secureBoot, i);
        AddFollows(sum, exact + ByteSum(FwBytes(fws[..i], secureBoot)), more, ByteSum(fws[i][..Width(secureBoot)]));
        sum := Add32(sum, more);
      }
      assert fws[..fwCount] == fws;
    }

    /** The writes: header, partition entries, and the firmware entries in one of their two lengths. */
    method WriteImage(full: bool) returns (image: seq<byte>)
      requires Valid()
      ensures image == Image(table, Parts(), Fws(), full)
    {
      var parts := WriteParts();
      var fws := WriteFws(full);
      image := TableBytes(table) + (parts + fws);
    }

    method WriteParts() returns (bytes: seq<byte>)
      requires Valid()
      ensures bytes == PartBytes(Parts())
    {
      ghost var parts := Parts();
      bytes := [];
      for i := 0 to partCount
        invariant bytes == PartBytes(parts[..i])
      {
        PartNext(parts, i);
        bytes := bytes + partDesc[i];
      }
      assert parts[..partCount] == parts;
    }

    method WriteFws(full: bool) returns (bytes: seq<byte>)
      requires Valid()
      ensures bytes == FwBytes(Fws(), full)
    {
      ghost var fws := Fws();
      bytes := [];
      for i := 0 to fwCount
        invariant bytes == FwBytes(fws[..i], full)
      {
        FwNext(fws, full, i);
        bytes := bytes + fwDesc[i][..Width(full)];
      }
      assert fws[..fwCount] == fws;
    }

    /** save_fwdesc */
    method SaveFwdesc() returns (image: seq<byte>)
      requires Valid()
      modifies this
      ensures Valid() && image == Image(table, Parts(), Fws(), secureBoot) && SumOk(image)
      ensures table == old(table).(checksum := table.checksum,
                                   partListLen := 48 * partCount, fwListLen := Width(secureBoot) * fwCount)
    {
      image := Save(table.paddings);
    }

    /** save_fwdesc_emmc, which also says how many bytes behind the checksum the boot code reads. */
    method SaveFwdescEmmc(eraseSize: nat, ghost k: nat) returns (image: seq<byte>)
      requires Valid() && k < 31 && eraseSize == Pow2(k)
      modifies this
      ensures Valid() && image == Image(table, Parts(), Fws(), secureBoot) && SumOk(image)
      ensures table == old(table).(checksum := table.checksum, paddings := table.paddings,
                                   partListLen := 48 * partCount, fwListLen := Width(secureBoot) * fwCount)
      ensures |image| - 12 <= table.paddings < |image| - 12 + eraseSize && table.paddings % eraseSize == 0
    {
      var byteCount := 48 * partCount + Width(secureBoot) * fwCount + 20;
      PaddingsCover(byteCount, k);
      image := Save(Low32(AlignMore(byteCount, eraseSize)));
    }

    /** What the two have in common. */
    method Save(paddings: nat) returns (image: seq<byte>)
      requires Valid() && paddings < U32
      modifies this
      ensures Valid() && image == Image(table, Parts(), Fws(), secureBoot) && SumOk(image)
      ensures table == old(table).(checksum := table.checksum, paddings := paddings,
                                   partListLen := 48 * partCount, fwListLen := Width(secureBoot) * fwCount)
    {
      table := table.(checksum := 0, partListLen := 48 * partCount, fwListLen := Width(secureBoot) * fwCount);
      ghost var parts, fws := Parts(), Fws();
      var entries := SumEntries();
      table := WithChecksum(table.(paddings := paddings), entries, parts, fws, secureBoot);
      image := WriteImage(secureBoot);
    }

    /** Overwrite one entry and keep the checksum up with it. */
    method Redirect(i: nat, copy: Copy, ghost base: nat)
      requires Valid() && i < fwCount && CopyOk(copy)
      requires Tracks(table.checksum, base, Fws())
      modifies this, fwDesc
      ensures Valid() && table == old(table).(checksum := table.checksum)
      ensures fwDesc[..] == old(fwDesc[..])[i := Redirected(old(fwDesc[i]), copy)]
      ensures Tracks(table.checksum, base, Fws())
    {
      ghost var fws, e := Fws(), fwDesc[i];
      var gone := GetChecksum(fwDesc[i][..PLAIN]);
      var come := GetChecksum(Redirected(fwDesc[i], copy)[..PLAIN]);
      UpdateTracks(table.checksum, base, fws, i, Redirected(e, copy), gone, come);
      table := table.(checksum := Sub32(table.checksum, gone));
      fwDesc[i] := Redirected(fwDesc[i], copy);
      table := table.(checksum := Add32(table.checksum, come));
      assert Fws() == fws[i := Redirected(e, copy)];
    }

    /** One pass of the loop of nas_rescue_fwdesc. */
    method RescueEntry(i: nat, copies: Copies, ghost base: nat)
      requires Valid() && i < fwCount && CopiesOk(copies)
      requires Tracks(table.checksum, base, Fws())
      modifies this, fwDesc
      ensures Valid() && table == old(table).(checksum := table.checksum)
      ensures Fws() == old(Fws())[i := Rescued(old(Fws())[i], copies)]
      ensures Tracks(table.checksum, base, Fws())
    {
      var copy := Chosen(fwDesc[i][0], copies);
      if copy.imgSize != 0 {
        Redirect(i, copy, base);
      }
      assert Fws() == old(Fws())[i := Rescued(old(Fws())[i], copies)];
    }

    method RedirectAll(copies: Copies, ghost base: nat)
      requires Valid() && CopiesOk(copies)
      requires Tracks(table.checksum, base, Fws())
      modifies this, fwDesc
      ensures Valid() && table == old(table).(checksum := table.checksum)
      ensures RescuedUpTo(old(Fws()), Fws(), copies, fwCount)
      ensures Tracks(table.checksum, base, Fws())
    {
      ghost var fws := Fws();
      for i := 0 to fwCount
        invariant Valid() && table == old(table).(checksum := table.checksum)
        invariant Tracks(table.checksum, base, Fws())
        invariant RescuedUpTo(fws, Fws(), copies, i)
      {
        RescueEntry(i, copies, base);
      }
    }

    /**
     * nas_rescue_fwdesc: point the redundant images' entries at their copies, adjusting the checksum
     * entry by entry, and write every entry in its unsigned length.
     */
    method RescueFwdesc(copies: Copies) returns (image: seq<byte>)
      requires Valid() && CopiesOk(copies)
      modifies this, fwDesc
      ensures Valid() && table == old(table).(checksum := table.checksum) && Parts() == old(Parts())
      ensures image == Image(table, Parts(), Fws(), false)
      ensures RescuedUpTo(old(Fws()), Fws(), copies, fwCount)
      ensures old(SumOk(Image(table, Parts(), Fws(), secureBoot))) ==>
                (SumOk(image) <==> NothingLeftOut(old(Fws()), secureBoot))
    {
      ghost var t, parts, fws := table, Parts(), Fws();
      ghost var base := Base(t.checksum, ByteSum(FwBytes(fws, false)));
      RedirectAll(copies, base);
      assert Parts() == parts;
      image := WriteImage(false);
      RescueSumIff(t, table, parts, fws, Fws(), secureBoot, base);
      LeftOutIff(fws, secureBoot);
    }
  }

  // ---------------------------------------------------------------- the rescue table

  /** Where the redundant copy of an image lies, in the fields of its image description. */
  datatype Copy = Copy(memOffset: nat, flashOffset: nat, imgSize: nat, room: nat, hash: seq<byte>)

  predicate CopyOk(c: Copy) {
    c.memOffset < U32 && c.flashOffset < U64 && |c.hash| == 32
  }

  const FW_TYPE_KERNEL: byte := 2
  const FW_TYPE_RESCUE_DT: byte := 3
  const FW_TYPE_RESCUE_ROOTFS: byte := 5

  datatype Copies = Copies(kernel: Copy, rescueDt: Copy, rescueRootfs: Copy)

  predicate CopiesOk(c: Copies) { CopyOk(c.kernel) && CopyOk(c.rescueDt) && CopyOk(c.rescueRootfs) }

  function ToLe64(v: nat): (s: seq<byte>)
    requires v < U64
    ensures |s| == 8
  {
    ToLe32(v % U32) + ToLe32(v / U32)
  }

  /** The five fields that nas_rescue_fwdesc overwrites; sizes are cut to 32 bits. */
  function Redirected(e: FwEntry, c: Copy): FwEntry
    requires CopyOk(c)
  {
    e[..6] + (ToLe32(c.memOffset) + ToLe64(c.flashOffset) + ToLe32(c.imgSize % U32) + ToLe32(c.room % U32) + c.hash) + e[58..]
  }

  /** r is entry e with the copy's position, sizes and hash in it. */
  ghost predicate PointsAt(r: FwEntry, e: FwEntry, c: Copy) {
    && Le32(r[6..10]) == c.memOffset && Le32(r[10..14]) + U32 * Le32(r[14..18]) == c.flashOffset
    && (c.imgSize < U32 ==> Le32(r[18..22]) == c.imgSize) && (c.room < U32 ==> Le32(r[22..26]) == c.room)
    && r[26..58] == c.hash && r[..6] == e[..6] && r[58..] == e[58..]
  }

  lemma RedirectedFields(e: FwEntry, c: Copy)
    requires CopyOk(c)
    ensures PointsAt(Redirected(e, c), e, c)
  {
    FieldSlices(e[..6], ToLe32(c.memOffset), ToLe32(c.flashOffset % U32), ToLe32(c.flashOffset / U32),
                ToLe32(c.imgSize % U32), ToLe32(c.room % U32), c.hash, e[58..]);
    assert Redirected(e, c) == e[..6] + (ToLe32(c.memOffset) + (ToLe32(c.flashOffset % U32) + ToLe32(c.flashOffset / U32))
                                         + ToLe32(c.imgSize % U32) + ToLe32(c.room % U32) + c.hash) + e[58..];
  }

  /** Five words and a hash behind six bytes are found at their places. */
  lemma FieldSlices(pre: seq<byte>, m: seq<byte>, lo: seq<byte>, hi: seq<byte>, l: seq<byte>, p: seq<byte>,
                    hash: seq<byte>, post: seq<byte>)
    requires |pre| == 6 && |m| == |lo| == |hi| == |l| == |p| == 4 && |hash| == 32
    ensures var r := pre + (m + (lo + hi) + l + p + hash) + post;
      && r[..6] == pre && r[6..10] == m && r[10..14] == lo && r[14..18] == hi && r[18..22] == l && r[22..26] == p
      && r[26..58] == hash && r[58..] == post
  {
    var mid := m + (lo + hi) + l + p + hash;
    var r := pre + mid + post;
    WordSlices(m, lo, hi, l, p, hash);
    assert r[6..58] == mid;
    assert r[6..10] == mid[..4] && r[10..14] == mid[4..8] && r[14..18] == mid[8..12];
    assert r[18..22] == mid[12..16] && r[22..26] == mid[16..20] && r[26..58] == mid[20..];
  }

  lemma WordSlices(m: seq<byte>, lo: seq<byte>, hi: seq<byte>, l: seq<byte>, p: seq<byte>, hash: seq<byte>)
    requires |m| == |lo| == |hi| == |l| == |p| == 4 && |hash| == 32
    ensures var mid := m + (lo + hi) + l + p + hash;
      && |mid| == 52 && mid[..4] == m && mid[4..8] == lo && mid[8..12] == hi
      && mid[12..16] == l && mid[16..20] == p && mid[20..] == hash
  {}

  /** The copy that replaces images of a type; other types have an empty one. */
  function Chosen(kind: byte, c: Copies): (r: Copy)
    requires CopiesOk(c)
    ensures CopyOk(r)
  {
    if kind == FW_TYPE_KERNEL then c.kernel
    else if kind == FW_TYPE_RESCUE_DT then c.rescueDt
    else if kind == FW_TYPE_RESCUE_ROOTFS then c.rescueRootfs
    else Copy(0, 0, 0, 0, seq(32, _ => 0))
  }

  /** Kernel, rescue device tree and rescue root file system point at their copies, if there are any. */
  function Rescued(e: FwEntry, c: Copies): FwEntry
    requires CopiesOk(c)
  {
    var copy := Chosen(e[0], c);
    if copy.imgSize != 0 then Redirected(e, copy) else e
  }

  /** Types 2, 3 and 5 get the copy of the kernel, of the rescue device tree and of the rescue root file system. */
  lemma RescuedFields(e: FwEntry, c: Copies)
    requires CopiesOk(c)
    ensures e[0] == 2 && c.kernel.imgSize != 0 ==> PointsAt(Rescued(e, c), e, c.kernel)
    ensures e[0] == 3 && c.rescueDt.imgSize != 0 ==> PointsAt(Rescued(e, c), e, c.rescueDt)
    ensures e[0] == 5 && c.rescueRootfs.imgSize != 0 ==> PointsAt(Rescued(e, c), e, c.rescueRootfs)
    ensures Rescued(e, c) == e
            || (e[0] == 2 && c.kernel.imgSize != 0) || (e[0] == 3 && c.rescueDt.imgSize != 0)
            || (e[0] == 5 && c.rescueRootfs.imgSize != 0)
  {
    RedirectedFields(e, Chosen(e[0], c));
  }

  /** The first i entries have been redirected, the others have not. */
  predicate RescuedUpTo(was: seq<FwEntry>, now: seq<FwEntry>, c: Copies, i: nat)
    requires CopiesOk(c)
  {
    |now| == |was| && forall j | 0 <= j < |was| :: now[j] == if j < i then Rescued(was[j], c) else was[j]
  }

  /** The checksum is ahead of the unsigned entries' sum by a fixed number. */
  ghost predicate Tracks(checksum: nat, base: nat, fws: seq<FwEntry>) {
    checksum == (base + ByteSum(FwBytes(fws, false))) % U32
  }

  lemma {:induction false} SumUpdate(fws: seq<FwEntry>, i: nat, e: FwEntry)
    requires i < |fws|
    ensures ByteSum(FwBytes(fws[i := e], false)) + ByteSum(fws[i][..PLAIN])
            == ByteSum(FwBytes(fws, false)) + ByteSum(e[..PLAIN])
    ensures ByteSum(fws[i][..PLAIN]) <= ByteSum(FwBytes(fws, false))
  {
    var last := |fws| - 1;
    var after := fws[i := e];
    FwNext(fws, false, last);
    FwNext(after, false, last);
    assert fws[..last + 1] == fws && after[..last + 1] == after;
    if i < last {
      assert after[..last] == fws[..last][i := e];
      SumUpdate(fws[..last], i, e);
    } else {
      assert after[..last] == fws[..last];
    }
  }

  lemma UpdateTracks(c: nat, base: nat, fws: seq<FwEntry>, i: nat, e: FwEntry, gone: nat, come: nat)
    requires i < |fws| && c < U32 && Tracks(c, base, fws)
    requires gone == ByteSum(fws[i][..PLAIN]) % U32 && come == ByteSum(e[..PLAIN]) % U32
    ensures Tracks(Add32(Sub32(c, gone), come), base, fws[i := e])
  {
    SumUpdate(fws, i, e);
    var left := ByteSum(fws[i][..PLAIN]);
    var others := base + ByteSum(FwBytes(fws, false)) - left;
    SubFollows(c, others, gone);
    AddFollows(Sub32(c, gone), others, come, ByteSum(e[..PLAIN]));
  }

  /** The part of the sum that an unsigned table leaves out. */
  function SignatureSum(fws: seq<FwEntry>, full: bool): nat {
    if fws == [] || !full then 0 else SignatureSum(fws[..|fws| - 1], full) + ByteSum(fws[|fws| - 1][PLAIN..])
  }

  lemma EntrySplit(e: FwEntry)
    ensures ByteSum(e[..SIGNED]) == ByteSum(e[..PLAIN]) + ByteSum(e[PLAIN..])
  {
    ByteSumConcat(e[..PLAIN], e[PLAIN..]);
    assert e[..SIGNED] == e == e[..PLAIN] + e[PLAIN..];
  }

  lemma {:induction false} SignatureSplit(fws: seq<FwEntry>, full: bool)
    ensures ByteSum(FwBytes(fws, full)) == ByteSum(FwBytes(fws, false)) + SignatureSum(fws, full)
  {
    if fws != [] {
      var last := |fws| - 1;
      SignatureSplit(fws[..last], full);
      FwLast(fws, full);
      FwLast(fws, false);
      EntrySplit(fws[last]);
    }
  }

  lemma FwLast(fws: seq<FwEntry>, full: bool)
    requires fws != []
    ensures var last := |fws| - 1;
            ByteSum(FwBytes(fws, full)) == ByteSum(FwBytes(fws[..last], full)) + ByteSum(fws[last][..Width(full)])
  {
    FwNext(fws, full, |fws| - 1);
    assert fws[..|fws| - 1 + 1] == fws;
  }

  lemma {:induction false} SignatureBound(fws: seq<FwEntry>, full: bool)
    ensures SignatureSum(fws, full) <= 255 * 288 * |fws|
  {
    if fws != [] {
      SignatureBound(fws[..|fws| - 1], full);
    }
  }

  /** Byte sums vanish on zeros only. */
  lemma {:induction false} ByteSumZeroIff(s: seq<byte>)
    ensures ByteSum(s) == 0 <==> forall i | 0 <= i < |s| :: s[i] == 0
  {
    if s != [] { ByteSumZeroIff(s[..|s| - 1]); }
  }

  predicate Unsigned(e: FwEntry) {
    forall i | PLAIN <= i < SIGNED :: e[i] == 0
  }

  /** The entries have no signature part, or only zeros in it. */
  ghost predicate NothingLeftOut(fws: seq<FwEntry>, full: bool) {
    !full || forall j | 0 <= j < |fws| :: Unsigned(fws[j])
  }

  lemma {:induction false} SignatureSumZeroIff(fws: seq<FwEntry>)
    ensures SignatureSum(fws, true) == 0 <==> forall j | 0 <= j < |fws| :: Unsigned(fws[j])
  {
    if fws != [] {
      var last := |fws| - 1;
      SignatureSumZeroIff(fws[..last]);
      var tail := fws[last][PLAIN..];
      ByteSumZeroIff(tail);
      assert Unsigned(fws[last]) <==> ByteSum(tail) == 0 by {
        assert forall i | PLAIN <= i < SIGNED :: fws[last][i] == tail[i - PLAIN];
        assert forall i | 0 <= i < 288 :: tail[i] == fws[last][i + PLAIN];
      }
    }
  }

  /** Subtracting on 32 bits follows the exact difference. */
  lemma SubFollows(c: nat, exact: nat, less: nat)
    requires c == (exact + less) % U32 && less < U32
    ensures Sub32(c, less) == exact % U32
  {}

  /** The sum of the rescue table is right exactly when what it leaves out adds up to nothing. */
  lemma RescueSum(c: nat, after: nat, base: nat, p: nat, q: nat, lists: nat, left: nat)
    requires c == (base + p) % U32 && after == (base + q) % U32 && left < U32
    requires c == (lists + p + left) % U32
    ensures after == (lists + q) % U32 <==> left == 0
  {
    var k := (base + p) / U32 - (lists + p + left) / U32;
    assert base == lists + left + U32 * k;
    assert after == (lists + left + q) % U32 by { ShiftMod(lists + left + q, k); }
    if left != 0 { MovedMod(lists + q, left); }
  }

  lemma RescueSumIff(t: Table, r: Table, parts: seq<PartEntry>, fws: seq<FwEntry>, after: seq<FwEntry>, full: bool, base: nat)
    requires TableOk(t) && TableOk(r) && r == t.(checksum := r.checksum) && |fws| <= 30
    requires Tracks(t.checksum, base, fws)
    requires Tracks(r.checksum, base, after)
    ensures SumOk(Image(t, parts, fws, full)) ==>
              (SumOk(Image(r, parts, after, false)) <==> SignatureSum(fws, full) == 0)
  {
    SumOkIff(t, parts, fws, full);
    SumOkIff(r, parts, after, false);
    SignatureSplit(fws, full);
    SignatureBound(fws, full);
    assert TableTail(r) == TableTail(t);
    if SumOk(Image(t, parts, fws, full)) {
      RescueSum(t.checksum, r.checksum, base, ByteSum(FwBytes(fws, false)), ByteSum(FwBytes(after, false)),
                ByteSum(PartBytes(parts)) + ByteSum(TableTail(t)), SignatureSum(fws, full));
    }
  }

  lemma LeftOutIff(fws: seq<FwEntry>, full: bool)
    ensures SignatureSum(fws, full) == 0 <==> NothingLeftOut(fws, full)
  {
    if full { SignatureSumZeroIff(fws); }
  }

  /** The list length in the header of the rescue table is right only when nothing was cut off. */
  lemma RescueLengthIff(t: Table, parts: seq<PartEntry>, fws: seq<FwEntry>, full: bool)
    requires TableOk(t) && t.partListLen == 48 * |parts| && t.fwListLen == Width(full) * |fws|
    ensures var image := Image(t, parts, fws, false);
            |image| == 32 + Le32(image[24..28]) + Le32(image[28..32]) <==> !full || fws == []
  {
    TableFields(t, Lists(parts, fws, false));
  }

  lemma ShiftMod(x: int, k: int)
    ensures (x + U32 * k) % U32 == x % U32
  {
    var q := x / U32;
    assert x + U32 * k == U32 * (q + k) + x % U32;
  }

  /** A number that c is ahead of by sum, on 32 bits. */
  ghost function Base(c: nat, sum: nat): (base: nat)
    requires c < U32
    ensures c == (base + sum) % U32
  {
    ShiftMod(c, sum);
    assert c + (U32 - 1) * sum + sum == c + U32 * sum;
    c + (U32 - 1) * sum
  }

  lemma MovedMod(x: nat, d: nat)
    requires 0 < d < U32
    ensures (x + d) % U32 != x % U32
  {}

  /** The header's own bytes come last into the sum. */
  method WithChecksum(t: Table, entries: nat, ghost parts: seq<PartEntry>, ghost fws: seq<FwEntry>, ghost full: bool)
    returns (r: Table)
    requires TableOk(t) && entries == ListSum(parts, fws, full) % U32
    ensures TableOk(r) && r == t.(checksum := r.checksum) && SumOk(Image(r, parts, fws, full))
  {
    var tail := GetChecksum(TableTail(t));
    AddFollows(entries, ListSum(parts, fws, full), tail, ByteSum(TableTail(t)));
    r := t.(checksum := Add32(entries, tail));
    assert TableTail(r) == TableTail(t);
    SumOkIff(r, parts, fws, full);
  }

  lemma PaddingsCover(len: nat, k: nat)
    requires k < 31 && len < 0x4000_0000
    ensures Pow2(k) < U32
    ensures var r := Low32(AlignMore(len, Pow2(k))); len <= r < len + Pow2(k) && r % Pow2(k) == 0
  {
    HalfWord(k);
    AlignMoreIsCeiling(len, k);
  }

  lemma HalfWord(k: nat)
    requires k < 31
    ensures Pow2(k) <= 0x4000_0000
  {
    assert Pow2(10) == 1024;
    PowAdd(10, 10);
    PowAdd(20, 10);
    PowDivides(k, 30);
  }
}
