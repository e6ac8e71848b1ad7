/**
 * Building a virtual NAND image: every 512 bytes become a 528-byte unit of data, tag and check bytes.
 */
module VirtualNand {
  import opened Align
  import opened Gf2
  import opened NandEcc
  import opened Words

  const GOOD_BLOCK: byte := 0xff

  /** Byte i of the image, which is padded with 0xff as far as pages go. */
  function PadAt(data: seq<byte>, i: nat): byte {
    if i < |data| then data[i] else 0xff
  }

  function Padded(data: seq<byte>, at: nat, len: nat): (s: seq<byte>)
    ensures |s| == len && forall c | 0 <= c < len :: s[c] == PadAt(data, at + c)
  {
    seq<byte>(len, c requires 0 <= c < len => PadAt(data, at + c))
  }

  function Least(a: nat, b: nat): nat { if a < b then a else b }

  /** The six tag bytes of the unit-th unit, for the four modes. */
  function Tag(mode: nat, indicator: byte, unit: nat, perPage: nat): (tag: seq<byte>)
    requires perPage > 0
    ensures |tag| == 6
  {
    if mode == 3 then [indicator, 0xff, 0xff, 0xff, 0xff, 0xff]
    else if mode == 2 then [indicator, 0, unit / perPage % 256, unit / perPage / 256 % 256, 0xff, 0xff]
    else if mode == 1 then [indicator, 0, 0, 0, 0xff, 0xff]
    else if unit % perPage == 0 then [indicator, 0xff, 0xff, 0xff, 0xff, 0xff]
    else [0, 0, 0, 0, 0, 0]
  }

  /** Mode 2 tells pages apart up to 65536 of them, and all units of a page carry the same tag. */
  lemma TagNumbersPage(indicator: byte, a: nat, b: nat, perPage: nat)
    requires perPage > 0
    ensures Tag(2, indicator, a, perPage) == Tag(2, indicator, b, perPage)
            <==> (a / perPage) % 0x1_0000 == (b / perPage) % 0x1_0000
  {
    var (p, q) := (a / perPage, b / perPage);
    LowWord(p);
    LowWord(q);
    var (s, t) := (Tag(2, indicator, a, perPage), Tag(2, indicator, b, perPage));
    assert s[2] == p % 256 && s[3] == p / 256 % 256 && t[2] == q % 256 && t[3] == q / 256 % 256;
  }

  /**
   * What the modes put into a tag. Modes 1 to 3 begin each unit with the indicator, mode 0 only the first of a
   * page. Mode 3 leaves the other bytes blank, modes 1 and 2 carry a page number, which is 0 in mode 1, and mode 0
   * marks a page's first unit as mode 3 does and clears the tags of the others.
   */
  lemma TagBytes(mode: nat, indicator: byte, unit: nat, perPage: nat)
    requires perPage > 0 && mode <= 3
    ensures var tag := Tag(mode, indicator, unit, perPage);
      && tag[0] == (if mode == 0 && unit % perPage > 0 then 0 else indicator)
      && (mode == 3 || (mode == 0 && unit % perPage == 0) ==> forall i | 1 <= i < 6 :: tag[i] == 0xff)
      && (mode == 0 && unit % perPage > 0 ==> forall i | 1 <= i < 6 :: tag[i] == 0)
      && (mode == 1 || mode == 2 ==>
            tag[1] == 0 && tag[4] == tag[5] == 0xff
            && (tag[2] as nat) + 0x100 * (tag[3] as nat) == if mode == 1 then 0 else unit / perPage % 0x1_0000)
  {
    LowWord(unit / perPage);
  }

  lemma LowWord(p: nat)
    ensures p % 0x1_0000 == p % 256 + 256 * (p / 256 % 256)
  {}

  // ---------------------------------------------------------------- plain images

  /** Unit j of the image: 512 bytes of (padded) data, and check bytes that seal it. */
  ghost predicate UnitOf(g: Poly, unit: seq<byte>, data: seq<byte>, j: nat)
    requires |g| == 79
  {
    |unit| == 528 && unit[..512] == Padded(data, 512 * j, 512) && Sealed(g, unit)
  }

  ghost predicate Built(g: Poly, units: seq<seq<byte>>, data: seq<byte>)
    requires |g| == 79
  {
    forall j: nat | j < |units| :: UnitOf(g, units[j], data, j)
  }

  ghost predicate Tagged(units: seq<seq<byte>>, mode: nat, indicator: byte, perPage: nat)
    requires perPage > 0
  {
    forall j: nat | j < |units| :: |units[j]| == 528 && units[j][512..518] == Tag(mode, indicator, j, perPage)
  }

  /** The same on the units of an image: pages count from 0, and modes say what each unit of them carries. */
  lemma UnitTags(units: seq<seq<byte>>, mode: nat, indicator: byte, perPage: nat, j: nat)
    requires perPage > 0 && mode <= 3 && Tagged(units, mode, indicator, perPage) && j < |units|
    ensures |units[j]| == 528
    ensures units[j][512] == if mode == 0 && j % perPage > 0 then 0 else indicator
    ensures mode == 3 || (mode == 0 && j % perPage == 0) ==> forall i | 513 <= i < 518 :: units[j][i] == 0xff
    ensures mode == 0 && j % perPage > 0 ==> forall i | 513 <= i < 518 :: units[j][i] == 0
    ensures mode == 1 || mode == 2 ==>
              units[j][513] == 0 && units[j][516] == units[j][517] == 0xff
              && (units[j][514] as nat) + 0x100 * (units[j][515] as nat) == if mode == 1 then 0 else j / perPage % 0x1_0000
  {
    TagBytes(mode, indicator, j, perPage);
    var tag := units[j][512..518];
    assert forall i | 512 <= i < 518 :: units[j][i] == tag[i - 512];
  }

  /** One pass of the inner loop: assemble a unit from the page buffer and seal it. */
  method EmitUnit(enc: Encoder, page: array<byte>, at: nat, tag: seq<byte>) returns (unit: seq<byte>)
    requires enc.Valid() && at + 512 <= page.Length && |tag| == 6
    modifies enc.Arrays()
    ensures |unit| == 528 && unit[..512] == old(page[at..at + 512]) && unit[512..518] == tag && Sealed(enc.gen, unit)
  {
    var buf := new byte[528];
    forall c | 0 <= c < 528 { buf[c] := 0; }
    forall c | 0 <= c < 512 { buf[c] := page[at + c]; }
    forall c | 0 <= c < 6 { buf[512 + c] := tag[c]; }
    ghost var head := buf[..518];
    assert forall c | 0 <= c < 512 :: head[c] == page[at + c];
    assert forall c | 0 <= c < 6 :: head[512 + c] == tag[c];
    enc.SealUnit(buf);
    unit := buf[..];
    assert unit[..518] == head;
    assert unit[..512] == head[..512] == page[at..at + 512];
    assert unit[512..518] == head[512..518] == tag;
  }

  /** memset and read: the file has source[pos..] left. */
  method FillPage(page: array<byte>, source: seq<byte>, pos: nat, rlen: nat) returns (rret: nat)
    requires pos <= |source| && rlen <= page.Length
    modifies page
    ensures rret == Least(rlen, |source| - pos)
    ensures page[..] == Padded(source[..pos + rret], pos, page.Length)
  {
    rret := Least(rlen, |source| - pos);
    forall c | 0 <= c < page.Length { page[c] := if c < rret then source[pos + c] else 0xff; }
  }

  lemma UnitOfPage(data: seq<byte>, page: seq<byte>, pos: nat, i: nat)
    requires page == Padded(data, pos, |page|) && 512 * i + 512 <= |page|
    ensures page[512 * i..512 * i + 512] == Padded(data, pos + 512 * i, 512)
  {}

  method EmitPage(enc: Encoder, page: array<byte>, before: seq<seq<byte>>, ghost data: seq<byte>,
                  indicator: byte, perPage: nat, mode: nat)
    returns (units: seq<seq<byte>>)
    requires enc.Valid() && perPage > 0 && page.Length == 512 * perPage && page as object !in enc.Arrays()
    requires page[..] == Padded(data, 512 * |before|, page.Length)
    requires Built(enc.gen, before, data) && Tagged(before, mode, indicator, perPage)
    modifies enc.Arrays()
    ensures |units| == |before| + perPage && Built(enc.gen, units, data) && Tagged(units, mode, indicator, perPage)
  {
    units := before;
    ghost var bytes := page[..];
    for i := 0 to perPage
      invariant |units| == |before| + i && page[..] == bytes
      invariant Built(enc.gen, units, data) && Tagged(units, mode, indicator, perPage)
    {
      UnitOfPage(data, bytes, 512 * |before|, i);
      assert page[512 * i..512 * i + 512] == bytes[512 * i..512 * i + 512];
      var unit := EmitUnit(enc, page, 512 * i, Tag(mode, indicator, |units|, perPage));
      units := units + [unit];
    }
  }

  /** One pass of the outer loop: read a page at len, where length bytes are wanted in all. */
  method ReadPage(page: array<byte>, source: seq<byte>, len: nat, length: nat) returns (rret: nat)
    requires len < length && len <= |source|
    modifies page
    ensures rret == Least(Least(length - len, page.Length), |source| - len)
    ensures page[..] == Padded(source[..Least(length, |source|)], len, page.Length)
  {
    var rlen := Least(length - len, page.Length);
    rret := FillPage(page, source, len, rlen);
    assert Padded(source[..len + rret], len, page.Length) == Padded(source[..Least(length, |source|)], len, page.Length);
  }

  /** So many units are the least number of whole pages that hold len bytes. */
  predicate WholePages(count: nat, len: nat, perPage: nat)
    requires perPage > 0
  {
    count % perPage == 0 && len <= 512 * count < len + 512 * perPage
  }

  lemma OnePageMore(count: nat, len: nat, more: nat, perPage: nat)
    requires perPage > 0 && WholePages(count, len, perPage) && len == 512 * count && 0 < more <= 512 * perPage
    ensures WholePages(count + perPage, len + more, perPage)
  {
    ModUnique(count + perPage, perPage, count / perPage + 1, 0);
  }

  /** Whole pages of sealed and tagged units that hold the first len bytes of data, and all that follow if there is room. */
  ghost predicate Paged(g: Poly, units: seq<seq<byte>>, data: seq<byte>, len: nat, indicator: byte, perPage: nat, mode: nat)
    requires |g| == 79 && perPage > 0
  {
    && WholePages(|units|, len, perPage) && (len < |data| ==> len == 512 * |units|)
    && Built(g, units, data) && Tagged(units, mode, indicator, perPage)
  }

  method EmitNextPage(enc: Encoder, page: array<byte>, before: seq<seq<byte>>, ghost data: seq<byte>, len: nat, rret: nat,
                      indicator: byte, perPage: nat, mode: nat)
    returns (units: seq<seq<byte>>)
    requires enc.Valid() && perPage > 0 && page.Length == 512 * perPage && page as object !in enc.Arrays()
    requires len < |data| && rret == Least(page.Length, |data| - len)
    requires page[..] == Padded(data, len, page.Length) && Paged(enc.gen, before, data, len, indicator, perPage, mode)
    modifies enc.Arrays()
    ensures Paged(enc.gen, units, data, len + rret, indicator, perPage, mode)
  {
    OnePageMore(|before|, len, rret, perPage);
    units := EmitPage(enc, page, before, data, indicator, perPage, mode);
  }

  /**
   * fd_to_fd_virt_nand on a regular file: units written, and the number of source bytes taken.
   * An unknown mode fails on the first page.
   */
  method FdToFdVirtNand(enc: Encoder, source: seq<byte>, length: nat, indicator: byte, perPage: nat, mode: nat)
    returns (ret: int, units: seq<seq<byte>>)
    requires enc.Valid()
    modifies enc.Arrays()
    ensures ret == if perPage == 0 then 0 else if mode > 3 && length > 0 && |source| > 0 then -1 else Least(length, |source|)
    ensures ret <= 0 ==> units == []
    ensures ret > 0 ==> Paged(enc.gen, units, source[..ret], ret, indicator, perPage, mode)
  {
    units := [];
    var len := 0;
    if perPage == 0 {   // an empty page buffer reads nothing
      return 0, units;
    }
    var page := new byte[512 * perPage];
    ghost var data := source[..Least(length, |source|)];
    while len < length
      invariant len <= |data| && (mode > 3 ==> len == 0)
      invariant Paged(enc.gen, units, data, len, indicator, perPage, mode)
      invariant len == 0 ==> units == []
    {
      var rret := ReadPage(page, source, len, length);
      if rret == 0 {
        break;
      }
      if mode > 3 {
        return -1, [];
      }
      units := EmitNextPage(enc, page, units, data, len, rret, indicator, perPage, mode);
      len := len + rret;
    }
    ret := len;
  }

  // ---------------------------------------------------------------- reading it back

  predicate Units(units: seq<seq<byte>>) {
    forall j | 0 <= j < |units| :: |units[j]| == 528
  }

  /** The units as they lie in the file. */
  function Flat(units: seq<seq<byte>>): (s: seq<byte>)
    requires Units(units)
    ensures |s| == 528 * |units|
  {
    if units == [] then [] else Flat(units[..|units| - 1]) + units[|units| - 1]
  }

  /** The file with the 16 spare bytes of every unit taken out. */
  function Stripped(units: seq<seq<byte>>): (s: seq<byte>)
    requires Units(units)
    ensures |s| == 512 * |units|
  {
    if units == [] then [] else Stripped(units[..|units| - 1]) + units[|units| - 1][..512]
  }

  lemma {:induction false} StrippedIsImage(g: Poly, units: seq<seq<byte>>, data: seq<byte>)
    requires |g| == 79 && Built(g, units, data)
    ensures Units(units) && Stripped(units) == Padded(data, 0, 512 * |units|)
  {
    if units != [] {
      var last := |units| - 1;
      var front := units[..last];
      forall j: nat | j < last ensures UnitOf(g, front[j], data, j) {
        assert UnitOf(g, units[j], data, j);
      }
      StrippedIsImage(g, front, data);
      assert UnitOf(g, units[last], data, last);
      assert Padded(data, 0, 512 * |units|) == Padded(data, 0, 512 * last) + Padded(data, 512 * last, 512);
    }
  }

  /** Round trip: taking out the spare bytes gives the image back, followed by 0xff up to the page end. */
  lemma StripRoundTrip(g: Poly, units: seq<seq<byte>>, data: seq<byte>)
    requires |g| == 79 && Built(g, units, data) && |data| <= 512 * |units|
    ensures Units(units) && Stripped(units)[..|data|] == data
    ensures forall i | |data| <= i < 512 * |units| :: Stripped(units)[i] == 0xff
  {
    StrippedIsImage(g, units, data);
    PaddedParts(data, 512 * |units|);
  }

  lemma PaddedParts(data: seq<byte>, len: nat)
    requires |data| <= len
    ensures Padded(data, 0, len)[..|data|] == data && forall i | |data| <= i < len :: Padded(data, 0, len)[i] == 0xff
  {}

  /** Where byte x of the flash lies in the virtual NAND file. */
  function Phys(x: nat): nat { x / 512 * 528 + x % 512 }

  lemma {:induction false} FlatAt(units: seq<seq<byte>>, j: nat, c: nat)
    requires Units(units) && j < |units| && c < 528
    ensures Flat(units)[528 * j + c] == units[j][c]
  {
    if j < |units| - 1 {
      var front := units[..|units| - 1];
      FlatAt(front, j, c);
    }
  }

  lemma PhysShift(base: nat, d: nat)
    requires base % 512 == 0
    ensures Phys(base + d) == Phys(base) + Phys(d)
  {}

  /** Byte d of data is where flash byte doffset + d belongs. */
  predicate LandedAt(file: seq<byte>, doffset: nat, data: seq<byte>, d: nat)
    requires d < |data|
  {
    Phys(doffset + d) < |file| && file[Phys(doffset + d)] == data[d]
  }

  ghost predicate Landed(file: seq<byte>, doffset: nat, data: seq<byte>) {
    forall d: nat | d < |data| :: LandedAt(file, doffset, data, d)
  }

  lemma UnitByte(g: Poly, unit: seq<byte>, data: seq<byte>, j: nat, c: nat)
    requires |g| == 79 && UnitOf(g, unit, data, j) && c < 512
    ensures unit[c] == PadAt(data, 512 * j + c)
  {
    assert unit[c] == unit[..512][c];
  }

  lemma PhysAt(j: nat, c: nat)
    requires c < 512
    ensures Phys(512 * j + c) == 528 * j + c
  {
    ModUnique(512 * j + c, 512, j, c);
  }

  lemma ByteLands(units: seq<seq<byte>>, data: seq<byte>, j: nat, c: nat)
    requires Units(units) && j < |units| && c < 512 && 512 * j + c < |data| && units[j][c] == data[512 * j + c]
    ensures LandedAt(Flat(units), 0, data, 512 * j + c)
  {
    FlatAt(units, j, c);
    PhysAt(j, c);
  }

  lemma BuiltUnits(g: Poly, units: seq<seq<byte>>, data: seq<byte>)
    requires |g| == 79 && Built(g, units, data)
    ensures Units(units)
  {
    forall j: nat | j < |units| ensures |units[j]| == 528 {
      assert UnitOf(g, units[j], data, j);
    }
  }

  lemma BuiltByte(g: Poly, units: seq<seq<byte>>, data: seq<byte>, j: nat, c: nat)
    requires |g| == 79 && Built(g, units, data) && Units(units)
    requires j < |units| && c < 512
    ensures units[j][c] == PadAt(data, 512 * j + c)
  {
    UnitByte(g, units[j], data, j, c);
  }

  /** Every byte of an image lies at its physical offset, counted from where the image starts. */
  lemma BytesLand(g: Poly, units: seq<seq<byte>>, data: seq<byte>)
    requires |g| == 79 && Built(g, units, data) && |data| <= 512 * |units|
    ensures Units(units) && Landed(Flat(units), 0, data)
  {
    BuiltUnits(g, units, data);
    forall d: nat | d < |data| ensures LandedAt(Flat(units), 0, data, d) {
      BuiltByte(g, units, data, d / 512, d % 512);
      ByteLands(units, data, d / 512, d % 512);
    }
  }

  // ---------------------------------------------------------------- the file

  /** A write at an offset; a gap beyond the end reads as zeros. */
  function WrittenAt(file: seq<byte>, at: nat, bytes: seq<byte>): (r: seq<byte>)
    ensures bytes != [] ==> |r| >= at + |bytes| && r[at..at + |bytes|] == bytes
    ensures |r| >= |file| && forall x | 0 <= x < |file| && !(at <= x < at + |bytes|) :: r[x] == file[x]
  {
    if bytes == [] then file
    else
      var base := if at <= |file| then file[..at] else file + seq(at - |file|, _ => 0);
      base + bytes + if at + |bytes| < |file| then file[at + |bytes|..] else []
  }

  /** The 32-bit product that positions the file is the physical offset exactly below this flash offset. */
  lemma OffsetExactIff(doffset: nat)
    requires doffset < U32 && doffset % 512 == 0
    ensures Low32(doffset / 512 * 528) == Phys(doffset) <==> doffset < 0xF83E_1000
  {}

  /** Every byte of the flash outside lo..hi reads the same. */
  ghost predicate OthersKept(was: seq<byte>, file: seq<byte>, lo: nat, hi: nat) {
    |file| >= |was| && forall x: nat | Phys(x) < |was| && !(lo <= x < hi) :: file[Phys(x)] == was[Phys(x)]
  }

  lemma LandsInFile(file: seq<byte>, flat: seq<byte>, doffset: nat, data: seq<byte>)
    requires Landed(flat, 0, data) && flat != [] && doffset % 512 == 0
    ensures Landed(WrittenAt(file, Phys(doffset), flat), doffset, data)
  {
    var (at, r) := (Phys(doffset), WrittenAt(file, Phys(doffset), flat));
    forall d: nat | d < |data| ensures LandedAt(r, doffset, data, d) {
      assert LandedAt(flat, 0, data, d);
      PhysShift(doffset, d);
      assert r[at..at + |flat|][Phys(d)] == flat[Phys(d)];
    }
  }

  lemma PhysOutside(x: nat, p: nat, count: nat)
    requires !(512 * p <= x < 512 * p + 512 * count)
    ensures !(528 * p <= Phys(x) < 528 * p + 528 * count)
  {
    var q := x / 512;
    assert x == 512 * q + x % 512;
    if x < 512 * p {
      assert q < p;
    } else {
      assert q >= p + count;
    }
  }

  lemma OutsideKept(file: seq<byte>, flat: seq<byte>, doffset: nat, count: nat)
    requires doffset % 512 == 0 && |flat| == 528 * count
    ensures OthersKept(file, WrittenAt(file, Phys(doffset), flat), doffset, doffset + 512 * count)
  {
    var p := doffset / 512;
    assert Phys(doffset) == 528 * p;
    forall x: nat | Phys(x) < |file| && !(doffset <= x < doffset + 512 * count)
      ensures WrittenAt(file, Phys(doffset), flat)[Phys(x)] == file[Phys(x)]
    {
      PhysOutside(x, p, count);
    }
  }

  /** The units lie in the file from the image's place on, every image byte where it belongs, and nothing else has changed. */
  ghost predicate Stored(was: seq<byte>, file: seq<byte>, doffset: nat, units: seq<seq<byte>>, data: seq<byte>) {
    && Units(units) && Phys(doffset) + 528 * |units| <= |file|
    && file[Phys(doffset)..Phys(doffset) + 528 * |units|] == Flat(units)
    && Landed(file, doffset, data) && OthersKept(was, file, doffset, doffset + 512 * |units|)
  }

  class VirtualNandFile {
    const enc: Encoder
    const eraseSize: nat
    const pageSize: nat
    const oobSize: nat
    var file: seq<byte>

    constructor (erase: nat, page: nat, oob: nat, contents: seq<byte>)
      ensures enc.gen == GEN_POLY_6B
      ensures enc.Valid() && fresh(enc.Arrays()) && eraseSize == erase && pageSize == page && oobSize == oob && file == contents
    {
      enc := new Encoder();
      eraseSize, pageSize, oobSize, file := erase, page, oob, contents;
    }

    /** The checks and seeks that fail before anything is written; lseek results are taken as signed. */
    predicate Refused(soffset: nat, doffset: nat) {
      || eraseSize == 0 || pageSize == 0 || oobSize == 0 || doffset % 512 != 0
      || soffset >= 0x8000_0000 || Low32(doffset / 512 * 528) >= 0x8000_0000
    }

    predicate Accepted(size: nat, soffset: nat, imglen: nat, doffset: nat) {
      !Refused(soffset, doffset) && (imglen == 0 || (pageSize >= 512 && soffset + imglen <= size))
    }

    /**
     * rtk_file_to_virt_nand_with_ecc: on success every byte of the image is found at its physical
     * offset, in sealed and tagged units, and no flash byte outside the pages written has changed.
     */
    method WriteImage(source: seq<byte>, soffset: nat, imglen: nat, doffset: nat, indicator: byte, mode: nat)
      returns (ret: int, ghost units: seq<seq<byte>>)
      requires enc.Valid() && soffset < U32 && imglen < U32 && doffset < U32
      modifies this`file, enc.Arrays()
      ensures ret == 0 || ret == -1
      ensures Refused(soffset, doffset) ==> ret == -1 && file == old(file)
      ensures mode <= 3 ==> (ret == 0 <==> Accepted(|source|, soffset, imglen, doffset))
      ensures ret == 0 && mode <= 3 && imglen > 0 ==>
                && Accepted(|source|, soffset, imglen, doffset)
                && Paged(enc.gen, units, source[soffset..soffset + imglen], imglen, indicator, pageSize / 512, mode)
                && (doffset < 0xF83E_1000 ==> Stored(old(file), file, doffset, units, source[soffset..soffset + imglen]))
    {
      units := [];
      if Refused(soffset, doffset) {
        return -1, [];
      }
      var rest := if soffset <= |source| then source[soffset..] else [];
      var taken, emitted := FdToFdVirtNand(enc, rest, imglen, indicator, pageSize / 512, mode);
      units := emitted;
      if taken > 0 {
        Store(emitted, doffset, rest[..taken]);
        assert taken == imglen ==> rest[..taken] == source[soffset..soffset + imglen];
      }
      ret := if (if taken < 0 then taken + U32 else taken) == imglen then 0 else -1;
    }

    /** The writes of all units, from the physical offset on. */
    method Store(units: seq<seq<byte>>, doffset: nat, ghost data: seq<byte>)
      requires enc.Valid() && pageSize >= 512 && Built(enc.gen, units, data)
      requires 0 < |data| <= 512 * |units| && doffset < U32 && doffset % 512 == 0
      modifies this`file
      ensures doffset < 0xF83E_1000 ==> Stored(old(file), file, doffset, units, data)
    {
      BytesLand(enc.gen, units, data);
      ghost var was := file;
      var flat := Flat(units);
      file := WrittenAt(file, Low32(doffset / 512 * 528), flat);
      OffsetExactIff(doffset);
      if doffset < 0xF83E_1000 {
        LandsInFile(was, flat, doffset, data);
        OutsideKept(was, flat, doffset, |units|);
      }
    }
  }

  // ---------------------------------------------------------------- YAFFS images

  /** The tag of unit i is made of four bytes of the record's own spare area. */
  function YaffsTag(record: seq<byte>, perPage: nat, i: nat): (tag: seq<byte>)
    requires |record| == 528 * perPage && i < perPage
    ensures |tag| == 6
  {
    var oob := 512 * perPage;
    if i == 0 then [GOOD_BLOCK, record[oob], record[oob + 1], record[oob + 2], record[oob + 3], 0]
    else [record[oob + 4 * i], record[oob + 1 + 4 * i], record[oob + 2 + 4 * i], record[oob + 3 + 4 * i], 0, 0]
  }

  ghost predicate YaffsUnit(g: Poly, unit: seq<byte>, record: seq<byte>, perPage: nat, i: nat)
    requires |g| == 79 && |record| == 528 * perPage && i < perPage
  {
    && |unit| == 528 && Sealed(g, unit)
    && unit[..512] == record[512 * i..512 * i + 512] && unit[512..518] == YaffsTag(record, perPage, i)
  }

  ghost predicate YaffsPage(g: Poly, units: seq<seq<byte>>, record: seq<byte>, perPage: nat)
    requires |g| == 79
  {
    |record| == 528 * perPage && |units| == perPage && forall i: nat | i < perPage :: YaffsUnit(g, units[i], record, perPage, i)
  }

  /** Taking a page apart again: the data, then the first four spare bytes per unit. */
  function YaffsData(units: seq<seq<byte>>, k: nat): (s: seq<byte>)
    requires Units(units) && k <= |units|
    ensures |s| == 512 * k
  {
    if k == 0 then [] else YaffsData(units, k - 1) + units[k - 1][..512]
  }

  /** The spare bytes that unit i of a page carries; the first unit has a block mark before them. */
  function SpareOf(unit: seq<byte>, i: nat): (s: seq<byte>)
    requires |unit| == 528
    ensures |s| == 4
  {
    if i == 0 then [unit[513], unit[514], unit[515], unit[516]] else [unit[512], unit[513], unit[514], unit[515]]
  }

  function YaffsSpare(units: seq<seq<byte>>, k: nat): (s: seq<byte>)
    requires Units(units) && k <= |units|
    ensures |s| == 4 * k
  {
    if k == 0 then []
    else YaffsSpare(units, k - 1) + SpareOf(units[k - 1], k - 1)
  }

  lemma YaffsParts(g: Poly, unit: seq<byte>, record: seq<byte>, perPage: nat, i: nat)
    requires |g| == 79 && |record| == 528 * perPage && i < perPage && YaffsUnit(g, unit, record, perPage, i)
    ensures Part(record, 512 * i, unit[..512]) && Part(record, 512 * perPage + 4 * i, SpareOf(unit, i))
  {
    var tag := YaffsTag(record, perPage, i);
    forall c | 0 <= c < 6 ensures unit[512 + c] == tag[c] {
      assert unit[512..518][c] == unit[512 + c];
    }
  }

  lemma YaffsUnits(g: Poly, units: seq<seq<byte>>, record: seq<byte>, perPage: nat)
    requires |g| == 79 && YaffsPage(g, units, record, perPage)
    ensures Units(units)
  {
    forall i: nat | i < perPage ensures |units[i]| == 528 { assert YaffsUnit(g, units[i], record, perPage, i); }
  }

  predicate Part(s: seq<byte>, at: nat, part: seq<byte>) {
    at + |part| <= |s| && s[at..at + |part|] == part
  }

  ghost predicate DataParts(units: seq<seq<byte>>, record: seq<byte>, k: nat)
    requires Units(units) && k <= |units|
  {
    forall i: nat | i < k :: Part(record, 512 * i, units[i][..512])
  }

  ghost predicate SpareParts(units: seq<seq<byte>>, record: seq<byte>, at: nat, k: nat)
    requires Units(units) && k <= |units|
  {
    forall i: nat | i < k :: Part(record, at + 4 * i, SpareOf(units[i], i))
  }

  lemma {:induction false} YaffsDataBack(units: seq<seq<byte>>, record: seq<byte>, k: nat)
    requires Units(units) && k <= |units| && 512 * k <= |record| && DataParts(units, record, k)
    ensures YaffsData(units, k) == record[..512 * k]
  {
    if k > 0 {
      YaffsDataBack(units, record, k - 1);
      assert Part(record, 512 * (k - 1), units[k - 1][..512]);
      Extend(record, 0, 512 * (k - 1), 512 * k);
    }
  }

  lemma {:induction false} YaffsSpareBack(units: seq<seq<byte>>, record: seq<byte>, at: nat, k: nat)
    requires Units(units) && k <= |units| && at + 4 * k <= |record| && SpareParts(units, record, at, k)
    ensures YaffsSpare(units, k) == record[at..at + 4 * k]
  {
    if k > 0 {
      YaffsSpareBack(units, record, at, k - 1);
      assert Part(record, at + 4 * (k - 1), SpareOf(units[k - 1], k - 1));
      Extend(record, at, at + 4 * (k - 1), at + 4 * k);
    }
  }

  lemma Extend(s: seq<byte>, a: nat, b: nat, c: nat)
    requires a <= b <= c <= |s|
    ensures s[a..b] + s[b..c] == s[a..c] && (a == 0 ==> s[..b] + s[b..c] == s[..c])
  {}

  lemma YaffsAllParts(g: Poly, units: seq<seq<byte>>, record: seq<byte>, perPage: nat)
    requires |g| == 79 && YaffsPage(g, units, record, perPage) && Units(units)
    ensures DataParts(units, record, perPage) && SpareParts(units, record, 512 * perPage, perPage)
  {
    forall i: nat | i < perPage
      ensures Part(record, 512 * i, units[i][..512]) && Part(record, 512 * perPage + 4 * i, SpareOf(units[i], i))
    {
      YaffsParts(g, units[i], record, perPage, i);
    }
  }

  /** The page data and the first quarter of the spare area come back; nothing else of the record does. */
  lemma YaffsRoundTrip(g: Poly, units: seq<seq<byte>>, record: seq<byte>, perPage: nat)
    requires |g| == 79 && YaffsPage(g, units, record, perPage)
    ensures Units(units) && YaffsData(units, perPage) + YaffsSpare(units, perPage) == record[..516 * perPage]
  {
    YaffsUnits(g, units, record, perPage);
    YaffsAllParts(g, units, record, perPage);
    YaffsDataBack(units, record, perPage);
    YaffsSpareBack(units, record, 512 * perPage, perPage);
    Extend(record, 0, 512 * perPage, 516 * perPage);
  }

  /** The first unit of a page carries the mark of a good block, and tag bytes in no use are zero. */
  lemma YaffsMarks(g: Poly, units: seq<seq<byte>>, record: seq<byte>, perPage: nat, i: nat)
    requires |g| == 79 && YaffsPage(g, units, record, perPage) && i < perPage
    ensures |units[i]| == 528 && units[i][517] == 0 && if i == 0 then units[i][512] == 0xff else units[i][516] == 0
  {
    assert YaffsUnit(g, units[i], record, perPage, i);
    var tag := units[i][512..518];
    assert units[i][512] == tag[0] && units[i][516] == tag[4] && units[i][517] == tag[5];
  }

  lemma YaffsForgetsRest(g: Poly, units: seq<seq<byte>>, record: seq<byte>, other: seq<byte>, perPage: nat)
    requires |g| == 79 && YaffsPage(g, units, record, perPage) && |other| == 528 * perPage
    ensures YaffsPage(g, units, other, perPage) <==> other[..516 * perPage] == record[..516 * perPage]
  {
    if YaffsPage(g, units, other, perPage) {
      YaffsRoundTrip(g, units, record, perPage);
      YaffsRoundTrip(g, units, other, perPage);
    }
    if other[..516 * perPage] == record[..516 * perPage] {
      forall i: nat | i < perPage ensures YaffsUnit(g, units[i], other, perPage, i) {
        assert YaffsUnit(g, units[i], record, perPage, i);
        SameUnit(record, other, perPage, i);
      }
    }
  }

  lemma SameUnit(record: seq<byte>, other: seq<byte>, perPage: nat, i: nat)
    requires |record| == |other| == 528 * perPage && i < perPage
    requires other[..516 * perPage] == record[..516 * perPage]
    ensures record[512 * i..512 * i + 512] == other[512 * i..512 * i + 512]
    ensures YaffsTag(record, perPage, i) == YaffsTag(other, perPage, i)
  {
    forall x | 0 <= x < 516 * perPage ensures other[x] == record[x] {
      assert other[..516 * perPage][x] == record[..516 * perPage][x];
    }
  }

  /** The p-th record of the source. */
  function Record(source: seq<byte>, size: nat, p: nat): (r: seq<byte>)
  {
    if p * size + size <= |source| then source[p * size..p * size + size] else []
  }

  method EmitYaffsPage(enc: Encoder, record: array<byte>, perPage: nat) returns (units: seq<seq<byte>>)
    requires enc.Valid() && record.Length == 528 * perPage && record as object !in enc.Arrays()
    modifies enc.Arrays()
    ensures YaffsPage(enc.gen, units, record[..], perPage) && record[..] == old(record[..])
  {
    units := [];
    ghost var bytes := record[..];
    for i := 0 to perPage
      invariant |units| == i && record[..] == bytes
      invariant forall k: nat | k < i :: YaffsUnit(enc.gen, units[k], bytes, perPage, k)
    {
      assert record[512 * i..512 * i + 512] == bytes[512 * i..512 * i + 512];
      var unit := EmitUnit(enc, record, 512 * i, YaffsTag(record[..], perPage, i));
      units := units + [unit];
    }
  }

  /**
   * fd_to_fd_yaffs_to_virt_nand on a regular file: one page of units for every whole record, and
   * nothing for a last partial one.
   */
  method FdToFdYaffsToVirtNand(enc: Encoder, source: seq<byte>, length: nat, perPage: nat)
    returns (ret: nat, pages: seq<seq<seq<byte>>>)
    requires enc.Valid()
    modifies enc.Arrays()
    ensures perPage == 0 ==> ret == 0 && pages == []
    ensures perPage > 0 ==> ret == |pages| * (528 * perPage) <= Least(length, |source|) < ret + 528 * perPage
    ensures forall p: nat | p < |pages| :: YaffsPage(enc.gen, pages[p], Record(source, 528 * perPage, p), perPage)
  {
    var size := 528 * perPage;
    var record := new byte[size];
    ret, pages := 0, [];
    while ret < length
      invariant ret == |pages| * size <= Least(length, |source|) && (perPage == 0 ==> pages == [])
      invariant forall p: nat | p < |pages| :: YaffsPage(enc.gen, pages[p], Record(source, size, p), perPage)
      decreases length - ret
    {
      var rlen := Least(length - ret, size);
      var rret := Least(rlen, |source| - ret);
      if rret != size || size == 0 {
        return;
      }
      forall c | 0 <= c < size { record[c] := source[ret + c]; }
      assert record[..] == Record(source, size, |pages|);
      var units := EmitYaffsPage(enc, record, perPage);
      assert (|pages| + 1) * size == ret + size;
      pages := pages + [units];
      ret := ret + rret;
    }
  }
}
