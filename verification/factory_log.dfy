/** The factory area: two slots written in turn, through power cuts. */
module FactoryLog {
  import opened Words
  import opened TarHeader

  // A slot holds a tar archive whose first block is stamped with a sequence number and the archive size;
  // the same block repeated after the archive is the commit mark. Blocks are the 512-byte tar blocks, and
  // storage writes whole blocks in order.

  type Block = Header

  const PREFIX: seq<byte> := [0x74, 0x6d, 0x70, 0x2f, 0x66, 0x61, 0x63, 0x74, 0x6f, 0x72, 0x79, 0x2f]   // "tmp/factory/"

  const SIGN: seq<byte> := [0x52, 0x54, 0x4b, 0]   // "RTK"

  predicate Named(b: Block) { b[..12] == PREFIX }

  /** A header that factory_build_header may have stamped. */
  predicate IsMark(b: Block) { Named(b) && b[508..512] == SIGN }

  /** Our headers name the factory directory, and marks are signed. */
  lemma MarkText(b: Block)
    requires IsMark(b)
    ensures forall i | 0 <= i < 12 :: b[i] == "tmp/factory/"[i] as int
    ensures forall i | 0 <= i < 3 :: b[508 + i] == "RTK"[i] as int
  {
    assert forall i | 0 <= i < 12 :: b[i] == b[..12][i];
    assert forall i | 0 <= i < 4 :: b[508 + i] == b[508..512][i];
  }

  function SeqNum(b: Block): (q: nat) ensures q < U32 { Le32(b[500..504]) }
  function TarSize(b: Block): (q: nat) ensures q < U32 { Le32(b[504..508]) }

  /** factory_build_header on the first block of the archive. */
  function Stamped(b: Block, seqNum: nat, tarSize: nat): Block
    requires seqNum < U32 && tarSize < U32
  {
    Filled(b[..500] + ToLe32(seqNum) + ToLe32(tarSize) + SIGN)
  }

  /** h has a right checksum and our signature, and is else the header b but for number and size. */
  ghost predicate Restamped(h: Block, b: Block) {
    && OctalValue(h[148..154]) == HeaderSum(h) && h[154] == 0 && h[155] == 0x20
    && h[..148] == b[..148] && h[156..500] == b[156..500] && h[508..512] == [0x52, 0x54, 0x4b, 0]
  }

  lemma StampedFields(b: Block, seqNum: nat, tarSize: nat)
    requires seqNum < U32 && tarSize < U32
    ensures var h := Stamped(b, seqNum, tarSize);
            Le32(h[500..504]) == seqNum && Le32(h[504..508]) == tarSize && Named(h) == Named(b) && Restamped(h, b)
  {
    ChecksumRoundTrip(b[..500] + ToLe32(seqNum) + ToLe32(tarSize) + SIGN);
    StampedMark(b, seqNum, tarSize);
    StampedBytes(b, seqNum, tarSize);
  }

  lemma StampedBytes(b: Block, seqNum: nat, tarSize: nat)
    requires seqNum < U32 && tarSize < U32
    ensures var h := Stamped(b, seqNum, tarSize); h[..148] == b[..148] && h[156..500] == b[156..500]
  {
    var raw := b[..500] + ToLe32(seqNum) + ToLe32(tarSize) + SIGN;
    var h := Stamped(b, seqNum, tarSize);
    assert h[156..500] == h[156..][..344] == raw[156..][..344] == b[156..500];
    assert h[..148] == raw[..148] == b[..148];
  }

  /** What makes it a mark, with its number. */
  lemma StampedMark(b: Block, seqNum: nat, tarSize: nat)
    requires seqNum < U32 && tarSize < U32
    ensures var h := Stamped(b, seqNum, tarSize);
            SeqNum(h) == seqNum && TarSize(h) == tarSize && Named(h) == Named(b) && h[508..512] == SIGN
  {
    var raw := b[..500] + ToLe32(seqNum) + ToLe32(tarSize) + SIGN;
    var h := Stamped(b, seqNum, tarSize);
    assert h[500..504] == h[156..][344..348] == raw[156..][344..348] == ToLe32(seqNum);
    assert h[504..508] == h[156..][348..352] == raw[156..][348..352] == ToLe32(tarSize);
    assert h[508..512] == h[156..][352..356] == raw[156..][352..356] == SIGN;
    assert h[..12] == h[..148][..12] == raw[..148][..12] == b[..12];
  }

  // ---------------------------------------------------------------- reading the area

  /** First block of slot s of an area of two slots of n blocks. */
  function At(n: nat, s: nat): nat
    requires s < 2
  {
    if s == 0 then 0 else n
  }

  /** 512 bytes of the area that begin r bytes into block i. */
  function ReadAcross(area: seq<Block>, i: nat, r: nat): Block
    requires i + 1 < |area| && 0 < r < 512
  {
    area[i][r..] + area[i + 1][..r]
  }

  /** The start header of slot s is found again size bytes behind it, as far as the area reaches. */
  predicate MarkAt(area: seq<Block>, n: nat, s: nat, size: nat)
    requires s < 2 && |area| == 2 * n && n > 0
  {
    var i := At(n, s) + size / 512;
    if size % 512 == 0 then i < |area| && area[i] == area[At(n, s)]
    else i + 1 < |area| && ReadAcross(area, i, size % 512) == area[At(n, s)]
  }

  /** The start header is ours and the commit mark equals it. */
  predicate SlotOk(area: seq<Block>, n: nat, s: nat)
    requires s < 2 && |area| == 2 * n && n > 0
  {
    Named(area[At(n, s)]) && MarkAt(area, n, s, TarSize(area[At(n, s)]))
  }

  /** Which of two valid slots is current, from their sequence numbers. */
  function Newer(q0: nat, q1: nat): int
    requires q0 < U32 && q1 < U32
  {
    if q0 < q1 then (if q1 - q0 > 0xFFFF_FFF0 then 0 else 1)
    else (if q0 - q1 > 0xFFFF_FFF0 then 1 else 0)
  }

  /** factory_find_latest_update. */
  function Select(area: seq<Block>, n: nat): (pp: int)
    requires |area| == 2 * n && n > 0
    ensures -1 <= pp <= 1
  {
    if SlotOk(area, n, 0) && SlotOk(area, n, 1) then Newer(SeqNum(area[0]), SeqNum(area[n]))
    else if SlotOk(area, n, 0) then 0
    else if SlotOk(area, n, 1) then 1
    else -1
  }

  /** For which gaps the selection finds the slot that is k ahead. */
  lemma NewerIff(older: nat, k: nat)
    requires older < U32 && 0 < k < U32
    ensures var newer := (older + k) % U32;
            (Newer(older, newer) == 1 <==> if older + k < U32 then k <= 0xFFFF_FFF0 else k < 16) &&
            (Newer(newer, older) == 0 <==> if older + k < U32 then k <= 0xFFFF_FFF0 else k < 16)
  {}

  // ---------------------------------------------------------------- the runs

  datatype State = State(area: seq<Block>, pp: int, seqNum: nat)

  datatype Event =
    | Flush(tarball: seq<Block>)              // one factory_flush
    | Cut(tarball: seq<Block>, written: nat)  // a flush interrupted by a reboot after some blocks
    | Reboot

  /** What dd is given: the stamped archive and its commit mark. */
  function Image(tarball: seq<Block>, seqNum: nat): seq<Block>
    requires 0 < |tarball| && 512 * |tarball| < U32 && seqNum < U32
  {
    var h := Stamped(tarball[0], seqNum, 512 * |tarball|);
    [h] + tarball[1..] + [h]
  }

  function Target(pp: int): nat {
    if pp < 0 then 0 else if pp == 0 then 1 else 0
  }

  function Overwrite(area: seq<Block>, at: nat, data: seq<Block>): (r: seq<Block>)
    requires at + |data| <= |area|
    ensures |r| == |area|
  {
    area[..at] + data + area[at + |data|..]
  }

  function Booted(area: seq<Block>, n: nat): State
    requires |area| == 2 * n && n > 0
  {
    var pp := Select(area, n);
    State(area, pp, if pp >= 0 then SeqNum(area[At(n, pp)]) else 0)
  }

  /** seq_num++ */
  function Next(q: nat): nat { if q + 1 < U32 then q + 1 else 0 }

  ghost predicate Shape(st: State, n: nat) {
    n > 0 && |st.area| == 2 * n && -1 <= st.pp <= 1 && st.seqNum < U32
  }

  predicate Fits(tarball: seq<Block>, n: nat) {
    |tarball| + 1 <= n
  }

  predicate Wellformed(tarball: seq<Block>) {
    0 < |tarball| && 512 * |tarball| < U32
  }

  /** What a flush has done when only the first k blocks of its image got written. */
  function Partly(st: State, n: nat, tarball: seq<Block>, k: nat): State
    requires n > 0 && |st.area| == 2 * n && st.seqNum < U32 && Wellformed(tarball) && Fits(tarball, n) && k <= |tarball| + 1
  {
    var t := Target(st.pp);
    State(Overwrite(st.area, At(n, t), Image(tarball, Next(st.seqNum))[..k]), t, Next(st.seqNum))
  }

  function Step(st: State, n: nat, ev: Event): State
    requires n > 0 && |st.area| == 2 * n && -1 <= st.pp <= 1 && st.seqNum < U32
    requires ev.Reboot? || Wellformed(ev.tarball)
    requires ev.Cut? ==> ev.written <= |ev.tarball| + 1
  {
    match ev
    case Reboot => Booted(st.area, n)
    case Flush(tarball) =>
      if !Fits(tarball, n) then st.(seqNum := Next(st.seqNum))
      else
        var t := Target(st.pp);
        State(Overwrite(st.area, At(n, t), Image(tarball, Next(st.seqNum))), t, Next(st.seqNum))
    case Cut(tarball, k) =>
      if !Fits(tarball, n) then Booted(st.area, n)
      else Booted(Partly(st, n, tarball, k).area, n)
  }

  // ---------------------------------------------------------------- what every run keeps

  /** How far newer is ahead of older on the 32-bit circle. */
  function Gap(newer: nat, older: nat): int {
    if newer >= older then newer - older else newer + U32 - older
  }

  predicate GapOk(newer: nat, older: nat) {
    1 <= Gap(newer, older) <= 15
  }

  lemma NewerPicks(newer: nat, older: nat)
    requires newer < U32 && older < U32 && GapOk(newer, older)
    ensures Newer(older, newer) == 1 && Newer(newer, older) == 0
  {}

  /** A start header of ours keeps its commit mark inside its own slot. */
  ghost predicate Bounded(area: seq<Block>, n: nat, s: nat)
    requires s < 2 && |area| == 2 * n && n > 0
  {
    Named(area[At(n, s)]) ==> TarSize(area[At(n, s)]) % 512 == 0 && 1 <= TarSize(area[At(n, s)]) / 512 < n
  }

  /** The archive blocks after the header block. */
  function Payload(area: seq<Block>, n: nat, s: nat): seq<Block>
    requires s < 2 && |area| == 2 * n && n > 0 && 512 <= TarSize(area[At(n, s)]) < 512 * n
  {
    area[At(n, s) + 1..At(n, s) + TarSize(area[At(n, s)]) / 512]
  }

  /** Slot s holds archive p: its first block restamped, and the others as they are. */
  ghost predicate Stored(area: seq<Block>, n: nat, s: nat, p: seq<Block>)
    requires s < 2 && |area| == 2 * n && n > 0
  {
    && 0 < |p| < n && TarSize(area[At(n, s)]) == 512 * |p|
    && Restamped(area[At(n, s)], p[0]) && Payload(area, n, s) == p[1..]
  }

  /** Any area with confined headers, and the state of a session on it. */
  ghost predicate Usable(st: State, n: nat) {
    && Shape(st, n) && Bounded(st.area, n, 0) && Bounded(st.area, n, 1)
    && (st.pp >= 0 ==> SlotOk(st.area, n, st.pp))
    && (st.pp < 0 ==> !SlotOk(st.area, n, 0) && !SlotOk(st.area, n, 1))
  }

  /** The current slot holds archive p, and the other one, if valid, is the 1 to 15 flushes older one. */
  ghost predicate Holds(st: State, n: nat, p: seq<Block>) {
    && Usable(st, n) && st.pp >= 0
    && Stored(st.area, n, st.pp, p)
    && (SlotOk(st.area, n, 1 - st.pp) ==> GapOk(SeqNum(st.area[At(n, st.pp)]), SeqNum(st.area[At(n, 1 - st.pp)])))
  }

  /**
   * What the environment guarantees: archives begin with our directory entry and hold no stamped
   * header behind it, and at most 14 oversize flushes of a session pass before its next write.
   */
  ghost predicate Enabled(st: State, n: nat, ev: Event)
    requires Shape(st, n)
  {
    match ev
    case Reboot => true
    case Flush(tarball) => Writable(st, n, tarball) && Clean(tarball)
    case Cut(tarball, k) => Writable(st, n, tarball) && Clean(tarball) && k <= |tarball| + 1
  }

  ghost predicate Writable(st: State, n: nat, tarball: seq<Block>)
    requires Shape(st, n)
  {
    && Wellformed(tarball) && Named(tarball[0])
    && (Fits(tarball, n) && st.pp >= 0 ==> Lag(st, n) <= 14)
  }

  /** No file of the archive contains a stamped header. */
  ghost predicate Clean(tarball: seq<Block>) {
    forall i | 1 <= i < |tarball| :: !IsMark(tarball[i])
  }

  /** The number of the current slot; a session on an area without one starts from zero. */
  function Base(st: State, n: nat): (q: nat)
    requires n > 0 && |st.area| == 2 * n && -1 <= st.pp <= 1
    ensures q < U32
  {
    if st.pp >= 0 then SeqNum(st.area[At(n, st.pp)]) else 0
  }

  /** Sequence numbers used up since the current slot was written. */
  function Lag(st: State, n: nat): int
    requires n > 0 && |st.area| == 2 * n && -1 <= st.pp <= 1
  {
    Gap(st.seqNum, Base(st, n))
  }

  /** Only slot t differs between the areas. */
  ghost predicate SameOutside(a: seq<Block>, b: seq<Block>, n: nat, t: nat)
    requires t < 2
  {
    |a| == |b| == 2 * n && forall i | 0 <= i < 2 * n && !(At(n, t) <= i < At(n, t) + n) :: a[i] == b[i]
  }

  lemma OtherSlotKept(a: seq<Block>, b: seq<Block>, n: nat, t: nat)
    requires n > 0 && t < 2 && SameOutside(a, b, n, t) && Bounded(a, n, 1 - t)
    ensures OtherKept(a, b, n, t)
  {}

  /** The slot that is not t reads the same in both areas. */
  ghost predicate OtherKept(a: seq<Block>, b: seq<Block>, n: nat, t: nat)
    requires n > 0 && t < 2 && |a| == |b| == 2 * n && Bounded(a, n, 1 - t)
  {
    && Bounded(b, n, 1 - t) && SlotOk(b, n, 1 - t) == SlotOk(a, n, 1 - t)
    && b[At(n, 1 - t)] == a[At(n, 1 - t)]
    && (SlotOk(a, n, 1 - t) ==> Payload(b, n, 1 - t) == Payload(a, n, 1 - t))
  }

  lemma OverwriteOutside(area: seq<Block>, n: nat, t: nat, data: seq<Block>)
    requires n > 0 && t < 2 && |area| == 2 * n && |data| <= n
    ensures SameOutside(area, Overwrite(area, At(n, t), data), n, t)
    ensures Overwrite(area, At(n, t), data)[At(n, t)] == if data != [] then data[0] else area[At(n, t)]
    ensures data == [] ==> Overwrite(area, At(n, t), data) == area
  {}

  /** Writing any first k blocks of an image: the other slot is safe and the start header stays confined. */
  lemma WriteStaysInSlot(area: seq<Block>, n: nat, t: nat, tarball: seq<Block>, seqNum: nat, k: nat)
    requires n > 0 && t < 2 && |area| == 2 * n && seqNum < U32
    requires Wellformed(tarball) && Fits(tarball, n) && k <= |tarball| + 1 && Bounded(area, n, t)
    ensures var b := Overwrite(area, At(n, t), Image(tarball, seqNum)[..k]);
            SameOutside(area, b, n, t) && Bounded(b, n, t) && (k == 0 ==> b == area)
  {
    var data := Image(tarball, seqNum)[..k];
    OverwriteOutside(area, n, t, data);
    if k > 0 {
      ImageHeader(tarball, seqNum, k);
      SizeBounded(Overwrite(area, At(n, t), data), n, t, |tarball|);
    }
  }

  lemma SizeBounded(area: seq<Block>, n: nat, t: nat, m: nat)
    requires n > 0 && t < 2 && |area| == 2 * n && 0 < m < n && TarSize(area[At(n, t)]) == 512 * m
    ensures Bounded(area, n, t)
  {}

  lemma ImageHeader(tarball: seq<Block>, seqNum: nat, k: nat)
    requires Wellformed(tarball) && seqNum < U32 && 0 < k <= |tarball| + 1
    ensures TarSize(Image(tarball, seqNum)[..k][0]) == 512 * |tarball|
  {
    StampedMark(tarball[0], seqNum, 512 * |tarball|);
  }

  /** A write that stopped short is taken for valid exactly when its commit mark was lying there already. */
  lemma TornWriteValidIff(area: seq<Block>, n: nat, t: nat, tarball: seq<Block>, seqNum: nat, k: nat)
    requires n > 0 && t < 2 && |area| == 2 * n && seqNum < U32
    requires Wellformed(tarball) && Fits(tarball, n) && 0 < k <= |tarball|
    ensures SlotOk(Overwrite(area, At(n, t), Image(tarball, seqNum)[..k]), n, t)
            <==> Named(tarball[0]) && area[At(n, t) + |tarball|] == Image(tarball, seqNum)[0]
  {
    var m := |tarball|;
    var file := Image(tarball, seqNum);
    var b := Overwrite(area, At(n, t), file[..k]);
    StampedMark(tarball[0], seqNum, 512 * m);
    assert b[At(n, t)] == file[0];
    assert b[At(n, t) + m] == area[At(n, t) + m];
  }

  lemma WholeWriteValid(area: seq<Block>, n: nat, t: nat, tarball: seq<Block>, seqNum: nat)
    requires n > 0 && t < 2 && |area| == 2 * n && seqNum < U32
    requires Wellformed(tarball) && Fits(tarball, n) && Named(tarball[0])
    ensures var b := Overwrite(area, At(n, t), Image(tarball, seqNum));
            SlotOk(b, n, t) && SeqNum(b[At(n, t)]) == seqNum && Stored(b, n, t, tarball)
  {
    var m := |tarball|;
    var file := Image(tarball, seqNum);
    var b := Overwrite(area, At(n, t), file);
    StampedFields(tarball[0], seqNum, 512 * m);
    assert b[At(n, t)..At(n, t) + m + 1] == file;
    assert b[At(n, t)] == b[At(n, t)..At(n, t) + m + 1][0] == file[0];
    assert b[At(n, t) + m] == b[At(n, t)..At(n, t) + m + 1][m] == file[m] == file[0];
    assert Payload(b, n, t) == b[At(n, t)..At(n, t) + m + 1][1..m];
  }

  // ---------------------------------------------------------------- one step

  /** A restart selects slot pp again, and finds p there. */
  lemma BootFinds(area: seq<Block>, n: nat, pp: nat, p: seq<Block>)
    requires n > 0 && |area| == 2 * n && pp < 2 && Bounded(area, n, 0) && Bounded(area, n, 1)
    requires SlotOk(area, n, pp) && Stored(area, n, pp, p)
    requires SlotOk(area, n, 1 - pp) ==> GapOk(SeqNum(area[At(n, pp)]), SeqNum(area[At(n, 1 - pp)]))
    ensures var st := Booted(area, n); st.pp == pp && Holds(st, n, p) && Lag(st, n) == 0
  {
    if SlotOk(area, n, 1 - pp) { NewerPicks(SeqNum(area[At(n, pp)]), SeqNum(area[At(n, 1 - pp)])); }
  }

  datatype Option<T> = None | Some(value: T)

  /** If there is a last completed archive, a valid current slot holds it. */
  ghost predicate Kept(st: State, n: nat, last: Option<seq<Block>>) {
    Usable(st, n) && (last.Some? ==> Holds(st, n, last.value))
  }

  lemma BootKept(st: State, n: nat, last: Option<seq<Block>>)
    requires Kept(st, n, last)
    ensures Kept(Booted(st.area, n), n, last)
    ensures last.Some? ==> Booted(st.area, n).pp == st.pp >= 0
  {
    if last.Some? { BootFinds(st.area, n, st.pp, last.value); }
  }

  /** Slot t of b holds a finished image numbered q of archive p; the other slot is as in a. */
  ghost predicate Wrote(a: seq<Block>, b: seq<Block>, n: nat, t: nat, q: nat, p: seq<Block>)
    requires n > 0 && t < 2 && |a| == |b| == 2 * n && Bounded(a, n, 1 - t)
  {
    && OtherKept(a, b, n, t) && Bounded(b, n, t) && SlotOk(b, n, t)
    && SeqNum(b[At(n, t)]) == q && Stored(b, n, t, p)
  }

  /** The write of slot t got nowhere, or left the slot invalid. */
  ghost predicate Tore(a: seq<Block>, b: seq<Block>, n: nat, t: nat)
    requires n > 0 && t < 2 && |a| == |b| == 2 * n && Bounded(a, n, 1 - t)
  {
    OtherKept(a, b, n, t) && Bounded(b, n, t) && (b == a || !SlotOk(b, n, t))
  }

  /** A completed flush: p is current, in the slot that was not, and the slot that was is untouched. */
  ghost predicate Flushed(st: State, after: State, n: nat, p: seq<Block>) {
    && Usable(st, n) && Holds(after, n, p) && Lag(after, n) == 0 && after.pp == Target(st.pp)
    && (st.pp >= 0 ==> SlotOk(after.area, n, st.pp) && after.area[At(n, st.pp)] == st.area[At(n, st.pp)]
                       && Payload(after.area, n, st.pp) == Payload(st.area, n, st.pp))
  }

  // ---------------------------------------------------------------- stale commit marks

  /** Every stamped block that is not a start header carries a number at most d behind base. */
  ghost predicate MarksBehind(area: seq<Block>, n: nat, base: nat, d: int) {
    forall i | 0 <= i < |area| && i != 0 && i != n && IsMark(area[i]) :: Gap(base, SeqNum(area[i])) <= d
  }

  /** At most total numbers are in use: those since the current slot, and the older ones on stale marks. */
  ghost predicate Spent(st: State, n: nat, total: nat) {
    && Shape(st, n) && st.pp == Select(st.area, n) && Lag(st, n) <= total < U32
    && MarksBehind(st.area, n, Base(st, n), total - Lag(st, n))
  }

  /** The next number is on no stale mark, so an interrupted write cannot be taken for a finished one. */
  lemma NoStaleMark(st: State, n: nat, tarball: seq<Block>, total: nat)
    requires Spent(st, n, total) && total + 1 < U32
    requires Wellformed(tarball) && Fits(tarball, n) && Named(tarball[0])
    ensures st.area[At(n, Target(st.pp)) + |tarball|] != Image(tarball, Next(st.seqNum))[0]
  {
    var q := Next(st.seqNum);
    var h := Image(tarball, q)[0];
    StampedMark(tarball[0], q, 512 * |tarball|);
    NextIsAhead(Base(st, n), st.seqNum, total);
    assert IsMark(h) && SeqNum(h) == q;
  }

  lemma NextIsAhead(base: nat, seqNum: nat, total: nat)
    requires base < U32 && seqNum < U32 && Gap(seqNum, base) <= total && total + 1 < U32
    ensures Gap(base, Next(seqNum)) > total - Gap(seqNum, base)
    ensures Gap(Next(seqNum), base) == Gap(seqNum, base) + 1
  {}

  /** Marks stay behind when an image numbered q, or a first part of it without its commit mark, is written. */
  lemma MarksAfter(area: seq<Block>, n: nat, t: nat, tarball: seq<Block>, q: nat, k: nat, base: nat, d: int)
    requires n > 0 && t < 2 && |area| == 2 * n && q < U32 && MarksBehind(area, n, base, d)
    requires Wellformed(tarball) && Fits(tarball, n) && Clean(tarball) && k <= |tarball| + 1
    requires k == |tarball| + 1 ==> Gap(base, q) <= d
    ensures MarksBehind(Overwrite(area, At(n, t), Image(tarball, q)[..k]), n, base, d)
  {
    var at, data := At(n, t), Image(tarball, q)[..k];
    var b := Overwrite(area, at, data);
    StampedMark(tarball[0], q, 512 * |tarball|);
    forall i | 0 <= i < |b| && i != 0 && i != n && IsMark(b[i]) ensures Gap(base, SeqNum(b[i])) <= d {
      if at < i < at + k {
        ImageAt(tarball, q, k, i - at);
        assert b[i] == data[i - at];
      } else {
        assert b[i] == area[i];
      }
    }
  }

  lemma ImageAt(tarball: seq<Block>, q: nat, k: nat, j: nat)
    requires Wellformed(tarball) && q < U32 && 0 < j < k <= |tarball| + 1
    ensures Image(tarball, q)[..k][j] == if j < |tarball| then tarball[j] else Stamped(tarball[0], q, 512 * |tarball|)
  {}

  lemma MarksShift(area: seq<Block>, n: nat, base: nat, d: int, q: nat)
    requires base < U32 && q < U32 && MarksBehind(area, n, base, d) && 0 <= d && d + Gap(q, base) < U32
    ensures MarksBehind(area, n, q, d + Gap(q, base))
  {
    forall i | 0 <= i < |area| && i != 0 && i != n && IsMark(area[i])
      ensures Gap(q, SeqNum(area[i])) <= d + Gap(q, base)
    {
      assert Gap(base, SeqNum(area[i])) <= d;
    }
  }

  lemma WroteKeeps(st: State, n: nat, b: seq<Block>, q: nat, p: seq<Block>)
    requires Usable(st, n) && |b| == 2 * n && Wrote(st.area, b, n, Target(st.pp), q, p) && q < U32
    requires st.pp >= 0 ==> GapOk(q, SeqNum(st.area[At(n, st.pp)]))
    ensures Flushed(st, State(b, Target(st.pp), q), n, p)
  {}

  lemma StoredCarried(a: seq<Block>, b: seq<Block>, n: nat, t: nat, p: seq<Block>)
    requires n > 0 && t < 2 && |a| == |b| == 2 * n && Bounded(a, n, 1 - t) && OtherKept(a, b, n, t)
    requires SlotOk(a, n, 1 - t) && Stored(a, n, 1 - t, p)
    ensures SlotOk(b, n, 1 - t) && Stored(b, n, 1 - t, p)
  {}

  /** With the written slot invalid and the other one as it was, a restart selects what was current. */
  lemma TornSelects(st: State, n: nat, b: seq<Block>)
    requires Usable(st, n) && |b| == 2 * n && OtherKept(st.area, b, n, Target(st.pp))
    requires Bounded(b, n, Target(st.pp)) && !SlotOk(b, n, Target(st.pp))
    ensures Usable(Booted(b, n), n) && Booted(b, n).pp == st.pp
  {}

  lemma ToreKeeps(st: State, n: nat, b: seq<Block>, last: Option<seq<Block>>)
    requires Kept(st, n, last) && |b| == 2 * n && Tore(st.area, b, n, Target(st.pp))
    requires st.pp == Select(st.area, n)
    ensures Kept(Booted(b, n), n, last) && Booted(b, n).pp == st.pp
  {
    if b == st.area {
      BootKept(st, n, last);
    } else {
      TornSelects(st, n, b);
      if last.Some? { TornFinds(st, n, b, last.value); }
    }
  }

  lemma TornFinds(st: State, n: nat, b: seq<Block>, p: seq<Block>)
    requires Holds(st, n, p) && |b| == 2 * n && OtherKept(st.area, b, n, Target(st.pp))
    requires Bounded(b, n, Target(st.pp)) && !SlotOk(b, n, Target(st.pp))
    ensures Holds(Booted(b, n), n, p)
  {
    StoredCarried(st.area, b, n, Target(st.pp), p);
    BootFinds(b, n, st.pp, p);
  }

  lemma WholeWriteWrote(area: seq<Block>, n: nat, t: nat, tarball: seq<Block>, seqNum: nat)
    requires n > 0 && t < 2 && |area| == 2 * n && seqNum < U32 && Bounded(area, n, t) && Bounded(area, n, 1 - t)
    requires Wellformed(tarball) && Fits(tarball, n) && Named(tarball[0])
    ensures Wrote(area, Overwrite(area, At(n, t), Image(tarball, seqNum)), n, t, seqNum, tarball)
  {
    var file := Image(tarball, seqNum);
    assert file[..|tarball| + 1] == file;
    WriteStaysInSlot(area, n, t, tarball, seqNum, |tarball| + 1);
    WholeWriteValid(area, n, t, tarball, seqNum);
    OtherSlotKept(area, Overwrite(area, At(n, t), file), n, t);
  }

  lemma CutWriteTore(area: seq<Block>, n: nat, t: nat, tarball: seq<Block>, seqNum: nat, k: nat)
    requires n > 0 && t < 2 && |area| == 2 * n && seqNum < U32 && Bounded(area, n, t) && Bounded(area, n, 1 - t)
    requires Wellformed(tarball) && Fits(tarball, n) && k <= |tarball|
    requires area[At(n, t) + |tarball|] != Image(tarball, seqNum)[0]
    ensures Tore(area, Overwrite(area, At(n, t), Image(tarball, seqNum)[..k]), n, t)
  {
    WriteStaysInSlot(area, n, t, tarball, seqNum, k);
    OtherSlotKept(area, Overwrite(area, At(n, t), Image(tarball, seqNum)[..k]), n, t);
    if k > 0 { TornWriteValidIff(area, n, t, tarball, seqNum, k); }
  }

  lemma FlushStep(st: State, n: nat, tarball: seq<Block>)
    requires Usable(st, n) && Writable(st, n, tarball) && Fits(tarball, n)
    ensures Flushed(st, Step(st, n, Flush(tarball)), n, tarball)
  {
    var t, q := Target(st.pp), Next(st.seqNum);
    WholeWriteWrote(st.area, n, t, tarball, q);
    WroteKeeps(st, n, Overwrite(st.area, At(n, t), Image(tarball, q)), q, tarball);
  }

  /** An oversize archive leaves the area alone and burns one sequence number. */
  lemma OversizeStep(st: State, n: nat, tarball: seq<Block>)
    requires Shape(st, n) && Wellformed(tarball) && !Fits(tarball, n)
    ensures var after := Step(st, n, Flush(tarball));
      && after.area == st.area && after.pp == st.pp && Shape(after, n)
      && (Lag(st, n) + 1 < U32 ==> Lag(after, n) == Lag(st, n) + 1)
  {}

  /** A flush cut short before its last block leaves the current slot as the one a restart selects. */
  lemma CutStep(st: State, n: nat, tarball: seq<Block>, k: nat, last: Option<seq<Block>>, total: nat)
    requires Kept(st, n, last) && Spent(st, n, total) && total + 1 < U32
    requires Writable(st, n, tarball) && Fits(tarball, n) && k <= |tarball|
    ensures Kept(Step(st, n, Cut(tarball, k)), n, last) && Step(st, n, Cut(tarball, k)).pp == st.pp
  {
    CutTore(st, n, tarball, k, total);
    ToreKeeps(st, n, Partly(st, n, tarball, k).area, last);
  }

  lemma CutTore(st: State, n: nat, tarball: seq<Block>, k: nat, total: nat)
    requires Usable(st, n) && Spent(st, n, total) && total + 1 < U32
    requires Wellformed(tarball) && Named(tarball[0]) && Fits(tarball, n) && k <= |tarball|
    ensures |Partly(st, n, tarball, k).area| == 2 * n
    ensures Tore(st.area, Partly(st, n, tarball, k).area, n, Target(st.pp))
  {
    NoStaleMark(st, n, tarball, total);
    CutWriteTore(st.area, n, Target(st.pp), tarball, Next(st.seqNum), k);
  }

  lemma FlushedBoots(st: State, after: State, n: nat, p: seq<Block>)
    requires Flushed(st, after, n, p)
    ensures Holds(Booted(after.area, n), n, p)
  {
    BootFinds(after.area, n, after.pp, p);
  }

  /** A flush cut short after its last block has taken place. */
  lemma CutAtEndStep(st: State, n: nat, tarball: seq<Block>)
    requires Usable(st, n) && Writable(st, n, tarball) && Fits(tarball, n)
    ensures Holds(Step(st, n, Cut(tarball, |tarball| + 1)), n, tarball)
  {
    FlushStep(st, n, tarball);
    FlushedBoots(st, Step(st, n, Flush(tarball)), n, tarball);
    CutAtEndIsFlush(st, n, tarball);
  }

  // ---------------------------------------------------------------- all runs

  /** The last archive that was written in full. */
  function Completed(n: nat, ev: Event, last: Option<seq<Block>>): Option<seq<Block>> {
    match ev
    case Reboot => last
    case Flush(tarball) => if 0 < |tarball| && Fits(tarball, n) then Some(tarball) else last
    case Cut(tarball, k) =>
      if 0 < |tarball| && Fits(tarball, n) && k == |tarball| + 1 then Some(tarball) else last
  }

  lemma FlushKept(st: State, n: nat, tarball: seq<Block>, last: Option<seq<Block>>)
    requires Kept(st, n, last) && Writable(st, n, tarball)
    ensures Kept(Step(st, n, Flush(tarball)), n, Completed(n, Flush(tarball), last))
  {
    if Fits(tarball, n) { FlushStep(st, n, tarball); } else { OversizeStep(st, n, tarball); }
  }

  lemma CutKept(st: State, n: nat, tarball: seq<Block>, k: nat, last: Option<seq<Block>>, total: nat)
    requires Kept(st, n, last) && Spent(st, n, total) && total + 1 < U32 && Writable(st, n, tarball) && k <= |tarball| + 1
    ensures Kept(Step(st, n, Cut(tarball, k)), n, Completed(n, Cut(tarball, k), last))
  {
    if !Fits(tarball, n) {
      BootKept(st, n, last);
    } else if k <= |tarball| {
      CutStep(st, n, tarball, k, last, total);
    } else {
      CutAtEndStep(st, n, tarball);
    }
  }

  lemma StepKept(st: State, n: nat, ev: Event, last: Option<seq<Block>>, total: nat)
    requires Kept(st, n, last) && Spent(st, n, total) && total + 1 < U32 && Enabled(st, n, ev)
    ensures Kept(Step(st, n, ev), n, Completed(n, ev, last))
  {
    match ev
    case Reboot => BootKept(st, n, last);
    case Flush(tarball) => FlushKept(st, n, tarball, last);
    case Cut(tarball, k) => CutKept(st, n, tarball, k, last, total);
  }

  lemma BootSpent(st: State, n: nat, total: nat)
    requires Spent(st, n, total)
    ensures Spent(Booted(st.area, n), n, total)
  {}

  lemma FlushSpent(st: State, n: nat, tarball: seq<Block>, total: nat)
    requires Usable(st, n) && Spent(st, n, total) && total + 1 < U32
    requires Writable(st, n, tarball) && Clean(tarball) && Fits(tarball, n)
    ensures Spent(Step(st, n, Flush(tarball)), n, total + 1)
  {
    FlushStep(st, n, tarball);
    FlushedReselects(st, Step(st, n, Flush(tarball)), n, tarball);
    FlushMarks(st, n, tarball, total);
    FreshSpent(Step(st, n, Flush(tarball)), n, total + 1);
  }

  lemma FreshSpent(st: State, n: nat, total: nat)
    requires Shape(st, n) && total < U32 && st.pp == Select(st.area, n) && Base(st, n) == st.seqNum
    requires MarksBehind(st.area, n, st.seqNum, total)
    ensures Spent(st, n, total)
  {}

  lemma FlushMarks(st: State, n: nat, tarball: seq<Block>, total: nat)
    requires Spent(st, n, total) && total + 1 < U32 && Wellformed(tarball) && Clean(tarball) && Fits(tarball, n)
    ensures |Step(st, n, Flush(tarball)).area| == 2 * n
    ensures MarksBehind(Step(st, n, Flush(tarball)).area, n, Next(st.seqNum), total + 1)
  {
    var q := Next(st.seqNum);
    NextIsAhead(Base(st, n), st.seqNum, total);
    MarksShift(st.area, n, Base(st, n), total - Lag(st, n), q);
    assert Image(tarball, q)[..|tarball| + 1] == Image(tarball, q);
    MarksAfter(st.area, n, Target(st.pp), tarball, q, |tarball| + 1, q, total + 1);
  }

  lemma FlushedReselects(st: State, after: State, n: nat, p: seq<Block>)
    requires Flushed(st, after, n, p)
    ensures after.pp == Select(after.area, n) && Base(after, n) == after.seqNum
  {
    BootFinds(after.area, n, after.pp, p);
  }

  lemma CutSpent(st: State, n: nat, tarball: seq<Block>, k: nat, total: nat)
    requires Usable(st, n) && Spent(st, n, total) && total + 1 < U32
    requires Writable(st, n, tarball) && Clean(tarball) && Fits(tarball, n) && k <= |tarball|
    ensures Spent(Step(st, n, Cut(tarball, k)), n, total + 1)
  {
    CutStep(st, n, tarball, k, None, total);
    MarksAfter(st.area, n, Target(st.pp), tarball, Next(st.seqNum), k, Base(st, n), total - Lag(st, n));
    OverwriteKeepsBase(st, n, tarball, k);
    SameBaseSpent(st, n, Partly(st, n, tarball, k).area, total);
  }

  lemma SameBaseSpent(st: State, n: nat, b: seq<Block>, total: nat)
    requires Spent(st, n, total) && |b| == 2 * n && Booted(b, n).pp == st.pp && total + 1 < U32
    requires st.pp >= 0 ==> b[At(n, st.pp)] == st.area[At(n, st.pp)]
    requires MarksBehind(b, n, Base(st, n), total - Lag(st, n))
    ensures Spent(Booted(b, n), n, total + 1)
  {
    assert Base(Booted(b, n), n) == Base(st, n) && Lag(Booted(b, n), n) == 0;
  }

  lemma OverwriteKeepsBase(st: State, n: nat, tarball: seq<Block>, k: nat)
    requires Shape(st, n) && Wellformed(tarball) && Fits(tarball, n) && k <= |tarball| + 1
    ensures st.pp >= 0 ==> Partly(st, n, tarball, k).area[At(n, st.pp)] == st.area[At(n, st.pp)]
  {}

  lemma CutAtEndSpent(st: State, n: nat, tarball: seq<Block>, total: nat)
    requires Usable(st, n) && Spent(st, n, total) && total + 1 < U32
    requires Writable(st, n, tarball) && Clean(tarball) && Fits(tarball, n)
    ensures Spent(Step(st, n, Cut(tarball, |tarball| + 1)), n, total + 1)
  {
    FlushSpent(st, n, tarball, total);
    BootSpent(Step(st, n, Flush(tarball)), n, total + 1);
    CutAtEndIsFlush(st, n, tarball);
  }

  lemma CutAtEndIsFlush(st: State, n: nat, tarball: seq<Block>)
    requires Shape(st, n) && Wellformed(tarball) && Fits(tarball, n)
    ensures Shape(Step(st, n, Flush(tarball)), n)
    ensures Step(st, n, Cut(tarball, |tarball| + 1)) == Booted(Step(st, n, Flush(tarball)).area, n)
  {
    var file := Image(tarball, Next(st.seqNum));
    assert file[..|tarball| + 1] == file;
  }

  lemma SpentMore(st: State, n: nat, total: nat)
    requires Spent(st, n, total) && total + 1 < U32
    ensures Spent(st, n, total + 1)
  {}

  lemma OversizeSpent(st: State, n: nat, tarball: seq<Block>, total: nat)
    requires Spent(st, n, total) && total + 1 < U32 && Wellformed(tarball) && !Fits(tarball, n)
    ensures Spent(Step(st, n, Flush(tarball)), n, total + 1)
  {
    OversizeStep(st, n, tarball);
  }

  lemma BootSpentMore(st: State, n: nat, total: nat)
    requires Spent(st, n, total) && total + 1 < U32
    ensures Spent(Booted(st.area, n), n, total + 1)
  {
    BootSpent(st, n, total);
    SpentMore(Booted(st.area, n), n, total);
  }

  lemma AnyFlushSpent(st: State, n: nat, tarball: seq<Block>, total: nat)
    requires Usable(st, n) && Spent(st, n, total) && total + 1 < U32 && Writable(st, n, tarball) && Clean(tarball)
    ensures Spent(Step(st, n, Flush(tarball)), n, total + 1)
  {
    if Fits(tarball, n) { FlushSpent(st, n, tarball, total); } else { OversizeSpent(st, n, tarball, total); }
  }

  lemma AnyCutSpent(st: State, n: nat, tarball: seq<Block>, k: nat, total: nat)
    requires Usable(st, n) && Spent(st, n, total) && total + 1 < U32 && Writable(st, n, tarball) && Clean(tarball)
    requires k <= |tarball| + 1
    ensures Spent(Step(st, n, Cut(tarball, k)), n, total + 1)
  {
    if !Fits(tarball, n) {
      BootSpentMore(st, n, total);
    } else if k <= |tarball| {
      CutSpent(st, n, tarball, k, total);
    } else {
      CutAtEndSpent(st, n, tarball, total);
    }
  }

  /** Each event uses up at most one number. */
  lemma StepSpent(st: State, n: nat, ev: Event, total: nat)
    requires Usable(st, n) && Spent(st, n, total) && total + 1 < U32 && Enabled(st, n, ev)
    ensures Spent(Step(st, n, ev), n, total + 1)
  {
    match ev
    case Reboot => BootSpentMore(st, n, total);
    case Flush(tarball) => AnyFlushSpent(st, n, tarball, total);
    case Cut(tarball, k) => AnyCutSpent(st, n, tarball, k, total);
  }

  /** Every event of the run is one the environment may produce where it happens. */
  ghost predicate Runs(st: State, n: nat, evs: seq<Event>)
    requires Shape(st, n)
    decreases |evs|
  {
    evs == [] || (Enabled(st, n, evs[0]) && Shape(Step(st, n, evs[0]), n) && Runs(Step(st, n, evs[0]), n, evs[1..]))
  }

  ghost function After(st: State, n: nat, evs: seq<Event>): (r: State)
    requires Shape(st, n) && Runs(st, n, evs)
    decreases |evs|
  {
    if evs == [] then st else After(Step(st, n, evs[0]), n, evs[1..])
  }

  function LastCompleted(n: nat, evs: seq<Event>, last: Option<seq<Block>>): Option<seq<Block>>
    decreases |evs|
  {
    if evs == [] then last else LastCompleted(n, evs[1..], Completed(n, evs[0], last))
  }

  /**
   * Crash safety: whatever flushes, refused archives, power cuts and restarts follow one another, as long as
   * fewer than 2^32 sequence numbers are used up, once an archive has been written in full a restart
   * finds a valid slot, and it holds the last such archive.
   */
  lemma {:induction false} CrashSafe(st: State, n: nat, evs: seq<Event>, last: Option<seq<Block>>, total: nat)
    requires Kept(st, n, last) && Spent(st, n, total) && total + |evs| < U32 && Runs(st, n, evs)
    ensures var end := After(st, n, evs);
            var done := LastCompleted(n, evs, last);
            && Kept(end, n, done) && Kept(Booted(end.area, n), n, done) && Spent(end, n, total + |evs|)
            && (done.Some? ==> Booted(end.area, n).pp == end.pp >= 0)
    decreases |evs|
  {
    if evs == [] {
      BootKept(st, n, last);
    } else {
      StepKept(st, n, evs[0], last, total);
      StepSpent(st, n, evs[0], total);
      CrashSafe(Step(st, n, evs[0]), n, evs[1..], Completed(n, evs[0], last), total + 1);
    }
  }

  /** A run may begin on any area without stamped headers. */
  lemma BlankStart(area: seq<Block>, n: nat)
    requires n > 0 && |area| == 2 * n && forall i | 0 <= i < 2 * n :: !Named(area[i])
    ensures Kept(Booted(area, n), n, None) && Spent(Booted(area, n), n, 0)
    ensures Booted(area, n) == State(area, -1, 0)
  {}

  // ---------------------------------------------------------------- failed writes

  /** A flush whose write failed leaves what a power cut leaves, up to the restart. */
  lemma RestartAfterFailure(st: State, n: nat, tarball: seq<Block>, k: nat)
    requires Shape(st, n) && Wellformed(tarball) && Fits(tarball, n) && k <= |tarball| + 1
    ensures Shape(Partly(st, n, tarball, k), n)
    ensures Step(Partly(st, n, tarball, k), n, Reboot) == Step(st, n, Cut(tarball, k))
  {}

  /**
   * Without that restart the next flush writes over the good slot, since the slot was switched before
   * the write: a cut there leaves no valid slot.
   */
  lemma FailureExposesGoodSlot(st: State, n: nat, a: seq<Block>, j: nat, b: seq<Block>, k: nat, total: nat)
    requires Usable(st, n) && Spent(st, n, total) && total + 2 < U32 && st.pp >= 0
    requires Wellformed(a) && Named(a[0]) && Fits(a, n) && 0 < j <= |a|
    requires Wellformed(b) && Named(b[0]) && Fits(b, n) && 0 < k <= |b|
    ensures var failed := Partly(st, n, a, j);
            Shape(failed, n) && Target(failed.pp) == st.pp && Step(failed, n, Cut(b, k)).pp == -1
  {
    FailedReady(st, n, a, j, b, total);
    CutOfGoodSlot(Partly(st, n, a, j), n, b, k);
  }

  /** No current slot any more, and no mark of the next image in the other slot. */
  ghost predicate Exposed(st: State, n: nat, b: seq<Block>)
    requires Wellformed(b) && Fits(b, n)
  {
    && Shape(st, n) && st.pp >= 0 && Bounded(st.area, n, 0) && Bounded(st.area, n, 1) && !SlotOk(st.area, n, st.pp)
    && st.area[At(n, 1 - st.pp) + |b|] != Image(b, Next(st.seqNum))[0]
  }

  lemma FailedReady(st: State, n: nat, a: seq<Block>, j: nat, b: seq<Block>, total: nat)
    requires Usable(st, n) && Spent(st, n, total) && total + 2 < U32 && st.pp >= 0
    requires Wellformed(a) && Named(a[0]) && Fits(a, n) && 0 < j <= |a| && Wellformed(b) && Named(b[0]) && Fits(b, n)
    ensures Exposed(Partly(st, n, a, j), n, b) && Partly(st, n, a, j).pp == 1 - st.pp
  {
    PartlyShape(st, n, a, j);
    FailedSlotTorn(st, n, a, j, total);
    SecondNumberUnmarked(st, n, b, total);
    ExposedAfter(st, Partly(st, n, a, j), n, b);
  }

  lemma ExposedAfter(st: State, failed: State, n: nat, b: seq<Block>)
    requires Shape(st, n) && st.pp >= 0 && Shape(failed, n) && failed.pp == 1 - st.pp && failed.seqNum == Next(st.seqNum)
    requires Bounded(failed.area, n, 0) && Bounded(failed.area, n, 1) && !SlotOk(failed.area, n, failed.pp)
    requires SameOutside(st.area, failed.area, n, failed.pp) && Wellformed(b) && Fits(b, n)
    requires st.area[At(n, st.pp) + |b|] != Image(b, Next(Next(st.seqNum)))[0]
    ensures Exposed(failed, n, b)
  {
    OtherBlockKept(st.area, failed.area, n, failed.pp, At(n, st.pp) + |b|);
  }

  lemma CutOfGoodSlot(st: State, n: nat, b: seq<Block>, k: nat)
    requires Wellformed(b) && Named(b[0]) && Fits(b, n) && 0 < k <= |b| && Exposed(st, n, b)
    ensures Step(st, n, Cut(b, k)).pp == -1
  {
    CutSelects(st, n, b, k);
    SecondWriteTears(st.area, n, 1 - st.pp, b, Next(st.seqNum), k);
  }

  lemma PartlyShape(st: State, n: nat, a: seq<Block>, j: nat)
    requires Shape(st, n) && Wellformed(a) && Fits(a, n) && j <= |a| + 1
    ensures var failed := Partly(st, n, a, j);
            Shape(failed, n) && failed.pp == Target(st.pp) && failed.seqNum == Next(st.seqNum)
            && (st.pp >= 0 ==> Target(failed.pp) == st.pp)
  {}

  lemma CutSelects(st: State, n: nat, b: seq<Block>, k: nat)
    requires Shape(st, n) && Wellformed(b) && Fits(b, n) && k <= |b| + 1
    ensures Step(st, n, Cut(b, k)).pp == Select(Overwrite(st.area, At(n, Target(st.pp)), Image(b, Next(st.seqNum))[..k]), n)
  {}

  lemma FailedSlotTorn(st: State, n: nat, a: seq<Block>, j: nat, total: nat)
    requires Usable(st, n) && Spent(st, n, total) && total + 1 < U32
    requires Wellformed(a) && Named(a[0]) && Fits(a, n) && 0 < j <= |a|
    ensures var b := Partly(st, n, a, j).area;
            |b| == 2 * n && Bounded(b, n, 0) && Bounded(b, n, 1) && !SlotOk(b, n, Target(st.pp))
            && SameOutside(st.area, b, n, Target(st.pp))
  {
    var t, q := Target(st.pp), Next(st.seqNum);
    NoStaleMark(st, n, a, total);
    CutWriteTore(st.area, n, t, a, q, j);
    TornWriteValidIff(st.area, n, t, a, q, j);
    OverwriteOutside(st.area, n, t, Image(a, q)[..j]);
  }

  lemma OtherBlockKept(a: seq<Block>, b: seq<Block>, n: nat, t: nat, i: nat)
    requires n > 0 && t < 2 && SameOutside(a, b, n, t) && At(n, 1 - t) <= i < At(n, 1 - t) + n
    ensures a[i] == b[i]
  {}

  lemma SecondWriteTears(area: seq<Block>, n: nat, t: nat, b: seq<Block>, q: nat, k: nat)
    requires n > 0 && t < 2 && |area| == 2 * n && q < U32 && Bounded(area, n, 0) && Bounded(area, n, 1)
    requires Wellformed(b) && Named(b[0]) && Fits(b, n) && 0 < k <= |b|
    requires !SlotOk(area, n, 1 - t) && area[At(n, t) + |b|] != Image(b, q)[0]
    ensures Select(Overwrite(area, At(n, t), Image(b, q)[..k]), n) == -1
  {
    CutWriteTore(area, n, t, b, q, k);
    TornWriteValidIff(area, n, t, b, q, k);
    NoneSelected(area, Overwrite(area, At(n, t), Image(b, q)[..k]), n, t);
  }

  lemma SecondNumberUnmarked(st: State, n: nat, b: seq<Block>, total: nat)
    requires Spent(st, n, total) && total + 2 < U32 && st.pp >= 0
    requires Wellformed(b) && Named(b[0]) && Fits(b, n)
    ensures st.area[At(n, st.pp) + |b|] != Image(b, Next(Next(st.seqNum)))[0]
  {
    var q := Next(Next(st.seqNum));
    StampedMark(b[0], q, 512 * |b|);
    NextIsAhead(Base(st, n), st.seqNum, total);
    NextIsAhead(Base(st, n), Next(st.seqNum), total + 1);
    assert IsMark(Image(b, q)[0]) && SeqNum(Image(b, q)[0]) == q;
  }

  lemma NoneSelected(a: seq<Block>, b: seq<Block>, n: nat, t: nat)
    requires n > 0 && t < 2 && |a| == |b| == 2 * n && Bounded(a, n, 1 - t) && OtherKept(a, b, n, t)
    requires !SlotOk(a, n, 1 - t) && !SlotOk(b, n, t)
    ensures Select(b, n) == -1
  {}

  // ---------------------------------------------------------------- repeated flushes

  /** Both slots are valid: the current one holds p, the other one q. */
  ghost predicate BothHold(st: State, n: nat, p: seq<Block>, q: seq<Block>) {
    && Holds(st, n, p) && Lag(st, n) == 0
    && SlotOk(st.area, n, 1 - st.pp) && Stored(st.area, n, 1 - st.pp, q)
  }

  lemma FlushedTwice(st: State, once: State, twice: State, n: nat, p: seq<Block>, q: seq<Block>)
    requires Flushed(st, once, n, p) && Flushed(once, twice, n, q)
    ensures BothHold(twice, n, q, p) && twice.pp == if st.pp < 0 then 1 else st.pp
  {}

  /** write_boottable flushes twice: both slots end up with the archive that was current before and after. */
  lemma DoubleFlush(st: State, n: nat, a: seq<Block>, b: seq<Block>)
    requires Usable(st, n) && Writable(st, n, a) && Writable(st, n, b) && Fits(a, n) && Fits(b, n)
    ensures var once := Step(st, n, Flush(a));
            Shape(once, n) && BothHold(Step(once, n, Flush(b)), n, b, a)
            && Step(once, n, Flush(b)).pp == if st.pp < 0 then 1 else st.pp
  {
    var once := Step(st, n, Flush(a));
    FlushStep(st, n, a);
    FlushStep(once, n, b);
    FlushedTwice(st, once, Step(once, n, Flush(b)), n, a, b);
  }

  lemma ThirdFlush(st: State, n: nat, a: seq<Block>, b: seq<Block>, c: seq<Block>)
    requires Shape(st, n) && Wellformed(a) && Wellformed(b) && Wellformed(c) && Fits(a, n) && Fits(b, n) && Fits(c, n)
    ensures var once := Step(st, n, Flush(a));
            Shape(once, n) && var twice := Step(once, n, Flush(b));
            Shape(twice, n)
            && (Usable(st, n) && Writable(st, n, a) && Named(b[0]) && Named(c[0]) ==>
                BothHold(Step(twice, n, Flush(c)), n, c, b))
  {
    if Usable(st, n) && Writable(st, n, a) && Named(b[0]) && Named(c[0]) {
      var once := Step(st, n, Flush(a));
      FlushStep(st, n, a);
      DoubleFlush(once, n, b, c);
    }
  }

  // ---------------------------------------------------------------- the running program

  lemma OverwriteOneMore(area: seq<Block>, at: nat, data: seq<Block>, i: nat)
    requires at + |data| <= |area| && i < |data|
    ensures Overwrite(area, at, data[..i + 1]) == Overwrite(area, at, data[..i])[at + i := data[i]]
  {}

  class FactoryStore {
    const slotBlocks: nat
    const area: array<Block>
    var currentPp: int
    var seqNum: nat
    var tarSize: nat

    ghost predicate Valid()
      reads this, area
    {
      slotBlocks > 0 && area.Length == 2 * slotBlocks && -1 <= currentPp <= 1 && seqNum < U32
    }

    ghost function Now(): State
      reads this, area
    {
      State(area[..], currentPp, seqNum)
    }

    /** factory_find_latest_update; with no valid slot the sequence number stays what it was. */
    method FindLatestUpdate()
      requires Valid()
      modifies this
      ensures Valid() && currentPp == Select(area[..], slotBlocks)
      ensures seqNum == if currentPp >= 0 then SeqNum(area[At(slotBlocks, currentPp)]) else old(seqNum)
      ensures tarSize == if currentPp >= 0 then TarSize(area[At(slotBlocks, currentPp)]) else old(tarSize)
    {
      var p0, p1 := area[0], area[slotBlocks];
      var ok0, ok1 := false, false;
      if Named(p0) {
        ok0 := MarkAt(area[..], slotBlocks, 0, TarSize(p0));
      }
      if Named(p1) {
        ok1 := MarkAt(area[..], slotBlocks, 1, TarSize(p1));
      }
      if !ok0 && !ok1 {
        currentPp := -1;
      } else if !ok1 {
        currentPp := 0;
      } else if !ok0 {
        currentPp := 1;
      } else if SeqNum(p0) < SeqNum(p1) {
        currentPp := if SeqNum(p1) - SeqNum(p0) > 0xFFFF_FFF0 then 0 else 1;
      } else {
        currentPp := if SeqNum(p0) - SeqNum(p1) > 0xFFFF_FFF0 then 1 else 0;
      }
      if currentPp == 0 {
        seqNum, tarSize := SeqNum(p0), TarSize(p0);
      } else if currentPp == 1 {
        seqNum, tarSize := SeqNum(p1), TarSize(p1);
      }
    }

    /** A fresh process: the static variables are as initialised. */
    method Restart()
      requires Valid()
      modifies this
      ensures Valid() && Now() == Step(old(Now()), slotBlocks, Reboot)
    {
      currentPp, seqNum, tarSize := -1, 0, 0;
      FindLatestUpdate();
    }

    /** Storage takes the blocks of a file one after the other. */
    method WriteBlocks(at: nat, data: seq<Block>)
      requires at + |data| <= area.Length
      modifies area
      ensures area[..] == Overwrite(old(area[..]), at, data)
    {
      for i := 0 to |data|
        invariant area[..] == Overwrite(old(area[..]), at, data[..i])
      {
        area[at + i] := data[i];
        OverwriteOneMore(old(area[..]), at, data, i);
      }
      assert data[..|data|] == data;
    }

    /** factory_build_header on the archive, and the choice of slot. */
    method Prepare(tarball: seq<Block>) returns (ok: bool, file: seq<Block>)
      requires Valid() && Wellformed(tarball)
      modifies this
      ensures Valid() && seqNum == Next(old(seqNum)) && file == Image(tarball, seqNum)
      ensures file == [file[0]] + tarball[1..] + [file[0]] && Restamped(file[0], tarball[0])
      ensures Le32(file[0][500..504]) == seqNum && Le32(file[0][504..508]) == 512 * |tarball|
      ensures ok <==> |tarball| + 1 <= slotBlocks
      ensures currentPp == if ok then Target(old(currentPp)) else old(currentPp)
      ensures tarSize == if ok then 512 * |file| else old(tarSize)
    {
      seqNum := Next(seqNum);
      var header := Stamped(tarball[0], seqNum, 512 * |tarball|);
      StampedFields(tarball[0], seqNum, 512 * |tarball|);
      file := [header] + tarball[1..] + [header];
      ok := |file| <= slotBlocks;
      if ok {
        tarSize := 512 * |file|;
        if currentPp < 0 {
          currentPp := 0;
        } else {
          currentPp := (currentPp + 1) % 2;
        }
      }
    }

    /** factory_flush */
    method Flush(tarball: seq<Block>) returns (ok: bool)
      requires Valid() && Wellformed(tarball)
      modifies this, area
      ensures Valid() && (ok <==> |tarball| + 1 <= slotBlocks)
      ensures Now() == Step(old(Now()), slotBlocks, Event.Flush(tarball))
    {
      var file;
      ok, file := Prepare(tarball);
      if ok {
        WriteBlocks(At(slotBlocks, currentPp), file);
      }
    }

    /** A power cut after the given number of blocks of a flush. */
    method InterruptedFlush(tarball: seq<Block>, written: nat)
      requires Valid() && Wellformed(tarball) && written <= |tarball| + 1
      modifies this, area
      ensures Valid() && Now() == Step(old(Now()), slotBlocks, Cut(tarball, written))
    {
      var ok, file := Prepare(tarball);
      if ok {
        WriteBlocks(At(slotBlocks, currentPp), file[..written]);
      }
      Restart();
    }

    /** factory_flush when the write fails after the given number of blocks: the slot stays switched. */
    method FailedFlush(tarball: seq<Block>, written: nat) returns (ok: bool)
      requires Valid() && Wellformed(tarball) && written <= |tarball| + 1
      modifies this, area
      ensures Valid() && !ok
      ensures Now() == if Fits(tarball, slotBlocks) then Partly(old(Now()), slotBlocks, tarball, written)
                       else Step(old(Now()), slotBlocks, Event.Flush(tarball))
    {
      var file;
      ok, file := Prepare(tarball);
      if ok {
        WriteBlocks(At(slotBlocks, currentPp), file[..written]);
      }
      ok := false;
    }

    /**
     * rtk_flush_pingpong_factory_mac: on success slot 0 is current, and both slots are valid and hold
     * the last two archives. Each flush packs the factory directory anew.
     */
    method FlushPingPongFactoryMac(a: seq<Block>, b: seq<Block>, c: seq<Block>) returns (ok: bool)
      requires Valid() && Wellformed(a) && Wellformed(b) && Wellformed(c)
      modifies this, area
      ensures Valid()
      ensures ok <==> old(currentPp) >= 0 && Fits(a, slotBlocks) && Fits(b, slotBlocks)
                      && (old(currentPp) == 1 ==> Fits(c, slotBlocks))
      ensures ok ==> currentPp == 0
      ensures old(currentPp) < 0 ==> Now() == old(Now())
      ensures ok && old(Usable(Now(), slotBlocks) && Writable(Now(), slotBlocks, a)) && Named(b[0]) && Named(c[0]) ==>
                var (p, q) := if old(currentPp) == 0 then (b, a) else (c, b);
                BothHold(Now(), slotBlocks, p, q)
    {
      if currentPp < 0 {
        return false;
      }
      ghost var start := Now();
      ok := Flush(a);
      if !ok { return; }
      ghost var once := Now();
      ok := Flush(b);
      if !ok { return; }
      ghost var twice := Now();
      if currentPp == 1 {
        ok := Flush(c);
        if ok { ThirdFlush(start, slotBlocks, a, b, c); }
      } else {
        if Usable(start, slotBlocks) && Writable(start, slotBlocks, a) && Named(b[0]) { DoubleFlush(start, slotBlocks, a, b); }
      }
    }
  }
}
