/** Finding the members of a ustar archive: the header walk of parse_tar and the payload slice. */
module TarWalk {
  import opened Sums
  import opened TarHeader
  import opened Words

  const USTAR: seq<byte> := [0x75, 0x73, 0x74, 0x61, 0x72]   // "ustar"

  /** lseek results are taken as signed: positions from here on count as errors. */
  const SEEK_LIMIT := 0x8000_0000

  /** The walk takes the header at o: it is below the 32-bit file size, can be read, has the magic and a name. */
  predicate Accepted(file: seq<byte>, o: nat) {
    o < Low32(|file|) && o < SEEK_LIMIT && o + 512 <= |file| && file[o + 257..o + 262] == USTAR && file[o] != 0
  }

  /** The magic in characters. */
  lemma AcceptedText(file: seq<byte>, o: nat)
    requires Accepted(file, o)
    ensures forall i | 0 <= i < 5 :: file[o + 257..o + 262][i] == "ustar"[i] as int
  {}

  function SizeAt(file: seq<byte>, o: nat): (size: nat)
    requires o + 512 <= |file|
    ensures size < U32
  {
    OctalValue(file[o + 124..o + 135])
  }

  /** ((size - 1) / 512 + 1) * 512 on 32 bits, added to the offset on 32 bits. */
  function NextOffset(o: nat, size: nat): (next: nat)
    requires o < U32 && size < U32
    ensures next < U32
  {
    var less := if size == 0 then U32 - 1 else size - 1;
    Low32(o + 512 + Low32((less / 512 + 1) * 512))
  }

  /** Payload length with its padding. */
  function PaddedLen(size: nat): nat {
    (size + 511) / 512 * 512
  }

  /** The 32-bit step is the true one exactly when neither the padding nor the offset leaves 32 bits. */
  lemma NextOffsetExactIff(o: nat, size: nat)
    requires o < U32 && size < U32
    ensures NextOffset(o, size) == o + 512 + PaddedLen(size) <==> size <= U32 - 512 && o + 512 + PaddedLen(size) < U32
  {
    var less := if size == 0 then U32 - 1 else size - 1;
    if 0 < size {
      assert (less / 512 + 1) * 512 == PaddedLen(size);
    }
  }

  /** A size of up to 512 bytes below the last one that steps right does not step at all. */
  lemma StuckIff(o: nat, size: nat)
    requires o < U32 && size < U32
    ensures NextOffset(o, size) == o <==> U32 - 1024 < size <= U32 - 512
  {
    var less := if size == 0 then U32 - 1 else size - 1;
    var up := (less / 512 + 1) * 512;
    assert U32 - 1024 < size <= U32 - 512 <==> up == U32 - 512;
  }

  // ---------------------------------------------------------------- the walk

  predicate StepAt(file: seq<byte>, path: seq<nat>, i: nat)
    requires i + 1 < |path|
  {
    && path[i] < U32 && Accepted(file, path[i])
    && path[i + 1] == NextOffset(path[i], SizeAt(file, path[i]))
  }

  /** The offsets that parse_tar looks at, up to the one where it stops. */
  ghost predicate IsWalk(file: seq<byte>, path: seq<nat>) {
    && path != [] && path[0] == 0 && (forall i: nat | i + 1 < |path| :: StepAt(file, path, i))
    && !Accepted(file, path[|path| - 1])
  }

  lemma GoesOnIff(file: seq<byte>, path: seq<nat>, i: nat)
    requires IsWalk(file, path) && i < |path|
    ensures Accepted(file, path[i]) <==> i + 1 < |path|
  {
    if i + 1 < |path| { assert StepAt(file, path, i); }
  }

  /** There is at most one walk, so the walk is what the loop does. */
  lemma WalkUnique(file: seq<byte>, p: seq<nat>, q: seq<nat>)
    requires IsWalk(file, p) && IsWalk(file, q)
    ensures p == q
  {
    var m := if |p| <= |q| then |p| else |q|;
    SamePrefix(file, p, q, m);
    assert p[m - 1] == p[..m][m - 1] == q[..m][m - 1] == q[m - 1];
    GoesOnIff(file, p, m - 1);
    GoesOnIff(file, q, m - 1);
  }

  lemma {:induction false} SamePrefix(file: seq<byte>, p: seq<nat>, q: seq<nat>, m: nat)
    requires IsWalk(file, p) && IsWalk(file, q) && 0 < m <= |p| && m <= |q|
    ensures p[..m] == q[..m]
  {
    if m > 1 {
      SamePrefix(file, p, q, m - 1);
      assert p[m - 2] == p[..m - 1][m - 2] == q[..m - 1][m - 2] == q[m - 2];
      assert StepAt(file, p, m - 2) && StepAt(file, q, m - 2);
    }
  }

  /** The loop may get through these offsets, in this order, and be at the last one. */
  ghost predicate Reaches(file: seq<byte>, path: seq<nat>) {
    path != [] && path[0] == 0 && (forall i: nat | i + 1 < |path| :: StepAt(file, path, i))
  }

  ghost predicate Returns(path: seq<nat>, i: nat, j: nat) {
    i < j < |path| && path[i] == path[j]
  }

  /** The loop can get back to an offset where it has been. */
  ghost predicate Circles(file: seq<byte>) {
    exists path, i: nat, j: nat :: Reaches(file, path) && Returns(path, i, j)
  }

  /** What the loop gets through is the first part of its walk. */
  lemma {:induction false} ReachesPrefix(file: seq<byte>, walk: seq<nat>, path: seq<nat>, m: nat)
    requires IsWalk(file, walk) && Reaches(file, path) && 0 < m <= |path|
    ensures m <= |walk| && path[m - 1] == walk[m - 1]
  {
    if m > 1 {
      ReachesPrefix(file, walk, path, m - 1);
      assert StepAt(file, path, m - 2);
      GoesOnIff(file, walk, m - 2);
      assert StepAt(file, walk, m - 2);
    }
  }

  /** From the same offset the walk goes on in the same way. */
  lemma {:induction false} SameOnwards(file: seq<byte>, walk: seq<nat>, i: nat, j: nat, k: nat)
    requires IsWalk(file, walk) && i < j && j + k < |walk| && walk[i] == walk[j]
    ensures walk[i + k] == walk[j + k]
  {
    if k > 0 {
      SameOnwards(file, walk, i, j, k - 1);
      assert StepAt(file, walk, i + (k - 1)) && StepAt(file, walk, j + (k - 1));
    }
  }

  /** A walk that ends has not been anywhere twice. */
  lemma WalkVisitsOnce(file: seq<byte>, walk: seq<nat>, i: nat, j: nat)
    requires IsWalk(file, walk)
    ensures !Returns(walk, i, j)
  {
    if Returns(walk, i, j) {
      var k := |walk| - 1 - j;
      SameOnwards(file, walk, i, j, k);
      GoesOnIff(file, walk, i + k);
    }
  }

  lemma ReachedBelow(file: seq<byte>, path: seq<nat>, i: nat)
    requires Reaches(file, path) && i < |path|
    ensures path[i] < U32
  {
    if i > 0 { assert StepAt(file, path, i - 1); }
  }

  /** There are only 2^32 offsets. */
  lemma ReachedLength(file: seq<byte>, path: seq<nat>)
    requires Reaches(file, path) && !Circles(file)
    ensures |path| <= U32
  {
    forall i, j | 0 <= i < j < |path| ensures path[i] != path[j] { assert !Returns(path, i, j); }
    forall i | 0 <= i < |path| ensures path[i] < U32 { ReachedBelow(file, path, i); }
    ListedLength(path, U32);
  }

  /** Without a way back the loop gets to an offset where it stops. */
  lemma {:induction false} ReachesEnd(file: seq<byte>, path: seq<nat>) returns (walk: seq<nat>)
    requires Reaches(file, path) && !Circles(file)
    ensures IsWalk(file, walk)
    decreases U32 + 1 - |path|
  {
    ReachedLength(file, path);
    var o := path[|path| - 1];
    ReachedBelow(file, path, |path| - 1);
    if !Accepted(file, o) {
      walk := path;
    } else {
      var more := path + [NextOffset(o, SizeAt(file, o))];
      forall i: nat | i + 1 < |more| ensures StepAt(file, more, i) {
        if i + 1 < |path| { assert StepAt(file, path, i); }
      }
      ReachedLength(file, more);
      walk := ReachesEnd(file, more);
    }
  }

  /** The loop ends exactly when it cannot get back to an offset where it has been. */
  lemma WalkEndsIff(file: seq<byte>)
    ensures (exists walk :: IsWalk(file, walk)) <==> !Circles(file)
  {
    if walk :| IsWalk(file, walk) {
      forall path, i: nat, j: nat | Reaches(file, path) && i < j < |path| ensures !Returns(path, i, j) {
        ReachesPrefix(file, walk, path, i + 1);
        ReachesPrefix(file, walk, path, j + 1);
        WalkVisitsOnce(file, walk, i, j);
      }
    }
    if !Circles(file) {
      assert Reaches(file, [0]);
      var walk := ReachesEnd(file, [0]);
    }
  }

  /** So it never ends on a first header with a stuck size. */
  lemma StuckNeverEnds(file: seq<byte>, path: seq<nat>)
    requires Accepted(file, 0) && U32 - 1024 < SizeAt(file, 0) <= U32 - 512
    ensures !IsWalk(file, path)
  {
    StuckIff(0, SizeAt(file, 0));
    assert StepAt(file, [0, 0], 0);
    assert Reaches(file, [0, 0]) && Returns([0, 0], 0, 1);
    WalkEndsIff(file);
  }

  /** The copy that tmpthead keeps, with the offset written over its last bytes. */
  function Marked(h: Header, offset: nat): Header
    requires offset < U32
  {
    h[..500] + ToLe32(offset) + h[504..]
  }

  lemma MarkedFields(h: Header, offset: nat)
    requires offset < U32
    ensures var m := Marked(h, offset); Le32(m[500..504]) == offset && m[..500] == h[..500] && m[504..] == h[504..]
  {}

  class Walker {
    const file: seq<byte>
    const heads: array<Header>
    var count: nat
    var offset: nat
    /** The calls of fill_rtkimgdesc_file, by header offset. */
    var visited: seq<nat>

    ghost predicate Kept(n: nat)
      reads this`count, this`visited, heads
    {
      && heads.Length == 50 && n <= |visited| && count == (if n < 50 then n else 50)
      && forall i: nat | i < count :: HeadKept(i)
    }

    ghost predicate HeadKept(i: nat)
      requires heads.Length == 50 && i < 50 && i < |visited|
      reads this`visited, heads
    {
      var o := visited[i];
      && o < U32 && o + 512 <= |file| && Le32(heads[i][500..504]) == o
      && heads[i][..500] == file[o..o + 500] && heads[i][504..] == file[o + 504..o + 512]
    }

    /** parse_tar, on an archive whose walk ends. */
    method ParseTar(ghost path: seq<nat>) returns (ret: int)
      requires heads.Length == 50 && IsWalk(file, path)
      modifies this, heads
      ensures visited == path[..|path| - 1] && Kept(|visited|)
      ensures ret == if visited == [] then -1 else 0
    {
      offset, count, visited := 0, 0, [];
      var size := Low32(|file|);
      while offset < size
        invariant |visited| < |path| && visited == path[..|visited|] && offset == path[|visited|]
        invariant Kept(|visited|)
        decreases |path| - |visited|
      {
        if !Accepted(file, offset) {
          break;
        }
        GoesOnIff(file, path, |visited|);
        assert StepAt(file, path, |visited|);
        Visit();
        offset := NextOffset(offset, SizeAt(file, offset));
      }
      assert !Accepted(file, offset);
      GoesOnIff(file, path, |visited|);
      ret := if count == 0 then -1 else 0;
    }

    method Visit()
      requires offset < U32 && Accepted(file, offset) && Kept(|visited|)
      modifies this`count, this`visited, heads
      ensures visited == old(visited) + [offset] && Kept(|visited|)
    {
      var header := file[offset..offset + 512];
      visited := visited + [offset];
      MarkedFields(header, offset);
      assert header[..500] == file[offset..offset + 500] && header[504..] == file[offset + 504..offset + 512];
      if count < 50 {
        heads[count] := Marked(header, offset);
        count := count + 1;
      }
      forall i: nat | i < count ensures HeadKept(i) {
        if i < old(count) { assert old(HeadKept(i)); }
      }
    }
  }

  // ---------------------------------------------------------------- archives

  datatype Entry = Entry(header: Header, payload: seq<byte>)

  /** What a ustar writer puts into a member's header. */
  predicate EntryOk(e: Entry) {
    e.header[257..262] == USTAR && e.header[0] != 0 && OctalValue(e.header[124..135]) == |e.payload|
  }

  /** A member as it lies in the archive. */
  function Block(e: Entry): (s: seq<byte>)
    ensures |s| == 512 + PaddedLen(|e.payload|)
    ensures s[..512] == e.header && s[512..512 + |e.payload|] == e.payload
  {
    e.header + e.payload + seq(PaddedLen(|e.payload|) - |e.payload|, _ => 0)
  }

  function Body(entries: seq<Entry>): (s: seq<byte>)
  {
    if entries == [] then [] else Body(entries[..|entries| - 1]) + Block(entries[|entries| - 1])
  }

  /** Where the header of the i-th member starts. */
  function Start(entries: seq<Entry>, i: nat): nat
    requires i <= |entries|
  {
    |Body(entries[..i])|
  }

  lemma StartNext(entries: seq<Entry>, i: nat)
    requires i < |entries|
    ensures Start(entries, i + 1) == Start(entries, i) + 512 + PaddedLen(|entries[i].payload|)
    ensures Body(entries[..i + 1]) == Body(entries[..i]) + Block(entries[i])
  {
    assert entries[..i + 1][..i] == entries[..i];
  }

  lemma {:induction false} BlockAt(entries: seq<Entry>, i: nat)
    requires i < |entries|
    ensures Start(entries, i) + |Block(entries[i])| <= |Body(entries)|
    ensures Body(entries)[Start(entries, i)..Start(entries, i) + |Block(entries[i])|] == Block(entries[i])
    decreases |entries|
  {
    var last := |entries| - 1;
    var front := entries[..last];
    if i < last {
      BlockAt(front, i);
      assert front[i] == entries[i] && front[..i] == entries[..i];
    } else {
      assert entries[..i] == front;
    }
  }

  /** The end of an archive is no further header, as with the two zero blocks. */
  predicate Trailer(t: seq<byte>) {
    |t| < 512 || t[257..262] != USTAR || t[0] == 0
  }

  ghost predicate Archive(file: seq<byte>, entries: seq<Entry>) {
    && |file| < U32 && (forall i | 0 <= i < |entries| :: EntryOk(entries[i]))
    && |Body(entries)| <= |file| && file[..|Body(entries)|] == Body(entries) && Trailer(file[|Body(entries)|..])
  }

  lemma MemberAt(file: seq<byte>, entries: seq<Entry>, i: nat)
    requires Archive(file, entries) && i < |entries|
    ensures var (o, e) := (Start(entries, i), entries[i]);
      && o + 512 + |e.payload| <= |file| && file[o..o + 512] == e.header && file[o + 512..o + 512 + |e.payload|] == e.payload
      && Start(entries, i + 1) <= |file|
  {
    BlockAt(entries, i);
    StartNext(entries, i);
    BlockParts(file, Body(entries), Start(entries, i), entries[i]);
  }

  lemma BlockParts(file: seq<byte>, body: seq<byte>, o: nat, e: Entry)
    requires |body| <= |file| && file[..|body|] == body
    requires o + |Block(e)| <= |body| && body[o..o + |Block(e)|] == Block(e)
    ensures file[o..o + 512] == e.header && file[o + 512..o + 512 + |e.payload|] == e.payload
  {
    var b := Block(e);
    Subslice(file, 0, |body|, o, |b|);
    Subslice(file, o, |b|, 0, 512);
    Subslice(file, o, |b|, 512, |e.payload|);
  }

  lemma MemberFound(file: seq<byte>, entries: seq<Entry>, i: nat)
    requires Archive(file, entries) && i < |entries|
    ensures var o := Start(entries, i);
      && o + 512 + |entries[i].payload| <= |file| && SizeAt(file, o) == |entries[i].payload|
      && file[o + 512..o + 512 + |entries[i].payload|] == entries[i].payload
  {
    MemberAt(file, entries, i);
    HeaderFields(file, Start(entries, i), entries[i]);
  }

  /** Every member header below the seek limit is accepted, and the step from it is exact. */
  lemma MemberStep(file: seq<byte>, entries: seq<Entry>, i: nat)
    requires Archive(file, entries) && i < |entries|
    ensures Accepted(file, Start(entries, i)) <==> Start(entries, i) < SEEK_LIMIT
    ensures var o := Start(entries, i);
            o + 512 <= |file| && NextOffset(o, SizeAt(file, o)) == Start(entries, i + 1)
  {
    var (o, e) := (Start(entries, i), entries[i]);
    MemberAt(file, entries, i);
    StartNext(entries, i);
    HeaderFields(file, o, e);
    NextOffsetExactIff(o, |e.payload|);
  }

  lemma HeaderFields(file: seq<byte>, o: nat, e: Entry)
    requires o + 512 <= |file| && file[o..o + 512] == e.header && EntryOk(e)
    ensures file[o + 257..o + 262] == USTAR && file[o] != 0 && SizeAt(file, o) == |e.payload|
  {
    Subslice(file, o, 512, 257, 5);
    Subslice(file, o, 512, 124, 11);
    assert file[o] == e.header[0];
  }

  lemma Subslice(s: seq<byte>, o: nat, len: nat, at: nat, n: nat)
    requires o + len <= |s| && at + n <= len
    ensures s[o + at..o + at + n] == s[o..o + len][at..at + n]
  {
    var (a, b) := (s[o + at..o + at + n], s[o..o + len]);
    forall k | 0 <= k < n ensures a[k] == b[at + k] {
      assert a[k] == s[o + at + k];
    }
  }

  lemma EndStops(file: seq<byte>, entries: seq<Entry>)
    requires Archive(file, entries)
    ensures !Accepted(file, Start(entries, |entries|))
  {
    assert entries[..|entries|] == entries;
    var end := |Body(entries)|;
    var t := file[end..];
    if end + 512 <= |file| {
      assert file[end + 257..end + 262] == t[257..262] && file[end] == t[0];
    }
  }

  /** The starts of the first m members and of what comes after them. */
  function Starts(entries: seq<Entry>, m: nat): (s: seq<nat>)
    requires m <= |entries|
    ensures |s| == m + 1 && forall i | 0 <= i <= m :: s[i] == Start(entries, i)
  {
    seq(m + 1, i requires 0 <= i <= m => Start(entries, i))
  }

  /** Where a walk over these members ends: behind the last, or at the first beyond the seek limit. */
  ghost predicate Reach(entries: seq<Entry>, m: nat) {
    && m <= |entries| && (forall i: nat | i < m :: Start(entries, i) < SEEK_LIMIT)
    && (m == |entries| || Start(entries, m) >= SEEK_LIMIT)
  }

  /** The walk over an archive is the members' headers in order, as far as seeking works. */
  lemma WalkVisits(file: seq<byte>, entries: seq<Entry>, m: nat)
    requires Archive(file, entries) && Reach(entries, m)
    ensures IsWalk(file, Starts(entries, m))
  {
    var path := Starts(entries, m);
    assert entries[..0] == [];
    forall i: nat | i + 1 < |path| ensures StepAt(file, path, i) {
      MemberStep(file, entries, i);
    }
    if m < |entries| { MemberStep(file, entries, m); } else { EndStops(file, entries); }
  }

  lemma {:induction false} StartsGrow(entries: seq<Entry>, i: nat, j: nat)
    requires i <= j <= |entries|
    ensures Start(entries, i) + 512 * (j - i) <= Start(entries, j)
  {
    if i < j {
      StartNext(entries, j - 1);
      StartsGrow(entries, i, j - 1);
    }
  }

  /** All members are visited exactly when the last one starts below the seek limit. */
  lemma AllVisitedIff(entries: seq<Entry>, m: nat)
    requires Reach(entries, m)
    ensures m == |entries| <==> entries == [] || Start(entries, |entries| - 1) < SEEK_LIMIT
  {
    if m < |entries| { StartsGrow(entries, m, |entries| - 1); }
  }

  /** rtk_extract_file: what it reads for a member that the walk recorded at this offset. */
  method ExtractFile(file: seq<byte>, offset: nat, imgSize: nat) returns (ret: int, data: seq<byte>)
    requires offset < U32 && imgSize < U32
    ensures ret == 0 || ret == -1
    ensures imgSize == 0 ==> ret == -1
    ensures ret == 0 && offset < SEEK_LIMIT ==>
              offset + 512 + imgSize <= |file| && data == file[offset + 512..offset + 512 + imgSize]
    ensures offset < SEEK_LIMIT ==>
              (ret == 0 <==> imgSize > 0 && offset + 512 < SEEK_LIMIT && offset + 512 + imgSize <= |file|)
  {
    data := [];
    if imgSize == 0 {
      return -1, data;
    }
    var at := Low32(offset + 512);
    if at >= SEEK_LIMIT {
      return -1, data;
    }
    var left := if at <= |file| then |file| - at else 0;
    var len := if left < imgSize then left else imgSize;
    if len > 0 {
      data := file[at..at + len];
    }
    ret := if len == imgSize then 0 else -1;
  }

  /** parse_tar on an archive. */
  method VisitArchive(walker: Walker, ghost entries: seq<Entry>, ghost m: nat) returns (ret: int)
    requires walker.heads.Length == 50 && Archive(walker.file, entries) && Reach(entries, m)
    modifies walker, walker.heads
    ensures |walker.visited| == m && forall i: nat | i < m :: walker.visited[i] == Start(entries, i)
    ensures walker.Kept(m) && ret == if m == 0 then -1 else 0
  {
    WalkVisits(walker.file, entries, m);
    ret := walker.ParseTar(Starts(entries, m));
  }

  /** Walking an archive and extracting: every member with contents that seeking reaches comes out as it went in. */
  method WalkAndExtract(walker: Walker, ghost entries: seq<Entry>, ghost m: nat, i: nat) returns (ret: int, data: seq<byte>)
    requires walker.heads.Length == 50 && Archive(walker.file, entries) && Reach(entries, m) && i < m
    modifies walker, walker.heads
    ensures ret == 0 ==> data == entries[i].payload
    ensures ret == 0 <==> entries[i].payload != [] && Start(entries, i) + 512 < SEEK_LIMIT
  {
    var walked := VisitArchive(walker, entries, m);
    var o := walker.visited[i];
    MemberFound(walker.file, entries, i);
    ret, data := ExtractFile(walker.file, o, SizeAt(walker.file, o));
  }
}
