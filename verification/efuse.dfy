/**
 * The one-way fuses: reading a fuse through the word registers, and the retrying programmer, run
 * against any hardware that can only ever turn on the fuse a burn command names.
 */
module Efuse {
  import opened Align
  import opened Words

  /** Bits as a number, lowest first. */
  function Number(bits: seq<bool>): nat {
    if bits == [] then 0 else 2 * Number(bits[1..]) + if bits[0] then 1 else 0
  }

  /** v >> k */
  function Shr(v: nat, k: nat): nat {
    if k == 0 then v else Shr(v / 2, k - 1)
  }

  lemma {:induction false} ShrNumber(bits: seq<bool>, k: nat)
    requires k <= |bits|
    ensures Shr(Number(bits), k) == Number(bits[k..])
  {
    if k > 0 {
      assert Number(bits) / 2 == Number(bits[1..]);
      ShrNumber(bits[1..], k - 1);
      assert bits[1..][k - 1..] == bits[k..];
    } else {
      assert bits[0..] == bits;
    }
  }

  lemma ShrTwice(bits: seq<bool>, a: nat, b: nat)
    requires a + b < |bits|
    ensures Shr(Shr(Number(bits), a), b) % 2 == if bits[a + b] then 1 else 0
  {
    ShrNumber(bits, a);
    ShrNumber(bits[a..], b);
    assert bits[a..][b..][0] == bits[a + b];
  }

  /** x & ~3 and x & 3 */
  lemma LowTwoBits(x: nat)
    requires x < U64
    ensures AlignLess(x, 4) == x - x % 4 && BitAnd(x, 3) == x % 4
  {
    assert Pow2(2) == 4;
    AlignLessIsFloor(x, 2);
    AndOne(x / 2);
    assert BitAnd(x, 3) == 2 * BitAnd(x / 2, 1) + x % 2;
  }

  lemma AndOne(x: nat)
    ensures BitAnd(x, 1) == x % 2
  {
    AndZero(x / 2);
  }

  lemma {:induction false} AndZero(x: nat)
    ensures BitAnd(x, 0) == 0
  {
    if x != 0 { AndZero(x / 2); }
  }

  /** Fuses that a burn command can name, and fuses that the registers show. */
  const FUSES := 4096
  const READABLE := 8192

  /** The fuse that a burn of the given bit number acts on: the command has nine bits for the byte. */
  function Target(bit: nat): (t: nat)
    ensures t < FUSES && (bit < FUSES ==> t == bit)
  {
    bit % FUSES
  }

  /** The control register values of otp_program_start. */
  function Command(base: nat, bit: nat): nat {
    base + (bit % 8) * 1024 + bit / 8 % 512
  }

  lemma CommandNamesTarget(bit: nat)
    ensures var c := Command(0x00c0_e000, bit); c % 512 * 8 + c / 1024 % 8 == Target(bit)
    ensures Command(0x00c0_e000, bit) / 1024 / 8 == 0x00c0_e000 / 8192
  {
    var (c, o, a) := (Command(0x00c0_e000, bit), bit % 8, bit / 8 % 512);
    ModUnique(c, 1024, 12344 + o, a);
    ModUnique(c, 512, 2 * (12344 + o), a);
    ModUnique(12344 + o, 8, 1543, o);
    ModUnique(bit, FUSES, bit / 8 / 512, 8 * a + o);
  }

  class Otp {
    const fuses: array<bool>
    /** What the hardware will answer to the t-th poll of its state, and whether the t-th burn takes. */
    const active: nat -> bool
    const takes: nat -> bool
    var polls: nat
    var burns: nat

    ghost predicate Valid() { fuses.Length == READABLE }

    /** rtd_inl on the fuse registers: the 32 fuses from the byte address on. */
    method ReadWord(address: nat) returns (v: nat)
      requires Valid() && 8 * address + 32 <= READABLE
      ensures v == Number(fuses[8 * address..8 * address + 32])
    {
      v := Number(fuses[8 * address..8 * address + 32]);
    }

    method PollActive() returns (b: bool)
      modifies this`polls
      ensures b == active(old(polls)) && polls == old(polls) + 1
    {
      b := active(polls);
      polls := polls + 1;
    }

    /** The hardware's part of a burn command. */
    method Burn(command: nat)
      requires Valid()
      modifies this`burns, fuses
      ensures burns == old(burns) + 1
      ensures var at := command % 512 * 8 + command / 1024 % 8;
              fuses[..] == old(fuses[..])[at := old(fuses[at]) || takes(old(burns))]
    {
      var at := command % 512 * 8 + command / 1024 % 8;
      if takes(burns) {
        fuses[at] := true;
      }
      burns := burns + 1;
    }

    /** otp_judge_bit */
    method JudgeBit(offset: nat) returns (bit: bool)
      requires Valid() && offset < READABLE
      ensures bit == fuses[offset]
    {
      var remN, divN := offset % 8, offset / 8;
      LowTwoBits(divN);
      var alignN, alignRemN := AlignLess(divN, 4), BitAnd(divN, 3);
      var realN := ReadWord(alignN);
      ghost var word := fuses[8 * alignN..8 * alignN + 32];
      ShrTwice(word, alignRemN * 8, remN);
      bit := Shr(Shr(realN, alignRemN * 8), remN) % 2 == 1;
    }

    /** The hardware answers every poll from now on. */
    ghost predicate AlwaysActive()
      reads this
    {
      forall t | t >= polls :: active(t)
    }

    /**
     * otp_program_start: whatever the hardware does, at most one fuse changes, and it can only be
     * turned on; four burns and 132 polls at most.
     */
    method ProgramStart(bits: nat) returns (ret: int)
      requires Valid() && bits < READABLE
      modifies this, fuses
      ensures ret == 0 || ret == -1
      ensures OnlyTurnedOn(old(fuses[..]), fuses[..], Target(bits))
      ensures old(burns) <= burns <= old(burns) + 4 && old(polls) <= polls <= old(polls) + 132
      ensures ret == 0 ==> fuses[bits] && (takes(old(burns)) ==> fuses[Target(bits)])
      ensures bits >= FUSES ==> fuses[bits] == old(fuses[bits])
      ensures old(AlwaysActive()) && bits < FUSES ==>
                (ret == 0 <==> old(fuses[bits]) || Lucky(old(burns), 4))
      ensures old(AlwaysActive()) && bits >= FUSES ==> (ret == 0 <==> old(fuses[bits]))
    {
      var retry, retry2 := 0, 0;
      while true
        invariant retry <= 3 && retry2 <= 7 && burns == old(burns) + retry
        invariant polls <= old(polls) + 12 * (retry + retry2) && polls >= old(polls)
        invariant OnlyTurnedOn(old(fuses[..]), fuses[..], Target(bits))
        invariant if retry == 0 then fuses[..] == old(fuses[..]) else !fuses[bits]
        invariant retry > 0 && takes(old(burns)) ==> fuses[Target(bits)]
        invariant old(AlwaysActive()) ==> retry2 == 0
        invariant bits < FUSES && retry > 0 ==> !old(fuses[bits]) && !Lucky(old(burns), retry)
        decreases 10 - retry - retry2
      {
        if retry2 > 6 {
          return -1;
        }
        // the register now selects the fuse; nothing is burnt yet
        var act := WaitActive();
        if !act {
          retry2 := retry2 + 1;
          continue;
        }
        LuckyNext(old(burns), retry);
        var on := BurnAndCheck(bits);
        if on {
          return 0;
        }
        if retry > 2 {
          return -1;
        }
        retry := retry + 1;
      }
    }

    /** One burn, and what is read back of it. */
    method BurnAndCheck(bits: nat) returns (on: bool)
      requires Valid() && bits < READABLE
      modifies this`burns, fuses
      ensures burns == old(burns) + 1 && on == fuses[bits]
      ensures OnlyTurnedOn(old(fuses[..]), fuses[..], Target(bits))
      ensures fuses[Target(bits)] == (old(fuses[Target(bits)]) || takes(old(burns)))
    {
      CommandNamesTarget(bits);
      Burn(Command(0x00c0_e000, bits));
      on := CheckFiveTimes(bits);
    }

    /** Polling until the hardware is active, twelve times at most. */
    method WaitActive() returns (act: bool)
      modifies this`polls
      ensures old(polls) < polls <= old(polls) + 12
      ensures old(AlwaysActive()) ==> act
    {
      var count := 0;
      act := PollActive();
      while !act && count <= 10
        invariant count <= 11 && polls == old(polls) + 1 + count
        invariant old(AlwaysActive()) ==> act
      {
        count := count + 1;
        act := PollActive();
      }
    }

    /** The read-back loop; its first failing read decides. */
    method CheckFiveTimes(bits: nat) returns (on: bool)
      requires Valid() && bits < READABLE
      ensures on == fuses[bits]
    {
      on := true;
      for count := 0 to 5
        invariant count > 0 ==> fuses[bits]
      {
        on := JudgeBit(bits);
        if !on {
          return;
        }
      }
    }

    /** Every burn from now on takes. */
    ghost predicate AlwaysTakes()
      reads this
    {
      forall t | t >= burns :: takes(t)
    }

    /** One of the next n burns takes. */
    ghost predicate Lucky(from: nat, n: nat) {
      exists t | from <= t < from + n :: takes(t)
    }

    lemma LuckyNext(from: nat, n: nat)
      ensures Lucky(from, n + 1) == (Lucky(from, n) || takes(from + n))
    {}

    /** On hardware that works, one fuse fails only if no command can name it and it is not set. */
    method ProgramKnown(bits: nat) returns (ret: int)
      requires Valid() && bits < READABLE
      modifies this, fuses
      ensures ret == 0 || ret == -1
      ensures OnlyTurnedOn(old(fuses[..]), fuses[..], Target(bits))
      ensures old(burns) <= burns && old(polls) <= polls
      ensures ret == 0 ==> fuses[bits] && (takes(old(burns)) ==> fuses[Target(bits)])
      ensures old(AlwaysActive() && AlwaysTakes()) ==> (ret == 0 <==> bits < FUSES || old(fuses[bits]))
    {
      assert AlwaysTakes() ==> takes(burns);
      ret := ProgramStart(bits);
    }

    /**
     * otp_start_program: when it succeeds, every 1-bit of the source reads as set, and those from fuse 4096 on
     * were set before; whatever happens, no fuse is turned off, and a fuse is turned on only for a 1-bit that
     * names it. Exactly the source bits are added if the fuses that the 1-bits from 4096 on name instead were
     * set or are source bits themselves, and only then if burns take. On hardware that works it succeeds exactly
     * when the 1-bits from fuse 4096 on were set before.
     */
    method StartProgram(startbit: nat, src: seq<byte>) returns (ret: int)
      requires Valid() && startbit + 8 * |src| <= READABLE
      modifies this, fuses
      ensures ret == 0 || ret == -1
      ensures ret == 0 ==> SourceSet(fuses[..], startbit, src, 8 * |src|)
      ensures AllTurnedOnFor(old(fuses[..]), fuses[..], startbit, src, 8 * |src|)
      ensures ret == 0 ==> BeyondSet(old(fuses[..]), startbit, src)
      ensures ret == 0 && AliasesCovered(old(fuses[..]), startbit, src) ==>
                Programmed(old(fuses[..]), fuses[..], startbit, src)
      ensures ret == 0 && old(AlwaysTakes()) ==>
                (Programmed(old(fuses[..]), fuses[..], startbit, src) <==> AliasesCovered(old(fuses[..]), startbit, src))
      ensures old(AlwaysActive() && AlwaysTakes()) ==> (ret == 0 <==> BeyondSet(old(fuses[..]), startbit, src))
    {
      var dummy := JudgeBit(4064);
      ghost var was := fuses[..];
      for i := 0 to 8 * |src|
        invariant burns >= old(burns) && polls >= old(polls)
        invariant forall j | FUSES <= j < READABLE :: fuses[j] == was[j]
        invariant Progress(was, fuses[..], startbit, src, i, old(AlwaysTakes()))
      {
        if ToBit(src[i / 8], i % 8) {
          ghost var before := fuses[..];
          var done := ProgramKnown(startbit + i);
          OneMore(was, before, fuses[..], startbit, src, i);
          if done < 0 {
            assert old(AlwaysActive() && AlwaysTakes()) ==> Beyond(startbit, src, i);
            AllMore(was, fuses[..], startbit, src, i + 1, 8 * |src|);
            return -1;
          }
          BitDone(was, before, fuses[..], startbit, src, i, old(AlwaysTakes()));
        } else {
          AllMore(was, fuses[..], startbit, src, i, i + 1);
        }
      }
      ret := 0;
      OnlyLowFuses(was, fuses[..], startbit, src);
      if AliasesCovered(was, startbit, src) {
        ProgrammedExactly(was, fuses[..], startbit, src);
      } else if old(AlwaysTakes()) {
        ProgrammedTooMuch(was, fuses[..], startbit, src);
      }
    }
  }

  ghost predicate OnlyTurnedOn(was: seq<bool>, now: seq<bool>, t: nat)
    requires t < |was|
  {
    |now| == |was| && (forall j | 0 <= j < |was| && j != t :: now[j] == was[j]) && (was[t] ==> now[t])
  }

  predicate SourceBit(src: seq<byte>, i: nat)
    requires i < 8 * |src|
  {
    ToBit(src[i / 8], i % 8)
  }

  /** The n low bits of a number, lowest first. */
  function LowBits(v: nat, n: nat): (bits: seq<bool>)
    ensures |bits| == n && forall k: nat | k < n :: bits[k] == ToBit(v, k)
  {
    if n == 0 then [] else [v % 2 == 1] + LowBits(v / 2, n - 1)
  }

  lemma {:induction false} LowBitsNumber(v: nat, n: nat)
    requires v < Pow2(n)
    ensures Number(LowBits(v, n)) == v
  {
    if n > 0 {
      LowBitsNumber(v / 2, n - 1);
      assert LowBits(v, n)[1..] == LowBits(v / 2, n - 1);
    }
  }

  /** Source bits 8 b to 8 b + 7 are byte b, lowest first. */
  lemma SourceByte(src: seq<byte>, b: nat, bits: seq<bool>)
    requires b < |src| && |bits| == 8 && forall k: nat | k < 8 :: bits[k] == SourceBit(src, 8 * b + k)
    ensures Number(bits) == src[b]
  {
    assert Pow2(8) == 256;
    LowBitsNumber(src[b], 8);
    forall k: nat | k < 8 ensures bits[k] == LowBits(src[b], 8)[k] { SourceBitAt(src, b, k, 8 * b + k); }
    assert bits == LowBits(src[b], 8);
  }

  lemma SourceBitAt(src: seq<byte>, b: nat, k: nat, i: nat)
    requires b < |src| && k < 8 && i == 8 * b + k
    ensures SourceBit(src, i) == ToBit(src[b], k)
  {
    assert i / 8 == b && i % 8 == k;
  }

  /** Fuse j is as it was, or was turned on for one of the first n source bits. */
  ghost predicate TurnedOnFor(was: bool, now: bool, j: nat, startbit: nat, src: seq<byte>, n: nat)
    requires n <= 8 * |src|
  {
    now == was || (now && exists i: nat | i < n && SourceBit(src, i) :: Target(startbit + i) == j)
  }

  ghost predicate AllTurnedOnFor(was: seq<bool>, now: seq<bool>, startbit: nat, src: seq<byte>, n: nat)
    requires n <= 8 * |src|
  {
    |was| == |now| && forall j: nat | j < |was| :: TurnedOnFor(was[j], now[j], j, startbit, src, n)
  }

  /** The first n source bits read as set where they are 1. */
  ghost predicate SourceSet(now: seq<bool>, startbit: nat, src: seq<byte>, n: nat)
    requires n <= 8 * |src| && startbit + 8 * |src| <= |now|
  {
    forall i: nat | i < n && SourceBit(src, i) :: now[startbit + i]
  }

  /** Exactly the old fuses and the source bits. */
  ghost predicate Programmed(was: seq<bool>, now: seq<bool>, startbit: nat, src: seq<byte>) {
    |was| == |now| && forall j: nat | j < |was| :: now[j] == Covered(was, startbit, src, j)
  }

  /** The fuses that the first n source bits name are set where the bits are 1. */
  ghost predicate TargetsSet(now: seq<bool>, startbit: nat, src: seq<byte>, n: nat)
    requires n <= 8 * |src| && |now| == READABLE
  {
    forall i: nat | i < n && SourceBit(src, i) :: now[Target(startbit + i)]
  }

  /** What is true of the first n source bits; the burns are known to take or not. */
  ghost predicate Progress(was: seq<bool>, now: seq<bool>, startbit: nat, src: seq<byte>, n: nat, takes: bool)
    requires n <= 8 * |src| && startbit + 8 * |src| <= READABLE
  {
    && |now| == READABLE && AllTurnedOnFor(was, now, startbit, src, n) && SourceSet(now, startbit, src, n)
    && (takes ==> TargetsSet(now, startbit, src, n))
  }

  lemma BitDone(was: seq<bool>, mid: seq<bool>, now: seq<bool>, startbit: nat, src: seq<byte>, i: nat, takes: bool)
    requires i < 8 * |src| && startbit + 8 * |src| <= READABLE && Progress(was, mid, startbit, src, i, takes)
    requires AllTurnedOnFor(was, now, startbit, src, i + 1) && OnlyTurnedOn(mid, now, Target(startbit + i))
    requires now[startbit + i] && (takes ==> now[Target(startbit + i)])
    ensures Progress(was, now, startbit, src, i + 1, takes)
  {
    SourceKept(mid, now, startbit, src, i);
    if takes { TargetsKept(mid, now, startbit, src, i); }
  }

  ghost predicate StaySet(was: seq<bool>, now: seq<bool>) {
    |was| == |now| && forall j | 0 <= j < |was| :: was[j] ==> now[j]
  }

  lemma SourceKept(mid: seq<bool>, now: seq<bool>, startbit: nat, src: seq<byte>, i: nat)
    requires i < 8 * |src| && startbit + 8 * |src| <= READABLE == |mid| && StaySet(mid, now)
    requires SourceSet(mid, startbit, src, i) && now[startbit + i]
    ensures SourceSet(now, startbit, src, i + 1)
  {
    forall k: nat | k < i + 1 && SourceBit(src, k) ensures now[startbit + k] {
      if k < i { assert mid[startbit + k]; }
    }
  }

  lemma TargetsKept(mid: seq<bool>, now: seq<bool>, startbit: nat, src: seq<byte>, i: nat)
    requires i < 8 * |src| && |mid| == READABLE && StaySet(mid, now)
    requires TargetsSet(mid, startbit, src, i) && now[Target(startbit + i)]
    ensures TargetsSet(now, startbit, src, i + 1)
  {
    forall k: nat | k < i + 1 && SourceBit(src, k) ensures now[Target(startbit + k)] {
      if k < i { assert mid[Target(startbit + k)]; }
    }
  }

  /** The source bits that no burn command can name. */
  predicate Beyond(startbit: nat, src: seq<byte>, i: nat) {
    i < 8 * |src| && startbit + i >= FUSES && SourceBit(src, i)
  }

  ghost predicate BeyondSet(was: seq<bool>, startbit: nat, src: seq<byte>)
    requires |was| == READABLE && startbit + 8 * |src| <= READABLE
  {
    forall i: nat | Beyond(startbit, src, i) :: was[startbit + i]
  }

  /** Each fuse that is burnt in place of one that no command can name was set, or is a source bit itself. */
  ghost predicate AliasesCovered(was: seq<bool>, startbit: nat, src: seq<byte>)
    requires |was| == READABLE
  {
    forall i: nat | Beyond(startbit, src, i) :: Covered(was, startbit, src, Target(startbit + i))
  }

  predicate Covered(was: seq<bool>, startbit: nat, src: seq<byte>, j: nat)
    requires j < |was|
  {
    was[j] || (startbit <= j < startbit + 8 * |src| && SourceBit(src, j - startbit))
  }

  /** No burn command reaches the fuses from 4096 on. */
  lemma OnlyLowFuses(was: seq<bool>, now: seq<bool>, startbit: nat, src: seq<byte>)
    requires |was| == READABLE && startbit + 8 * |src| <= READABLE
    requires AllTurnedOnFor(was, now, startbit, src, 8 * |src|) && SourceSet(now, startbit, src, 8 * |src|)
    ensures BeyondSet(was, startbit, src)
  {
    forall i: nat | Beyond(startbit, src, i) ensures was[startbit + i] {
      assert TurnedOnFor(was[startbit + i], now[startbit + i], startbit + i, startbit, src, 8 * |src|);
    }
  }

  /** A burnt alias that is not covered is one fuse too many. */
  lemma ProgrammedTooMuch(was: seq<bool>, now: seq<bool>, startbit: nat, src: seq<byte>)
    requires |was| == |now| == READABLE && TargetsSet(now, startbit, src, 8 * |src|) && !AliasesCovered(was, startbit, src)
    ensures !Programmed(was, now, startbit, src)
  {
    var i: nat :| Beyond(startbit, src, i) && !Covered(was, startbit, src, Target(startbit + i));
    assert now[Target(startbit + i)];
  }

  lemma AllMore(was: seq<bool>, now: seq<bool>, startbit: nat, src: seq<byte>, m: nat, n: nat)
    requires m <= n <= 8 * |src| && AllTurnedOnFor(was, now, startbit, src, m)
    ensures AllTurnedOnFor(was, now, startbit, src, n)
  {
    forall j: nat | j < |was| ensures TurnedOnFor(was[j], now[j], j, startbit, src, n) {
      assert TurnedOnFor(was[j], now[j], j, startbit, src, m);
    }
  }

  lemma OneMore(was: seq<bool>, mid: seq<bool>, now: seq<bool>, startbit: nat, src: seq<byte>, i: nat)
    requires i < 8 * |src| && |was| == READABLE && AllTurnedOnFor(was, mid, startbit, src, i)
    requires SourceBit(src, i) && OnlyTurnedOn(mid, now, Target(startbit + i))
    ensures AllTurnedOnFor(was, now, startbit, src, i + 1)
  {
    AllMore(was, mid, startbit, src, i, i + 1);
    forall j: nat | j < |was| ensures TurnedOnFor(was[j], now[j], j, startbit, src, i + 1) {
      assert TurnedOnFor(was[j], mid[j], j, startbit, src, i + 1);
    }
  }

  lemma TurnedOnCovered(was: seq<bool>, now: bool, j: nat, startbit: nat, src: seq<byte>)
    requires |was| == READABLE && j < READABLE && AliasesCovered(was, startbit, src)
    requires TurnedOnFor(was[j], now, j, startbit, src, 8 * |src|)
    ensures now ==> Covered(was, startbit, src, j)
    ensures was[j] ==> now
  {
    if now != was[j] {
      var i: nat :| i < 8 * |src| && SourceBit(src, i) && Target(startbit + i) == j;
      if startbit + i >= FUSES { assert Beyond(startbit, src, i); }
    }
  }

  lemma ProgrammedExactly(was: seq<bool>, now: seq<bool>, startbit: nat, src: seq<byte>)
    requires |was| == READABLE && startbit + 8 * |src| <= READABLE && AliasesCovered(was, startbit, src)
    requires AllTurnedOnFor(was, now, startbit, src, 8 * |src|) && SourceSet(now, startbit, src, 8 * |src|)
    ensures Programmed(was, now, startbit, src)
  {
    forall j: nat | j < |was|
      ensures now[j] == Covered(was, startbit, src, j)
    {
      TurnedOnCovered(was, now[j], j, startbit, src);
      if startbit <= j < startbit + 8 * |src| && SourceBit(src, j - startbit) { assert now[startbit + (j - startbit)]; }
    }
  }
}
