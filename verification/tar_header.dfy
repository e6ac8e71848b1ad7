/** Octal fields and the header checksum of the ustar format (POSIX pax, "ustar Interchange Format"). */
module TarHeader {
  import opened Words

  const ZERO: byte := 0x30

  /** octalStringToInt: characters other than '0'..'9' count as zero, and '8' and '9' as themselves. */
  function OctalValue(s: seq<byte>): (v: nat)
    ensures v < U32
  {
    if s == [] then 0
    else
      var c := s[|s| - 1];
      Low32(8 * OctalValue(s[..|s| - 1]) + if ZERO <= c <= ZERO + 9 then (c - ZERO) as nat else 0)
  }

  /** One character: any digit counts, 8 and 9 too, and anything else is zero. */
  lemma OneCharacter(c: byte)
    ensures OctalValue([c]) == if '0' as int <= c <= '9' as int then c - '0' as int else 0
  {
    assert [c][..0] == [];
  }

  method OctalStringToInt(s: seq<byte>) returns (size: nat)
    ensures size == OctalValue(s)
  {
    size := 0;
    for i := 0 to |s|
      invariant size == OctalValue(s[..i])
    {
      assert s[..i + 1][..i] == s[..i];
      if ZERO <= s[i] <= ZERO + 9 {
        size := Low32(size * 8 + (s[i] - ZERO) as nat);
      } else {
        size := Low32(size * 8);
      }
    }
    assert s[..|s|] == s;
  }

  /** v in octal, padded with zeros to the given width. */
  function OctalDigits(v: nat, width: nat): (s: seq<byte>)
    ensures |s| == width
  {
    if width == 0 then [] else OctalDigits(v / 8, width - 1) + [ZERO + v % 8]
  }

  lemma {:induction false} OctalRoundTrip(v: nat, width: nat)
    requires v < Pow8(width) && v < U32
    ensures OctalValue(OctalDigits(v, width)) == v
  {
    if width > 0 {
      OctalRoundTrip(v / 8, width - 1);
      var s := OctalDigits(v, width);
      assert s[..width - 1] == OctalDigits(v / 8, width - 1);
    }
  }

  function Pow8(k: nat): nat {
    if k == 0 then 1 else 8 * Pow8(k - 1)
  }

  // ---------------------------------------------------------------- the header checksum

  type Header = s: seq<byte> | |s| == 512 witness seq(512, _ => 0)

  function ByteSum(s: seq<byte>): (r: nat)
    ensures r <= 255 * |s|
  {
    if s == [] then 0 else ByteSum(s[..|s| - 1]) + s[|s| - 1]
  }

  lemma {:induction false} ByteSumConcat(a: seq<byte>, b: seq<byte>)
    ensures ByteSum(a + b) == ByteSum(a) + ByteSum(b)
  {
    if b == [] {
      assert a + b == a;
    } else {
      assert (a + b)[..|a + b| - 1] == a + b[..|b| - 1];
      ByteSumConcat(a, b[..|b| - 1]);
    }
  }

  /** The sum of all bytes, the checksum field taken as eight spaces. */
  function HeaderSum(h: Header): (sum: nat)
    ensures sum <= 504 * 255 + 256
  {
    ByteSum(h[..148]) + ByteSum(h[156..]) + 8 * 32
  }

  function Spaces(k: nat): (s: seq<byte>)
    ensures |s| == k && forall i | 0 <= i < k :: s[i] == 0x20
  {
    seq(k, _ => 0x20)
  }

  lemma {:induction false} SpacesSum(k: nat)
    ensures ByteSum(Spaces(k)) == 32 * k
  {
    if k > 0 {
      assert Spaces(k)[..k - 1] == Spaces(k - 1);
      SpacesSum(k - 1);
    }
  }

  /** It is the plain sum over the header whose checksum field, and nothing else, has become spaces. */
  lemma HeaderSumIsSpaced(h: Header, spaced: Header)
    requires spaced[..148] == h[..148] && spaced[148..156] == Spaces(8) && spaced[156..] == h[156..]
    ensures ByteSum(spaced) == HeaderSum(h)
  {
    assert spaced == (spaced[..148] + spaced[148..156]) + spaced[156..];
    ByteSumConcat(spaced[..148] + spaced[148..156], spaced[156..]);
    ByteSumConcat(spaced[..148], spaced[148..156]);
    SpacesSum(8);
  }

  method FactoryTarChecksum(h: array<byte>) returns (sum: nat)
    requires h.Length == 512
    ensures sum == HeaderSum(h[..])
  {
    sum := 0;
    for i := 0 to 148
      invariant sum == ByteSum(h[..i])
    {
      assert h[..i + 1][..i] == h[..i];
      sum := sum + h[i];
    }
    for i := 156 to 512
      invariant sum == ByteSum(h[..148]) + ByteSum(h[156..i])
    {
      assert h[156..i + 1][..i - 156] == h[156..i];
      sum := sum + h[i];
    }
    for i := 0 to 8
      invariant sum == ByteSum(h[..148]) + ByteSum(h[156..512]) + i * 32
    {
      sum := sum + 32;
    }
    assert h[..][..148] == h[..148] && h[..][156..] == h[156..512];
  }

  /** The checksum field as six octal digits, a zero byte and a space. */
  function Filled(h: Header): (r: Header)
    ensures r[..148] == h[..148] && r[156..] == h[156..]
    ensures r[148..154] == OctalDigits(HeaderSum(h), 6) && r[154] == 0 && r[155] == 0x20
  {
    var field := OctalDigits(HeaderSum(h), 6) + [0, 0x20];
    var r := h[..148] + field + h[156..];
    assert r[148..154] == field[..6];
    r
  }

  method FactoryTarFillChecksum(h: array<byte>)
    requires h.Length == 512
    modifies h
    ensures h[..] == Filled(old(h[..]))
  {
    var sum := FactoryTarChecksum(h);
    ghost var was := h[..];
    var text := OctalDigits(sum, 6);
    for k := 0 to 6
      invariant h[..148] == was[..148] && h[156..] == was[156..]
      invariant h[148..148 + k] == text[..k]
    {
      h[148 + k] := text[k];
    }
    h[154] := 0;
    h[155] := 0x20;
    assert h[..] == h[..148] + h[148..154] + [h[154], h[155]] + h[156..];
    assert h[148..154] == text;
  }

  /** Any header's sum fits the field, filling does not change it, and the field reads back as it. */
  lemma ChecksumRoundTrip(h: Header)
    ensures HeaderSum(h) < Pow8(6)
    ensures HeaderSum(Filled(h)) == HeaderSum(h)
    ensures OctalValue(Filled(h)[148..154]) == HeaderSum(h)
  {
    assert Pow8(6) == 262144;
    OctalRoundTrip(HeaderSum(h), 6);
  }

  /** The checksum does not depend on what the field held before. */
  lemma ChecksumIgnoresField(h: Header, other: Header)
    requires h[..148] == other[..148] && h[156..] == other[156..]
    ensures HeaderSum(h) == HeaderSum(other) && Filled(h) == Filled(other)
  {
    assert Filled(h) == h[..148] + Filled(h)[148..154] + [0, 0x20] + h[156..];
    assert Filled(other) == other[..148] + Filled(other)[148..154] + [0, 0x20] + other[156..];
  }
}
