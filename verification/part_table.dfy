/**
 * The partition list of the boot table, edited in place: lookup, removal by name, and appending. Strings
 * are cut to the buffers they are copied into, so that a name that is too long for its buffer is kept in
 * part, and is not found again under the name it was given.
 */
module PartTable {
  /** A C string: no terminator inside. */
  type Name = s: string | '\0' !in s

  /** The image name is kept as its 64-byte buffer, for appending overwrites only the front of it. */
  datatype PartDesc = PartDesc(imgBuffer: string, partName: Name, mountPoint: Name, mountDev: Name, kind: Name,
                               fs: nat, offset: nat, size: nat)

  /** snprintf into a buffer of n bytes */
  function Fit(s: Name, n: nat): (r: Name)
    requires n > 0
    ensures r <= s && (if |s| < n then r == s else |r| == n - 1)
  {
    if |s| < n then s else s[..n - 1]
  }

  /** The string a buffer holds. */
  function CString(buffer: string): (s: Name)
  {
    if buffer == [] || buffer[0] == '\0' then [] else [buffer[0]] + CString(buffer[1..])
  }

  lemma {:induction false} CStringConcat(a: Name, rest: string)
    ensures CString(a + rest) == a + CString(rest)
  {
    if a == [] {
      assert a + rest == rest;
    } else {
      assert (a + rest)[1..] == a[1..] + rest;
      CStringConcat(a[1..], rest);
    }
  }

  /** strncpy of 32 bytes into the 64-byte image name buffer */
  function Copied(buffer: string, s: Name): (r: string)
    requires |buffer| == 64
    ensures |r| == 64
  {
    (if |s| < 32 then s + seq(32 - |s|, _ => '\0') else s[..32]) + buffer[32..]
  }

  /** Up to 31 characters the name arrives; a longer one is cut to 32 and runs on into what was there before. */
  lemma CopiedName(buffer: string, s: Name)
    requires |buffer| == 64
    ensures CString(Copied(buffer, s)) == if |s| < 32 then s else s[..32] + CString(buffer[32..])
  {
    if |s| < 32 {
      var pad := seq(32 - |s|, _ => '\0');
      assert Copied(buffer, s) == s + (pad + buffer[32..]);
      CStringConcat(s, pad + buffer[32..]);
    } else {
      CStringConcat(s[..32], buffer[32..]);
    }
  }

  // ---------------------------------------------------------------- the entries with other names

  function Others(s: seq<PartDesc>, name: Name): (r: seq<PartDesc>)
  {
    if s == [] then []
    else
      var front := Others(s[..|s| - 1], name);
      if s[|s| - 1].partName == name then front else front + [s[|s| - 1]]
  }

  lemma {:induction false} OthersCount(s: seq<PartDesc>, name: Name, x: PartDesc)
    ensures multiset(Others(s, name))[x] == if x.partName == name then 0 else multiset(s)[x]
  {
    if s != [] {
      OthersCount(s[..|s| - 1], name, x);
      assert s == s[..|s| - 1] + [s[|s| - 1]];
    }
  }

  lemma OthersOfEqual(s: seq<PartDesc>, t: seq<PartDesc>, name: Name)
    requires forall x: PartDesc | x.partName != name :: multiset(s)[x] == multiset(t)[x]
    ensures multiset(Others(s, name)) == multiset(Others(t, name))
  {
    forall x ensures multiset(Others(s, name))[x] == multiset(Others(t, name))[x] {
      OthersCount(s, name, x);
      OthersCount(t, name, x);
    }
  }

  lemma NoneLeft(s: seq<PartDesc>, name: Name)
    requires forall i | 0 <= i < |s| :: s[i].partName != name
    ensures multiset(Others(s, name)) == multiset(s)
  {
    forall x ensures multiset(Others(s, name))[x] == multiset(s)[x] {
      OthersCount(s, name, x);
    }
  }

  lemma UpdateCount(s: seq<PartDesc>, i: nat, e: PartDesc, x: PartDesc)
    requires i < |s| && x != s[i]
    ensures multiset(s[i := e])[x] == multiset(s)[x] + if x == e then 1 else 0
  {}

  lemma LastCount(s: seq<PartDesc>, x: PartDesc)
    requires s != []
    ensures multiset(s)[x] == multiset(s[..|s| - 1])[x] + if x == s[|s| - 1] then 1 else 0
  {
    assert s == s[..|s| - 1] + [s[|s| - 1]];
  }

  lemma DropCount(s: seq<PartDesc>, i: nat, x: PartDesc)
    requires i < |s| && x != s[i]
    ensures multiset(s[i := s[|s| - 1]][..|s| - 1])[x] == multiset(s)[x]
  {
    UpdateCount(s, i, s[|s| - 1], x);
    LastCount(s[i := s[|s| - 1]], x);
  }

  /** Overwriting a matching entry by the last one, and dropping the last. */
  lemma SwapOut(s: seq<PartDesc>, index: nat, name: Name)
    requires index < |s| && s[index].partName == name
    ensures var last := |s| - 1;
            multiset(Others(s[index := s[last]][..last], name)) == multiset(Others(s, name))
  {
    var last := |s| - 1;
    var t := s[index := s[last]];
    assert |t[..last]| == last;
    forall x: PartDesc | x.partName != name ensures multiset(t[..last])[x] == multiset(s)[x] {
      DropCount(s, index, x);
    }
    OthersOfEqual(t[..last], s, name);
  }

  lemma SwappedOut(s: seq<PartDesc>, t: seq<PartDesc>, index: nat, name: Name)
    requires index < |s| && s[index].partName == name && t == s[index := s[|s| - 1]][..|s| - 1]
    ensures multiset(Others(t, name)) == multiset(Others(s, name))
  {
    SwapOut(s, index, name);
  }

  /** How many entries have a name. */
  function Named(s: seq<PartDesc>, name: Name): nat {
    if s == [] then 0 else Named(s[..|s| - 1], name) + if s[|s| - 1].partName == name then 1 else 0
  }

  lemma {:induction false} NamedIsRest(s: seq<PartDesc>, name: Name)
    ensures Named(s, name) + |Others(s, name)| == |s|
    ensures Named(s, name) == 0 <==> forall i | 0 <= i < |s| :: s[i].partName != name
  {
    if s != [] { NamedIsRest(s[..|s| - 1], name); }
  }

  class BootTable {
    const list: array<PartDesc>
    var count: nat

    ghost predicate Valid()
      reads this, list
    {
      list.Length == 20 && count <= 20 && forall i | 0 <= i < 20 :: EntryOk(list[i])
    }

    ghost function Entries(): seq<PartDesc>
      requires Valid()
      reads this, list
    {
      list[..count]
    }

    /** get_index_by_partname */
    method GetIndexByPartName(name: Name) returns (index: int)
      requires Valid()
      ensures -1 <= index < count
      ensures index >= 0 ==> list[index].partName == name
      ensures forall i | 0 <= i < (if index < 0 then count else index) :: list[i].partName != name
    {
      for i := 0 to count
        invariant forall k | 0 <= k < i :: list[k].partName != name
      {
        if name == list[i].partName {
          return i;
        }
      }
      return -1;
    }

    /** remove_part_by_partname: what is left are exactly the entries with other names, in some order. */
    method RemovePartByPartName(name: Name) returns (ret: int)
      requires Valid()
      modifies this, list
      ensures Valid() && multiset(Entries()) == multiset(Others(old(Entries()), name))
      ensures count <= old(count) && ret == if old(Named(Entries(), name)) > 0 then 0 else -1
    {
      ghost var was := Entries();
      var index := GetIndexByPartName(name);
      NamedIsRest(was, name);
      if index < 0 {
        NoneLeft(was, name);
        return -1;
      }
      assert was[index].partName == name;
      while index >= 0
        invariant Valid() && multiset(Others(Entries(), name)) == multiset(Others(was, name))
        invariant count <= old(count) && -1 <= index < count && (index >= 0 ==> list[index].partName == name)
        invariant index < 0 ==> forall i | 0 <= i < count :: list[i].partName != name
        decreases count, index
      {
        SwapWithLast(index, name);
        if count == 0 {
          return 0;
        }
        index := GetIndexByPartName(name);
      }
      NoneLeft(Entries(), name);
      ret := 0;
    }

    /** One pass: the last entry takes the place of a matching one; a single entry just goes. */
    method SwapWithLast(index: nat, name: Name)
      requires Valid() && index < count && list[index].partName == name
      modifies this, list
      ensures Valid() && count == old(count) - 1
      ensures multiset(Others(Entries(), name)) == multiset(Others(old(Entries()), name))
    {
      ghost var was := Entries();
      DropAt(index);
      SwappedOut(was, Entries(), index, name);
    }

    method DropAt(index: nat)
      requires Valid() && index < count
      modifies this, list
      ensures Valid() && count == old(count) - 1
      ensures Entries() == old(Entries())[index := old(Entries())[count]][..count]
    {
      if count == 1 {
        count := 0;
      } else {
        list[index] := list[count - 1];
        count := count - 1;
      }
    }

    /** add_part: one more entry, its strings cut to their buffers. */
    method AddPart(imgName: Name, name: Name, mountPoint: Name, mountDev: Name, fs: nat, offset: nat, size: nat, kind: Name)
      requires Valid() && count < 20
      modifies this, list
      ensures Valid() && |Entries()| == |old(Entries())| + 1 && Entries()[..count - 1] == old(Entries())
      ensures Entries()[count - 1] ==
              PartDesc(Copied(old(list[count].imgBuffer), imgName), Fit(name, 32), Fit(mountPoint, 64), Fit(mountDev, 64),
                       Fit(kind, 16), fs, offset, size)
    {
      var i := count;
      list[i] := PartDesc(Copied(list[i].imgBuffer, imgName), Fit(name, 32), Fit(mountPoint, 64), Fit(mountDev, 64),
                          Fit(kind, 16), fs, offset, size);
      count := count + 1;
    }

    /**
     * Removing a partition and adding it again leaves one entry of that name, unless the name is too
     * long for its buffer: then nothing is removed and every earlier cut-off entry stays. A full list
     * will do if the name is on it.
     */
    method ReplacePart(imgName: Name, name: Name, mountPoint: Name, mountDev: Name, fs: nat, offset: nat, size: nat, kind: Name)
      requires Valid() && (count < 20 || Named(Entries(), name) > 0)
      modifies this, list
      ensures Valid() && count > 0
      ensures multiset(Entries()[..count - 1]) == multiset(Others(old(Entries()), name))
      ensures var e := Entries()[count - 1];
        && e.partName == Fit(name, 32) && e.mountPoint == Fit(mountPoint, 64) && e.mountDev == Fit(mountDev, 64)
        && e.kind == Fit(kind, 16) && e.fs == fs && e.offset == offset && e.size == size
        && (|imgName| < 32 ==> CString(e.imgBuffer) == imgName)
      ensures Named(Entries(), Fit(name, 32)) == 1 + if |name| < 32 then 0 else old(Named(Entries(), Fit(name, 32)))
    {
      ghost var was := Entries();
      var removed := RemovePartByPartName(name);
      ghost var left := Entries();
      LeftNamed(was, left, name);
      NamedIsRest(was, name);
      CopiedName(list[count].imgBuffer, imgName);
      AddPart(imgName, name, mountPoint, mountDev, fs, offset, size, kind);
      assert Entries()[..|Entries()| - 1] == left;
    }
  }

  /** Strings are within their buffers. */
  predicate EntryOk(e: PartDesc) {
    |e.imgBuffer| == 64 && |e.partName| < 32 && |e.mountPoint| < 64 && |e.mountDev| < 64 && |e.kind| < 16
  }

  lemma NamedOfEqual(s: seq<PartDesc>, t: seq<PartDesc>, name: Name)
    requires multiset(s) == multiset(t)
    ensures Named(s, name) == Named(t, name)
  {
    NamedIsRest(s, name);
    NamedIsRest(t, name);
    OthersOfEqual(s, t, name);
    assert |s| == |multiset(s)| && |t| == |multiset(t)|;
    assert |Others(s, name)| == |multiset(Others(s, name))| && |Others(t, name)| == |multiset(Others(t, name))|;
  }

  lemma {:induction false} OthersHaveNone(s: seq<PartDesc>, name: Name)
    ensures Named(Others(s, name), name) == 0
  {
    if s != [] {
      var front := Others(s[..|s| - 1], name);
      OthersHaveNone(s[..|s| - 1], name);
      if s[|s| - 1].partName != name { assert (front + [s[|s| - 1]])[..|front|] == front; }
    }
  }

  /** After a removal the name is gone; names that fit no buffer were on no entry. */
  lemma LeftNamed(was: seq<PartDesc>, left: seq<PartDesc>, name: Name)
    requires multiset(left) == multiset(Others(was, name)) && forall i | 0 <= i < |was| :: |was[i].partName| < 32
    ensures |left| == |Others(was, name)|
    ensures |name| < 32 ==> Named(left, name) == 0
    ensures |name| >= 32 ==> Named(left, Fit(name, 32)) == Named(was, Fit(name, 32))
  {
    assert |left| == |multiset(left)| && |Others(was, name)| == |multiset(Others(was, name))|;
    OthersHaveNone(was, name);
    NamedOfEqual(left, Others(was, name), name);
    if |name| >= 32 {
      NoneLeft(was, name);
      NamedOfEqual(left, was, Fit(name, 32));
    }
  }
}
