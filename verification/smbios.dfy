/** The SMBIOS structure walk (drivers/utils/smbios.c) and the SIMATIC
    station id read from OEM structure 129 (simatic.c). Structures follow
    section 6.1.2 (structure header) and 6.1.3 (text strings) of the DMTF
    SMBIOS reference specification (DSP0134). */
module Smbios {
  import opened Wrappers
  import opened Bytes

  /** The header of a structure: type, length and a 16-bit handle. */
  const HEADER_SIZE: nat := 4

  /** The outcome of a walk that reads memory by trusting the table: a
      structure's offset, none, or a read past the table's end. */
  datatype Find = Found(offset: nat) | NotFound | Overrun

  /** A double NUL starts at `k`. */
  predicate DoubleNul(t: seq<byte>, k: nat)
  {
    k + 1 < |t| && t[k] == 0 && t[k + 1] == 0
  }

  /** The first index `k >= i` where two NULs end a string set. */
  function StringSetEnd(t: seq<byte>, i: nat): (r: Option<nat>)
    ensures r.Some? ==> i <= r.value && DoubleNul(t, r.value)
    ensures r.Some? ==> forall k :: i <= k < r.value ==> !DoubleNul(t, k)
    ensures r.None? ==> forall k :: i <= k ==> !DoubleNul(t, k)
    decreases |t| - i
  {
    if i + 2 > |t| then None
    else if t[i] == 0 && t[i + 1] == 0 then Some(i)
    else StringSetEnd(t, i + 1)
  }

  /** The structure after the one at `off`: past its formatted area and
      the string set, including the closing double NUL. */
  function NextStruct(t: seq<byte>, off: nat): (r: Option<nat>)
    ensures r.Some? ==> off + 2 <= |t| && r.value >= off + t[off + 1] + 2
  {
    if off + 2 > |t| then None
    else
      match StringSetEnd(t, off + t[off + 1])
      case None => None
      case Some(k) => Some(k + 2)
  }

  /** `smbios_find_struct` from the structure at `off`, with `n`
      structures left to examine. */
  function FindFrom(t: seq<byte>, off: nat, n: nat, typ: nat): (r: Find)
    ensures r.Found? ==> r.offset < |t| && t[r.offset] == typ
    ensures r.Found? ==> off <= r.offset
    ensures n == 0 ==> r == NotFound
    decreases n
  {
    if n == 0 then NotFound
    else if off >= |t| then Overrun
    else if t[off] == typ then Found(off)
    else
      match NextStruct(t, off)
      case None => Overrun
      case Some(next) => FindFrom(t, next, n - 1, typ)
  }

  /** `smbios_find_struct`: the first of the table's `count` structures
      whose type is `typ`. */
  function FindStruct(t: seq<byte>, count: nat, typ: nat): (r: Find)
    ensures r.Found? ==> r.offset < |t| && t[r.offset] == typ
  {
    FindFrom(t, 0, count, typ)
  }

  // ---------------------------------------------------------------------
  // Encoding structures as section 6.1 lays them out.

  /** A string of a string set: non-empty and without NUL. */
  type Text = s: seq<byte> | |s| > 0 && 0 !in s witness [1]

  /** One structure: its type, handle, the formatted bytes after the
      header and its strings. */
  datatype Structure = Structure(typ: byte, handle: nat, data: seq<byte>, strings: seq<Text>)

  predicate ValidStructure(s: Structure)
  {
    && s.handle < 0x1_0000
    && HEADER_SIZE + |s.data| < 256
  }

  predicate ValidStructures(ss: seq<Structure>)
  {
    forall i :: 0 <= i < |ss| ==> ValidStructure(ss[i])
  }

  /** The strings, each with its NUL. */
  function StringBytes(strings: seq<Text>): (r: seq<byte>)
  {
    if strings == [] then [] else strings[0] + [0] + StringBytes(strings[1..])
  }

  /** The string set: the strings and a final NUL, or two NULs when there
      are none. */
  function StringSet(strings: seq<Text>): (r: seq<byte>)
  {
    if strings == [] then [0, 0] else StringBytes(strings) + [0]
  }

  function EncodeStruct(s: Structure): (r: seq<byte>)
    requires ValidStructure(s)
    ensures |r| >= HEADER_SIZE + 2 && r[0] == s.typ && r[1] == HEADER_SIZE + |s.data|
  {
    [s.typ, HEADER_SIZE + |s.data|, s.handle % 256, s.handle / 256] + s.data + StringSet(s.strings)
  }

  function EncodeStructs(ss: seq<Structure>): (r: seq<byte>)
    requires ValidStructures(ss)
  {
    if ss == [] then [] else EncodeStruct(ss[0]) + EncodeStructs(ss[1..])
  }

  /** A double NUL is the first one from `i` when none starts before it. */
  lemma {:induction false} StringSetEndAt(t: seq<byte>, i: nat, j: nat)
    requires i <= j && DoubleNul(t, j)
    requires forall k :: i <= k < j ==> !DoubleNul(t, k)
    ensures StringSetEnd(t, i) == Some(j)
    decreases j - i
  {
    if i < j {
      StringSetEndAt(t, i + 1, j);
    }
  }

  /** Strings with their NULs hold no double NUL, start with a non-NUL
      byte and end with a NUL. */
  lemma {:induction false} StringBytesShape(strings: seq<Text>)
    ensures var b := StringBytes(strings);
      && (strings == [] <==> b == [])
      && (b != [] ==> b[0] != 0 && b[|b| - 1] == 0)
      && forall k :: 0 <= k ==> !DoubleNul(b, k)
  {
    if strings != [] {
      var head := strings[0] + [0];
      var tail := StringBytes(strings[1..]);
      StringBytesShape(strings[1..]);
      var b := head + tail;
      assert b == StringBytes(strings);
      assert b[0] == strings[0][0];
      forall k | 0 <= k && k + 1 < |b|
        ensures !DoubleNul(b, k)
      {
        if k + 1 < |head| {
          assert b[k] == strings[0][k];
        } else if k + 1 == |head| {
          assert b[k + 1] == tail[0];
        } else {
          assert b[k] == tail[k - |head|] && b[k + 1] == tail[k + 1 - |head|];
          assert !DoubleNul(tail, k - |head|);
        }
      }
    }
  }

  /** The walk finds the double NUL that closes an encoded string set. */
  lemma StringSetEnds(pre: seq<byte>, strings: seq<Text>, rest: seq<byte>)
    ensures |StringSet(strings)| >= 2
    ensures StringSetEnd(pre + StringSet(strings) + rest, |pre|) == Some(|pre| + |StringSet(strings)| - 2)
  {
    var t := pre + StringSet(strings) + rest;
    var set_ := StringSet(strings);
    StringBytesShape(strings);
    var j := |pre| + |set_| - 2;
    if strings != [] {
      var b := StringBytes(strings);
      forall k | |pre| <= k < j
        ensures !DoubleNul(t, k)
      {
        assert t[k] == b[k - |pre|] && t[k + 1] == b[k + 1 - |pre|];
        assert !DoubleNul(b, k - |pre|);
      }
      assert t[j] == b[|b| - 1];
    }
    assert t[j] == set_[|set_| - 2] && t[j + 1] == set_[|set_| - 1];
    StringSetEndAt(t, |pre|, j);
  }

  /** The walk steps from an encoded structure to the byte after it. */
  lemma NextEncoded(pre: seq<byte>, s: Structure, rest: seq<byte>)
    requires ValidStructure(s)
    ensures NextStruct(pre + EncodeStruct(s) + rest, |pre|) == Some(|pre| + |EncodeStruct(s)|)
  {
    var e := EncodeStruct(s);
    var head := [s.typ, HEADER_SIZE + |s.data|, s.handle % 256, s.handle / 256] + s.data;
    assert e == head + StringSet(s.strings);
    var t := pre + e + rest;
    assert t == (pre + head) + StringSet(s.strings) + rest;
    assert t[|pre| + 1] == e[1];
    StringSetEnds(pre + head, s.strings, rest);
  }

  /** The index of the first of the first `n` structures of type `typ`. */
  function FirstOfType(ss: seq<Structure>, n: nat, typ: nat): (r: Option<nat>)
    requires n <= |ss|
    ensures r.Some? ==> r.value < n && ss[r.value].typ == typ
    ensures r.Some? ==> forall j :: 0 <= j < r.value ==> ss[j].typ != typ
    ensures r.None? ==> forall j :: 0 <= j < n ==> ss[j].typ != typ
  {
    if n == 0 then None
    else if ss[0].typ == typ then Some(0)
    else match FirstOfType(ss[1..], n - 1, typ)
      case None => None
      case Some(k) => Some(k + 1)
  }

  lemma EncodeStructsTake(ss: seq<Structure>, k: nat)
    requires ValidStructures(ss) && 0 < k <= |ss|
    ensures ValidStructures(ss[..k]) && ValidStructures(ss[1..]) && ValidStructures(ss[1..][..k - 1])
    ensures EncodeStructs(ss[..k]) == EncodeStruct(ss[0]) + EncodeStructs(ss[1..][..k - 1])
  {
    assert ss[..k][1..] == ss[1..][..k - 1];
  }

  /** Where the walk over the first `n` encoded structures should end. */
  function Expect(ss: seq<Structure>, n: nat, typ: nat, base: nat): Find
    requires ValidStructures(ss) && n <= |ss|
  {
    match FirstOfType(ss, n, typ)
    case None => NotFound
    case Some(k) => Found(base + |EncodeStructs(ss[..k])|)
  }

  lemma ExpectSkip(ss: seq<Structure>, n: nat, typ: nat, base: nat)
    requires ValidStructures(ss) && 0 < n <= |ss| && ss[0].typ != typ
    ensures ValidStructures(ss[1..])
    ensures Expect(ss, n, typ, base) == Expect(ss[1..], n - 1, typ, base + |EncodeStruct(ss[0])|)
  {
    var f := FirstOfType(ss[1..], n - 1, typ);
    if f.Some? {
      var k := f.value;
      assert FirstOfType(ss, n, typ) == Some(k + 1);
      EncodeStructsTake(ss, k + 1);
    } else {
      assert FirstOfType(ss, n, typ) == None;
    }
  }

  lemma FindStep(t: seq<byte>, off: nat, n: nat, typ: nat, next: nat)
    requires n > 0 && off < |t| && t[off] != typ && NextStruct(t, off) == Some(next)
    ensures FindFrom(t, off, n, typ) == FindFrom(t, next, n - 1, typ)
  {
  }

  /** Bytes `x` lie in `t` from `off` on. */
  predicate At(t: seq<byte>, off: nat, x: seq<byte>)
  {
    off + |x| <= |t| && t[off..off + |x|] == x
  }

  lemma AtSplit(t: seq<byte>, off: nat, x: seq<byte>, y: seq<byte>)
    requires At(t, off, x + y)
    ensures At(t, off, x) && At(t, off + |x|, y)
  {
    assert t[off..off + |x|] == (x + y)[..|x|];
    assert t[off + |x|..off + |x| + |y|] == (x + y)[|x|..];
  }

  /** The walk steps over a structure lying in the table. */
  lemma NextAt(t: seq<byte>, off: nat, s: Structure)
    requires ValidStructure(s) && At(t, off, EncodeStruct(s))
    ensures t[off] == s.typ
    ensures NextStruct(t, off) == Some(off + |EncodeStruct(s)|)
  {
    var e := EncodeStruct(s);
    assert t == t[..off] + e + t[off + |e|..];
    assert t[off] == e[0];
    NextEncoded(t[..off], s, t[off + |e|..]);
  }

  /** The structures `ss` follow each other in `t` from `off` on, as the
      walk sees them: each starts with its type and the walk steps over
      its encoding. */
  predicate Chain(t: seq<byte>, off: nat, ss: seq<Structure>)
    requires ValidStructures(ss)
    decreases |ss|
  {
    ss == [] ||
      (off < |t| && t[off] == ss[0].typ
       && NextStruct(t, off) == Some(off + |EncodeStruct(ss[0])|)
       && Chain(t, off + |EncodeStruct(ss[0])|, ss[1..]))
  }

  lemma ChainTail(t: seq<byte>, off: nat, ss: seq<Structure>)
    requires ValidStructures(ss) && ss != [] && Chain(t, off, ss)
    ensures off < |t| && t[off] == ss[0].typ
    ensures NextStruct(t, off) == Some(off + |EncodeStruct(ss[0])|)
    ensures ValidStructures(ss[1..]) && Chain(t, off + |EncodeStruct(ss[0])|, ss[1..])
  {
  }

  /** The walk stops at the first structure when it has the type. */
  lemma FindHit(t: seq<byte>, off: nat, ss: seq<Structure>, n: nat, typ: nat)
    requires ValidStructures(ss) && 0 < n <= |ss| && off < |t| && ss[0].typ == typ && t[off] == typ
    ensures FindFrom(t, off, n, typ) == Found(off) == Expect(ss, n, typ, off)
  {
    assert FirstOfType(ss, n, typ) == Some(0);
    assert ss[..0] == [];
  }

  /** Encoded structures lying in the table form a chain. */
  lemma {:induction false} ChainAt(t: seq<byte>, off: nat, ss: seq<Structure>)
    requires ValidStructures(ss) && At(t, off, EncodeStructs(ss))
    ensures Chain(t, off, ss)
    decreases |ss|
  {
    if ss != [] {
      var e := EncodeStruct(ss[0]);
      var tail := EncodeStructs(ss[1..]);
      assert EncodeStructs(ss) == e + tail;
      AtSplit(t, off, e, tail);
      NextAt(t, off, ss[0]);
      ChainAt(t, off + |e|, ss[1..]);
    }
  }

  /** The walk over the first `n` structures of a chain. */
  lemma {:induction false} FindChain(t: seq<byte>, off: nat, ss: seq<Structure>, n: nat, typ: nat)
    requires ValidStructures(ss) && n <= |ss| && Chain(t, off, ss)
    ensures FindFrom(t, off, n, typ) == Expect(ss, n, typ, off)
    decreases n
  {
    if n > 0 {
      ChainTail(t, off, ss);
      if ss[0].typ == typ {
        FindHit(t, off, ss, n, typ);
      } else {
        var next := off + |EncodeStruct(ss[0])|;
        FindStep(t, off, n, typ, next);
        ExpectSkip(ss, n, typ, off);
        FindChain(t, next, ss[1..], n - 1, typ);
      }
    }
  }

  /** On a table of encoded structures, the walk over the first `n`
      returns the first one of type `typ`, or reports none. */
  lemma FindEncoded(pre: seq<byte>, ss: seq<Structure>, rest: seq<byte>, n: nat, typ: nat)
    requires ValidStructures(ss) && n <= |ss|
    ensures FindFrom(pre + EncodeStructs(ss) + rest, |pre|, n, typ) == Expect(ss, n, typ, |pre|)
  {
    var t := pre + EncodeStructs(ss) + rest;
    assert t[|pre|..|pre| + |EncodeStructs(ss)|] == EncodeStructs(ss);
    ChainAt(t, |pre|, ss);
    FindChain(t, |pre|, ss, n, typ);
  }
}
