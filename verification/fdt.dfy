/** The kernel stub's flattened-device-tree lookup (kernel-stub/fdt.c): the
    "compatible" property of the root node, read straight from a device
    tree blob, and the comparison of a built-in tree with the firmware's. */
module Fdt {
  import opened Wrappers
  import opened Bytes
  import opened CLib
  import Efi

  const FDT_MAGIC: nat := 0xd00dfeed
  const FDT_BEGIN_NODE: nat := 1
  const FDT_END_NODE: nat := 2
  const FDT_PROP: nat := 3
  const FDT_NOP: nat := 4

  /** "compatible", the property name the lookup searches for. */
  const COMPATIBLE: seq<byte> := [0x63, 0x6f, 0x6d, 0x70, 0x61, 0x74, 0x69, 0x62, 0x6c, 0x65]

  /** A big-endian 32-bit word of the blob (`BE32_TO_HOST`). */
  function Be32(s: seq<byte>, off: nat): (r: nat)
    requires off + 4 <= |s|
    ensures r < TWO_32
  {
    ((s[off] as nat * 256 + s[off + 1] as nat) * 256 + s[off + 2] as nat) * 256 + s[off + 3] as nat
  }

  /** The word at `off`, or nothing when it lies beyond the blob. */
  function WordAt(s: seq<byte>, off: nat): (r: Option<nat>)
    ensures r.Some? <==> off + 4 <= |s|
    ensures r.Some? ==> r.value < TWO_32
  {
    if off + 4 <= |s| then Some(Be32(s, off)) else None
  }

  /** The NUL-terminated string starting at `off` (cut at the end of the
      blob; a start beyond the blob reads as the empty string). */
  function StringAt(s: seq<byte>, off: nat): (r: seq<byte>)
    ensures forall i :: 0 <= i < |r| ==> off + i < |s| && r[i] == s[off + i]
    ensures off + |r| < |s| ==> s[off + |r|] == 0
    ensures 0 !in r
  {
    if off <= |s| then
      var r := CStr(s[off..]);
      assert forall i :: 0 <= i < |r| ==> r[i] == s[off..][i];
      assert off + |r| < |s| ==> s[off + |r|] == s[off..][|r|];
      r
    else []
  }

  /** `strcmpa(s + off, name) == 0` for a NUL-free `name`: the bytes of
      `name` followed by a NUL (a string running off the blob matches
      nothing). */
  predicate NameAt(s: seq<byte>, off: nat, name: seq<byte>)
  {
    && off + |name| < |s|
    && (forall i :: 0 <= i < |name| ==> s[off + i] == name[i])
    && s[off + |name|] == 0
  }

  /** A PROP token at `p` whose name, looked up in the strings block at
      `strings`, is "compatible". */
  predicate CompatibleProp(s: seq<byte>, strings: nat, p: nat)
  {
    && WordAt(s, p) == Some(FDT_PROP)
    && WordAt(s, p + 8).Some?
    && NameAt(s, strings + WordAt(s, p + 8).value, COMPATIBLE)
  }

  /** The property scan of `get_compatible_from_fdt` from the token at
      `pos`: a PROP named "compatible" yields the offset of its value, any
      other PROP is skipped with its value padded to whole words (the length
      plus 3 computed in 32 bits), NOP is skipped, and every other token ends
      the scan with nothing. */
  function ScanProps(s: seq<byte>, strings: nat, pos: nat): (r: Option<nat>)
    ensures r.Some? ==> pos + 12 <= r.value <= |s|
    ensures WordAt(s, pos).Some? && WordAt(s, pos).value !in {FDT_PROP, FDT_NOP} ==> r.None?
    decreases |s| - pos
  {
    match WordAt(s, pos)
    case None => None
    case Some(token) =>
      if token == FDT_PROP then
        match (WordAt(s, pos + 4), WordAt(s, pos + 8))
        case (Some(len), Some(nameoff)) =>
          if CompatibleProp(s, strings, pos) then Some(pos + 12)
          else ScanProps(s, strings, pos + 12 + 4 * (Wrap32(len + 3) / 4))
        case _ => None
      else if token == FDT_NOP then ScanProps(s, strings, pos + 4)
      else None
  }

  /** What the scan finds is a "compatible" property. */
  lemma {:induction false} ScanPropsFinds(s: seq<byte>, strings: nat, pos: nat)
    ensures ScanProps(s, strings, pos).Some? ==>
      CompatibleProp(s, strings, ScanProps(s, strings, pos).value - 12)
    decreases |s| - pos
  {
    var w, len, nameoff := WordAt(s, pos), WordAt(s, pos + 4), WordAt(s, pos + 8);
    if w.Some? && w.value == FDT_PROP && len.Some? && nameoff.Some? {
      if CompatibleProp(s, strings, pos) {
        assert ScanProps(s, strings, pos) == Some(pos + 12);
      } else {
        var next := pos + 12 + 4 * (Wrap32(len.value + 3) / 4);
        assert ScanProps(s, strings, pos) == ScanProps(s, strings, next);
        ScanPropsFinds(s, strings, next);
      }
    } else if w.Some? && w.value == FDT_NOP {
      assert ScanProps(s, strings, pos) == ScanProps(s, strings, pos + 4);
      ScanPropsFinds(s, strings, pos + 4);
    } else {
      assert ScanProps(s, strings, pos).None?;
    }
  }

  /** The header conditions `get_compatible_from_fdt` checks: the magic,
      and a structure block opening with the root node (BEGIN_NODE with an
      empty, zero-padded name). */
  predicate RootHeader(s: seq<byte>)
  {
    && WordAt(s, 0) == Some(FDT_MAGIC)
    && WordAt(s, 8).Some?
    && WordAt(s, WordAt(s, 8).value) == Some(FDT_BEGIN_NODE)
    && WordAt(s, WordAt(s, 8).value + 4) == Some(0)
    && WordAt(s, 12).Some?
  }

  /** `get_compatible_from_fdt`: the offset of the root's first
      "compatible" value, or nothing. */
  function CompatibleOffset(s: seq<byte>): (r: Option<nat>)
    ensures !RootHeader(s) ==> r.None?
    ensures RootHeader(s) ==>
      r == ScanProps(s, WordAt(s, 12).value, WordAt(s, 8).value + 8)
  {
    match (WordAt(s, 0), WordAt(s, 8), WordAt(s, 12))
    case (Some(magic), Some(structs), Some(strings)) =>
      if magic != FDT_MAGIC then None
      else if WordAt(s, structs) != Some(FDT_BEGIN_NODE) || WordAt(s, structs + 4) != Some(0) then None
      else ScanProps(s, strings, structs + 8)
    case _ => None
  }

  /** The compatible string itself. */
  function Compatible(s: seq<byte>): (r: Option<seq<byte>>)
    ensures r.Some? <==> CompatibleOffset(s).Some?
    ensures r.Some? ==> 0 !in r.value
  {
    match CompatibleOffset(s)
    case None => None
    case Some(off) => Some(StringAt(s, off))
  }

  /** `get_fdt_compatible`: the firmware's device tree, when there is one,
      must yield a compatible string (otherwise the stub exits with
      INVALID_PARAMETER); without a firmware tree there is none. */
  function FirmwareCompatible(firmware: Option<seq<byte>>): (r: Result<Option<seq<byte>>, Efi.Status>)
    ensures firmware.None? ==> r == Success(None)
    ensures firmware.Some? && Compatible(firmware.value).None? ==> r == Failure(Efi.InvalidParameter)
    ensures r.Success? && firmware.Some? ==> r.value == Compatible(firmware.value)
  {
    match firmware
    case None => Success(None)
    case Some(fdt) =>
      match Compatible(fdt)
      case None => Failure(Efi.InvalidParameter)
      case Some(c) => Success(Some(c))
  }

  /** `match_fdt`: a built-in tree matches when its compatible string
      equals the firmware's; a missing firmware string is fatal with
      NOT_FOUND and an invalid built-in tree with INVALID_PARAMETER. */
  function MatchFdt(fdt: seq<byte>, compatible: Option<seq<byte>>): (r: Result<bool, Efi.Status>)
    ensures compatible.None? <==> r == Failure(Efi.NotFound)
    ensures compatible.Some? && Compatible(fdt).None? <==> r == Failure(Efi.InvalidParameter)
    ensures r.Success? <==> compatible.Some? && Compatible(fdt).Some?
    ensures r.Success? ==> (r.value <==> compatible.value == Compatible(fdt).value)
  {
    if compatible.None? then Failure(Efi.NotFound)
    else
      match Compatible(fdt)
      case None => Failure(Efi.InvalidParameter)
      case Some(alt) => Success(compatible.value == alt)
  }

  // ---------------------------------------------------------------------
  // A structured view of the root node's leading tokens and its encoding.

  /** A token before the first child node: a property (the offset of its
      name in the strings block and its value) or a NOP. */
  datatype Item = PropItem(nameoff: nat, value: seq<byte>) | NopItem

  predicate WellFormed(items: seq<Item>)
  {
    forall i :: 0 <= i < |items| ==>
      items[i].PropItem? ==> items[i].nameoff < TWO_32 && |items[i].value| + 3 < TWO_32
  }

  /** The four big-endian bytes of a 32-bit value. */
  function Be32Bytes(v: nat): (r: seq<byte>)
    requires v < TWO_32
    ensures |r| == 4 && Be32(r, 0) == v
  {
    var q1 := v / 256;
    var q2 := q1 / 256;
    assert v == q1 * 256 + v % 256 && q1 == q2 * 256 + q1 % 256 && q2 == (q2 / 256) * 256 + q2 % 256;
    [q2 / 256, q2 % 256, q1 % 256, v % 256]
  }

  /** A value followed by zero bytes up to a multiple of four. */
  function Padded(v: seq<byte>): (r: seq<byte>)
    ensures |r| == 4 * ((|v| + 3) / 4) && r[..|v|] == v
  {
    v + Zeros(4 * ((|v| + 3) / 4) - |v|)
  }

  function EncodeItem(it: Item): (r: seq<byte>)
    requires it.PropItem? ==> it.nameoff < TWO_32 && |it.value| < TWO_32
    ensures |r| >= 4
  {
    match it
    case NopItem => Be32Bytes(FDT_NOP)
    case PropItem(nameoff, value) =>
      Be32Bytes(FDT_PROP) + Be32Bytes(|value|) + Be32Bytes(nameoff) + Padded(value)
  }

  function EncodeItems(items: seq<Item>): (r: seq<byte>)
    requires WellFormed(items)
  {
    if items == [] then [] else EncodeItem(items[0]) + EncodeItems(items[1..])
  }

  /** The words an item's encoding starts with, read at `p`: its token,
      and for a property the value's length and the name's offset. */
  predicate ItemWordsAt(s: seq<byte>, p: nat, it: Item)
  {
    match it
    case NopItem => WordAt(s, p) == Some(FDT_NOP)
    case PropItem(nameoff, value) =>
      WordAt(s, p) == Some(FDT_PROP) && WordAt(s, p + 4) == Some(|value|) && WordAt(s, p + 8) == Some(nameoff)
  }

  /** Whether an item is a property named "compatible" in blob `s`. */
  predicate IsCompatible(s: seq<byte>, strings: nat, it: Item)
  {
    it.PropItem? && NameAt(s, strings + it.nameoff, COMPATIBLE)
  }

  /** The index of the first "compatible" property, if any. */
  function FirstCompatible(s: seq<byte>, strings: nat, items: seq<Item>): (r: Option<nat>)
    ensures r.Some? ==> r.value < |items|
  {
    if items == [] then None
    else if IsCompatible(s, strings, items[0]) then Some(0)
    else match FirstCompatible(s, strings, items[1..])
      case None => None
      case Some(k) => Some(k + 1)
  }

  /** `FirstCompatible` names a "compatible" item with none before it, and
      nothing only when no item is "compatible". */
  lemma {:induction false} FirstCompatibleIsFirst(s: seq<byte>, strings: nat, items: seq<Item>)
    ensures var r := FirstCompatible(s, strings, items);
      && (r.Some? ==> IsCompatible(s, strings, items[r.value]))
      && (r.Some? ==> forall j :: 0 <= j < r.value ==> !IsCompatible(s, strings, items[j]))
      && (r.None? ==> forall j :: 0 <= j < |items| ==> !IsCompatible(s, strings, items[j]))
    decreases |items|
  {
    if items != [] && !IsCompatible(s, strings, items[0]) {
      FirstCompatibleIsFirst(s, strings, items[1..]);
      assert forall j :: 1 <= j < |items| ==> items[j] == items[1..][j - 1];
    }
  }

  /** A word inside a part of a concatenation is the part's word. */
  lemma WordInside(pre: seq<byte>, x: seq<byte>, post: seq<byte>, k: nat)
    requires k + 4 <= |x|
    ensures WordAt(pre + x + post, |pre| + k) == WordAt(x, k)
  {
    var s := pre + x + post;
    assert s[|pre| + k] == x[k] && s[|pre| + k + 1] == x[k + 1];
    assert s[|pre| + k + 2] == x[k + 2] && s[|pre| + k + 3] == x[k + 3];
  }

  /** The encoding of the first `k` items followed by item `k`. */
  lemma EncodeTake(items: seq<Item>, k: nat)
    requires WellFormed(items) && k < |items|
    ensures WellFormed(items[1..]) && WellFormed(items[..k + 1]) && WellFormed(items[1..][..k])
    ensures EncodeItems(items[..k + 1]) == EncodeItem(items[0]) + EncodeItems(items[1..][..k])
  {
    assert items[..k + 1][1..] == items[1..][..k];
  }

  /** One scan step over a NOP token. */
  lemma ScanNop(s: seq<byte>, strings: nat, p: nat)
    requires WordAt(s, p) == Some(FDT_NOP)
    ensures ScanProps(s, strings, p) == ScanProps(s, strings, p + 4)
  {
  }

  /** One scan step over a PROP token whose length does not wrap. */
  lemma ScanProp(s: seq<byte>, strings: nat, p: nat, len: nat, n: nat)
    requires WordAt(s, p) == Some(FDT_PROP) && WordAt(s, p + 4) == Some(len) && WordAt(s, p + 8) == Some(n)
    requires len + 3 < TWO_32
    ensures ScanProps(s, strings, p) ==
      if NameAt(s, strings + n, COMPATIBLE) then Some(p + 12)
      else ScanProps(s, strings, p + 12 + 4 * ((len + 3) / 4))
  {
  }

  /** The three header words of an encoded property. */
  lemma PropItemWords(it: Item)
    requires it.PropItem? && it.nameoff < TWO_32 && |it.value| < TWO_32
    ensures var e := EncodeItem(it);
      WordAt(e, 0) == Some(FDT_PROP) && WordAt(e, 4) == Some(|it.value|) && WordAt(e, 8) == Some(it.nameoff)
  {
    var e := EncodeItem(it);
    assert WordAt(e, 0) == Some(FDT_PROP) by { assert e[..4] == Be32Bytes(FDT_PROP); }
    assert WordAt(e, 4) == Some(|it.value|) by { assert e[4..8] == Be32Bytes(|it.value|); }
    assert WordAt(e, 8) == Some(it.nameoff) by { assert e[8..12] == Be32Bytes(it.nameoff); }
  }


  /** Where the scan of an item list ends up: at the value of the first
      "compatible" property, or nowhere. */
  function Found(s: seq<byte>, strings: nat, base: nat, items: seq<Item>): Option<nat>
    requires WellFormed(items)
  {
    match FirstCompatible(s, strings, items)
    case None => None
    case Some(k) => Some(base + |EncodeItems(items[..k])| + 12)
  }

  /** A "compatible" first item is found right after its three words. */
  lemma FoundHead(s: seq<byte>, strings: nat, base: nat, items: seq<Item>)
    requires WellFormed(items) && items != [] && IsCompatible(s, strings, items[0])
    ensures Found(s, strings, base, items) == Some(base + 12)
  {
    assert items[..0] == [];
  }

  /** Skipping an item that is not "compatible" moves the base of the
      remaining items by its encoding. */
  lemma FoundSkip(s: seq<byte>, strings: nat, base: nat, items: seq<Item>)
    requires WellFormed(items) && items != [] && !IsCompatible(s, strings, items[0])
    ensures WellFormed(items[1..])
    ensures Found(s, strings, base, items) == Found(s, strings, base + |EncodeItem(items[0])|, items[1..])
  {
    if FirstCompatible(s, strings, items[1..]).Some? {
      EncodeTake(items, FirstCompatible(s, strings, items[1..]).value);
    }
  }

  /** The same answer item by item: the value of a "compatible" first
      item lies right after its three words, and any other item is stepped
      over by its encoding. */
  function ScanFound(s: seq<byte>, strings: nat, base: nat, items: seq<Item>): Option<nat>
    requires WellFormed(items)
    decreases |items|
  {
    if items == [] then None
    else if IsCompatible(s, strings, items[0]) then Some(base + 12)
    else ScanFound(s, strings, base + |EncodeItem(items[0])|, items[1..])
  }

  /** Stepping over the items one at a time finds what `Found` says. */
  lemma {:induction false} ScanFoundIsFound(s: seq<byte>, strings: nat, base: nat, items: seq<Item>)
    requires WellFormed(items)
    ensures ScanFound(s, strings, base, items) == Found(s, strings, base, items)
    decreases |items|
  {
    if items != [] {
      if IsCompatible(s, strings, items[0]) {
        FoundHead(s, strings, base, items);
      } else {
        FoundSkip(s, strings, base, items);
        ScanFoundIsFound(s, strings, base + |EncodeItem(items[0])|, items[1..]);
      }
    }
  }

  /** The scan step over an encoded property, given the scan of the items
      after it. */
  lemma PropStep(s: seq<byte>, strings: nat, p: nat, items: seq<Item>)
    requires WellFormed(items) && items != [] && items[0].PropItem?
    requires WordAt(s, p) == Some(FDT_PROP)
    requires WordAt(s, p + 4) == Some(|items[0].value|) && WordAt(s, p + 8) == Some(items[0].nameoff)
    requires WellFormed(items[1..])
    requires !IsCompatible(s, strings, items[0]) ==>
      ScanProps(s, strings, p + |EncodeItem(items[0])|) == ScanFound(s, strings, p + |EncodeItem(items[0])|, items[1..])
    ensures ScanProps(s, strings, p) == ScanFound(s, strings, p, items)
  {
    var len := |items[0].value|;
    assert |EncodeItem(items[0])| == 12 + 4 * ((len + 3) / 4);
    ScanProp(s, strings, p, len, items[0].nameoff);
  }

  /** The scan step over the first encoded item, given the scan of the
      items after it: the blob holds that item's words at `p`. */
  lemma ScanHead(s: seq<byte>, strings: nat, p: nat, items: seq<Item>)
    requires WellFormed(items) && items != []
    requires ItemWordsAt(s, p, items[0])
    requires !IsCompatible(s, strings, items[0]) ==>
      ScanProps(s, strings, p + |EncodeItem(items[0])|) == ScanFound(s, strings, p + |EncodeItem(items[0])|, items[1..])
    ensures ScanProps(s, strings, p) == ScanFound(s, strings, p, items)
  {
    if items[0].NopItem? {
      ScanNop(s, strings, p);
    } else {
      PropStep(s, strings, p, items);
    }
  }

  /** The encoding of a non-empty run is its first item's encoding
      followed by the rest's. */
  lemma EncodeItemsCons(items: seq<Item>)
    requires WellFormed(items) && items != []
    ensures WellFormed(items[1..])
    ensures EncodeItems(items) == EncodeItem(items[0]) + EncodeItems(items[1..])
  {
    assert WellFormed(items[1..]) by {
      forall i | 0 <= i < |items[1..]| ensures items[1..][i] == items[i + 1] { }
    }
  }

  /** A blob starting with an item's encoding starts with its words. */
  lemma HeadWords(it: Item, x: seq<byte>)
    requires it.PropItem? ==> it.nameoff < TWO_32 && |it.value| < TWO_32
    ensures ItemWordsAt(EncodeItem(it) + x, 0, it)
  {
    var e := EncodeItem(it);
    WordInside([], e, x, 0);
    assert [] + e + x == e + x;
    if it.PropItem? {
      PropItemWords(it);
      WordInside([], e, x, 4);
      WordInside([], e, x, 8);
    } else {
      assert e == Be32Bytes(FDT_NOP);
    }
  }

  /** The blob holds the words of each item of a run, one after another
      from `p`: the token of every item, and the length and name offset of
      every property. */
  predicate Laid(s: seq<byte>, p: nat, items: seq<Item>)
    requires WellFormed(items)
    decreases |items|
  {
    items == [] ||
    (ItemWordsAt(s, p, items[0]) && Laid(s, p + |EncodeItem(items[0])|, items[1..]))
  }

  /** Words laid out in `t` are laid out the same in `pre + t`, moved by
      the length of `pre`. */
  lemma {:induction false} LaidShift(pre: seq<byte>, t: seq<byte>, p: nat, items: seq<Item>)
    requires WellFormed(items) && Laid(t, p, items)
    ensures Laid(pre + t, |pre| + p, items)
    decreases |items|
  {
    if items != [] {
      EncodeItemsCons(items);
      ItemWordsShift(pre, t, p, items[0]);
      LaidShift(pre, t, p + |EncodeItem(items[0])|, items[1..]);
    }
  }

  /** A word of `t` is the same word of `pre + t`, moved by `|pre|`. */
  lemma WordShift(pre: seq<byte>, t: seq<byte>, k: nat)
    ensures WordAt(pre + t, |pre| + k) == WordAt(t, k)
  {
    if k + 4 <= |t| {
      var s := pre + t;
      assert s[|pre| + k] == t[k] && s[|pre| + k + 1] == t[k + 1];
      assert s[|pre| + k + 2] == t[k + 2] && s[|pre| + k + 3] == t[k + 3];
    }
  }

  /** An item's words in `t` are its words in `pre + t`, moved by `|pre|`. */
  lemma ItemWordsShift(pre: seq<byte>, t: seq<byte>, p: nat, it: Item)
    requires ItemWordsAt(t, p, it)
    ensures ItemWordsAt(pre + t, |pre| + p, it)
  {
    WordShift(pre, t, p);
    if it.PropItem? {
      WordShift(pre, t, p + 4);
      WordShift(pre, t, p + 8);
    }
  }

  /** A blob starting with the encoding of a run holds its words. */
  lemma {:induction false} EncodedLaid(items: seq<Item>, post: seq<byte>)
    requires WellFormed(items)
    ensures Laid(EncodeItems(items) + post, 0, items)
    decreases |items|
  {
    if items != [] {
      EncodeItemsCons(items);
      var e, tail := EncodeItem(items[0]), EncodeItems(items[1..]) + post;
      assert EncodeItems(items) + post == e + tail;
      HeadWords(items[0], tail);
      EncodedLaid(items[1..], post);
      LaidShift(e, tail, 0, items[1..]);
    }
  }

  /** The scan over the words of a run of items, followed by a token
      that is neither PROP nor NOP, steps over the items one at a time. */
  lemma {:induction false} ScanItems(s: seq<byte>, strings: nat, p: nat, items: seq<Item>)
    requires WellFormed(items) && Laid(s, p, items)
    requires WordAt(s, p + |EncodeItems(items)|).Some?
    requires WordAt(s, p + |EncodeItems(items)|).value !in {FDT_PROP, FDT_NOP}
    ensures ScanProps(s, strings, p) == ScanFound(s, strings, p, items)
    decreases |items|
  {
    if items != [] {
      EncodeItemsCons(items);
      ScanItems(s, strings, p + |EncodeItem(items[0])|, items[1..]);
      ScanHead(s, strings, p, items);
    }
  }

  /** Scanning the encoding of the root's leading items, followed by a
      token that is neither PROP nor NOP, finds exactly the value of the
      first item named "compatible", and nothing when there is none. */
  lemma ScanEncoded(s: seq<byte>, strings: nat, pre: seq<byte>, items: seq<Item>, post: seq<byte>)
    requires WellFormed(items)
    requires s == pre + EncodeItems(items) + post
    requires WordAt(post, 0).Some? && WordAt(post, 0).value !in {FDT_PROP, FDT_NOP}
    ensures ScanProps(s, strings, |pre|) == Found(s, strings, |pre|, items)
  {
    EncodedLaid(items, post);
    LaidShift(pre, EncodeItems(items) + post, 0, items);
    assert s == pre + (EncodeItems(items) + post);
    assert s == (pre + EncodeItems(items)) + post + [];
    WordInside(pre + EncodeItems(items), post, [], 0);
    ScanItems(s, strings, |pre|, items);
    ScanFoundIsFound(s, strings, |pre|, items);
  }

  /** For a blob that passes the header checks and whose root node starts
      with the encoded items, `get_compatible_from_fdt` returns the value
      of the first item named "compatible", or null when none is. */
  lemma RootCompatible(s: seq<byte>, pre: seq<byte>, items: seq<Item>, post: seq<byte>)
    requires RootHeader(s) && |pre| == WordAt(s, 8).value + 8
    requires WellFormed(items) && s == pre + EncodeItems(items) + post
    requires WordAt(post, 0).Some? && WordAt(post, 0).value !in {FDT_PROP, FDT_NOP}
    ensures CompatibleOffset(s) == Found(s, WordAt(s, 12).value, |pre|, items)
  {
    ScanEncoded(s, WordAt(s, 12).value, pre, items, post);
  }
}
