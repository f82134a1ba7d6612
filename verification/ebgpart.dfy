/** The partition scanner of the tools (tools/ebgpart.c): it reads the
    MBR of a block device, follows extended boot records to the logical
    partitions, switches to the GPT when the MBR is protective, and names
    each partition's file system.

    The device is its bytes; a read fails when it would run past the
    end, and a seek to a negative offset fails.  Allocation failures and
    the verbose messages are left out. */
module EbgPart {
  import opened Wrappers
  import opened Bytes

  /** `LB_SIZE`: the logical block size. */
  const LB_SIZE: nat := 512

  const MBR_TYPE_GPT: byte := 0xEE
  const MBR_TYPE_FAT12: byte := 0x01
  const MBR_TYPE_FAT16A: byte := 0x04
  const MBR_TYPE_FAT16: byte := 0x06
  const MBR_TYPE_EXTENDED: byte := 0x05
  const MBR_TYPE_FAT32: byte := 0x0B
  const MBR_TYPE_FAT32_LBA: byte := 0x0C
  const MBR_TYPE_FAT16_LBA: byte := 0x0E
  const MBR_TYPE_EXTENDED_LBA: byte := 0x0F

  // ---------------------------------------------------------------------
  // GUID_to_str.

  /** The upper-case hex digit of a nibble. */
  function HexDigit(n: nat): (r: byte)
    requires n < 16
    ensures IsHexDigit(r) && HexValue(r) == n
  {
    if n < 10 then 48 + n else 55 + n
  }

  /** '0'..'9' and 'A'..'F'. */
  predicate IsHexDigit(c: byte)
  {
    48 <= c <= 57 || 65 <= c <= 70
  }

  function HexValue(c: byte): (r: nat)
    requires IsHexDigit(c)
    ensures r < 16
  {
    if c <= 57 then c - 48 else c - 55
  }

  /** The GUID's byte printed at text position `k` (of the 32 hex digit
      pairs' 16): `g[3] g[2] g[1] g[0] - g[5] g[4] - g[7] g[6] - g[8] g[9]
      - g[10] .. g[15]`. */
  function ByteOrder(k: nat): (r: nat)
    requires k < 16
    ensures r < 16
  {
    if k < 4 then 3 - k
    else if k < 6 then 9 - k
    else if k < 8 then 13 - k
    else k
  }

  /** Where the two digits of the `k`-th printed byte start. */
  function TextPos(k: nat): (r: nat)
    requires k < 16
    ensures r + 1 < 36 && !IsDash(r) && !IsDash(r + 1)
    ensures r - DashesBefore(r) == 2 * k && DashesBefore(r + 1) == DashesBefore(r)
  {
    2 * k + (if k >= 4 then 1 else 0) + (if k >= 6 then 1 else 0) + (if k >= 8 then 1 else 0) + (if k >= 10 then 1 else 0)
  }

  /** The positions of the four dashes. */
  predicate IsDash(i: nat)
  {
    i == 8 || i == 13 || i == 18 || i == 23
  }

  /** How many dashes come before position `i`. */
  function DashesBefore(i: nat): (r: nat)
    ensures r <= 4 && r <= i
  {
    (if i > 8 then 1 else 0) + (if i > 13 then 1 else 0) + (if i > 18 then 1 else 0) + (if i > 23 then 1 else 0)
  }

  /** The character at position `i` of the text of `g`. */
  function GuidChar(g: seq<byte>, i: nat): (r: byte)
    requires |g| >= 16 && i < 36
    ensures IsDash(i) <==> r == 45
    ensures !IsDash(i) ==> IsHexDigit(r)
  {
    if IsDash(i) then 45
    else
      var d := i - DashesBefore(i);
      var b := g[ByteOrder(d / 2)];
      HexDigit(if d % 2 == 0 then b / 16 else b % 16)
  }

  /** `GUID_to_str(g)`: "%02X%02X%02X%02X-%02X%02X-%02X%02X-%02X%02X-%02X%02X%02X%02X%02X%02X"
      over `g[3], g[2], g[1], g[0], g[5], g[4], g[7], g[6], g[8] .. g[15]`:
      36 characters, upper-case hex digits and four dashes. */
  function GuidToStr(g: seq<byte>): (r: seq<byte>)
    requires |g| >= 16
    ensures |r| == 36
    ensures forall i :: 0 <= i < 36 ==> (IsDash(i) <==> r[i] == 45)
    ensures forall i :: 0 <= i < 36 && !IsDash(i) ==> IsHexDigit(r[i])
  {
    seq(36, i requires 0 <= i < 36 => GuidChar(g, i))
  }

  /** The text of a GUID read back into its 16 bytes. */
  function StrToGuid(s: seq<byte>): (r: seq<byte>)
    requires |s| == 36 && forall i :: 0 <= i < 36 && !IsDash(i) ==> IsHexDigit(s[i])
    ensures |r| == 16
  {
    seq(16, j requires 0 <= j < 16 => var p := TextPos(ByteOrder(j)); (16 * HexValue(s[p]) + HexValue(s[p + 1])) as byte)
  }

  /** The `k`-th printed pair is the byte `g[ByteOrder(k)]`. */
  lemma GuidPair(g: seq<byte>, k: nat)
    requires |g| >= 16 && k < 16
    ensures var s := GuidToStr(g); var p := TextPos(k);
      s[p] == HexDigit(g[ByteOrder(k)] / 16) && s[p + 1] == HexDigit(g[ByteOrder(k)] % 16)
  {
    var s := GuidToStr(g);
    var p := TextPos(k);
    assert (p + 1) - DashesBefore(p + 1) == 2 * k + 1;
    assert (2 * k) / 2 == k && (2 * k) % 2 == 0;
    assert (2 * k + 1) / 2 == k && (2 * k + 1) % 2 == 1;
    assert s[p] == GuidChar(g, p);
    assert s[p + 1] == GuidChar(g, p + 1);
  }

  /** `ByteOrder` is its own inverse. */
  lemma ByteOrderInvolution(k: nat)
    requires k < 16
    ensures ByteOrder(ByteOrder(k)) == k
  {
  }

  /** The text determines the GUID: reading it back gives the 16 bytes. */
  lemma GuidRoundTrip(g: seq<byte>)
    requires |g| == 16
    ensures StrToGuid(GuidToStr(g)) == g
  {
    var s := GuidToStr(g);
    forall j | 0 <= j < 16
      ensures StrToGuid(s)[j] == g[j]
    {
      ByteOrderInvolution(j);
      GuidPair(g, ByteOrder(j));
    }
  }

  /** Two GUIDs have the same text only when they are the same. */
  lemma GuidTextInjective(g: seq<byte>, h: seq<byte>)
    requires |g| == 16 && |h| == 16 && GuidToStr(g) == GuidToStr(h)
    ensures g == h
  {
    GuidRoundTrip(g);
    GuidRoundTrip(h);
  }

  // ---------------------------------------------------------------------
  // The partition type GUIDs.

  /** `GPT_PARTITION_GUID_FAT_NTFS`, the basic data partition, as the
      bytes on disk. */
  const FAT_NTFS_GUID: seq<byte> :=
    [0xA2, 0xA0, 0xD0, 0xEB, 0xE5, 0xB9, 0x33, 0x44, 0x87, 0xC0, 0x68, 0xB6, 0xB7, 0x26, 0x99, 0xC7]

  /** `GPT_PARTITION_GUID_ESP`, the EFI system partition. */
  const ESP_GUID: seq<byte> :=
    [0x28, 0x73, 0x2A, 0xC1, 0x1F, 0xF8, 0xD2, 0x11, 0xBA, 0x4B, 0x00, 0xA0, 0xC9, 0x3E, 0xC9, 0x3B]

  /** The texts the source compares with, "EBD0A0A2-B9E5-4433-87C0-68B6B72699C7"
      and "C12A7328-F81F-11D2-BA4B-00A0C93EC93B": the GUIDs above as
      `GuidToStr` prints them. */
  const FAT_NTFS_TEXT: seq<byte> := GuidToStr(FAT_NTFS_GUID)
  const ESP_TEXT: seq<byte> := GuidToStr(ESP_GUID)

  /** The test of `check_GPT_FAT_entry`: the type GUID's text is one of
      the two. */
  predicate IsFatGuid(g: seq<byte>)
    requires |g| >= 16
  {
    GuidToStr(g) == FAT_NTFS_TEXT || GuidToStr(g) == ESP_TEXT
  }

  /** Comparing the texts is comparing the bytes. */
  lemma FatGuidBytes(g: seq<byte>)
    requires |g| == 16
    ensures IsFatGuid(g) <==> g == FAT_NTFS_GUID || g == ESP_GUID
  {
    if GuidToStr(g) == FAT_NTFS_TEXT { GuidTextInjective(g, FAT_NTFS_GUID); }
    if GuidToStr(g) == ESP_TEXT { GuidTextInjective(g, ESP_GUID); }
  }

  // ---------------------------------------------------------------------
  // type_to_name.

  /** The file system names the scanner gives a partition: "fat12",
      "fat16", "fat32", "extended" and "not supported". */
  datatype FsType = Fat12 | Fat16 | Fat32 | Extended | NotSupported

  /** `type_to_name(t)`: the name of an MBR partition type. */
  function TypeToName(t: byte): FsType
  {
    if t == MBR_TYPE_FAT12 then Fat12
    else if t == MBR_TYPE_FAT16A || t == MBR_TYPE_FAT16 || t == MBR_TYPE_FAT16_LBA then Fat16
    else if t == MBR_TYPE_FAT32 || t == MBR_TYPE_FAT32_LBA then Fat32
    else if t == MBR_TYPE_EXTENDED || t == MBR_TYPE_EXTENDED_LBA then Extended
    else NotSupported
  }

  /** The known MBR type codes and their names, as a table. */
  const TYPE_TABLE: seq<(byte, FsType)> :=
    [(0x01, Fat12), (0x04, Fat16), (0x06, Fat16), (0x0E, Fat16), (0x0B, Fat32),
     (0x0C, Fat32), (0x05, Extended), (0x0F, Extended)]

  /** `type_to_name` is the table: a listed code gets its listed name,
      every other code is "not supported". */
  lemma TypeToNameTable(t: byte)
    ensures TypeToName(t) == NotSupported <==> forall k :: 0 <= k < |TYPE_TABLE| ==> TYPE_TABLE[k].0 != t
    ensures forall k :: 0 <= k < |TYPE_TABLE| && TYPE_TABLE[k].0 == t ==> TypeToName(t) == TYPE_TABLE[k].1
  {
    if TypeToName(t) == NotSupported {
      forall k | 0 <= k < |TYPE_TABLE|
        ensures TYPE_TABLE[k].0 != t
      {
      }
    } else {
      var k :| 0 <= k < |TYPE_TABLE| && TYPE_TABLE[k].0 == t by {
        if t == 0x01 { assert TYPE_TABLE[0].0 == t; }
        else if t == 0x04 { assert TYPE_TABLE[1].0 == t; }
        else if t == 0x06 { assert TYPE_TABLE[2].0 == t; }
        else if t == 0x0E { assert TYPE_TABLE[3].0 == t; }
        else if t == 0x0B { assert TYPE_TABLE[4].0 == t; }
        else if t == 0x0C { assert TYPE_TABLE[5].0 == t; }
        else if t == 0x05 { assert TYPE_TABLE[6].0 == t; }
        else { assert TYPE_TABLE[7].0 == t; }
      }
    }
  }

  /** The two codes the scanners follow as extended partitions. */
  predicate IsExtendedType(t: byte)
  {
    t == MBR_TYPE_EXTENDED || t == MBR_TYPE_EXTENDED_LBA
  }

  /** The scanners follow exactly the partitions named "extended". */
  lemma ExtendedByName(t: byte)
    ensures IsExtendedType(t) <==> TypeToName(t) == Extended
  {
  }

  // ---------------------------------------------------------------------
  // Reading the device.

  /** `lseek64` to `off` and `read` of `n` bytes: a negative offset makes
      the seek fail, a short read past the end of the device fails. */
  function ReadAt(disk: seq<byte>, off: int, n: nat): (r: Option<seq<byte>>)
    ensures r.Some? <==> 0 <= off && off + n <= |disk|
    ensures r.Some? ==> |r.value| == n && r.value == disk[off..off + n]
  {
    if 0 <= off && off + n <= |disk| then Some(disk[off..off + n]) else None
  }

  /** A `uint64_t` stored in an `off64_t`: values from 2^63 on are
      negative. */
  function ToOff64(x: nat): (r: int)
    requires x < TWO_64
    ensures -0x8000_0000_0000_0000 <= r < 0x8000_0000_0000_0000
    ensures (r + TWO_64) % TWO_64 == x
  {
    if x < 0x8000_0000_0000_0000 then x else x - TWO_64
  }

  // ---------------------------------------------------------------------
  // check_GPT_FAT_entry.

  /** `sizeof(struct EFIpartitionentry)`; the type GUID is its first 16
      bytes and the start LBA is the 64-bit field at 32. */
  const GPT_ENTRY_SIZE: nat := 128
  const GPT_ENTRY_START: nat := 32

  /** Where a FAT12/16 boot sector keeps its 8-byte id, and where a
      FAT32 one does. */
  const FAT_ID_OFFSET: nat := 0x36
  const FAT32_ID_OFFSET: nat := 0x52

  /** "FAT12   " and "FAT16   ". */
  const FAT12_ID: seq<byte> := [70, 65, 84, 49, 50, 32, 32, 32]
  const FAT16_ID: seq<byte> := [70, 65, 84, 49, 54, 32, 32, 32]

  /** The 8 id bytes at `off` in the partition starting at `start`: the
      offset `start * LB_SIZE + off` is computed in 64 bits. */
  function FatIdAt(disk: seq<byte>, start: nat, off: nat): (r: Option<seq<byte>>)
    requires start < TWO_64
    ensures r.Some? ==> |r.value| == 8
  {
    ReadAt(disk, ToOff64((start * 512 + off) % TWO_64), 8)
  }

  /** The name an id string gives: fat12, fat16, or fat32 for anything
      else. */
  function FatIdType(id: seq<byte>): (r: FsType)
    ensures r == Fat12 <==> id == FAT12_ID
    ensures r == Fat16 <==> id == FAT16_ID
    ensures r == Fat12 || r == Fat16 || r == Fat32
  {
    if id == FAT12_ID then Fat12 else if id == FAT16_ID then Fat16 else Fat32
  }

  /** `check_GPT_FAT_entry`: `None` when it returns false, otherwise the
      name it stores.  Only basic-data and EFI-system partitions are
      looked into; the FAT32 id is read only when the FAT12/16 one does
      not match, and then decides alone. */
  function CheckGptFatEntry(disk: seq<byte>, e: seq<byte>): (r: Option<FsType>)
    requires |e| == GPT_ENTRY_SIZE
    ensures r == Some(NotSupported) <==> !IsFatGuid(e[..16])
  {
    if !IsFatGuid(e[..16]) then Some(NotSupported)
    else
      Le64Bound(e, GPT_ENTRY_START);
      var start := Le64At(e, GPT_ENTRY_START);
      match FatIdAt(disk, start, FAT_ID_OFFSET)
      case None => None
      case Some(id) =>
        if id == FAT12_ID || id == FAT16_ID then Some(FatIdType(id))
        else
          match FatIdAt(disk, start, FAT32_ID_OFFSET)
          case None => None
          case Some(id32) => Some(FatIdType(id32))
  }

  /** The start LBA of a GPT entry. */
  function EntryStart64(e: seq<byte>): (r: nat)
    requires |e| == GPT_ENTRY_SIZE
    ensures r < TWO_64
  {
    Le64Bound(e, GPT_ENTRY_START);
    Le64At(e, GPT_ENTRY_START)
  }

  /** How the check names a FAT partition: by the id at 0x36 when that
      says FAT12 or FAT16, otherwise by the id at 0x52 alone; it fails
      exactly when an id it needs cannot be read. */
  lemma CheckGptFatEntryIds(disk: seq<byte>, e: seq<byte>)
    requires |e| == GPT_ENTRY_SIZE && IsFatGuid(e[..16])
    ensures var r := CheckGptFatEntry(disk, e);
      var id := FatIdAt(disk, EntryStart64(e), FAT_ID_OFFSET);
      var id32 := FatIdAt(disk, EntryStart64(e), FAT32_ID_OFFSET);
      && (id == Some(FAT12_ID) ==> r == Some(Fat12))
      && (id == Some(FAT16_ID) ==> r == Some(Fat16))
      && (id.Some? && id != Some(FAT12_ID) && id != Some(FAT16_ID) ==>
            r == (if id32.Some? then Some(FatIdType(id32.value)) else None))
      && (r.None? <==> id.None? || (id != Some(FAT12_ID) && id != Some(FAT16_ID) && id32.None?))
  {
  }

  // ---------------------------------------------------------------------
  // read_GPT_entries.

  /** An unused entry: its type GUID is all zero. */
  predicate IsUnusedEntry(e: seq<byte>)
    requires |e| >= 16
  {
    forall k :: 0 <= k < 16 ==> e[k] == 0
  }

  /** The scan's test, both 64-bit halves of the type GUID being zero,
      finds exactly the unused entries. */
  lemma UnusedEntryHalves(e: seq<byte>)
    requires |e| >= 16
    ensures IsUnusedEntry(e) <==> Le64At(e, 0) == 0 && Le64At(e, 8) == 0
  {
  }

  /** The `k`-th entry of the table at byte offset `base`, if it can be
      read. */
  function EntryAt(disk: seq<byte>, base: int, k: nat): (r: Option<seq<byte>>)
    ensures r.Some? ==> |r.value| == GPT_ENTRY_SIZE
  {
    ReadAt(disk, base + 128 * k, GPT_ENTRY_SIZE)
  }

  /** An entry the scan looks at: readable and in use. */
  predicate EntryPresent(disk: seq<byte>, base: int, k: nat)
  {
    EntryAt(disk, base, k).Some? && !IsUnusedEntry(EntryAt(disk, base, k).value)
  }

  /** The entries `i`, `i + 1`, ... below `num` that the loop looks at:
      it returns at the first entry it cannot read and at the first
      unused one. */
  function GptEntries(disk: seq<byte>, base: int, num: nat, i: nat): (r: seq<seq<byte>>)
    requires i <= num
    ensures i + |r| <= num
    ensures forall j :: 0 <= j < |r| ==> |r[j]| == GPT_ENTRY_SIZE
    ensures i + |r| < num ==> !EntryPresent(disk, base, i + |r|)
    decreases num - i
  {
    if i == num || !EntryPresent(disk, base, i) then []
    else [EntryAt(disk, base, i).value] + GptEntries(disk, base, num, i + 1)
  }

  /** Every entry the loop looks at is the present entry at its place. */
  lemma {:induction false} GptEntriesAt(disk: seq<byte>, base: int, num: nat, i: nat, j: nat)
    requires i <= num && j < |GptEntries(disk, base, num, i)|
    ensures EntryPresent(disk, base, i + j)
    ensures GptEntries(disk, base, num, i)[j] == EntryAt(disk, base, i + j).value
    decreases j
  {
    if j > 0 {
      GptEntriesAt(disk, base, num, i + 1, j - 1);
    }
  }

  /** The outcome of `check_GPT_FAT_entry` for each entry looked at. */
  function GptOutcomes(disk: seq<byte>, base: int, num: nat): (r: seq<Option<FsType>>)
  {
    var es := GptEntries(disk, base, num, 0);
    seq(|es|, k requires 0 <= k < |es| => CheckGptFatEntry(disk, es[k]))
  }

  /** A partition in the scanner's list: its number (a `uint16_t`) and
      the name of its file system. */
  datatype Part = Part(num: nat, fs: FsType)

  /** Where `list_end` points: at the device's `part_list` itself, at the
      `next` field of the last visible node, or at the `next` field of a
      node no longer reachable from `part_list`. */
  datatype ListEnd = AtHead | AtLast | Detached

  /** The list reachable from `dev->part_list`, and `list_end`. */
  datatype Chain = Chain(visible: seq<Part>, end: ListEnd)

  /** `*list_end = tmpp; list_end = &tmpp->next`. */
  function Link(c: Chain, p: Part): (r: Chain)
    ensures c.end == AtHead ==> r == Chain([p], AtLast)
    ensures c.end == AtLast ==> r == Chain(c.visible + [p], AtLast)
    ensures c.end == Detached ==> r == c
  {
    match c.end
    case AtHead => Chain([p], AtLast)
    case AtLast => Chain(c.visible + [p], AtLast)
    case Detached => c
  }

  /** The `(i+1)`-th GPT partition as the list numbers it. */
  function GptPart(i: nat, fs: FsType): Part
  {
    Part((i + 1) % TWO_16, fs)
  }

  /** The partitions the loop links, as written: a failed entry sets
      `dev->part_list` to NULL (the local `partition` it tests is never
      assigned), while `list_end` keeps pointing into the old chain. */
  function GptListAsWritten(c: Chain, outcomes: seq<Option<FsType>>, i: nat): (r: Chain)
    requires i <= |outcomes|
    ensures (forall j :: i <= j < |outcomes| ==> outcomes[j].Some?) ==> r == GptList(c, outcomes, i)
    ensures i < |outcomes| && outcomes[|outcomes| - 1].None? ==> r.visible == []
    decreases |outcomes| - i
  {
    if i == |outcomes| then c
    else match outcomes[i]
      case Some(fs) => GptListAsWritten(Link(c, GptPart(i, fs)), outcomes, i + 1)
      case None => GptListAsWritten(Chain([], if c.end == AtHead then AtHead else Detached), outcomes, i + 1)
  }

  /** The partitions the loop links, corrected: a failed entry is
      skipped. */
  function GptList(c: Chain, outcomes: seq<Option<FsType>>, i: nat): (r: Chain)
    requires i <= |outcomes|
    decreases |outcomes| - i
  {
    if i == |outcomes| then c
    else match outcomes[i]
      case Some(fs) => GptList(Link(c, GptPart(i, fs)), outcomes, i + 1)
      case None => GptList(c, outcomes, i + 1)
  }

  /** Reference: the entries that were checked, in table order. */
  function Checked(outcomes: seq<Option<FsType>>, i: nat): (r: seq<Part>)
    requires i <= |outcomes|
    decreases |outcomes| - i
  {
    if i == |outcomes| then []
    else match outcomes[i]
      case Some(fs) => [GptPart(i, fs)] + Checked(outcomes, i + 1)
      case None => Checked(outcomes, i + 1)
  }

  /** What a chain shows once something is linked after it. */
  function LinkedPrefix(c: Chain): seq<Part>
  {
    if c.end == AtHead then [] else c.visible
  }

  /** The corrected loop lists exactly the checked entries: they replace
      the earlier list when there is one, and nothing changes otherwise. */
  lemma {:induction false} GptListChecked(c: Chain, outcomes: seq<Option<FsType>>, i: nat)
    requires i <= |outcomes| && c.end != Detached
    ensures GptList(c, outcomes, i).visible ==
      if Checked(outcomes, i) == [] then c.visible else LinkedPrefix(c) + Checked(outcomes, i)
    ensures GptList(c, outcomes, i).end != Detached
    decreases |outcomes| - i
  {
    if i < |outcomes| {
      match outcomes[i]
      case Some(fs) =>
        var c' := Link(c, GptPart(i, fs));
        GptListChecked(c', outcomes, i + 1);
        assert LinkedPrefix(c') == LinkedPrefix(c) + [GptPart(i, fs)];
      case None =>
        GptListChecked(c, outcomes, i + 1);
    }
  }

  /** Without failed entries the loop as written and the corrected one
      agree. */
  lemma {:induction false} GptListAgrees(c: Chain, outcomes: seq<Option<FsType>>, i: nat)
    requires i <= |outcomes|
    requires forall k :: i <= k < |outcomes| ==> outcomes[k].Some?
    ensures GptListAsWritten(c, outcomes, i) == GptList(c, outcomes, i)
    decreases |outcomes| - i
  {
    if i < |outcomes| {
      GptListAgrees(Link(c, GptPart(i, outcomes[i].value)), outcomes, i + 1);
    }
  }

  /** As written, once `list_end` is detached the device's list stays
      empty whatever the later entries hold. */
  lemma {:induction false} DetachedStaysHidden(outcomes: seq<Option<FsType>>, i: nat)
    requires i <= |outcomes|
    ensures GptListAsWritten(Chain([], Detached), outcomes, i) == Chain([], Detached)
    decreases |outcomes| - i
  {
    if i < |outcomes| {
      DetachedStaysHidden(outcomes, i + 1);
    }
  }

  /** As written, an entry that fails after one has been linked loses
      every partition of the device. */
  lemma FailureAfterLinkEmptiesList(c: Chain, outcomes: seq<Option<FsType>>, i: nat)
    requires i < |outcomes| && c.end == AtLast && outcomes[i].None?
    ensures GptListAsWritten(c, outcomes, i).visible == []
  {
    DetachedStaysHidden(outcomes, i + 1);
  }

  /** The smallest case: a FAT16 entry, an entry whose FAT id cannot be
      read, a FAT32 entry.  As written the device ends up with no
      partitions; corrected it lists partitions 1 and 3. */
  lemma FailedEntryDropsPartitions(prior: seq<Part>)
    ensures GptListAsWritten(Chain(prior, AtHead), [Some(Fat16), None, Some(Fat32)], 0).visible == []
    ensures GptList(Chain(prior, AtHead), [Some(Fat16), None, Some(Fat32)], 0).visible ==
      [Part(1, Fat16), Part(3, Fat32)]
  {
    var o := [Some(Fat16), None, Some(Fat32)];
    FailureAfterLinkEmptiesList(Chain([Part(1, Fat16)], AtLast), o, 1);
    GptListChecked(Chain(prior, AtHead), o, 0);
  }

  /** The file position after `read(fd, buf, n)` from `pos`: it moves
      past the bytes read, which stop at the end of the device. */
  function AfterRead(disk: seq<byte>, pos: nat, n: nat): (r: nat)
    ensures pos <= r <= pos + n
    ensures ReadAt(disk, pos, n).Some? <==> r == pos + n && pos + n <= |disk|
    ensures pos >= |disk| ==> r == pos
  {
    if pos + n <= |disk| then pos + n else if pos <= |disk| then |disk| else pos
  }

  /** `check_GPT_FAT_entry` called with the file position at `pos`: its
      outcome, and where it leaves the position.  A check that passes
      seeks back to `pos`, and so does one whose seek fails; one whose id
      read fails leaves the position where that read stopped. */
  function CheckGptFatEntryAt(disk: seq<byte>, e: seq<byte>, pos: nat): (r: (Option<FsType>, nat))
    requires |e| == GPT_ENTRY_SIZE
    ensures r.0 == CheckGptFatEntry(disk, e)
    ensures r.0.Some? ==> r.1 == pos
  {
    if !IsFatGuid(e[..16]) then (Some(NotSupported), pos)
    else
      var start := EntryStart64(e);
      var dest := ToOff64((start * 512 + FAT_ID_OFFSET) % TWO_64);
      if dest < 0 then (None, pos)
      else match ReadAt(disk, dest, 8)
        case None => (None, AfterRead(disk, dest, 8))
        case Some(id) =>
          if id == FAT12_ID || id == FAT16_ID then (Some(FatIdType(id)), pos)
          else
            var dest32 := ToOff64((start * 512 + FAT32_ID_OFFSET) % TWO_64);
            if dest32 < 0 then (None, dest + 8)
            else match ReadAt(disk, dest32, 8)
              case None => (None, AfterRead(disk, dest32, 8))
              case Some(id32) => (Some(FatIdType(id32)), pos)
  }

  /** The outcomes of the loop as written, from entry `i` on with the file
      position at `pos`: each entry is read where the check before left the
      position, and the loop returns at an entry it cannot read and at an
      unused one. */
  function GptOutcomesAsWritten(disk: seq<byte>, pos: nat, num: nat, i: nat): (r: seq<Option<FsType>>)
    requires i <= num
    ensures i + |r| <= num
    decreases num - i
  {
    if i == num then []
    else match ReadAt(disk, pos, GPT_ENTRY_SIZE)
      case None => []
      case Some(e) =>
        if IsUnusedEntry(e) then []
        else
          var (o, p) := CheckGptFatEntryAt(disk, e, pos + GPT_ENTRY_SIZE);
          [o] + GptOutcomesAsWritten(disk, p, num, i + 1)
  }

  /** The outcomes of the checks of the entries from `i` on, each read at
      its place in the table. */
  function OutcomesFrom(disk: seq<byte>, base: int, num: nat, i: nat): seq<Option<FsType>>
    requires i <= num
    decreases num - i
  {
    if i == num || !EntryPresent(disk, base, i) then []
    else [CheckGptFatEntry(disk, EntryAt(disk, base, i).value)] + OutcomesFrom(disk, base, num, i + 1)
  }

  /** The outcomes from `i` on are the checks of the entries the loop
      looks at from `i` on. */
  lemma {:induction false} OutcomesFromEntries(disk: seq<byte>, base: int, num: nat, i: nat)
    requires i <= num
    ensures var r := OutcomesFrom(disk, base, num, i);
      |r| == |GptEntries(disk, base, num, i)| &&
      forall j :: 0 <= j < |r| ==> r[j] == CheckGptFatEntry(disk, GptEntries(disk, base, num, i)[j])
    decreases num - i
  {
    if i < num && EntryPresent(disk, base, i) {
      OutcomesFromEntries(disk, base, num, i + 1);
    }
  }

  lemma GptOutcomesFrom(disk: seq<byte>, base: int, num: nat)
    ensures GptOutcomes(disk, base, num) == OutcomesFrom(disk, base, num, 0)
  {
    OutcomesFromEntries(disk, base, num, 0);
  }

  /** One step of the loop as written at the entry's place in the table:
      it reads that entry and checks it with the position after it. */
  lemma GptOutcomesAsWrittenStep(disk: seq<byte>, base: nat, num: nat, i: nat)
    requires i < num && EntryPresent(disk, base, i)
    ensures var c := CheckGptFatEntryAt(disk, EntryAt(disk, base, i).value, base + GPT_ENTRY_SIZE * (i + 1));
      GptOutcomesAsWritten(disk, base + GPT_ENTRY_SIZE * i, num, i) == [c.0] + GptOutcomesAsWritten(disk, c.1, num, i + 1)
    ensures OutcomesFrom(disk, base, num, i) ==
      [CheckGptFatEntry(disk, EntryAt(disk, base, i).value)] + OutcomesFrom(disk, base, num, i + 1)
  {
    var pos := base + GPT_ENTRY_SIZE * i;
    assert ReadAt(disk, pos, GPT_ENTRY_SIZE) == EntryAt(disk, base, i);
    assert pos + GPT_ENTRY_SIZE == base + GPT_ENTRY_SIZE * (i + 1);
  }

  /** When every check passes, the loop as written reads every entry at
      its place in the table, as the corrected one does. */
  lemma {:induction false} GptOutcomesAsWrittenAgree(disk: seq<byte>, base: nat, num: nat, i: nat)
    requires i <= num
    requires forall j :: 0 <= j < |OutcomesFrom(disk, base, num, i)| ==> OutcomesFrom(disk, base, num, i)[j].Some?
    ensures GptOutcomesAsWritten(disk, base + GPT_ENTRY_SIZE * i, num, i) == OutcomesFrom(disk, base, num, i)
    decreases num - i
  {
    if i == num || !EntryPresent(disk, base, i) {
      assert i < num ==> ReadAt(disk, base + GPT_ENTRY_SIZE * i, GPT_ENTRY_SIZE) == EntryAt(disk, base, i);
    } else {
      var o := OutcomesFrom(disk, base, num, i);
      var o1 := OutcomesFrom(disk, base, num, i + 1);
      GptOutcomesAsWrittenStep(disk, base, num, i);
      assert o[0].Some?;
      forall j | 0 <= j < |o1|
        ensures o1[j].Some?
      {
        assert o1[j] == o[j + 1];
      }
      GptOutcomesAsWrittenAgree(disk, base, num, i + 1);
    }
  }

  /** Up to and including the first check that fails, the loop as written
      sees what the corrected one sees. */
  lemma {:induction false} GptOutcomesAsWrittenPrefix(disk: seq<byte>, base: nat, num: nat, i: nat, k: nat)
    requires i <= num && k < |OutcomesFrom(disk, base, num, i)|
    requires forall j :: 0 <= j < k ==> OutcomesFrom(disk, base, num, i)[j].Some?
    ensures var w := GptOutcomesAsWritten(disk, base + GPT_ENTRY_SIZE * i, num, i);
      k < |w| && w[k] == OutcomesFrom(disk, base, num, i)[k]
    decreases k
  {
    var o := OutcomesFrom(disk, base, num, i);
    assert i < num && EntryPresent(disk, base, i);
    GptOutcomesAsWrittenStep(disk, base, num, i);
    if k > 0 {
      var o1 := OutcomesFrom(disk, base, num, i + 1);
      assert o[0].Some?;
      forall j | 0 <= j < k - 1
        ensures o1[j].Some?
      {
        assert o1[j] == o[j + 1];
      }
      GptOutcomesAsWrittenPrefix(disk, base, num, i + 1, k - 1);
    }
  }

  /** As written, a FAT entry whose FAT12/16 id lies at or past the end of
      the device leaves the file position there: the next entry read
      fails and the loop returns, so the device ends up with no
      partitions.  The corrected loop goes on to the next entry. */
  lemma StaleIdReadEndsScan(disk: seq<byte>, base: nat, num: nat, prior: seq<Part>)
    requires 2 <= num && EntryPresent(disk, base, 0) && EntryPresent(disk, base, 1)
    requires var e := EntryAt(disk, base, 0).value;
      IsFatGuid(e[..16]) && |disk| <= ToOff64((EntryStart64(e) * 512 + FAT_ID_OFFSET) % TWO_64)
    ensures GptOutcomesAsWritten(disk, base, num, 0) == [None]
    ensures GptListAsWritten(Chain(prior, AtHead), GptOutcomesAsWritten(disk, base, num, 0), 0).visible == []
    ensures var o := GptOutcomes(disk, base, num); |o| >= 2 && o[0].None?
  {
    var e := EntryAt(disk, base, 0).value;
    var dest := ToOff64((EntryStart64(e) * 512 + FAT_ID_OFFSET) % TWO_64);
    assert CheckGptFatEntryAt(disk, e, base + GPT_ENTRY_SIZE) == (None, dest);
    assert GptOutcomesAsWritten(disk, dest, num, 1) == [];
    GptOutcomesFrom(disk, base, num);
  }

  /** When every check passes, the list as written is the corrected one. */
  lemma GptReadAgrees(disk: seq<byte>, base: nat, num: nat, prior: seq<Part>)
    ensures var o := GptOutcomes(disk, base, num);
      (forall j :: 0 <= j < |o| ==> o[j].Some?) ==>
        GptListAsWritten(Chain(prior, AtHead), GptOutcomesAsWritten(disk, base, num, 0), 0) ==
        GptList(Chain(prior, AtHead), o, 0)
  {
    GptOutcomesFrom(disk, base, num);
    var o := GptOutcomes(disk, base, num);
    if forall j :: 0 <= j < |o| ==> o[j].Some? {
      GptOutcomesAsWrittenAgree(disk, base, num, 0);
      GptListAgrees(Chain(prior, AtHead), o, 0);
    }
  }

  /** `read_GPT_entries` as written: the table's byte offset is
      `LB_SIZE * table_LBA` in 64 bits; a negative one fails the seek
      and leaves the list alone.  Entries are read where the file
      position stands, which a failed check can leave off the table. */
  function ReadGptEntriesAsWritten(disk: seq<byte>, tableLba: nat, num: nat, prior: seq<Part>): (r: seq<Part>)
    requires tableLba < TWO_64
    ensures var base := ToOff64((512 * tableLba) % TWO_64);
      base >= 0 ==>
        var w := GptOutcomesAsWritten(disk, base, num, 0);
        |w| > 0 && w[|w| - 1].None? ==> r == []
    ensures var base := ToOff64((512 * tableLba) % TWO_64);
      var o := GptOutcomes(disk, base, num);
      (base < 0 || forall j :: 0 <= j < |o| ==> o[j].Some?) ==>
        r == ReadGptEntries(disk, tableLba, num, prior)
  {
    var base := ToOff64((512 * tableLba) % TWO_64);
    if base < 0 then prior
    else
      GptReadAgrees(disk, base, num, prior);
      GptListAsWritten(Chain(prior, AtHead), GptOutcomesAsWritten(disk, base, num, 0), 0).visible
  }

  /** `read_GPT_entries` corrected: the entries that were checked, in
      table order and numbered from 1, replace the list; with none the
      list is left alone. */
  function ReadGptEntries(disk: seq<byte>, tableLba: nat, num: nat, prior: seq<Part>): (r: seq<Part>)
    requires tableLba < TWO_64
    ensures var base := ToOff64((512 * tableLba) % TWO_64);
      r == (if base < 0 || Checked(GptOutcomes(disk, base, num), 0) == [] then prior
            else Checked(GptOutcomes(disk, base, num), 0))
  {
    var base := ToOff64((512 * tableLba) % TWO_64);
    if base < 0 then prior
    else
      var o := GptOutcomes(disk, base, num);
      GptListChecked(Chain(prior, AtHead), o, 0);
      assert [] + Checked(o, 0) == Checked(o, 0);
      GptList(Chain(prior, AtHead), GptOutcomes(disk, base, num), 0).visible
  }

  // ---------------------------------------------------------------------
  // Master and extended boot records.

  /** `sizeof(struct Masterbootrecord)`: the four 16-byte partition
      entries start at 0x1BE and the signature is the 16-bit field at
      0x1FE. */
  const MBR_SIZE: nat := 512
  const MBR_TABLE: nat := 0x1BE
  const MBR_SIGNATURE: nat := 0x1FE

  /** `sizeof(struct EFIHeader)`; `partitiontable_LBA` is its 64-bit
      field at 72 and `partitions` its 32-bit field at 80. */
  const EFI_HEADER_SIZE: nat := 1772

  /** `parttable[i].partition_type`. */
  function EntryType(rec: seq<byte>, i: nat): byte
    requires |rec| == MBR_SIZE && i < 4
  {
    rec[0x1BE + 16 * i + 4]
  }

  /** `parttable[i].start_LBA`. */
  function EntryLba(rec: seq<byte>, i: nat): (r: nat)
    requires |rec| == MBR_SIZE && i < 4
    ensures r < TWO_32
  {
    Le32Bound(rec, 0x1BE + 16 * i + 8);
    Le32At(rec, 0x1BE + 16 * i + 8)
  }

  /** `mbrsignature == 0xaa55`. */
  predicate HasSignature(rec: seq<byte>)
    requires |rec| == MBR_SIZE
  {
    Le16At(rec, 0x1FE) == 0xAA55
  }

  /** The logical partition numbered `lognum` (a `uint16_t`). */
  function LogicalPart(lognum: nat, t: byte): Part
  {
    Part(lognum % TWO_16, TypeToName(t))
  }

  /** The list keeps the nodes up to `pos` and holds only non-extended
      partitions after it. */
  predicate LogicalTail(list: seq<Part>, pos: nat)
  {
    forall k :: pos < k < |list| ==> list[k].fs != Extended
  }

  /** `scanLogicalVolumes(fd, ext, ebr, i, partition, lognum)`: follows
      entry `i` of `ebr` to the next extended boot record, at
      `ext + start_LBA` (and that sum becomes the extended partition's
      start when `ext` is 0), and links its logical partitions after the
      node `partition`, here at index `pos` of `list`.  `fuel` bounds the
      number of records followed. */
  function ScanLogical(disk: seq<byte>, ext: nat, ebr: seq<byte>, i: nat, list: seq<Part>,
                       pos: nat, lognum: nat, fuel: nat): (r: seq<Part>)
    requires |ebr| == MBR_SIZE && i < 4 && pos < |list|
    ensures pos < |r| && r[..pos + 1] == list[..pos + 1]
    ensures LogicalTail(list, pos) ==> LogicalTail(r, pos)
    decreases fuel, 0
  {
    var offset := ext + EntryLba(ebr, i);
    var ext' := if ext == 0 then offset else ext;
    if fuel == 0 then list
    else match ReadAt(disk, 512 * offset, MBR_SIZE)
      case None => list
      case Some(next) =>
        if !HasSignature(next) then list
        else LogicalEntries(disk, ext', next, 0, list, pos, lognum, fuel - 1)
  }

  /** The loop of `scanLogicalVolumes` from entry `j` of a record: it
      stops at an empty entry, follows an extended one with `lognum + 1`
      while the node it links after stays where it was, and otherwise
      links a partition numbered `lognum` right after that node. */
  function LogicalEntries(disk: seq<byte>, ext: nat, ebr: seq<byte>, j: nat, list: seq<Part>,
                          pos: nat, lognum: nat, fuel: nat): (r: seq<Part>)
    requires |ebr| == MBR_SIZE && j <= 4 && pos < |list|
    ensures pos < |r| && r[..pos + 1] == list[..pos + 1]
    ensures LogicalTail(list, pos) ==> LogicalTail(r, pos)
    decreases fuel, 5 - j
  {
    if j == 4 then list
    else
      var t := EntryType(ebr, j);
      if t == 0 then list
      else if IsExtendedType(t) then
        var l := ScanLogical(disk, ext, ebr, j, list, pos, lognum + 1, fuel);
        LogicalEntries(disk, ext, ebr, j + 1, l, pos, lognum, fuel)
      else
        var l := list[..pos + 1] + [LogicalPart(lognum, t)];
        assert l[..pos + 1] == list[..pos + 1];
        LogicalEntries(disk, ext, ebr, j + 1, l, pos + 1, lognum, fuel)
  }

  // ---------------------------------------------------------------------
  // check_partition_table.

  /** What `check_partition_table` leaves: its result and the device's
      partition list, or the null dereference of `(*list_end)->next`. */
  datatype Scan = Scan(ok: bool, parts: seq<Part>) | NullDeref

  /** The GPT header a protective entry points at: its offset
      `LB_SIZE * start_LBA` is computed in 32 bits. */
  function GptHeader(disk: seq<byte>, mbr: seq<byte>, i: nat): (r: Option<seq<byte>>)
    requires |mbr| == MBR_SIZE && i < 4
    ensures r.Some? ==> |r.value| == EFI_HEADER_SIZE
  {
    ReadAt(disk, (512 * EntryLba(mbr, i)) % TWO_32, EFI_HEADER_SIZE)
  }

  /** The primary partition in slot `i`, numbered `i + 1`. */
  function PrimaryPart(mbr: seq<byte>, i: nat): Part
    requires |mbr| == MBR_SIZE && i < 4
  {
    Part(i + 1, TypeToName(EntryType(mbr, i)))
  }

  /** The loop over the MBR entries from `i`, as written: `list_end` is
      the slot index `slot` of `list` (a node is linked by cutting the
      list there), `count` is `numpartitions`.  After the logical
      partitions of an extended entry the `while` loop leaves `list_end`
      at the slot holding the last node, not at its `next` field, and
      dereferences a null pointer when no logical partition was found. */
  function PrimaryAsWritten(disk: seq<byte>, mbr: seq<byte>, i: nat, list: seq<Part>, slot: nat,
                            count: nat, fuel: nat): (r: Scan)
    requires |mbr| == MBR_SIZE && i <= 4 && slot <= |list|
    ensures r.Scan? ==> (r.ok <==> (count > 0 || AnyEntry(mbr, i)) && !GptHeaderFails(disk, mbr, i))
    decreases 4 - i
  {
    if i == 4 then Scan(count > 0, list)
    else
      var t := EntryType(mbr, i);
      if t == 0 then PrimaryAsWritten(disk, mbr, i + 1, list, slot, count, fuel)
      else if t == MBR_TYPE_GPT then
        match GptHeader(disk, mbr, i)
        case None => Scan(false, list)
        case Some(h) =>
          Le64Bound(h, 72);
          Scan(true, ReadGptEntriesAsWritten(disk, Le64At(h, 72), Le32At(h, 80), list))
      else
        var l := list[..slot] + [PrimaryPart(mbr, i)];
        if IsExtendedType(t) then
          var l' := ScanLogical(disk, 0, mbr, i, l, slot, 5, fuel);
          if |l'| == slot + 1 then NullDeref
          else PrimaryAsWritten(disk, mbr, i + 1, l', |l'| - 1, count + 1, fuel)
        else PrimaryAsWritten(disk, mbr, i + 1, l, slot + 1, count + 1, fuel)
  }

  /** `check_partition_table` as written. */
  function CheckPartitionTableAsWritten(disk: seq<byte>, fuel: nat): (r: Scan)
    ensures r.Scan? ==> (r.ok <==> (ReadAt(disk, 0, MBR_SIZE).Some? && HasSignature(disk[..MBR_SIZE])
                                    && AnyEntry(disk[..MBR_SIZE], 0) && !GptHeaderFails(disk, disk[..MBR_SIZE], 0)))
  {
    match ReadAt(disk, 0, MBR_SIZE)
    case None => Scan(false, [])
    case Some(mbr) =>
      if !HasSignature(mbr) then Scan(false, [])
      else PrimaryAsWritten(disk, mbr, 0, [], 0, 0, fuel)
  }

  /** The entries from `i` up to the first protective one. */
  function FirstGpt(mbr: seq<byte>, i: nat): (r: Option<nat>)
    requires |mbr| == MBR_SIZE && i <= 4
    ensures r.Some? ==> i <= r.value < 4 && EntryType(mbr, r.value) == MBR_TYPE_GPT
    decreases 4 - i
  {
    if i == 4 then None
    else if EntryType(mbr, i) == MBR_TYPE_GPT then Some(i)
    else FirstGpt(mbr, i + 1)
  }

  /** Some entry from `i` on is in use. */
  predicate AnyEntry(mbr: seq<byte>, i: nat)
    requires |mbr| == MBR_SIZE && i <= 4
  {
    exists k :: i <= k < 4 && EntryType(mbr, k) != 0
  }

  /** The first protective entry from `i` on points at a GPT header that
      cannot be read. */
  predicate GptHeaderFails(disk: seq<byte>, mbr: seq<byte>, i: nat)
    requires |mbr| == MBR_SIZE && i <= 4
  {
    FirstGpt(mbr, i).Some? && GptHeader(disk, mbr, FirstGpt(mbr, i).value).None?
  }

  /** The loop over the MBR entries, corrected: after the logical
      partitions `list_end` is the `next` field of the last one, so
      every node is linked at the end of the list.  The
      result is true exactly when some entry is in use and no GPT
      header it needed failed to read. */
  function Primary(disk: seq<byte>, mbr: seq<byte>, i: nat, list: seq<Part>, count: nat,
                   fuel: nat): (r: Scan)
    requires |mbr| == MBR_SIZE && i <= 4
    ensures r.Scan?
    ensures r.ok <==> (count > 0 || AnyEntry(mbr, i)) && !GptHeaderFails(disk, mbr, i)
    decreases 4 - i
  {
    if i == 4 then Scan(count > 0, list)
    else
      var t := EntryType(mbr, i);
      if t == 0 then Primary(disk, mbr, i + 1, list, count, fuel)
      else if t == MBR_TYPE_GPT then
        match GptHeader(disk, mbr, i)
        case None => Scan(false, list)
        case Some(h) =>
          Le64Bound(h, 72);
          Scan(true, ReadGptEntries(disk, Le64At(h, 72), Le32At(h, 80), list))
      else
        var l := list + [PrimaryPart(mbr, i)];
        if IsExtendedType(t) then
          var l' := ScanLogical(disk, 0, mbr, i, l, |list|, 5, fuel);
          Primary(disk, mbr, i + 1, l', count + 1, fuel)
        else Primary(disk, mbr, i + 1, l, count + 1, fuel)
  }

  /** `check_partition_table`, corrected: false when the MBR cannot be
      read, has the wrong signature, has no entry in use, or points at
      an unreadable GPT header. */
  function CheckPartitionTable(disk: seq<byte>, fuel: nat): (r: Scan)
    ensures r.Scan?
    ensures r.ok <==> (ReadAt(disk, 0, MBR_SIZE).Some? && HasSignature(disk[..MBR_SIZE])
                       && AnyEntry(disk[..MBR_SIZE], 0) && !GptHeaderFails(disk, disk[..MBR_SIZE], 0))
  {
    match ReadAt(disk, 0, MBR_SIZE)
    case None => Scan(false, [])
    case Some(mbr) =>
      if !HasSignature(mbr) then Scan(false, [])
      else Primary(disk, mbr, 0, [], 0, fuel)
  }

  /** Reference: the primary partitions of the entries in use from `i`
      on, numbered by slot. */
  function PrimaryParts(mbr: seq<byte>, i: nat): seq<Part>
    requires |mbr| == MBR_SIZE && i <= 4
    decreases 4 - i
  {
    if i == 4 then []
    else if EntryType(mbr, i) == 0 then PrimaryParts(mbr, i + 1)
    else [PrimaryPart(mbr, i)] + PrimaryParts(mbr, i + 1)
  }

  /** Neither a protective nor an extended entry from `i` on. */
  predicate OnlyPrimaries(mbr: seq<byte>, i: nat)
    requires |mbr| == MBR_SIZE && i <= 4
  {
    forall k :: i <= k < 4 ==> EntryType(mbr, k) != MBR_TYPE_GPT && !IsExtendedType(EntryType(mbr, k))
  }

  /** With primary partitions only, the used entries are appended in
      slot order, numbered slot + 1. */
  lemma {:induction false} PrimariesInOrder(disk: seq<byte>, mbr: seq<byte>, i: nat, list: seq<Part>,
                                            count: nat, fuel: nat)
    requires |mbr| == MBR_SIZE && i <= 4 && OnlyPrimaries(mbr, i)
    ensures Primary(disk, mbr, i, list, count, fuel).parts == list + PrimaryParts(mbr, i)
    decreases 4 - i
  {
    if i < 4 {
      var t := EntryType(mbr, i);
      assert t != MBR_TYPE_GPT && !IsExtendedType(t);
      if t == 0 {
        assert Primary(disk, mbr, i, list, count, fuel) == Primary(disk, mbr, i + 1, list, count, fuel);
        PrimariesInOrder(disk, mbr, i + 1, list, count, fuel);
      } else {
        var p := PrimaryPart(mbr, i);
        assert Primary(disk, mbr, i, list, count, fuel) == Primary(disk, mbr, i + 1, list + [p], count + 1, fuel);
        PrimariesInOrder(disk, mbr, i + 1, list + [p], count + 1, fuel);
        AppendOne(list, p, PrimaryParts(mbr, i + 1));
      }
    }
  }

  lemma AppendOne(list: seq<Part>, p: Part, rest: seq<Part>)
    ensures list + [p] + rest == list + ([p] + rest)
  {
  }

  /** With primary partitions only, the loop as written agrees with the
      corrected one. */
  lemma {:induction false} PrimariesAgree(disk: seq<byte>, mbr: seq<byte>, i: nat, list: seq<Part>,
                                          count: nat, fuel: nat)
    requires |mbr| == MBR_SIZE && i <= 4 && OnlyPrimaries(mbr, i)
    ensures PrimaryAsWritten(disk, mbr, i, list, |list|, count, fuel) == Primary(disk, mbr, i, list, count, fuel)
    decreases 4 - i
  {
    if i < 4 {
      if EntryType(mbr, i) == 0 {
        PrimariesAgree(disk, mbr, i + 1, list, count, fuel);
      } else {
        var l := list + [PrimaryPart(mbr, i)];
        assert list[..|list|] == list;
        PrimariesAgree(disk, mbr, i + 1, l, count + 1, fuel);
      }
    }
  }

  /** A device whose boot record has primary partitions only lists them
      in slot order, as written and corrected alike. */
  lemma PrimaryDevice(disk: seq<byte>, fuel: nat)
    requires |disk| >= MBR_SIZE && HasSignature(disk[..MBR_SIZE]) && OnlyPrimaries(disk[..MBR_SIZE], 0)
    ensures CheckPartitionTable(disk, fuel).parts == PrimaryParts(disk[..MBR_SIZE], 0)
    ensures CheckPartitionTableAsWritten(disk, fuel) == CheckPartitionTable(disk, fuel)
  {
    var mbr := disk[..MBR_SIZE];
    assert ReadAt(disk, 0, MBR_SIZE) == Some(mbr);
    PrimariesInOrder(disk, mbr, 0, [], 0, fuel);
    PrimariesAgree(disk, mbr, 0, [], 0, fuel);
  }

  // ---------------------------------------------------------------------
  // Small devices.

  /** A partition entry of type `t` starting at LBA `lba`. */
  function EntryBytes(t: byte, lba: byte): (r: seq<byte>)
    ensures |r| == 16
  {
    [0, 0, 0, 0, t, 0, 0, 0, lba, 0, 0, 0, 0, 0, 0, 0]
  }

  /** A boot record with the given four entries and the signature. */
  function BootRecord(e0: seq<byte>, e1: seq<byte>, e2: seq<byte>, e3: seq<byte>): (r: seq<byte>)
    requires |e0| == 16 && |e1| == 16 && |e2| == 16 && |e3| == 16
    ensures |r| == MBR_SIZE
  {
    Zeros(0x1BE) + e0 + e1 + e2 + e3 + [0x55, 0xAA]
  }

  const NO_ENTRY: seq<byte> := EntryBytes(0, 0)

  /** What a boot record built from entries says. */
  lemma BootRecordFields(t0: byte, l0: byte, t1: byte, l1: byte)
    ensures var r := BootRecord(EntryBytes(t0, l0), EntryBytes(t1, l1), NO_ENTRY, NO_ENTRY);
      && HasSignature(r)
      && EntryType(r, 0) == t0 && EntryLba(r, 0) == l0
      && EntryType(r, 1) == t1 && EntryLba(r, 1) == l1
      && EntryType(r, 2) == 0 && EntryType(r, 3) == 0
  {
    var r := BootRecord(EntryBytes(t0, l0), EntryBytes(t1, l1), NO_ENTRY, NO_ENTRY);
    assert r[0x1BE..0x1CE] == EntryBytes(t0, l0);
    assert r[0x1CE..0x1DE] == EntryBytes(t1, l1);
    assert r[0x1DE..0x1EE] == EntryBytes(0, 0);
    assert r[0x1EE..0x1FE] == EntryBytes(0, 0);
    EntryFields(r, 0, t0, l0);
    EntryFields(r, 1, t1, l1);
    EntryFields(r, 2, 0, 0);
    EntryFields(r, 3, 0, 0);
    assert r[0x1FE] == 0x55 && r[0x1FF] == 0xAA;
  }

  /** The fields of an entry read from its bytes. */
  lemma EntryFields(r: seq<byte>, i: nat, t: byte, l: byte)
    requires |r| == MBR_SIZE && i < 4
    requires r[0x1BE + 16 * i..0x1BE + 16 * i + 16] == EntryBytes(t, l)
    ensures EntryType(r, i) == t && EntryLba(r, i) == l
  {
    var o := 0x1BE + 16 * i;
    var e := EntryBytes(t, l);
    assert r[o + 4] == e[4] && r[o + 8] == e[8] && r[o + 9] == e[9] && r[o + 10] == e[10] && r[o + 11] == e[11];
  }

  /** An extended partition at LBA 1 on a one-sector device: there is no
      boot record to follow. */
  const LONE_EXTENDED: seq<byte> := BootRecord(EntryBytes(MBR_TYPE_EXTENDED, 1), NO_ENTRY, NO_ENTRY, NO_ENTRY)

  /** As written, an extended partition without logical partitions makes
      the `while` loop dereference a null pointer; corrected, the device
      lists the extended partition. */
  lemma ExtendedWithoutLogicals(fuel: nat)
    ensures CheckPartitionTableAsWritten(LONE_EXTENDED, fuel) == NullDeref
    ensures CheckPartitionTable(LONE_EXTENDED, fuel) == Scan(true, [Part(1, Extended)])
  {
    assert NO_ENTRY == EntryBytes(0, 0);
    var d := LONE_EXTENDED;
    BootRecordFields(MBR_TYPE_EXTENDED, 1, 0, 0);
    assert |d| == 512 && d[0..512] == d;
    assert ReadAt(d, 0, MBR_SIZE) == Some(d);
    assert ReadAt(d, 512, MBR_SIZE).None?;
    assert ScanLogical(d, 0, d, 0, [Part(1, Extended)], 0, 5, fuel) == [Part(1, Extended)];
  }

  /** An extended partition at LBA 1 holding one FAT32 logical
      partition, then a FAT16 primary partition in slot 2. */
  const LTP_MBR: seq<byte> :=
    BootRecord(EntryBytes(MBR_TYPE_EXTENDED, 1), EntryBytes(MBR_TYPE_FAT16, 100), NO_ENTRY, NO_ENTRY)
  const LTP_EBR: seq<byte> := BootRecord(EntryBytes(MBR_TYPE_FAT32_LBA, 1), NO_ENTRY, NO_ENTRY, NO_ENTRY)
  const LOGICAL_THEN_PRIMARY: seq<byte> := LTP_MBR + LTP_EBR

  /** The logical partition of that device is found and numbered 5. */
  lemma LtpLogicals(fuel: nat)
    requires fuel >= 1
    ensures ScanLogical(LOGICAL_THEN_PRIMARY, 0, LTP_MBR, 0, [Part(1, Extended)], 0, 5, fuel) ==
      [Part(1, Extended), Part(5, Fat32)]
  {
    var d := LOGICAL_THEN_PRIMARY;
    assert NO_ENTRY == EntryBytes(0, 0);
    BootRecordFields(MBR_TYPE_EXTENDED, 1, MBR_TYPE_FAT16, 100);
    BootRecordFields(MBR_TYPE_FAT32_LBA, 1, 0, 0);
    assert |d| == 1024 && d[512..1024] == LTP_EBR;
    assert ReadAt(d, 512, MBR_SIZE) == Some(LTP_EBR);
    var l := [Part(1, Extended)];
    var l' := [Part(1, Extended), Part(5, Fat32)];
    assert LogicalPart(5, MBR_TYPE_FAT32_LBA) == Part(5, Fat32);
    assert LogicalEntries(d, 1, LTP_EBR, 1, l', 1, 5, fuel - 1) == l';
    assert LogicalEntries(d, 1, LTP_EBR, 0, l, 0, 5, fuel - 1) == l';
  }

  /** As written, the primary partition after the logical ones takes the
      place of the last logical partition; corrected, it follows it. */
  lemma PrimaryAfterLogicals(fuel: nat)
    requires fuel >= 1
    ensures CheckPartitionTableAsWritten(LOGICAL_THEN_PRIMARY, fuel) ==
      Scan(true, [Part(1, Extended), Part(2, Fat16)])
    ensures CheckPartitionTable(LOGICAL_THEN_PRIMARY, fuel) ==
      Scan(true, [Part(1, Extended), Part(5, Fat32), Part(2, Fat16)])
  {
    var d := LOGICAL_THEN_PRIMARY;
    var mbr := LTP_MBR;
    assert NO_ENTRY == EntryBytes(0, 0);
    BootRecordFields(MBR_TYPE_EXTENDED, 1, MBR_TYPE_FAT16, 100);
    assert |d| == 1024 && d[0..512] == mbr;
    assert ReadAt(d, 0, MBR_SIZE) == Some(mbr);
    LtpLogicals(fuel);
    var l' := [Part(1, Extended), Part(5, Fat32)];
    assert PrimaryPart(mbr, 0) == Part(1, Extended);
    assert PrimaryPart(mbr, 1) == Part(2, Fat16);
    var w := [Part(1, Extended), Part(2, Fat16)];
    assert PrimaryAsWritten(d, mbr, 2, w, 2, 2, fuel) == Scan(true, w);
    assert PrimaryAsWritten(d, mbr, 1, l', 1, 1, fuel) == Scan(true, w);
    var none: seq<Part> := [];
    assert none[..0] + [PrimaryPart(mbr, 0)] == [Part(1, Extended)];
    assert none + [PrimaryPart(mbr, 0)] == [Part(1, Extended)];
    assert PrimaryAsWritten(d, mbr, 0, none, 0, 0, fuel) == Scan(true, w);
    var c := l' + [Part(2, Fat16)];
    assert Primary(d, mbr, 2, c, 2, fuel) == Scan(true, c);
    assert Primary(d, mbr, 1, l', 1, fuel) == Scan(true, c);
    assert Primary(d, mbr, 0, none, 0, fuel) == Scan(true, c);
  }

  /** A chain of two extended boot records at LBA 1 and 2: a FAT32
      logical partition and a link, then a FAT16 logical partition. */
  const TL_MBR: seq<byte> := BootRecord(EntryBytes(MBR_TYPE_EXTENDED, 1), NO_ENTRY, NO_ENTRY, NO_ENTRY)
  const TL_EBR1: seq<byte> :=
    BootRecord(EntryBytes(MBR_TYPE_FAT32_LBA, 1), EntryBytes(MBR_TYPE_EXTENDED, 1), NO_ENTRY, NO_ENTRY)
  const TL_EBR2: seq<byte> := BootRecord(EntryBytes(MBR_TYPE_FAT16, 1), NO_ENTRY, NO_ENTRY, NO_ENTRY)
  const TWO_LOGICALS: seq<byte> := TL_MBR + TL_EBR1 + TL_EBR2

  /** The second record's partition is numbered 6, and the link's offset
      counts from the extended partition's start. */
  lemma TlSecondRecord(fuel: nat)
    requires fuel >= 1
    ensures ScanLogical(TWO_LOGICALS, 1, TL_EBR1, 1, [Part(1, Extended), Part(5, Fat32)], 1, 6, fuel) ==
      [Part(1, Extended), Part(5, Fat32), Part(6, Fat16)]
  {
    var d := TWO_LOGICALS;
    assert NO_ENTRY == EntryBytes(0, 0);
    BootRecordFields(MBR_TYPE_FAT32_LBA, 1, MBR_TYPE_EXTENDED, 1);
    BootRecordFields(MBR_TYPE_FAT16, 1, 0, 0);
    assert |d| == 1536 && d[1024..1536] == TL_EBR2;
    assert ReadAt(d, 1024, MBR_SIZE) == Some(TL_EBR2);
    var l1 := [Part(1, Extended), Part(5, Fat32)];
    var l2 := [Part(1, Extended), Part(5, Fat32), Part(6, Fat16)];
    assert LogicalPart(6, MBR_TYPE_FAT16) == Part(6, Fat16);
    assert LogicalEntries(d, 1, TL_EBR2, 1, l2, 2, 6, fuel - 1) == l2;
    assert LogicalEntries(d, 1, TL_EBR2, 0, l1, 1, 6, fuel - 1) == l2;
  }

  /** The first record's partition is numbered 5, then the chain is
      followed. */
  lemma TlFirstRecord(fuel: nat)
    requires fuel >= 2
    ensures ScanLogical(TWO_LOGICALS, 0, TL_MBR, 0, [Part(1, Extended)], 0, 5, fuel) ==
      [Part(1, Extended), Part(5, Fat32), Part(6, Fat16)]
  {
    var d := TWO_LOGICALS;
    assert NO_ENTRY == EntryBytes(0, 0);
    BootRecordFields(MBR_TYPE_EXTENDED, 1, 0, 0);
    BootRecordFields(MBR_TYPE_FAT32_LBA, 1, MBR_TYPE_EXTENDED, 1);
    assert |d| == 1536 && d[512..1024] == TL_EBR1;
    assert ReadAt(d, 512, MBR_SIZE) == Some(TL_EBR1);
    var l0 := [Part(1, Extended)];
    var l1 := [Part(1, Extended), Part(5, Fat32)];
    var l2 := [Part(1, Extended), Part(5, Fat32), Part(6, Fat16)];
    assert LogicalPart(5, MBR_TYPE_FAT32_LBA) == Part(5, Fat32);
    TlSecondRecord(fuel - 1);
    assert LogicalEntries(d, 1, TL_EBR1, 2, l2, 1, 5, fuel - 1) == l2;
    assert LogicalEntries(d, 1, TL_EBR1, 1, l1, 1, 5, fuel - 1) == l2;
    assert l0[..1] + [LogicalPart(5, MBR_TYPE_FAT32_LBA)] == l1;
    assert LogicalEntries(d, 1, TL_EBR1, 0, l0, 0, 5, fuel - 1) == l2;
  }

  /** Logical partitions are numbered from 5, one more for each boot
      record followed. */
  lemma LogicalNumbering(fuel: nat)
    requires fuel >= 2
    ensures CheckPartitionTableAsWritten(TWO_LOGICALS, fuel) ==
      Scan(true, [Part(1, Extended), Part(5, Fat32), Part(6, Fat16)])
    ensures CheckPartitionTable(TWO_LOGICALS, fuel) == CheckPartitionTableAsWritten(TWO_LOGICALS, fuel)
  {
    var d := TWO_LOGICALS;
    var mbr := TL_MBR;
    assert NO_ENTRY == EntryBytes(0, 0);
    BootRecordFields(MBR_TYPE_EXTENDED, 1, 0, 0);
    assert |d| == 1536 && d[0..512] == mbr;
    assert ReadAt(d, 0, MBR_SIZE) == Some(mbr);
    TlFirstRecord(fuel);
    var l2 := [Part(1, Extended), Part(5, Fat32), Part(6, Fat16)];
    assert PrimaryPart(mbr, 0) == Part(1, Extended);
    assert PrimaryAsWritten(d, mbr, 1, l2, 2, 1, fuel) == Scan(true, l2);
    var none: seq<Part> := [];
    assert none[..0] + [PrimaryPart(mbr, 0)] == [Part(1, Extended)];
    assert none + [PrimaryPart(mbr, 0)] == [Part(1, Extended)];
    assert PrimaryAsWritten(d, mbr, 0, none, 0, 0, fuel) == Scan(true, l2);
    assert Primary(d, mbr, 1, l2, 1, fuel) == Scan(true, l2);
    assert Primary(d, mbr, 0, none, 0, fuel) == Scan(true, l2);
  }
}
