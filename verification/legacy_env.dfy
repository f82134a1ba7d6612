/** The older generation of the environment library (tools/bg_utils.c),
    which the first `bg_setenv` and the first swupdate adapter use.  Its
    record has `testing` and `boot_once` flags where the current one has
    `in_progress` and `ustate`, and no user variables.

    The header that declares this record is not part of this model; the
    layout below is the one its uses imply: two 255-unit strings, two byte
    flags, a 16-bit watchdog timeout, a 32-bit revision and the trailing
    crc32.  `CONFIG_PARTITION_COUNT` is the number of records.  Mounting,
    opening and reading files are parameters. */
module LegacyEnv {
  import opened Wrappers
  import opened Bytes
  import opened CLib
  import opened EnvRecord
  import ConfigPartitions

  /** The old `BG_ENVDATA`. */
  datatype OldEnv = OldEnv(
    kernelfile: Str16,
    kernelparams: Str16,
    testing: byte,
    bootOnce: byte,
    watchdog: u16,
    revision: u32,
    crc32: u32)

  /** The record's bytes without the trailing crc32, as the checksum reads
      them. */
  function OldPayload(d: OldEnv): (r: seq<byte>)
    ensures |r| == 1028
  {
    Units(d.kernelfile) + Units(d.kernelparams) + [d.testing, d.bootOnce] +
      Le16Bytes(d.watchdog) + Le32Bytes(d.revision)
  }

  /** The record after `memset(data, 0, sizeof(BG_ENVDATA))`. */
  const OLD_ZEROED := OldEnv(ZeroUnits(255), ZeroUnits(255), 0, 0, 0, 0, 0)

  /** `crc32 = crc32(0, data, sizeof(BG_ENVDATA) - sizeof(crc32))`: the
      other fields are kept and the checksum then matches them. */
  function OldWithCrc(d: OldEnv, crc: Crc): (r: OldEnv)
    ensures r.crc32 == crc(OldPayload(r))
    ensures r.(crc32 := d.crc32) == d
  {
    d.(crc32 := crc(OldPayload(d)))
  }

  /** The old record laid out like the current one without user
      variables: `testing` and `boot_once` lie where `in_progress` and
      `ustate` do. */
  function AsCurrent(d: OldEnv): (r: EnvData)
    ensures Payload(r) == OldPayload(d) && r.userdata == [] && r.crc32 == d.crc32
  {
    EnvData(d.kernelfile, d.kernelparams, d.testing, d.bootOnce, d.watchdog, d.revision, [], d.crc32)
  }

  function OfCurrent(e: EnvData): (r: OldEnv)
    ensures e.userdata == [] ==> AsCurrent(r) == e
  {
    OldEnv(e.kernelfile, e.kernelparams, e.inProgress, e.ustate, e.watchdog, e.revision, e.crc32)
  }

  /** `str8to16` into the string field at byte `at` of an old record: the
      copy has no bound, so text of 255 bytes or more runs on from
      `kernelfile` into `kernelparams`, or from `kernelparams` into
      `testing`, `boot_once` and the fields after them; bytes past the
      end of the record are not kept.  Text that fits changes its field
      only. */
  function OldStr8To16In(d: OldEnv, at: nat, src: seq<byte>): (r: OldEnv)
    requires at == KERNELFILE_AT || at == KERNELPARAMS_AT
    ensures forall i :: 0 <= i < 1032 ==>
      (OldPayload(r) + Le32Bytes(r.crc32))[i] ==
        if at <= i < at + 2 * (|CStr(src)| + 1) then Units(TextUnits(src))[i - at] else (OldPayload(d) + Le32Bytes(d.crc32))[i]
    ensures |CStr(src)| < ENV_STRING_LENGTH && at == KERNELFILE_AT ==> r == d.(kernelfile := Str8To16(d.kernelfile, src))
    ensures |CStr(src)| < ENV_STRING_LENGTH && at == KERNELPARAMS_AT ==> r == d.(kernelparams := Str8To16(d.kernelparams, src))
    ensures |CStr(src)| >= ENV_STRING_LENGTH && at == KERNELFILE_AT ==> r.kernelfile[254] != 0
    ensures |CStr(src)| >= ENV_STRING_LENGTH && at == KERNELPARAMS_AT ==> r.kernelparams[254] != 0
  {
    Str8To16InCases(AsCurrent(d), src);
    OldStr8To16InBytes(d, at, src);
    OfCurrent(Str8To16In(AsCurrent(d), at, src))
  }

  /** The byte-level effect of `OldStr8To16In`, carried over from the
      current layout. */
  lemma OldStr8To16InBytes(d: OldEnv, at: nat, src: seq<byte>)
    requires at == KERNELFILE_AT || at == KERNELPARAMS_AT
    ensures var r := OfCurrent(Str8To16In(AsCurrent(d), at, src));
      forall i :: 0 <= i < 1032 ==>
        (OldPayload(r) + Le32Bytes(r.crc32))[i] ==
          if at <= i < at + 2 * (|CStr(src)| + 1) then Units(TextUnits(src))[i - at] else (OldPayload(d) + Le32Bytes(d.crc32))[i]
  {
    var e := Str8To16In(AsCurrent(d), at, src);
    var r := OfCurrent(e);
    OldImage(d);
    OldImage(r);
    assert AsCurrent(r) == e;
  }

  /** The old record's bytes are those of its current-layout twin. */
  lemma OldImage(d: OldEnv)
    ensures OldPayload(d) + Le32Bytes(d.crc32) == Image(AsCurrent(d))
  {
  }

  /** Text of exactly 255 bytes: its NUL lands on the unit after the field,
      emptying `kernelparams` after `kernelfile`, and zeroing `testing`
      and `boot_once` after `kernelparams`. */
  lemma OldStr8To16InRunsOn(d: OldEnv, src: seq<byte>)
    requires |CStr(src)| == ENV_STRING_LENGTH
    ensures var r := OldStr8To16In(d, KERNELFILE_AT, src);
      r.kernelfile == WidenAll(CStr(src)) && r.kernelparams[0] == 0
    ensures var q := OldStr8To16In(d, KERNELPARAMS_AT, src);
      q.kernelparams == WidenAll(CStr(src)) && q.testing == 0 && q.bootOnce == 0 && q.kernelfile == d.kernelfile
  {
    Str8To16InRunsOn(AsCurrent(d), src);
  }

  // ---------------------------------------------------------------------
  // str16to8 / str8to16.

  /** `str16to8(buffer, src)`: null when either pointer is null, else the
      units before the first NUL narrowed to bytes, then a NUL. */
  function OldStr16To8(buffer: bool, src: Option<seq<u16>>): (r: Option<seq<byte>>)
    requires src.Some? ==> 0 in src.value
    ensures r.Some? <==> buffer && src.Some?
    ensures r.Some? ==> r.value == NarrowAll(CStr16(src.value)) + [0]
  {
    if !buffer || src.None? then None else Some(NarrowAll(CStr16(src.value)) + [0])
  }

  /** `str8to16(buffer, src)`: null when either pointer is null, else the
      bytes before the first NUL widened, then a NUL.  Unlike the current
      library's version it does not bound the length: the units it writes
      are returned, and where they go is up to the caller. */
  function OldStr8To16(buffer: bool, src: Option<seq<byte>>): (r: Option<seq<u16>>)
    ensures r.Some? <==> buffer && src.Some?
    ensures r.Some? ==> |r.value| == |CStr(src.value)| + 1 && r.value[|r.value| - 1] == 0
    ensures r.Some? ==> CStr16(r.value) == WidenAll(CStr(src.value))
  {
    if !buffer || src.None? then None
    else
      var w := WidenAll(CStr(src.value));
      CStr16Of(w, []);
      Some(w + [0])
  }

  /** Converting to 16 bits and back returns the text and its NUL. */
  lemma OldStringRoundTrip(src: seq<byte>)
    ensures OldStr8To16(true, Some(src)).Some?
    ensures OldStr16To8(true, OldStr8To16(true, Some(src))) == Some(CStr(src) + [0])
  {
    var w := OldStr8To16(true, Some(src)).value;
    assert NarrowAll(WidenAll(CStr(src))) == CStr(src);
  }

  // ---------------------------------------------------------------------
  // probe_config_partitions.

  /** Only FAT16 partitions were candidates in this version. */
  predicate IsFat16(p: ConfigPartitions.Part)
  {
    p.fsType == Some(Ascii("fat16"))
  }

  /** Only `/dev/mmcblk` devices put a `p` before the partition number. */
  function OldDevPath(path: seq<byte>, num: nat): (r: seq<byte>)
    ensures |r| < ConfigPartitions.DEVPATH_SIZE
    ensures |path| + 1 + |Decimal(num)| < ConfigPartitions.DEVPATH_SIZE ==>
      r == if ConfigPartitions.HasPrefix(Ascii("/dev/mmcblk"), path) then path + [112] + Decimal(num) else path + Decimal(num)
  {
    var full := if ConfigPartitions.HasPrefix(Ascii("/dev/mmcblk"), path) then path + [112] + Decimal(num) else path + Decimal(num);
    if |full| < ConfigPartitions.DEVPATH_SIZE then full else full[..ConfigPartitions.DEVPATH_SIZE - 1]
  }

  /** The candidate paths of one device's partitions, from the `i`-th. */
  function OldPartPaths(path: seq<byte>, parts: seq<ConfigPartitions.Part>, i: nat): (r: seq<seq<byte>>)
    requires i <= |parts|
    ensures |r| <= |parts| - i
    decreases |parts| - i
  {
    if i == |parts| then []
    else if IsFat16(parts[i]) then [OldDevPath(path, parts[i].num)] + OldPartPaths(path, parts, i + 1)
    else OldPartPaths(path, parts, i + 1)
  }

  /** The candidates of all devices from the `i`-th on. */
  function OldCandidates(devs: seq<ConfigPartitions.Device>, i: nat): seq<seq<byte>>
    requires i <= |devs|
    decreases |devs| - i
  {
    if i == |devs| then []
    else match devs[i].parts
      case None => OldCandidates(devs, i + 1)
      case Some(parts) => OldPartPaths(devs[i].path, parts, 0) + OldCandidates(devs, i + 1)
  }

  /** The old `probe_config_partitions(cfgpart)` for `count` records: false
      for a null array, and otherwise true exactly when `count` of the FAT16
      partitions hold an environment file; the first `count` found fill the
      slots. */
  function OldProbe(cfgpart: bool, devs: seq<ConfigPartitions.Device>, count: nat, hasEnv: seq<byte> -> bool): (r: (bool, seq<seq<byte>>))
    ensures !cfgpart ==> !r.0
    ensures cfgpart ==> (r.0 <==> |ConfigPartitions.Found(OldCandidates(devs, 0), hasEnv)| == count)
    ensures r.0 ==> r.1 == ConfigPartitions.Found(OldCandidates(devs, 0), hasEnv)
  {
    if !cfgpart then (false, [])
    else
      var cands := OldCandidates(devs, 0);
      assert cands[..0] == [];
      var p := ConfigPartitions.ProbeFrom(cands, 0, count, hasEnv, []);
      if p.0 || |p.1| < count then (false, p.1) else (true, p.1)
  }

  /** A FAT32 partition holding the file is not a candidate here. */
  lemma Fat32Ignored(path: seq<byte>, num: nat)
    ensures OldPartPaths(path, [ConfigPartitions.Part(Some(Ascii("fat32")), num)], 0) == []
  {
    assert Ascii("fat32") != Ascii("fat16") by { assert Ascii("fat32")[3] != Ascii("fat16")[3]; }
  }

  // ---------------------------------------------------------------------
  // bgenv_init and the handles.

  /** `bgenv_init(BGENVTYPE_FAT)`: false when probing fails; otherwise the
      records read from the partitions (`None` where reading failed, which
      leaves the previous content).  A record whose checksum does not match
      is kept as it is: the check only prints a message. */
  function OldInit(fat: bool, probeOk: bool, prev: seq<OldEnv>, loaded: seq<Option<OldEnv>>): (r: (bool, seq<OldEnv>))
    requires |loaded| == |prev|
    ensures r.0 <==> fat && probeOk
    ensures |r.1| == |prev|
    ensures forall i :: 0 <= i < |prev| ==> r.1[i] == if r.0 && loaded[i].Some? then loaded[i].value else prev[i]
  {
    if !fat || !probeOk then (false, prev)
    else (true, seq(|prev|, i requires 0 <= i < |prev| => if loaded[i].Some? then loaded[i].value else prev[i]))
  }

  /** A handle: the environment type and the index of its partition and
      record (`desc` and `data`). */
  datatype Handle = Handle(fat: bool, index: Option<nat>)

  /** `bgenv_get_by_index(type, index)`: a handle for a FAT index below
      `count`, else null.  `allocOk` is whether `calloc` succeeds. */
  function GetByIndex(fat: bool, index: nat, count: nat, allocOk: bool): (r: Option<Handle>)
    ensures r.Some? <==> fat && index < count && allocOk
    ensures r.Some? ==> r.value == Handle(true, Some(index))
  {
    if !fat || index >= count || !allocOk then None else Some(Handle(true, Some(index)))
  }

  /** `revs[k]` is the smallest, and no earlier one is as small. */
  predicate IsFirstMin(revs: seq<u32>, k: nat)
  {
    k < |revs| &&
    (forall j :: 0 <= j < |revs| ==> revs[k] <= revs[j]) &&
    (forall j :: 0 <= j < k ==> revs[j] > revs[k])
  }

  /** `revs[k]` is the greatest, and no earlier one is as great. */
  predicate IsFirstMax(revs: seq<u32>, k: nat)
  {
    k < |revs| &&
    (forall j :: 0 <= j < |revs| ==> revs[k] >= revs[j]) &&
    (forall j :: 0 <= j < k ==> revs[j] < revs[k])
  }

  /** The loop of `bgenv_get_oldest` from `i`, starting at 0xFFFFFFFF and
      index 0. */
  function MinFrom(revs: seq<u32>, i: nat, minrev: nat, minIdx: nat): (r: nat)
    requires 0 < |revs| && i <= |revs| && minIdx < |revs|
    requires i == 0 ==> minrev == 0xFFFF_FFFF && minIdx == 0
    requires i > 0 ==> minIdx < i && minrev == revs[minIdx]
    requires forall j :: 0 <= j < i ==> revs[j] >= minrev
    requires forall j :: 0 <= j < minIdx ==> revs[j] > minrev
    ensures IsFirstMin(revs, r)
    decreases |revs| - i
  {
    if i == |revs| then minIdx
    else if revs[i] < minrev then MinFrom(revs, i + 1, revs[i], i)
    else MinFrom(revs, i + 1, minrev, minIdx)
  }

  /** The loop of `bgenv_get_latest` from `i`, starting at 0 and index 0. */
  function MaxFrom(revs: seq<u32>, i: nat, maxrev: nat, maxIdx: nat): (r: nat)
    requires 0 < |revs| && i <= |revs| && maxIdx < |revs|
    requires i == 0 ==> maxrev == 0 && maxIdx == 0
    requires i > 0 ==> maxIdx < i && maxrev == revs[maxIdx]
    requires forall j :: 0 <= j < i ==> revs[j] <= maxrev
    requires forall j :: 0 <= j < maxIdx ==> revs[j] < maxrev
    ensures IsFirstMax(revs, r)
    decreases |revs| - i
  {
    if i == |revs| then maxIdx
    else if revs[i] > maxrev then MaxFrom(revs, i + 1, revs[i], i)
    else MaxFrom(revs, i + 1, maxrev, maxIdx)
  }

  function Revisions(envs: seq<OldEnv>): (r: seq<u32>)
    ensures |r| == |envs| && forall i :: 0 <= i < |envs| ==> r[i] == envs[i].revision
  {
    seq(|envs|, i requires 0 <= i < |envs| => envs[i].revision)
  }

  /** The index `bgenv_get_oldest` opens. */
  function OldestIndex(envs: seq<OldEnv>): (r: nat)
    requires |envs| > 0
    ensures IsFirstMin(Revisions(envs), r)
  {
    MinFrom(Revisions(envs), 0, 0xFFFF_FFFF, 0)
  }

  /** The index `bgenv_get_latest` opens. */
  function LatestIndex(envs: seq<OldEnv>): (r: nat)
    requires |envs| > 0
    ensures IsFirstMax(Revisions(envs), r)
  {
    MaxFrom(Revisions(envs), 0, 0, 0)
  }

  /** There is only one first minimum and one first maximum, so the two
      searches are determined by the revisions alone. */
  lemma FirstExtremaUnique(revs: seq<u32>, a: nat, b: nat)
    ensures IsFirstMin(revs, a) && IsFirstMin(revs, b) ==> a == b
    ensures IsFirstMax(revs, a) && IsFirstMax(revs, b) ==> a == b
  {
    if IsFirstMin(revs, a) && IsFirstMin(revs, b) {
      if a < b { NotFirstBefore(revs, a, b); } else if b < a { NotFirstBefore(revs, b, a); }
    }
    if IsFirstMax(revs, a) && IsFirstMax(revs, b) {
      if a < b { NotFirstBefore(revs, a, b); } else if b < a { NotFirstBefore(revs, b, a); }
    }
  }

  /** An index before the first extremum is not one. */
  lemma NotFirstBefore(revs: seq<u32>, a: nat, b: nat)
    requires a < b
    ensures IsFirstMin(revs, b) ==> !IsFirstMin(revs, a)
    ensures IsFirstMax(revs, b) ==> !IsFirstMax(revs, a)
  {
    if IsFirstMin(revs, b) { assert revs[a] > revs[b]; }
    if IsFirstMax(revs, b) { assert revs[a] < revs[b]; }
  }

  /** `bgenv_get_oldest(type)`. */
  function GetOldest(fat: bool, envs: seq<OldEnv>, allocOk: bool): (r: Option<Handle>)
    ensures r.Some? <==> fat && |envs| > 0 && allocOk
    ensures r.Some? ==> r.value.index.Some? && IsFirstMin(Revisions(envs), r.value.index.value)
  {
    if !fat || |envs| == 0 then None else GetByIndex(fat, OldestIndex(envs), |envs|, allocOk)
  }

  /** `bgenv_get_latest(type)`. */
  function GetLatest(fat: bool, envs: seq<OldEnv>, allocOk: bool): (r: Option<Handle>)
    ensures r.Some? <==> fat && |envs| > 0 && allocOk
    ensures r.Some? ==> r.value.index.Some? && IsFirstMax(Revisions(envs), r.value.index.value)
  {
    if !fat || |envs| == 0 then None else GetByIndex(fat, LatestIndex(envs), |envs|, allocOk)
  }

  /** With equal revisions both searches pick the first record. */
  lemma EqualRevisionsPickFirst(envs: seq<OldEnv>)
    requires |envs| > 0 && forall i :: 0 <= i < |envs| ==> envs[i].revision == envs[0].revision
    ensures OldestIndex(envs) == 0 && LatestIndex(envs) == 0
  {
    FirstExtremaUnique(Revisions(envs), OldestIndex(envs), 0);
    FirstExtremaUnique(Revisions(envs), LatestIndex(envs), 0);
  }

  /** `bgenv_write(env)`: false for a null handle, a non-FAT one or one
      without a partition; otherwise whether `write_env` succeeds on its
      partition (`writeOk`). */
  function OldWrite(env: Option<Handle>, writeOk: nat -> bool): (r: bool)
    ensures r <==> env.Some? && env.value.fat && env.value.index.Some? && writeOk(env.value.index.value)
  {
    match env
    case None => false
    case Some(h) =>
      if !h.fat then false
      else match h.index
        case None => false
        case Some(i) => writeOk(i)
  }

  /** `bgenv_read(env)`: the record of the handle, null for a null one. */
  function OldRead(env: Option<Handle>, envs: seq<OldEnv>): (r: Option<OldEnv>)
    ensures env.None? ==> r.None?
    ensures r.Some? ==> (env.Some? && env.value.index.Some? && env.value.index.value < |envs| &&
      r.value == envs[env.value.index.value])
  {
    match env
    case None => None
    case Some(h) => if h.index.Some? && h.index.value < |envs| then Some(envs[h.index.value]) else None
  }

  /** `bgenv_close(env)`: false only for a null handle. */
  function OldClose(env: Option<Handle>): (r: bool)
    ensures r <==> env.Some?
  {
    env.Some?
  }

  /** A handle from `bgenv_get_by_index` reads its own record, and writing
      it goes to its own partition. */
  lemma HandleReadsItsRecord(envs: seq<OldEnv>, index: nat, writeOk: nat -> bool)
    requires index < |envs|
    ensures OldRead(GetByIndex(true, index, |envs|, true), envs) == Some(envs[index])
    ensures OldWrite(GetByIndex(true, index, |envs|, true), writeOk) == writeOk(index)
  {
  }
}
