/** The first `bg_setenv` (tools/bg_setenv.c), on the older record.

    The options are collected in a temporary record whose bytes all start
    as the marker 0xEA; `update_environment` copies a field into the target
    record only when the field's first byte is not the marker, so options
    not given leave the target as it was.  The model keeps the options as a
    set of changes (`Changes`: `None` for a field not given), and relates
    them to the marker record the program builds (`TmpOf`) and to the
    byte test it makes (`UpdateAsWritten`).

    Reading and writing records go through the old library (LegacyEnv);
    whether a write succeeds is a parameter. */
module LegacySetenv {
  import opened Wrappers
  import opened Bytes
  import opened CLib
  import opened EnvRecord
  import opened LegacyEnv

  const IGNORE_MARKER_BYTE: byte := 0xEA
  const ARGP_ERR_UNKNOWN: int := 7
  /** The status `argp_parse` exits with, in glibc, after a usage error
      (`argp_err_exit_status`, `EX_USAGE` of sysexits.h). */
  const EX_USAGE: int := 64

  /** `n` units of value `v`. */
  function FillUnits(n: nat, v: u16): (r: seq<u16>)
    ensures |r| == n && forall i :: 0 <= i < n ==> r[i] == v
  {
    if n == 0 then [] else [v] + FillUnits(n - 1, v)
  }

  /** A string field whose bytes are all the marker. */
  function MarkUnits(): (r: Str16)
    ensures forall i :: 0 <= i < 255 ==> r[i] == 0xEAEA
  {
    FillUnits(255, 0xEAEA)
  }

  /** `memset(&tmpdata, IGNORE_MARKER_BYTE, sizeof(BG_ENVDATA))`. */
  function Marked(): (r: OldEnv)
    ensures r.testing == 0xEA && r.bootOnce == 0xEA && r.watchdog == 0xEAEA && r.revision == 0xEAEA_EAEA
  {
    OldEnv(MarkUnits(), MarkUnits(), 0xEA, 0xEA, 0xEAEA, 0xEAEA_EAEA, 0xEAEA_EAEA)
  }

  /** The fields the options set; `None` for a field no option gave. */
  datatype Changes = Changes(
    kernelfile: Option<Str16>,
    kernelparams: Option<Str16>,
    testing: Option<byte>,
    bootOnce: Option<byte>,
    watchdog: Option<u16>,
    revision: Option<u32>)

  const NO_CHANGES := Changes(None, None, None, None, None, None)

  /** The temporary record the program holds for a set of changes. */
  function TmpOf(ch: Changes): (r: OldEnv)
  {
    var m := Marked();
    OldEnv(
      if ch.kernelfile.Some? then ch.kernelfile.value else m.kernelfile,
      if ch.kernelparams.Some? then ch.kernelparams.value else m.kernelparams,
      if ch.testing.Some? then ch.testing.value else m.testing,
      if ch.bootOnce.Some? then ch.bootOnce.value else m.bootOnce,
      if ch.watchdog.Some? then ch.watchdog.value else m.watchdog,
      if ch.revision.Some? then ch.revision.value else m.revision,
      m.crc32)
  }

  // ---------------------------------------------------------------------
  // update_environment.

  /** The field copies of `update_environment(dest, src)` as written: each
      field is copied unless its first byte in memory (the low byte, the
      record being little-endian) is the marker. */
  function MergeAsWritten(dest: OldEnv, src: OldEnv): (r: OldEnv)
    ensures r.kernelfile == if src.kernelfile[0] % 256 != IGNORE_MARKER_BYTE then src.kernelfile else dest.kernelfile
    ensures r.kernelparams == if src.kernelparams[0] % 256 != IGNORE_MARKER_BYTE then src.kernelparams else dest.kernelparams
    ensures r.testing == if src.testing != IGNORE_MARKER_BYTE then src.testing else dest.testing
    ensures r.bootOnce == if src.bootOnce != IGNORE_MARKER_BYTE then src.bootOnce else dest.bootOnce
    ensures r.revision == if src.revision % 256 != IGNORE_MARKER_BYTE then src.revision else dest.revision
    ensures r.watchdog == if src.watchdog % 256 != IGNORE_MARKER_BYTE then src.watchdog else dest.watchdog
    ensures r.crc32 == dest.crc32
  {
    OldEnv(
      if src.kernelfile[0] % 256 != IGNORE_MARKER_BYTE then src.kernelfile else dest.kernelfile,
      if src.kernelparams[0] % 256 != IGNORE_MARKER_BYTE then src.kernelparams else dest.kernelparams,
      if src.testing != IGNORE_MARKER_BYTE then src.testing else dest.testing,
      if src.bootOnce != IGNORE_MARKER_BYTE then src.bootOnce else dest.bootOnce,
      if src.watchdog % 256 != IGNORE_MARKER_BYTE then src.watchdog else dest.watchdog,
      if src.revision % 256 != IGNORE_MARKER_BYTE then src.revision else dest.revision,
      dest.crc32)
  }

  /** The copies as intended: every field an option gave is copied, every
      other field keeps the target's value. */
  function Merge(dest: OldEnv, ch: Changes): (r: OldEnv)
    ensures r.kernelfile == (if ch.kernelfile.Some? then ch.kernelfile.value else dest.kernelfile)
    ensures r.kernelparams == (if ch.kernelparams.Some? then ch.kernelparams.value else dest.kernelparams)
    ensures r.testing == (if ch.testing.Some? then ch.testing.value else dest.testing)
    ensures r.bootOnce == (if ch.bootOnce.Some? then ch.bootOnce.value else dest.bootOnce)
    ensures r.watchdog == (if ch.watchdog.Some? then ch.watchdog.value else dest.watchdog)
    ensures r.revision == (if ch.revision.Some? then ch.revision.value else dest.revision)
    ensures r.crc32 == dest.crc32
  {
    OldEnv(
      if ch.kernelfile.Some? then ch.kernelfile.value else dest.kernelfile,
      if ch.kernelparams.Some? then ch.kernelparams.value else dest.kernelparams,
      if ch.testing.Some? then ch.testing.value else dest.testing,
      if ch.bootOnce.Some? then ch.bootOnce.value else dest.bootOnce,
      if ch.watchdog.Some? then ch.watchdog.value else dest.watchdog,
      if ch.revision.Some? then ch.revision.value else dest.revision,
      dest.crc32)
  }

  /** `update_environment(dest, src)` as written: the copies, then the
      checksum recomputed over the whole result. */
  function UpdateAsWritten(dest: OldEnv, src: OldEnv, crc: Crc): (r: OldEnv)
    ensures r.crc32 == crc(OldPayload(r))
    ensures r.(crc32 := dest.crc32) == MergeAsWritten(dest, src)
  {
    OldWithCrc(MergeAsWritten(dest, src), crc)
  }

  /** The merge as intended, with the checksum recomputed. */
  function Update(dest: OldEnv, ch: Changes, crc: Crc): (r: OldEnv)
    ensures r.crc32 == crc(OldPayload(r))
    ensures r.(crc32 := dest.crc32) == Merge(dest, ch)
  {
    OldWithCrc(Merge(dest, ch), crc)
  }

  /** No given value has the marker as its first byte. */
  predicate MarkerFree(ch: Changes)
  {
    (ch.kernelfile.Some? ==> ch.kernelfile.value[0] % 256 != IGNORE_MARKER_BYTE) &&
    (ch.kernelparams.Some? ==> ch.kernelparams.value[0] % 256 != IGNORE_MARKER_BYTE) &&
    (ch.testing.Some? ==> ch.testing.value != IGNORE_MARKER_BYTE) &&
    (ch.bootOnce.Some? ==> ch.bootOnce.value != IGNORE_MARKER_BYTE) &&
    (ch.watchdog.Some? ==> ch.watchdog.value % 256 != IGNORE_MARKER_BYTE) &&
    (ch.revision.Some? ==> ch.revision.value % 256 != IGNORE_MARKER_BYTE)
  }

  /** When no given value begins with the marker byte, the byte test does
      what is intended. */
  lemma UpdateAgrees(dest: OldEnv, ch: Changes, crc: Crc)
    requires MarkerFree(ch)
    ensures UpdateAsWritten(dest, TmpOf(ch), crc) == Update(dest, ch, crc)
  {
    MergeAgrees(dest, ch);
  }

  lemma MergeAgrees(dest: OldEnv, ch: Changes)
    requires MarkerFree(ch)
    ensures MergeAsWritten(dest, TmpOf(ch)) == Merge(dest, ch)
  {
    var t := TmpOf(ch);
    assert ch.kernelfile.None? ==> t.kernelfile[0] == 0xEAEA;
    assert ch.kernelparams.None? ==> t.kernelparams[0] == 0xEAEA;
  }

  /** Without options the target keeps every field; only its checksum is
      recomputed. */
  lemma NoOptionsNoChange(dest: OldEnv, crc: Crc)
    ensures UpdateAsWritten(dest, TmpOf(NO_CHANGES), crc) == OldWithCrc(dest, crc)
    ensures Update(dest, NO_CHANGES, crc) == OldWithCrc(dest, crc)
  {
    MergeAgrees(dest, NO_CHANGES);
    assert Merge(dest, NO_CHANGES) == dest;
  }

  /** A revision whose low byte is 0xEA (234, 490, ...) is taken for the
      marker and not stored: `-r 234` leaves the old revision, and so does
      an automatic update whose latest revision is 233. */
  lemma RevisionLowByteLost(dest: OldEnv, v: u32, crc: Crc)
    requires v % 256 == 0xEA && dest.revision != v
    ensures UpdateAsWritten(dest, TmpOf(NO_CHANGES.(revision := Some(v))), crc).revision == dest.revision
    ensures Update(dest, NO_CHANGES.(revision := Some(v)), crc).revision == v
  {
  }

  // ---------------------------------------------------------------------
  // parse_opt.

  /** `struct arguments` with the static `auto_update`, `part_specified`
      and `verbosity` flags. */
  datatype SetArgs = SetArgs(outputToFile: bool, whichPart: int, changes: Changes,
                             autoUpdate: bool, partSpecified: bool, verbose: bool)

  const INITIAL := SetArgs(false, 0, NO_CHANGES, false, false, false)

  datatype Parsed = Parsed(args: SetArgs, status: int)

  /** The string field a `-k` or `-a` text makes, over the field as the
      earlier options left it. */
  function Field(cur: Option<Str16>, arg: seq<byte>): (r: Str16)
    requires |CStr(arg)| < ENV_STRING_LENGTH
    ensures CStr16(r) == WidenAll(CStr(arg))
  {
    Str8To16(if cur.Some? then cur.value else MarkUnits(), arg)
  }

  /** `parse_opt(key, arg)`, with the length check of `-k` and `-a`
      corrected to leave room for the NUL. */
  function ParseOpt(key: byte, arg: seq<byte>, a: SetArgs): (r: Parsed)
    ensures key == 107 ==> (r.status == 0 <==> |CStr(arg)| < ENV_STRING_LENGTH)
    ensures key == 107 && r.status == 0 ==>
      r.args == a.(changes := a.changes.(kernelfile := Some(Field(a.changes.kernelfile, arg))))
    ensures key == 97 ==> (r.status == 0 <==> |CStr(arg)| < ENV_STRING_LENGTH)
    ensures key == 97 && r.status == 0 ==>
      r.args == a.(changes := a.changes.(kernelparams := Some(Field(a.changes.kernelparams, arg))))
    ensures key == 112 ==> (r.status == 0 <==>
      (var p := ParseLong(arg); p.end > 0 && !(p.range && ToInt32(p.value) == 0) && 0 <= ToInt32(p.value) <= 1))
    ensures key == 112 && r.status == 0 ==> r.args == a.(whichPart := ToInt32(ParseLong(arg).value), partSpecified := true)
    ensures key == 116 ==> (r.status == 0 <==> 0 <= Atoi(arg) <= 1)
    ensures key == 116 && r.status == 0 ==> r.args == a.(changes := a.changes.(testing := Some(Atoi(arg))))
    ensures key == 114 ==> r == Parsed(a.(changes := a.changes.(revision := Some(Atoi(arg) % TWO_32))), 0)
    ensures key == 119 ==> (r.status == 0 <==> Atoi(arg) != 0)
    ensures key == 119 && r.status == 0 ==> r.args == a.(changes := a.changes.(watchdog := Some(Atoi(arg) % TWO_16)))
    ensures key == 99 ==> r == Parsed(a.(changes := a.changes.(testing := Some(0), bootOnce := Some(0))), 0)
    ensures key == 98 ==> r == Parsed(a.(changes := a.changes.(testing := Some(1), bootOnce := Some(1))), 0)
    ensures key == 117 ==> (r.status == 0 <==> !a.partSpecified)
    ensures key == 117 && r.status == 0 ==> r.args == a.(autoUpdate := true)
    ensures key !in [107, 97, 112, 116, 114, 119, 102, 99, 117, 118, 98] ==> r == Parsed(a, ARGP_ERR_UNKNOWN)
    ensures r.status != 0 ==> r.args == a
  {
    if key == 107 then
      if |CStr(arg)| >= ENV_STRING_LENGTH then Parsed(a, 1)
      else Parsed(a.(changes := a.changes.(kernelfile := Some(Field(a.changes.kernelfile, arg)))), 0)
    else if key == 97 then
      if |CStr(arg)| >= ENV_STRING_LENGTH then Parsed(a, 1)
      else Parsed(a.(changes := a.changes.(kernelparams := Some(Field(a.changes.kernelparams, arg)))), 0)
    else if key == 112 then
      var p := ParseLong(arg);
      var i := ToInt32(p.value);
      // `i` is an int, so the comparison with LONG_MAX/LONG_MIN never holds.
      if (p.range && i == 0) || p.end == 0 then Parsed(a, 1)
      else if i == 0 || i == 1 then Parsed(a.(whichPart := i, partSpecified := true), 0)
      else Parsed(a, 1)
    else if key == 116 then
      var i := Atoi(arg);
      if i == 0 || i == 1 then Parsed(a.(changes := a.changes.(testing := Some(i))), 0)
      else Parsed(a, 1)
    else if key == 114 then
      Parsed(a.(changes := a.changes.(revision := Some(Atoi(arg) % TWO_32))), 0)
    else if key == 119 then
      var i := Atoi(arg);
      if i != 0 then Parsed(a.(changes := a.changes.(watchdog := Some(i % TWO_16))), 0)
      else Parsed(a, 1)
    else if key == 102 then Parsed(a.(outputToFile := true), 0)
    else if key == 99 then Parsed(a.(changes := a.changes.(testing := Some(0), bootOnce := Some(0))), 0)
    else if key == 117 then
      if a.partSpecified then Parsed(a, 1) else Parsed(a.(autoUpdate := true), 0)
    else if key == 118 then Parsed(a.(verbose := true), 0)
    else if key == 98 then Parsed(a.(changes := a.changes.(testing := Some(1), bootOnce := Some(1))), 0)
    else Parsed(a, ARGP_ERR_UNKNOWN)
  }

  /** `-k` and `-a` as written: text of up to 255 bytes is accepted and
      copied with its NUL, so 255 bytes write a 256th unit past the field:
      into the first unit of `kernelparams` for `-k`, into `testing` and
      `boot_once` for `-a`. */
  function StoreStringAsWritten(tmp: OldEnv, kernel: bool, arg: seq<byte>): (r: (int, OldEnv))
    ensures r.0 == 0 <==> |CStr(arg)| <= ENV_STRING_LENGTH
    ensures r.0 != 0 ==> r.1 == tmp
  {
    if |CStr(arg)| > ENV_STRING_LENGTH then (1, tmp)
    else
      var units := WidenAll(CStr(arg)) + [0];
      if |units| <= ENV_STRING_LENGTH then
        if kernel then (0, tmp.(kernelfile := units + tmp.kernelfile[|units|..]))
        else (0, tmp.(kernelparams := units + tmp.kernelparams[|units|..]))
      else
        if kernel then (0, tmp.(kernelfile := units[..255], kernelparams := tmp.kernelparams[0 := units[255]]))
        else (0, tmp.(kernelparams := units[..255], testing := units[255] % 256, bootOnce := units[255] / 256))
  }

  /** Text of exactly 255 bytes: as written `-a` is accepted, the stored
      arguments have no NUL, and the spilled NUL turns `testing` and
      `boot_once` into 0, which the merge then copies, confirming the
      target without `-c`.  The corrected check refuses the text. */
  lemma ArgsOverflow(arg: seq<byte>, dest: OldEnv, crc: Crc)
    requires |arg| == 255 && 0 !in arg
    ensures var s := StoreStringAsWritten(Marked(), false, arg);
      s.0 == 0 && 0 !in s.1.kernelparams &&
      UpdateAsWritten(dest, s.1, crc).testing == 0 && UpdateAsWritten(dest, s.1, crc).bootOnce == 0
    ensures ParseOpt(97, arg, INITIAL).status == 1
  {
    CStrOfString(arg);
    assert CStr(arg) == arg;
    var units := WidenAll(arg) + [0];
    var s := StoreStringAsWritten(Marked(), false, arg);
    assert s.1.kernelparams == units[..255] == WidenAll(arg);
  }

  /** `-k` as written and as corrected agree on every text that fits. */
  lemma StoreAgrees(a: SetArgs, arg: seq<byte>)
    requires |CStr(arg)| < ENV_STRING_LENGTH
    ensures StoreStringAsWritten(TmpOf(a.changes), true, arg) ==
      (0, TmpOf(ParseOpt(107, arg, a).args.changes))
  {
    var units := WidenAll(CStr(arg)) + [0];
    var cur := TmpOf(a.changes).kernelfile;
    assert Str8To16(cur, arg) == units + cur[|units|..];
  }

  /** `argp_parse` over the options: it stops at the first that fails. */
  function ParseAll(opts: seq<(byte, seq<byte>)>, a: SetArgs): (r: Parsed)
    ensures opts == [] ==> r == Parsed(a, 0)
  {
    if opts == [] then Parsed(a, 0)
    else
      var p := ParseOpt(opts[0].0, opts[0].1, a);
      if p.status != 0 then p else ParseAll(opts[1..], p.args)
  }

  /** `-p` then `-u` is refused, whatever follows. */
  lemma PartitionThenUpdate(rest: seq<(byte, seq<byte>)>)
    ensures ParseAll([(112, Ascii("1")), (117, [])] + rest, INITIAL).status == 1
  {
    var opts := [(112, Ascii("1")), (117, [])] + rest;
    ParseDecimal(1);
    assert Decimal(1) == Ascii("1");
    var p := ParseOpt(112, Ascii("1"), INITIAL);
    assert p.args.partSpecified;
    assert opts[1..][0] == (117, []);
  }

  // ---------------------------------------------------------------------
  // main.

  /** What `bg_setenv` did: its exit status, the record it wrote and to
      which partition, and the record written to the output file. */
  datatype Outcome = Outcome(status: int, written: Option<(nat, OldEnv)>, file: Option<OldEnv>)

  /** What `argp_parse` makes of a `parse_opt` status: a key `parse_opt`
      does not know is reported as a usage error, and any other failure is
      returned as it is. */
  function ArgpStatus(status: int): (r: int)
    ensures status != ARGP_ERR_UNKNOWN ==> r == status
    ensures status == ARGP_ERR_UNKNOWN ==> r == EX_USAGE
  {
    if status == ARGP_ERR_UNKNOWN then EX_USAGE else status
  }

  /** `main` of `bg_setenv` (`writeMode`) or of the old `bg_printenv`, over
      the records `envs` that `bgenv_init` loads (`initOk` whether it
      succeeds).  `writeOk` says whether writing a partition succeeds and
      `fileOk` whether writing the output file does.  `bg_printenv` parses
      with an empty option table, so any option it is given is a usage
      error. */
  function SetenvMain(opts: seq<(byte, seq<byte>)>, writeMode: bool, envs: seq<OldEnv>, initOk: bool,
                      writeOk: nat -> bool, fileOk: bool, crc: Crc): (r: Outcome)
    ensures !writeMode && opts != [] ==> r == Outcome(EX_USAGE, None, None)
    ensures !writeMode ==> r.written.None? && r.file.None?
    ensures writeMode && ParseAll(opts, INITIAL).status != 0 ==>
      r == Outcome(ArgpStatus(ParseAll(opts, INITIAL).status), None, None)
    ensures r.written.Some? ==> writeMode && r.written.value.0 < |envs|
    ensures r.written.Some? ==> (r.status == 0 <==> writeOk(r.written.value.0))
  {
    var p := ParseAll(opts, INITIAL);
    if !writeMode && opts != [] then Outcome(EX_USAGE, None, None)
    else if p.status != 0 then Outcome(ArgpStatus(p.status), None, None)
    else
      var a := p.args;
      if !a.outputToFile then
        if !initOk || |envs| == 0 then Outcome(1, None, None)
        else if !writeMode then Outcome(0, None, None)
        else
          var latest := LatestIndex(envs);
          var target: int := if a.autoUpdate then OldestIndex(envs)
                             else if a.partSpecified then a.whichPart else latest;
          var source: OldEnv := if a.autoUpdate then envs[latest] else if 0 <= target < |envs| then envs[target] else envs[0];
          var ch := if a.autoUpdate then a.changes.(revision := Some(Wrap32(envs[latest].revision + 1))) else a.changes;
          if !(0 <= target < |envs|) then Outcome(1, None, None)
          else
            var w := Update(source, ch, crc);
            Outcome(if writeOk(target) then 0 else 1, Some((target as nat, w)), None)
      else
        var data := Update(OLD_ZEROED, a.changes, crc);
        Outcome(if fileOk then 0 else 1, None, Some(data))
  }

  /** `-u`: the oldest record is overwritten with the latest, revision one
      higher, and the options applied on top. */
  lemma AutoUpdate(opts: seq<(byte, seq<byte>)>, envs: seq<OldEnv>, writeOk: nat -> bool, crc: Crc)
    requires |envs| > 0
    requires ParseAll(opts, INITIAL).status == 0
    requires ParseAll(opts, INITIAL).args.autoUpdate && !ParseAll(opts, INITIAL).args.outputToFile
    ensures var r := SetenvMain(opts, true, envs, true, writeOk, false, crc);
      var ch := ParseAll(opts, INITIAL).args.changes;
      var latest := envs[LatestIndex(envs)];
      && r.written.Some?
      && IsFirstMin(Revisions(envs), r.written.value.0)
      && r.written.value.1.revision == Wrap32(latest.revision + 1)
      && (ch.kernelfile.None? ==> r.written.value.1.kernelfile == latest.kernelfile)
      && (ch.kernelparams.None? ==> r.written.value.1.kernelparams == latest.kernelparams)
      && (ch.testing.None? ==> r.written.value.1.testing == latest.testing)
      && (ch.bootOnce.None? ==> r.written.value.1.bootOnce == latest.bootOnce)
      && (ch.watchdog.None? ==> r.written.value.1.watchdog == latest.watchdog)
  {
  }

  /** Without `-u` the chosen partition, or else the latest, is updated in
      place; a partition that does not exist fails with 1. */
  lemma ManualUpdate(opts: seq<(byte, seq<byte>)>, envs: seq<OldEnv>, writeOk: nat -> bool, crc: Crc)
    requires |envs| > 0
    requires ParseAll(opts, INITIAL).status == 0
    requires !ParseAll(opts, INITIAL).args.autoUpdate && !ParseAll(opts, INITIAL).args.outputToFile
    ensures var r := SetenvMain(opts, true, envs, true, writeOk, false, crc);
      var a := ParseAll(opts, INITIAL).args;
      var t := if a.partSpecified then a.whichPart else LatestIndex(envs);
      && (0 <= t < |envs| ==> r.written == Some((t as nat, Update(envs[t], a.changes, crc))))
      && (!(0 <= t < |envs|) ==> r == Outcome(1, None, None))
  {
  }
}
