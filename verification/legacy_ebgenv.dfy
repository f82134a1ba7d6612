/** The first swupdate adapter (swupdate-adapter/ebgenv.c), on the older
    record: one environment open at a time, fields read and written by
    name as text, and the `testing`/`boot_once` update protocol.

    The adapter's state is the records on the partitions (`disk`), the
    records `bgenv_init` loaded into memory (`mem`), the open record
    (`env_current`) and whether a new record has been created in this
    process.  Whether probing and writing succeed are parameters.  The
    list of strings handed out by `ebg_env_get` (the garbage collector) is
    left out. */
module LegacyEbgenv {
  import opened Wrappers
  import opened Bytes
  import opened CLib
  import opened EnvRecord
  import opened LegacyEnv

  datatype Adapter = Adapter(disk: seq<OldEnv>, mem: seq<OldEnv>, current: Option<nat>, created: bool)

  /** The open record, when there is one, is a record in memory. */
  predicate Valid(s: Adapter)
  {
    |s.mem| == |s.disk| && (s.current.Some? ==> s.current.value < |s.mem|)
  }

  datatype Reply = Reply(adapter: Adapter, status: int)

  /** The fields by name. */
  datatype Key = KernelFile | KernelParams | WatchdogTimeoutSec | Revision | BootOnce | Testing | Unknown

  const NAME_KERNELFILE: seq<byte> := Ascii("kernelfile")
  const NAME_KERNELPARAMS: seq<byte> := Ascii("kernelparams")
  const NAME_WATCHDOG: seq<byte> := Ascii("watchdog_timeout_sec")
  const NAME_REVISION: seq<byte> := Ascii("revision")
  const NAME_BOOT_ONCE: seq<byte> := Ascii("boot_once")
  const NAME_TESTING: seq<byte> := Ascii("testing")

  function KeyName(k: Key): (r: seq<byte>)
    requires !k.Unknown?
  {
    match k
    case KernelFile => NAME_KERNELFILE
    case KernelParams => NAME_KERNELPARAMS
    case WatchdogTimeoutSec => NAME_WATCHDOG
    case Revision => NAME_REVISION
    case BootOnce => NAME_BOOT_ONCE
    case Testing => NAME_TESTING
  }

  /** `ebg_env_str2enum(key)`: the field whose name is exactly `key`
      (`strncmp` over the name and its NUL). */
  function Str2Enum(key: seq<byte>): (r: Key)
    ensures !r.Unknown? ==> KeyName(r) == key
  {
    if key == NAME_KERNELFILE then KernelFile
    else if key == NAME_KERNELPARAMS then KernelParams
    else if key == NAME_WATCHDOG then WatchdogTimeoutSec
    else if key == NAME_REVISION then Revision
    else if key == NAME_BOOT_ONCE then BootOnce
    else if key == NAME_TESTING then Testing
    else Unknown
  }

  /** Each name reads back as its field, so only the six exact names are
      known. */
  lemma Str2EnumNames(k: Key)
    requires !k.Unknown?
    ensures Str2Enum(KeyName(k)) == k
  {
    var n := KeyName(k);
    assert NAME_KERNELFILE != NAME_KERNELPARAMS by { assert |NAME_KERNELFILE| != |NAME_KERNELPARAMS|; }
    assert NAME_REVISION != NAME_BOOT_ONCE by { assert |NAME_REVISION| != |NAME_BOOT_ONCE|; }
    assert NAME_TESTING != NAME_REVISION by { assert |NAME_TESTING| != |NAME_REVISION|; }
    assert NAME_TESTING != NAME_BOOT_ONCE by { assert |NAME_TESTING| != |NAME_BOOT_ONCE|; }
  }

  // ---------------------------------------------------------------------
  // Opening.

  /** `bgenv_init` as the adapter calls it: the records on disk are loaded
      when probing succeeds. */
  function Init(s: Adapter, initOk: bool): (r: (bool, Adapter))
    ensures r.0 == initOk
    ensures r.0 ==> r.1 == s.(mem := s.disk)
    ensures !r.0 ==> r.1 == s
  {
    if initOk then (true, s.(mem := s.disk)) else (false, s)
  }

  /** The record a new update starts from: zero except for the revision,
      `testing` and the 30-second watchdog timeout. */
  function NewRecord(rev: u32): (r: OldEnv)
    ensures r == OLD_ZEROED.(revision := rev, testing := 1, watchdog := 30)
  {
    OLD_ZEROED.(revision := rev, testing := 1, watchdog := 30)
  }

  /** `ebg_env_create_new`: the first call in a process turns the oldest
      record into a blank one with revision latest+1 and `testing` set, and
      opens it; later calls open the latest.  EIO when probing fails or
      there is no record. */
  function CreateNew(s: Adapter, initOk: bool): (r: Reply)
    requires Valid(s)
    ensures Valid(r.adapter) && r.adapter.disk == s.disk
    ensures r.status == 0 || r.status == EIO
    ensures r.status == 0 <==> initOk && |s.disk| > 0
    ensures r.status == 0 && s.created ==>
      r.adapter == s.(mem := s.disk, current := Some(LatestIndex(s.disk)))
    ensures r.status == 0 && !s.created ==>
      var o := OldestIndex(s.disk);
      r.adapter == Adapter(s.disk, s.disk[o := NewRecord(Wrap32(s.disk[LatestIndex(s.disk)].revision + 1))], Some(o), true)
  {
    var (ok, t) := Init(s, initOk);
    if !ok then Reply(s, EIO)
    else if |t.mem| == 0 then Reply(t.(current := None), EIO)
    else
      var latest := LatestIndex(t.mem);
      if t.created then Reply(t.(current := Some(latest)), 0)
      else
        var newRev := Wrap32(t.mem[latest].revision + 1);
        var o := OldestIndex(t.mem);
        Reply(Adapter(t.disk, t.mem[o := NewRecord(newRev)], Some(o), true), 0)
  }

  /** `ebg_env_open_current`: open the latest record. */
  function OpenCurrent(s: Adapter, initOk: bool): (r: Reply)
    requires Valid(s)
    ensures Valid(r.adapter) && r.adapter.disk == s.disk && r.adapter.created == s.created
    ensures r.status == 0 <==> initOk && |s.disk| > 0
    ensures r.status == 0 ==> r.adapter == s.(mem := s.disk, current := Some(LatestIndex(s.disk)))
    ensures r.status != 0 ==> r.status == EIO
  {
    var (ok, t) := Init(s, initOk);
    if !ok then Reply(s, EIO)
    else if |t.mem| == 0 then Reply(t.(current := None), EIO)
    else Reply(t.(current := Some(LatestIndex(t.mem))), 0)
  }

  /** A second `create_new` in the same process does not create another
      record: it opens the one the first made, the newest. */
  lemma CreateNewOnce(s: Adapter)
    requires Valid(s) && !s.created && |s.disk| > 0
    requires s.disk[LatestIndex(s.disk)].revision < 0xFFFF_FFFF
    ensures var r := CreateNew(s, true);
      var o := OldestIndex(s.disk);
      r.adapter.mem[o].revision == s.disk[LatestIndex(s.disk)].revision + 1 &&
      r.adapter.mem[o].testing == 1 && r.adapter.mem[o].bootOnce == 0
  {
  }

  // ---------------------------------------------------------------------
  // Get and set.

  /** `ebg_env_get(key)`: the text of the field, or null with `errno`:
      EINVAL for a null or unknown key, then EPERM when nothing is open.
      Strings come back in 8 bits, numbers in decimal. */
  function Get(s: Adapter, key: Option<seq<byte>>): (r: (Option<seq<byte>>, int))
    requires Valid(s)
    ensures r.0.None? <==> r.1 != 0
    ensures key.None? || Str2Enum(key.value).Unknown? ==> r == (None, EINVAL)
    ensures key.Some? && !Str2Enum(key.value).Unknown? && s.current.None? ==> r == (None, EPERM)
  {
    if key.None? then (None, EINVAL)
    else
      var k := Str2Enum(key.value);
      if k.Unknown? then (None, EINVAL)
      else if s.current.None? then (None, EPERM)
      else
        var d := s.mem[s.current.value];
        match k
        case KernelFile => (Some(NarrowAll(CStr16(d.kernelfile))), 0)
        case KernelParams => (Some(NarrowAll(CStr16(d.kernelparams))), 0)
        case WatchdogTimeoutSec => (Some(Decimal(d.watchdog)), 0)
        case Revision => (Some(Decimal(d.revision)), 0)
        case BootOnce => (Some(Decimal(d.bootOnce)), 0)
        case Testing => (Some(Decimal(d.testing)), 0)
  }

  /** `val = strtol(value, &p, 10)` into an `int`, and `errno`. */
  function StrtolInt(value: seq<byte>): (r: (int, int, nat))
    ensures INT_MIN <= r.0 <= INT_MAX && (r.1 == 0 || r.1 == ERANGE)
  {
    var p := ParseLong(value);
    (ToInt32(p.value), if p.range then ERANGE else 0, p.end)
  }

  /** A numeric field set to `val`, narrowed to the field's width. */
  function Store(d: OldEnv, k: Key, val: int): (r: OldEnv)
    requires k in {WatchdogTimeoutSec, Revision, BootOnce, Testing}
    ensures k == Revision ==> r == d.(revision := val % TWO_32)
    ensures k == WatchdogTimeoutSec ==> r == d.(watchdog := val % TWO_16)
    ensures k == BootOnce ==> r == d.(bootOnce := val % TWO_8)
    ensures k == Testing ==> r == d.(testing := val % TWO_8)
  {
    match k
    case Revision => d.(revision := val % TWO_32)
    case WatchdogTimeoutSec => d.(watchdog := val % TWO_16)
    case BootOnce => d.(bootOnce := val % TWO_8)
    case Testing => d.(testing := val % TWO_8)
  }

  /** The open record replaced. */
  function Put(s: Adapter, d: OldEnv): (r: Adapter)
    requires Valid(s) && s.current.Some?
    ensures Valid(r)
  {
    s.(mem := s.mem[s.current.value := d])
  }

  /** `ebg_env_set(key, value)` as written.  A number is refused only for
      an `errno` with an `int` value of 0, or for text without digits:
      the test against LONG_MAX/LONG_MIN compares an `int` and never
      holds, so an overflow that saturates at LONG_MAX (which `(int)` turns
      into -1) is stored.  `testing` is stored before the checks. */
  function SetAsWritten(s: Adapter, key: Option<seq<byte>>, value: Option<seq<byte>>): (r: Reply)
    requires Valid(s)
    ensures Valid(r.adapter) && r.adapter.disk == s.disk && r.adapter.current == s.current
    ensures key.None? || value.None? || Str2Enum(key.value).Unknown? ==> r == Reply(s, EINVAL)
    ensures key.Some? && value.Some? && !Str2Enum(key.value).Unknown? && s.current.None? ==> r == Reply(s, EPERM)
  {
    if key.None? || value.None? then Reply(s, EINVAL)
    else
      var k := Str2Enum(key.value);
      if k.Unknown? then Reply(s, EINVAL)
      else if s.current.None? then Reply(s, EPERM)
      else
        var d := s.mem[s.current.value];
        if k == KernelFile then Reply(Put(s, OldStr8To16In(d, KERNELFILE_AT, value.value)), 0)
        else if k == KernelParams then Reply(Put(s, OldStr8To16In(d, KERNELPARAMS_AT, value.value)), 0)
        else
          var (val, errno, end) := StrtolInt(value.value);
          var early := if k == Testing then Put(s, Store(d, k, val)) else s;
          if errno != 0 && val == 0 then Reply(early, errno)
          else if end == 0 then Reply(early, EINVAL)
          else Reply(Put(s, Store(d, k, val)), 0)
  }

  /** `ebg_env_set(key, value)` as intended: EINVAL for a null or unknown
      key or value, EPERM when nothing is open; a number out of `long`
      range gives ERANGE and text without digits EINVAL, and in both cases
      nothing changes; otherwise the field is stored. */
  function Set(s: Adapter, key: Option<seq<byte>>, value: Option<seq<byte>>): (r: Reply)
    requires Valid(s)
    ensures Valid(r.adapter) && r.adapter.disk == s.disk && r.adapter.current == s.current
    ensures key.None? || value.None? || Str2Enum(key.value).Unknown? ==> r == Reply(s, EINVAL)
    ensures key.Some? && value.Some? && !Str2Enum(key.value).Unknown? && s.current.None? ==> r == Reply(s, EPERM)
    ensures r.status != 0 ==> r.adapter == s
    ensures r.status == 0 ==> s.current.Some? && forall i :: 0 <= i < |s.mem| && i != s.current.value ==> r.adapter.mem[i] == s.mem[i]
  {
    if key.None? || value.None? then Reply(s, EINVAL)
    else
      var k := Str2Enum(key.value);
      if k.Unknown? then Reply(s, EINVAL)
      else if s.current.None? then Reply(s, EPERM)
      else
        var d := s.mem[s.current.value];
        if k == KernelFile then Reply(Put(s, OldStr8To16In(d, KERNELFILE_AT, value.value)), 0)
        else if k == KernelParams then Reply(Put(s, OldStr8To16In(d, KERNELPARAMS_AT, value.value)), 0)
        else
          var (val, errno, end) := StrtolInt(value.value);
          if errno != 0 then Reply(s, errno)
          else if end == 0 then Reply(s, EINVAL)
          else Reply(Put(s, Store(d, k, val)), 0)
  }

  /** For text that `strtol` reads without overflow, and for strings, the
      two agree. */
  lemma SetAgrees(s: Adapter, key: seq<byte>, value: seq<byte>)
    requires Valid(s)
    requires !ParseLong(value).range && ParseLong(value).end > 0
    ensures SetAsWritten(s, Some(key), Some(value)) == Set(s, Some(key), Some(value))
  {
  }

  /** `set("testing", "abc")` as written reports EINVAL but has already
      cleared `testing`; as intended it changes nothing. */
  lemma TestingNoDigits(s: Adapter)
    requires Valid(s) && s.current.Some? && s.mem[s.current.value].testing == 1
    ensures var r := SetAsWritten(s, Some(KeyName(Testing)), Some(Ascii("abc")));
      r.status == EINVAL && r.adapter.mem[s.current.value].testing == 0
    ensures Set(s, Some(KeyName(Testing)), Some(Ascii("abc"))) == Reply(s, EINVAL)
  {
    ParseNoDigits(Ascii("abc"));
    Str2EnumNames(Testing);
  }

  /** A revision beyond `long` range is stored as written, as 0xFFFFFFFF,
      which then outranks every other record; as intended it is refused
      with ERANGE. */
  lemma RevisionOverflow(s: Adapter, n: nat)
    requires Valid(s) && s.current.Some? && n > LONG_MAX
    ensures var r := SetAsWritten(s, Some(KeyName(Revision)), Some(Decimal(n)));
      r.status == 0 && r.adapter.mem[s.current.value].revision == 0xFFFF_FFFF
    ensures Set(s, Some(KeyName(Revision)), Some(Decimal(n))) == Reply(s, ERANGE)
  {
    OverflowText(n);
    Str2EnumNames(Revision);
  }

  /** `strtol` saturates decimal text past `long` range at LONG_MAX with
      ERANGE, and the cast to `int` turns that into -1. */
  lemma OverflowText(n: nat)
    requires n > LONG_MAX
    ensures StrtolInt(Decimal(n)) == (-1, ERANGE, |Decimal(n)|) && |Decimal(n)| > 0
  {
    ParseDecimalBig(n);
    assert ToInt32(LONG_MAX) == -1;
  }

  /** Leading zeros are accepted: a numeric field set to a digit string
      with zeros in front ends up as with the digits alone, and the status
      is the same. */
  lemma SetLeadingZeros(s: Adapter, k: Key, z: nat, t: seq<byte>)
    requires Valid(s) && k in {WatchdogTimeoutSec, Revision, BootOnce, Testing}
    requires AllDigits(t) && |t| > 0
    ensures Set(s, Some(KeyName(k)), Some(ZeroDigits(z) + t)) == Set(s, Some(KeyName(k)), Some(t))
  {
    ParseLeadingZeros(z, t);
    Str2EnumNames(k);
  }

  /** Example: "0013" sets the revision 13, one instance of
      `SetLeadingZeros` with the stored value spelled out. */
  lemma SetZeroZeroThirteen(s: Adapter)
    requires Valid(s) && s.current.Some?
    ensures Set(s, Some(KeyName(Revision)), Some([48, 48, 49, 51])).adapter.mem[s.current.value].revision == 13
  {
    ParseZeroZeroThirteen();
    Str2EnumNames(Revision);
  }

  /** A string set is read back as the same text, up to its NUL. */
  lemma SetGetString(s: Adapter, k: Key, value: seq<byte>)
    requires Valid(s) && s.current.Some? && k in {KernelFile, KernelParams}
    requires |CStr(value)| < ENV_STRING_LENGTH
    ensures var r := Set(s, Some(KeyName(k)), Some(value));
      r.status == 0 && Get(r.adapter, Some(KeyName(k))) == (Some(CStr(value)), 0)
  {
    Str2EnumNames(k);
    assert NarrowAll(WidenAll(CStr(value))) == CStr(value);
  }

  /** The numeric field `k` of a record. */
  function NumberOf(d: OldEnv, k: Key): (r: nat)
    requires k in {WatchdogTimeoutSec, Revision, BootOnce, Testing}
  {
    match k
    case Revision => d.revision
    case WatchdogTimeoutSec => d.watchdog
    case BootOnce => d.bootOnce
    case Testing => d.testing
  }

  /** A value the field can hold is stored as is. */
  lemma StoreNumber(d: OldEnv, k: Key, n: nat)
    requires k in {WatchdogTimeoutSec, Revision, BootOnce, Testing}
    requires k == Revision ==> n < TWO_32
    requires k == WatchdogTimeoutSec ==> n < TWO_16
    requires k in {BootOnce, Testing} ==> n < TWO_8
    ensures NumberOf(Store(d, k, n), k) == n
  {
  }

  /** A numeric field is read as its decimal text. */
  lemma GetNumber(s: Adapter, k: Key)
    requires Valid(s) && s.current.Some? && k in {WatchdogTimeoutSec, Revision, BootOnce, Testing}
    ensures Get(s, Some(KeyName(k))) == (Some(Decimal(NumberOf(s.mem[s.current.value], k))), 0)
  {
    Str2EnumNames(k);
  }

  /** Text `strtol` reads without overflow is stored, narrowed to the
      field. */
  lemma SetNumber(s: Adapter, k: Key, value: seq<byte>)
    requires Valid(s) && s.current.Some? && k in {WatchdogTimeoutSec, Revision, BootOnce, Testing}
    requires !ParseLong(value).range && ParseLong(value).end > 0
    ensures Set(s, Some(KeyName(k)), Some(value)) ==
      Reply(Put(s, Store(s.mem[s.current.value], k, ToInt32(ParseLong(value).value))), 0)
  {
    Str2EnumNames(k);
  }

  /** A number in the field's range set in decimal is read back as the
      same text. */
  lemma SetGetNumber(s: Adapter, k: Key, n: nat)
    requires Valid(s) && s.current.Some? && k in {WatchdogTimeoutSec, Revision, BootOnce, Testing}
    requires k == Revision ==> n <= INT_MAX
    requires k == WatchdogTimeoutSec ==> n < TWO_16
    requires k in {BootOnce, Testing} ==> n < TWO_8
    ensures var r := Set(s, Some(KeyName(k)), Some(Decimal(n)));
      r.status == 0 && Get(r.adapter, Some(KeyName(k))) == (Some(Decimal(n)), 0)
  {
    ParseDecimal(n);
    SetThenGet(s, k, Decimal(n), n);
  }

  /** Text `strtol` reads as `n`, in the field's range, is read back as
      the decimal text of `n`. */
  lemma SetThenGet(s: Adapter, k: Key, text: seq<byte>, n: nat)
    requires Valid(s) && s.current.Some? && k in {WatchdogTimeoutSec, Revision, BootOnce, Testing}
    requires k == Revision ==> n <= INT_MAX
    requires k == WatchdogTimeoutSec ==> n < TWO_16
    requires k in {BootOnce, Testing} ==> n < TWO_8
    requires ParseLong(text) == Strtol(n, |text|, false) && |text| > 0
    ensures var r := Set(s, Some(KeyName(k)), Some(text));
      r.status == 0 && Get(r.adapter, Some(KeyName(k))) == (Some(Decimal(n)), 0)
  {
    assert ToInt32(n) == n;
    SetNumber(s, k, text);
    var t := Put(s, Store(s.mem[s.current.value], k, n));
    StoreNumber(s.mem[s.current.value], k, n);
    GetNumber(t, k);
  }

  // ---------------------------------------------------------------------
  // The update protocol.

  /** A record that marks a failed update: revision 0 with both flags set. */
  predicate Failed(d: OldEnv)
  {
    d.revision == REVISION_FAILED && d.testing == 1 && d.bootOnce == 1
  }

  /** The loop of `ebg_env_isupdatesuccessful` from record `i`. */
  function SuccessfulFrom(envs: seq<OldEnv>, i: nat): (r: bool)
    requires i <= |envs|
    ensures r <==> forall j :: i <= j < |envs| ==> !Failed(envs[j])
    decreases |envs| - i
  {
    if i == |envs| then true
    else if Failed(envs[i]) then false
    else SuccessfulFrom(envs, i + 1)
  }

  /** `ebg_env_isupdatesuccessful`: false exactly when a loaded record
      marks a failed update. */
  function IsUpdateSuccessful(s: Adapter): (r: bool)
    ensures r <==> forall j :: 0 <= j < |s.mem| ==> !Failed(s.mem[j])
  {
    SuccessfulFrom(s.mem, 0)
  }

  /** The loop of `ebg_env_clearerrorstate` from record `i`: a failed
      record has both flags cleared and is written back (its checksum is
      not recomputed); a failed write stops with EIO. */
  function ClearFrom(s: Adapter, i: nat, writeOk: nat -> bool): (r: Reply)
    requires Valid(s) && i <= |s.mem|
    ensures Valid(r.adapter) && |r.adapter.mem| == |s.mem|
    ensures r.adapter.current == s.current && r.adapter.created == s.created
    ensures r.status == 0 || r.status == EIO
    ensures r.status == 0 <==> forall j :: i <= j < |s.mem| && Failed(s.mem[j]) ==> writeOk(j)
    ensures r.status == 0 ==> forall j :: 0 <= j < |s.mem| ==>
      r.adapter.mem[j] == (if j >= i && Failed(s.mem[j]) then s.mem[j].(testing := 0, bootOnce := 0) else s.mem[j])
    ensures r.status == 0 ==> forall j :: 0 <= j < |s.mem| ==>
      r.adapter.disk[j] == (if j >= i && Failed(s.mem[j]) then s.mem[j].(testing := 0, bootOnce := 0) else s.disk[j])
    decreases |s.mem| - i
  {
    if i == |s.mem| then Reply(s, 0)
    else if Failed(s.mem[i]) then
      var d := s.mem[i].(testing := 0, bootOnce := 0);
      var t := s.(mem := s.mem[i := d]);
      if !writeOk(i) then Reply(t, EIO)
      else ClearFrom(t.(disk := t.disk[i := d]), i + 1, writeOk)
    else ClearFrom(s, i + 1, writeOk)
  }

  /** `ebg_env_clearerrorstate`. */
  function ClearErrorState(s: Adapter, writeOk: nat -> bool): (r: Reply)
    requires Valid(s)
    ensures Valid(r.adapter) && |r.adapter.mem| == |s.mem|
    ensures r.status == 0 <==> forall j :: 0 <= j < |s.mem| && Failed(s.mem[j]) ==> writeOk(j)
    ensures r.status == 0 ==> forall j :: 0 <= j < |s.mem| ==>
      r.adapter.mem[j] == (if Failed(s.mem[j]) then s.mem[j].(testing := 0, bootOnce := 0) else s.mem[j])
  {
    ClearFrom(s, 0, writeOk)
  }

  /** After the error state is cleared the update counts as successful. */
  lemma ClearThenSuccessful(s: Adapter, writeOk: nat -> bool)
    requires Valid(s)
    ensures var r := ClearErrorState(s, writeOk); r.status == 0 ==> IsUpdateSuccessful(r.adapter)
  {
  }

  /** `ebg_env_confirmupdate`: `testing` then `boot_once` set to 0,
      stopping at the first error. */
  function ConfirmUpdate(s: Adapter): (r: Reply)
    requires Valid(s)
    ensures Valid(r.adapter)
    ensures s.current.None? ==> r == Reply(s, EPERM)
    ensures s.current.Some? ==> (r.status == 0 &&
      r.adapter == s.(mem := s.mem[s.current.value := s.mem[s.current.value].(testing := 0, bootOnce := 0)]))
  {
    ConfirmSteps(s);
    var r := Set(s, Some(KeyName(Testing)), Some(ZERO_TEXT));
    if r.status != 0 then r
    else Set(r.adapter, Some(KeyName(BootOnce)), Some(ZERO_TEXT))
  }

  /** The text "0". */
  const ZERO_TEXT: seq<byte> := [48]

  /** Setting "0" clears the flag, or is refused with EPERM when nothing
      is open. */
  lemma ConfirmSteps(s: Adapter)
    requires Valid(s)
    ensures s.current.None? ==> Set(s, Some(KeyName(Testing)), Some(ZERO_TEXT)) == Reply(s, EPERM)
    ensures s.current.Some? ==>
      var c := s.current.value;
      var t := Put(s, s.mem[c].(testing := 0));
      Set(s, Some(KeyName(Testing)), Some(ZERO_TEXT)) == Reply(t, 0) &&
      Set(t, Some(KeyName(BootOnce)), Some(ZERO_TEXT)) ==
        Reply(s.(mem := s.mem[c := s.mem[c].(testing := 0, bootOnce := 0)]), 0)
  {
    Str2EnumNames(Testing);
    ParseDecimal(0);
    assert Decimal(0) == ZERO_TEXT;
    if s.current.Some? {
      SetNumber(s, Testing, ZERO_TEXT);
      var c := s.current.value;
      var t := Put(s, s.mem[c].(testing := 0));
      SetNumber(t, BootOnce, ZERO_TEXT);
      assert t.mem[c := t.mem[c].(bootOnce := 0)] == s.mem[c := s.mem[c].(testing := 0, bootOnce := 0)];
    }
  }

  /** The state of the latest loaded record, or false with EIO when there
      is none. */
  function OnLatest(s: Adapter, p: OldEnv -> bool): (r: (bool, int))
    ensures |s.mem| == 0 ==> r == (false, EIO)
    ensures |s.mem| > 0 ==> r == (p(s.mem[LatestIndex(s.mem)]), 0)
  {
    if |s.mem| == 0 then (false, EIO) else (p(s.mem[LatestIndex(s.mem)]), 0)
  }

  /** `ebg_env_isokay`: the latest record is not being tested. */
  function IsOkay(s: Adapter): (r: (bool, int))
    ensures r.0 <==> |s.mem| > 0 && s.mem[LatestIndex(s.mem)].testing == 0
  {
    OnLatest(s, (d: OldEnv) => d.testing == 0)
  }

  /** `ebg_env_isinstalled`: installed, not yet booted. */
  function IsInstalled(s: Adapter): (r: (bool, int))
    ensures r.0 <==> |s.mem| > 0 && s.mem[LatestIndex(s.mem)].testing == 1 && s.mem[LatestIndex(s.mem)].bootOnce == 0
  {
    OnLatest(s, (d: OldEnv) => d.testing == 1 && d.bootOnce == 0)
  }

  /** `ebg_env_istesting`: booted once for testing. */
  function IsTesting(s: Adapter): (r: (bool, int))
    ensures r.0 <==> |s.mem| > 0 && s.mem[LatestIndex(s.mem)].testing == 1 && s.mem[LatestIndex(s.mem)].bootOnce == 1
  {
    OnLatest(s, (d: OldEnv) => d.testing == 1 && d.bootOnce == 1)
  }

  /** At most one of the three states holds. */
  lemma StatesExclusive(s: Adapter)
    ensures !(IsOkay(s).0 && IsInstalled(s).0)
    ensures !(IsOkay(s).0 && IsTesting(s).0)
    ensures !(IsInstalled(s).0 && IsTesting(s).0)
  {
  }

  /** A freshly created update is installed, not okay and not testing,
      once it is the latest record. */
  lemma NewRecordInstalled(s: Adapter, i: nat, rev: u32)
    requires i < |s.mem| && s.mem[i] == NewRecord(rev) && LatestIndex(s.mem) == i
    ensures IsInstalled(s).0 && !IsOkay(s).0 && !IsTesting(s).0
  {
  }

  /** `ebg_env_close`: EIO when nothing is open; otherwise the open record
      gets a fresh checksum and is written.  Only a successful write
      closes it. */
  function Close(s: Adapter, writeOk: nat -> bool, crc: Crc): (r: Reply)
    requires Valid(s)
    ensures Valid(r.adapter)
    ensures s.current.None? ==> r == Reply(s, EIO)
    ensures s.current.Some? && writeOk(s.current.value) ==>
      var c := s.current.value;
      var d := OldWithCrc(s.mem[c], crc);
      r == Reply(s.(mem := s.mem[c := d], disk := s.disk[c := d], current := None), 0)
    ensures s.current.Some? && !writeOk(s.current.value) ==>
      r.status == EIO && r.adapter.current == s.current && r.adapter.disk == s.disk
  {
    match s.current
    case None => Reply(s, EIO)
    case Some(c) =>
      var d := OldWithCrc(s.mem[c], crc);
      var t := s.(mem := s.mem[c := d]);
      if !writeOk(c) then Reply(t, EIO)
      else Reply(t.(disk := t.disk[c := d], current := None), 0)
  }

  /** A closed adapter refuses to get or set until it is opened again. */
  lemma ClosedRefuses(s: Adapter, writeOk: nat -> bool, crc: Crc, k: Key)
    requires Valid(s) && s.current.Some? && writeOk(s.current.value) && !k.Unknown?
    ensures Get(Close(s, writeOk, crc).adapter, Some(KeyName(k))) == (None, EPERM)
  {
    Str2EnumNames(k);
  }

  /** Confirming and then closing puts the open record on its partition
      with both flags cleared. */
  lemma ConfirmThenClose(s: Adapter, writeOk: nat -> bool, crc: Crc)
    requires Valid(s) && s.current.Some?
    requires writeOk(s.current.value)
    ensures var c := ConfirmUpdate(s);
      var d := Close(c.adapter, writeOk, crc);
      d.status == 0 && d.adapter.disk[s.current.value].testing == 0 && d.adapter.disk[s.current.value].bootOnce == 0
  {
  }
}
