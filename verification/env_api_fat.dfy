/** The environment set of env/env_api_fat.c: the array `envdata` of
    `ENV_NUM_CONFIG_PARTS` records (here `envs`, never empty), the choice of
    the oldest and the latest record, typed get and set on one record, and
    `bgenv_create_new`.  A handle is the index of the record it refers to;
    null pointers are `None`.  Allocation failures (`calloc`) are not
    modelled: the model's handles always exist. */
module EnvApiFat {
  import opened Wrappers
  import opened Bytes
  import opened CLib
  import opened EnvRecord
  import opened UserVarRecord
  import opened UserVarArea
  import opened UserVars

  /** `EBGENVKEY`. */
  datatype Key = KernelFile | KernelParams | WatchdogTimeoutSec | Revision | Ustate | InProgress | Unknown

  /** The name of each built-in key. */
  function KeyName(k: Key): (r: seq<byte>)
    requires k != Unknown
  {
    match k
    case KernelFile => Ascii("kernelfile")
    case KernelParams => Ascii("kernelparams")
    case WatchdogTimeoutSec => Ascii("watchdog_timeout_sec")
    case Revision => Ascii("revision")
    case Ustate => Ascii("ustate")
    case InProgress => Ascii("in_progress")
  }

  /** `bgenv_str2enum`: exactly the six names are built-in keys. */
  function Str2Enum(key: seq<byte>): (r: Key)
    ensures r != Unknown ==> key == KeyName(r)
    ensures r == Unknown <==> forall k: Key :: k != Unknown ==> key != KeyName(k)
  {
    if key == Ascii("kernelfile") then KernelFile
    else if key == Ascii("kernelparams") then KernelParams
    else if key == Ascii("watchdog_timeout_sec") then WatchdogTimeoutSec
    else if key == Ascii("revision") then Revision
    else if key == Ascii("ustate") then Ustate
    else if key == Ascii("in_progress") then InProgress
    else Unknown
  }

  /** Every name maps back to its key; the empty string is no key. */
  lemma Str2EnumNames(k: Key)
    requires k != Unknown
    ensures Str2Enum(KeyName(k)) == k
    ensures Str2Enum([]) == Unknown
  {
  }

  // ---------------------------------------------------------------------
  // Handles.

  /** `BGENV`: the config partition (`desc`, `None` for null) and the
      record. */
  datatype Handle = Handle(desc: Option<nat>, data: nat)

  /** `bgenv_open_by_index`: a handle on record and partition `index`, or
      null when there is no such record. */
  function OpenByIndex(n: nat, index: nat): (r: Option<Handle>)
    ensures r.Some? <==> index < n
    ensures r.Some? ==> r.value.data == index && r.value.desc == Some(index)
  {
    if index >= n then None else Some(Handle(Some(index), index))
  }

  /** `bgenv_write`: false for a null handle or partition, otherwise whether
      writing the partition succeeds (`writeOk`, file I/O). */
  function BgenvWrite(env: Option<Handle>, writeOk: nat -> bool): (r: bool)
    ensures r ==> env.Some? && env.value.desc.Some?
    ensures env.Some? && env.value.desc.Some? ==> (r <==> writeOk(env.value.desc.value))
  {
    match env
    case None => false
    case Some(h) =>
      match h.desc
      case None => false
      case Some(part) => writeOk(part)
  }

  // ---------------------------------------------------------------------
  // Oldest and latest.

  /** `k` holds the smallest revision, and no earlier record does. */
  predicate IsOldest(envs: seq<EnvData>, k: nat)
  {
    k < |envs| &&
    (forall j :: 0 <= j < |envs| ==> envs[k].revision <= envs[j].revision) &&
    (forall j :: 0 <= j < k ==> envs[j].revision > envs[k].revision)
  }

  /** `k` holds the greatest revision, and no earlier record does. */
  predicate IsLatest(envs: seq<EnvData>, k: nat)
  {
    k < |envs| &&
    (forall j :: 0 <= j < |envs| ==> envs[k].revision >= envs[j].revision) &&
    (forall j :: 0 <= j < k ==> envs[j].revision < envs[k].revision)
  }

  /** The loop of `bgenv_open_oldest` from record `i` on, with the smallest
      revision seen so far and its index (0xFFFFFFFF and 0 at the start). */
  function OldestFrom(envs: seq<EnvData>, i: nat, minrev: nat, minIdx: nat): (r: nat)
    requires 0 < |envs| && i <= |envs| && minIdx < |envs|
    requires i == 0 ==> minrev == 0xFFFF_FFFF && minIdx == 0
    requires i > 0 ==> minIdx < i && minrev == envs[minIdx].revision
    requires forall j :: 0 <= j < i ==> envs[j].revision >= minrev
    requires forall j :: 0 <= j < minIdx ==> envs[j].revision > minrev
    ensures IsOldest(envs, r)
    decreases |envs| - i
  {
    if i == |envs| then minIdx
    else if envs[i].revision < minrev then OldestFrom(envs, i + 1, envs[i].revision, i)
    else OldestFrom(envs, i + 1, minrev, minIdx)
  }

  /** The loop of `bgenv_open_latest` (starting from revision 0, index 0). */
  function LatestFrom(envs: seq<EnvData>, i: nat, maxrev: nat, maxIdx: nat): (r: nat)
    requires 0 < |envs| && i <= |envs| && maxIdx < |envs|
    requires i == 0 ==> maxrev == 0 && maxIdx == 0
    requires i > 0 ==> maxIdx < i && maxrev == envs[maxIdx].revision
    requires forall j :: 0 <= j < i ==> envs[j].revision <= maxrev
    requires forall j :: 0 <= j < maxIdx ==> envs[j].revision < maxrev
    ensures IsLatest(envs, r)
    decreases |envs| - i
  {
    if i == |envs| then maxIdx
    else if envs[i].revision > maxrev then LatestFrom(envs, i + 1, envs[i].revision, i)
    else LatestFrom(envs, i + 1, maxrev, maxIdx)
  }

  /** `bgenv_open_oldest`: the first record with the smallest revision. */
  function Oldest(envs: seq<EnvData>): (r: nat)
    requires 0 < |envs|
    ensures IsOldest(envs, r)
  {
    OldestFrom(envs, 0, 0xFFFF_FFFF, 0)
  }

  /** `bgenv_open_latest`: the first record with the greatest revision. */
  function Latest(envs: seq<EnvData>): (r: nat)
    requires 0 < |envs|
    ensures IsLatest(envs, r)
  {
    LatestFrom(envs, 0, 0, 0)
  }

  /** The choice is determined: one index at most is the oldest, and one at
      most the latest. */
  lemma ChoiceUnique(envs: seq<EnvData>, a: nat, b: nat)
    ensures IsOldest(envs, a) && IsOldest(envs, b) ==> a == b
    ensures IsLatest(envs, a) && IsLatest(envs, b) ==> a == b
  {
    if IsOldest(envs, a) && IsOldest(envs, b) {
      if a < b { NotOldestBefore(envs, a, b); }
      else if b < a { NotOldestBefore(envs, b, a); }
    }
    if IsLatest(envs, a) && IsLatest(envs, b) {
      if a < b { NotLatestBefore(envs, a, b); }
      else if b < a { NotLatestBefore(envs, b, a); }
    }
  }

  lemma NotOldestBefore(envs: seq<EnvData>, a: nat, b: nat)
    requires IsOldest(envs, b) && a < b
    ensures !IsOldest(envs, a)
  {
    assert envs[a].revision > envs[b].revision;
  }

  lemma NotLatestBefore(envs: seq<EnvData>, a: nat, b: nat)
    requires IsLatest(envs, b) && a < b
    ensures !IsLatest(envs, a)
  {
    assert envs[a].revision < envs[b].revision;
  }

  /** When every revision is equal (for instance all 0), both choices are
      record 0. */
  lemma AllEqualChoosesFirst(envs: seq<EnvData>)
    requires 0 < |envs| && forall j :: 0 <= j < |envs| ==> envs[j].revision == envs[0].revision
    ensures Oldest(envs) == 0 && Latest(envs) == 0
  {
    ChoiceUnique(envs, Oldest(envs), 0);
    ChoiceUnique(envs, Latest(envs), 0);
  }

  // ---------------------------------------------------------------------
  // Typed get and set.

  const USERVAR_TYPE_UINT8: nat := 2
  const USERVAR_TYPE_UINT16: nat := 3
  const USERVAR_TYPE_STRING_ASCII: nat := 32

  /** What a record must satisfy for get and set to stay inside it: strings
      terminated in their arrays (as `read_env` ensures) and a well-formed
      user-variable area. */
  predicate Sound(d: EnvData)
  {
    Terminated(d) && WellFormed(d.userdata)
  }

  predicate IsNumeric(k: Key)
  {
    k == WatchdogTimeoutSec || k == Revision || k == Ustate || k == InProgress
  }

  /** The value of a numeric field. */
  function Number(d: EnvData, k: Key): nat
    requires IsNumeric(k)
  {
    match k
    case WatchdogTimeoutSec => d.watchdog
    case Revision => d.revision
    case Ustate => d.ustate
    case InProgress => d.inProgress
  }

  /** The type `bgenv_get` reports for a numeric field.  The revision, a
      32-bit field, is reported as UINT16 like the watchdog timeout. */
  function NumberType(k: Key): nat
    requires IsNumeric(k)
  {
    if k == Ustate || k == InProgress then USERVAR_TYPE_UINT8 else USERVAR_TYPE_UINT16
  }

  /** A numeric field set from a C `int` `val >= 0`: the assignment keeps
      the low bits that fit the field. */
  function SetNumber(d: EnvData, k: Key, val: nat): (r: EnvData)
    requires IsNumeric(k) && val < 0x8000_0000
    ensures Number(r, k) == val % (if k == Revision then TWO_32 else if k == WatchdogTimeoutSec then TWO_16 else TWO_8)
    ensures val < FieldLimit(k) ==> Number(r, k) == val
  {
    match k
    case WatchdogTimeoutSec => d.(watchdog := val % TWO_16)
    case Revision => d.(revision := val)
    case Ustate => d.(ustate := val % TWO_8)
    case InProgress => d.(inProgress := val % TWO_8)
  }

  /** The size of the data of the user variable named `key`, as
      `bgenv_find_uservar` and `bgenv_map_uservar` give it, if there is one. */
  function UservarSize(u: seq<byte>, key: seq<byte>): (r: Option<nat>)
    requires WellFormed(u)
    ensures r.None? <==> Lookup(Vars(u), key).None?
    ensures r.Some? ==> r.value == |Lookup(Vars(u), key).value.data|
  {
    match FindUservar(u, key)
    case None => None
    case Some(p) =>
      assert p == Offsets(Vars(u))[IndexOf(Vars(u), key).value];
      RecordAt(u, p);
      OffsetInjective(Vars(u), OffsetIndex(Vars(u), p), IndexOf(Vars(u), key).value);
      Some(|MapUservar(u, p).value.v.data|)
  }

  /** What `bgenv_get` returns, copies into the buffer and stores through
      the type pointer. */
  datatype GetOut = GetOut(status: int, bytes: seq<byte>, vtype: Option<nat>)

  /** The text `bgenv_get` produces for a built-in key, with its NUL. */
  function BuiltinText(d: EnvData, k: Key): (r: seq<byte>)
    requires Terminated(d) && k != Unknown
    ensures |r| >= 1 && r[|r| - 1] == 0
  {
    if k == KernelFile then Str16To8(true, Some(d.kernelfile)).value
    else if k == KernelParams then Str16To8(true, Some(d.kernelparams)).value
    else Decimal(Number(d, k)) + [0]
  }

  /** `bgenv_get(env, key, type, data, maxlen)`; `buffer` says whether
      `data` is non-null.  Without a buffer it reports the size needed;
      with one it copies the value: a built-in value whole (`maxlen` is not
      consulted), a user variable's data cut to `maxlen`. */
  function BgenvGet(env: Option<EnvData>, key: Option<seq<byte>>, buffer: bool, maxlen: nat): (r: GetOut)
    requires env.Some? ==> Sound(env.value)
    ensures key.None? || maxlen == 0 ==> r.status == -EINVAL
    ensures key.Some? && maxlen > 0 && env.None? ==> r.status == -EPERM
    ensures key.Some? && maxlen > 0 && env.Some? && Str2Enum(key.value) != Unknown ==>
      (buffer ==> r == GetOut(0, BuiltinText(env.value, Str2Enum(key.value)),
                               Some(if Str2Enum(key.value) in {KernelFile, KernelParams} then USERVAR_TYPE_STRING_ASCII
                                    else NumberType(Str2Enum(key.value))))) &&
      (!buffer ==> r.status == |BuiltinText(env.value, Str2Enum(key.value))|)
    ensures key.Some? && maxlen > 0 && env.Some? && Str2Enum(key.value) == Unknown ==>
      var w := Lookup(Vars(env.value.userdata), key.value);
      (!buffer && w.None? ==> r.status == -ENOENT) &&
      (!buffer && w.Some? ==> r.status == |w.value.data|) &&
      (buffer && w.None? ==> r.status == -EINVAL) &&
      (buffer && w.Some? ==> r == GetOut(0, Got(w.value, maxlen).1, Some(w.value.vtype)))
  {
    if key.None? || maxlen == 0 then GetOut(-EINVAL, [], None)
    else if env.None? then GetOut(-EPERM, [], None)
    else
      var d := env.value;
      var k := Str2Enum(key.value);
      if k == Unknown then
        if !buffer then
          match UservarSize(d.userdata, key.value)
          case None => GetOut(-ENOENT, [], None)
          case Some(size) => GetOut(size, [], None)
        else
          GetLookup(d.userdata, key.value, maxlen);
          match GetUservar(d.userdata, key.value, maxlen)
          case Failure(e) => GetOut(e, [], None)
          case Success(got) => GetOut(0, got.1, Some(got.0))
      else
        var text := BuiltinText(d, k);
        if !buffer then GetOut(|text|, [], None)
        else
          GetOut(0, text, Some(if k == KernelFile || k == KernelParams then USERVAR_TYPE_STRING_ASCII
                               else NumberType(k)))
  }

  /** `bgenv_convert_to_long`: the `strtol` value, -ERANGE when it
      saturated, -EINVAL when there was no digit. */
  function ConvertToLong(value: seq<byte>): (r: int)
    ensures ParseLong(value).end == 0 ==> r == -EINVAL
    ensures ParseLong(value).range ==> r == -ERANGE
    ensures ParseLong(value).end > 0 && !ParseLong(value).range ==> r == ParseLong(value).value
  {
    var p := ParseLong(value);
    if p.range && (p.value == LONG_MAX || p.value == LONG_MIN) then -ERANGE
    else if p.end == 0 then -EINVAL
    else p.value
  }

  /** What `bgenv_set` leaves in the record and returns. */
  datatype Setting = Setting(env: Option<EnvData>, status: int)

  /** The built-in part of `bgenv_set`: a kernel path or argument string is
      the C string in `data`, widened and copied without a bound, so text
      that does not fit its field runs on into the fields after it; a
      numeric value is parsed with `strtol`, cut to a C `int`, rejected
      when negative and stored in the field's width. */
  function SetBuiltin(d: EnvData, k: Key, data: seq<byte>): (r: Setting)
    requires k != Unknown
    ensures r.env.Some? && |r.env.value.userdata| == |d.userdata|
    ensures r.status != 0 ==> r == Setting(Some(d), -EINVAL)
    ensures k in {KernelFile, KernelParams} ==> r.status == 0
    ensures k == KernelFile && |CStr(data)| < ENV_STRING_LENGTH ==>
      r.env.value == d.(kernelfile := Str8To16(d.kernelfile, data))
    ensures k == KernelParams && |CStr(data)| < ENV_STRING_LENGTH ==>
      r.env.value == d.(kernelparams := Str8To16(d.kernelparams, data))
    ensures k in {KernelFile, KernelParams} && |CStr(data)| >= ENV_STRING_LENGTH ==> !Terminated(r.env.value)
    ensures k !in {KernelFile, KernelParams} ==> r.env.value.userdata == d.userdata
  {
    if k == KernelFile then
      Str8To16InCases(d, data);
      Setting(Some(Str8To16In(d, KERNELFILE_AT, data)), 0)
    else if k == KernelParams then
      Str8To16InCases(d, data);
      Setting(Some(Str8To16In(d, KERNELPARAMS_AT, data)), 0)
    else
      var val := ToInt32(ConvertToLong(CStr(data)));
      if val < 0 then Setting(Some(d), -EINVAL)
      else Setting(Some(SetNumber(d, k, val)), 0)
  }

  /** `bgenv_set(env, key, type, data, datalen)`. `data` stands for every
      byte readable from the pointer: a user variable takes its first
      `datalen` bytes, while a built-in field reads the C string there, so
      for those `datalen` only has to be non-zero.  Argument errors come
      first, then a null record, then a built-in field or, for any other
      key, a user variable. */
  function BgenvSet(env: Option<EnvData>, key: Option<seq<byte>>, vtype: nat, data: Option<seq<byte>>, datalen: nat): (r: Setting)
    requires env.Some? ==> WellFormed(env.value.userdata)
    requires key.Some? ==> CString(key.value)
    requires vtype < TWO_64
    requires data.Some? ==> datalen <= |data.value|
    requires key.Some? && data.Some? ==> |key.value| + 13 + datalen < TWO_32 - 1
    ensures key.None? || data.None? || datalen == 0 ==> r == Setting(env, -EINVAL)
    ensures key.Some? && data.Some? && datalen > 0 && env.None? ==> r == Setting(None, -EPERM)
    ensures r.env.Some? <==> env.Some?
    ensures key.Some? && data.Some? && datalen > 0 && env.Some? && Str2Enum(key.value) != Unknown ==>
      r == SetBuiltin(env.value, Str2Enum(key.value), data.value)
    ensures key.Some? && data.Some? && datalen > 0 && env.Some? && Str2Enum(key.value) == Unknown ==>
      var o := SetUservar(env.value.userdata, key.value, vtype, data.value[..datalen]);
      r == Setting(Some(env.value.(userdata := o.area)), o.status)
  {
    if key.None? || data.None? || datalen == 0 then Setting(env, -EINVAL)
    else if env.None? then Setting(None, -EPERM)
    else
      var d := env.value;
      var k := Str2Enum(key.value);
      if k == Unknown then
        var o := SetUservar(d.userdata, key.value, vtype, data.value[..datalen]);
        Setting(Some(d.(userdata := o.area)), o.status)
      else SetBuiltin(d, k, data.value)
  }

  /** A built-in field does not look at `datalen`: any two non-zero
      lengths the buffer covers set the same, so "vmlinuz" with length 3
      stores all of "vmlinuz". */
  lemma BuiltinIgnoresDatalen(env: Option<EnvData>, key: seq<byte>, vtype: nat, data: seq<byte>, n: nat, m: nat)
    requires env.Some? ==> WellFormed(env.value.userdata)
    requires CString(key) && Str2Enum(key) != Unknown && vtype < TWO_64
    requires 0 < n <= |data| && 0 < m <= |data| && |key| + 13 + |data| < TWO_32 - 1
    ensures BgenvSet(env, Some(key), vtype, Some(data), n) == BgenvSet(env, Some(key), vtype, Some(data), m)
    ensures env.Some? ==> BgenvSet(env, Some(key), vtype, Some(data), n) == SetBuiltin(env.value, Str2Enum(key), data)
  {
  }

  /** The largest value a numeric field holds. */
  function FieldLimit(k: Key): nat
    requires IsNumeric(k)
  {
    if k == Revision then 0x8000_0000 else if k == WatchdogTimeoutSec then TWO_16 else TWO_8
  }

  /** Setting a numeric field to the decimal text of a number: the number
      cut to a C `int`, rejected when negative, else stored in the field's
      width. */
  lemma SetNumberDecimal(d: EnvData, k: Key, n: nat)
    requires IsNumeric(k) && n <= LONG_MAX
    ensures SetBuiltin(d, k, Decimal(n) + [0]) ==
      if ToInt32(n) < 0 then Setting(Some(d), -EINVAL) else Setting(Some(SetNumber(d, k, ToInt32(n))), 0)
  {
    var text := Decimal(n) + [0];
    CStrOfString(Decimal(n));
    ParseDecimal(n);
    assert ConvertToLong(CStr(text)) == n;
    assert k != KernelFile && k != KernelParams;
  }

  /** A value the field can hold is stored as is, and the text `bgenv_get`
      then produces for the field is the text it was set from. */
  lemma SetGetNumber(d: EnvData, k: Key, n: nat)
    requires Terminated(d) && IsNumeric(k) && n < FieldLimit(k)
    ensures SetBuiltin(d, k, Decimal(n) + [0]) == Setting(Some(SetNumber(d, k, n)), 0)
    ensures Number(SetNumber(d, k, n), k) == n
    ensures BuiltinText(SetNumber(d, k, n), k) == Decimal(n) + [0]
  {
    SetNumberDecimal(d, k, n);
    assert ToInt32(n) == n;
    var e := SetNumber(d, k, n);
    assert Number(e, k) == n;
    assert BuiltinText(e, k) == Decimal(Number(e, k)) + [0];
  }

  /** A revision of 2^32 is taken modulo 2^32 by the cast to `int`: it is
      stored as 0, the value that marks a failed update.  One of 2^31 turns
      negative and is rejected. */
  lemma SetRevisionWraps(d: EnvData, big: nat, half: nat)
    requires big == TWO_32 && half == 0x8000_0000
    ensures SetBuiltin(d, Revision, Decimal(big) + [0]) == Setting(Some(d.(revision := 0)), 0)
    ensures SetBuiltin(d, Revision, Decimal(half) + [0]) == Setting(Some(d), -EINVAL)
  {
    SetNumberDecimal(d, Revision, big);
    SetNumberDecimal(d, Revision, half);
  }

  /** "-0" is accepted as 0, any other negative number is rejected, and text
      without digits is rejected; the record is then unchanged. */
  lemma SetNumberSigns(d: EnvData, k: Key, n: nat)
    requires IsNumeric(k) && 0 < n < 0x8000_0000
    ensures SetBuiltin(d, k, [45, 48, 0]) == Setting(Some(SetNumber(d, k, 0)), 0)
    ensures SetBuiltin(d, k, [45] + Decimal(n) + [0]) == Setting(Some(d), -EINVAL)
    ensures SetBuiltin(d, k, [120, 0]) == Setting(Some(d), -EINVAL)
  {
    assert [45, 48, 0] == [45] + Decimal(0) + [0];
    SetNegativeDecimal(d, k, 0);
    SetNegativeDecimal(d, k, n);
    SetNoDigits(d, k, [120]);
  }

  /** Minus sign followed by the decimal text of `n`. */
  lemma SetNegativeDecimal(d: EnvData, k: Key, n: nat)
    requires IsNumeric(k) && n < 0x8000_0000
    ensures SetBuiltin(d, k, [45] + Decimal(n) + [0]) ==
      if n == 0 then Setting(Some(SetNumber(d, k, 0)), 0) else Setting(Some(d), -EINVAL)
  {
    CStrOfString([45] + Decimal(n));
    ParseNegDecimal(n);
    assert ToInt32(-(n as int)) == -(n as int);
  }

  /** Text that does not start a number is rejected. */
  lemma SetNoDigits(d: EnvData, k: Key, s: seq<byte>)
    requires IsNumeric(k) && 0 !in s && |s| > 0 && !IsSpace(s[0]) && !IsDigit(s[0]) && s[0] != 43 && s[0] != 45
    ensures SetBuiltin(d, k, s + [0]) == Setting(Some(d), -EINVAL)
  {
    CStrOfString(s);
    ParseNoDigits(s);
  }

  /** A kernel path or argument string set with `bgenv_set` is read back
      unchanged by `bgenv_get`. */
  lemma SetGetString(d: EnvData, k: Key, value: seq<byte>)
    requires Terminated(d) && (k == KernelFile || k == KernelParams)
    requires |CStr(value)| < ENV_STRING_LENGTH
    ensures SetBuiltin(d, k, value).status == 0
    ensures Terminated(SetBuiltin(d, k, value).env.value)
    ensures BuiltinText(SetBuiltin(d, k, value).env.value, k) == CStr(value) + [0]
  {
    if k == KernelFile {
      StringRoundTrip(d.kernelfile, value);
    } else {
      StringRoundTrip(d.kernelparams, value);
    }
  }

  // ---------------------------------------------------------------------
  // bgenv_create_new.

  /** `bgenv_create_new`: the oldest record becomes the new one, with the
      latest revision plus one (a 32-bit sum) and `in_progress` set.  When
      it is not also the latest it is first zeroed and given the default
      watchdog timeout.  Returns the records and the new record's index. */
  function CreateNew(envs: seq<EnvData>): (r: (seq<EnvData>, nat))
    requires 0 < |envs|
    ensures |r.0| == |envs| && IsOldest(envs, r.1)
    ensures forall j :: 0 <= j < |envs| && j != r.1 ==> r.0[j] == envs[j]
    ensures r.0[r.1].revision == Wrap32(envs[Latest(envs)].revision + 1)
    ensures r.0[r.1].inProgress == 1
    ensures |r.0[r.1].userdata| == |envs[r.1].userdata|
    ensures r.1 != Latest(envs) ==>
      r.0[r.1].(revision := 0, inProgress := 0, watchdog := 0) == Zeroed(|envs[r.1].userdata|) &&
      r.0[r.1].watchdog == DEFAULT_TIMEOUT_SEC
    ensures r.1 == Latest(envs) ==>
      r.0[r.1].(revision := envs[r.1].revision, inProgress := envs[r.1].inProgress) == envs[r.1]
  {
    var latest := Latest(envs);
    var newRev := Wrap32(envs[latest].revision + 1);
    var oldest := Oldest(envs);
    var base := if latest != oldest
      then Zeroed(|envs[oldest].userdata|).(watchdog := DEFAULT_TIMEOUT_SEC)
      else envs[oldest];
    (envs[oldest := base.(revision := newRev, inProgress := 1)], oldest)
  }

  /** Unless the revision wraps, the record `bgenv_create_new` fills is the
      latest afterwards, and its revision is one more than any before. */
  lemma CreateNewIsLatest(envs: seq<EnvData>)
    requires 0 < |envs| && envs[Latest(envs)].revision < 0xFFFF_FFFF
    ensures Latest(CreateNew(envs).0) == CreateNew(envs).1
    ensures forall j :: 0 <= j < |envs| ==> envs[j].revision < CreateNew(envs).0[CreateNew(envs).1].revision
  {
    var r := CreateNew(envs);
    var L := envs[Latest(envs)].revision;
    assert forall j :: 0 <= j < |envs| ==> envs[j].revision <= L;
    assert r.0[r.1].revision == L + 1;
    assert IsLatest(r.0, r.1) by {
      forall j | 0 <= j < |r.0|
        ensures r.0[j].revision <= r.0[r.1].revision
        ensures j != r.1 ==> r.0[j].revision < r.0[r.1].revision
      {
        if j != r.1 { assert r.0[j] == envs[j]; }
      }
    }
    ChoiceUnique(r.0, Latest(r.0), r.1);
  }
}
