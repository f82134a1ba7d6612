/** The library interface of env/env_api.c (`ebg_env_*`): a context that
    has one record of the environment open, on top of the records
    `bgenv_init` read from the config partitions.  Reading the partitions
    is not modelled: the records are given, and whether `bgenv_init` and a
    write of a partition succeed are parameters. */
module EnvApi {
  import opened Wrappers
  import opened Bytes
  import opened CLib
  import opened EnvRecord
  import opened UserVarRecord
  import opened UserVarArea
  import opened UserVars
  import opened EnvApiFat

  /** The records (`envdata`, one per config partition), the record the
      context has open (`e->bgenv`, `None` for null) and the keys of its
      garbage-collection registry, in registration order. */
  datatype Api = Api(envs: seq<EnvData>, current: Option<nat>, gc: seq<seq<byte>>)

  /** The context after a call, and the call's return value. */
  datatype Reply = Reply(api: Api, status: int)

  /** At least one record, an open record that exists, and records that
      get and set can work on. */
  predicate Valid(a: Api)
  {
    0 < |a.envs| &&
    (a.current.Some? ==> a.current.value < |a.envs|) &&
    forall i :: 0 <= i < |a.envs| ==> Sound(a.envs[i]) && 0 < |a.envs[i].userdata| < TWO_32
  }

  /** The open record, as `bgenv_get` and `bgenv_set` see it. */
  function Current(a: Api): (r: Option<EnvData>)
    requires Valid(a)
    ensures r.Some? <==> a.current.Some?
    ensures r.Some? ==> Sound(r.value)
  {
    if a.current.None? then None else Some(a.envs[a.current.value])
  }

  /** An all-zero record is one get and set can work on. */
  lemma ZeroedSound(mem: nat)
    requires 0 < mem < TWO_32
    ensures Sound(Zeroed(mem).(watchdog := DEFAULT_TIMEOUT_SEC))
  {
    AreaWellFormed([], mem);
    assert Area([], mem) == Zeros(mem);
  }

  // ---------------------------------------------------------------------
  // Opening.

  /** `ebg_env_create_new`.  When the latest record is not in progress
      already, the oldest becomes a copy of it with the next revision and
      `in_progress` set, and is opened; otherwise the latest is opened as
      it is.  `initOk` is whether `bgenv_init` succeeds. */
  function EbgEnvCreateNew(a: Api, initOk: bool): (r: Reply)
    requires Valid(a)
    ensures Valid(r.api) && r.api.gc == a.gc
    ensures !initOk ==> r == Reply(a, EIO)
    ensures initOk ==> r.status == 0 && r.api.current.Some?
    ensures initOk && a.envs[Latest(a.envs)].inProgress == 1 ==>
      r.api == a.(current := Some(Latest(a.envs)))
    ensures initOk && a.envs[Latest(a.envs)].inProgress != 1 ==>
      var i := r.api.current.value;
      var latest := a.envs[Latest(a.envs)];
      IsOldest(a.envs, i) &&
      r.api.envs == a.envs[i := latest.(revision := Wrap32(latest.revision + 1), inProgress := 1)]
  {
    if !initOk then Reply(a, EIO)
    else
      var latest := Latest(a.envs);
      if a.envs[latest].inProgress != 1 then
        var c := CreateNew(a.envs);
        var made := c.0[c.1];
        var copy := c.0[latest].(revision := made.revision, inProgress := made.inProgress);
        Reply(a.(envs := c.0[c.1 := copy], current := Some(c.1)), 0)
      else Reply(a.(current := Some(latest)), 0)
  }

  /** Unless the revision wraps, the new record is the latest afterwards,
      so a second `ebg_env_create_new` opens the same record and changes
      nothing. */
  lemma CreateNewTwice(a: Api)
    requires Valid(a) && a.envs[Latest(a.envs)].revision < 0xFFFF_FFFF
    ensures var once := EbgEnvCreateNew(a, true).api;
      Latest(once.envs) == once.current.value &&
      EbgEnvCreateNew(once, true) == Reply(once, 0)
  {
    var once := EbgEnvCreateNew(a, true).api;
    var i := once.current.value;
    var L := a.envs[Latest(a.envs)].revision;
    if a.envs[Latest(a.envs)].inProgress != 1 {
      assert once.envs[i].revision == L + 1;
      assert IsLatest(once.envs, i) by {
        forall j | 0 <= j < |once.envs|
          ensures once.envs[j].revision <= once.envs[i].revision
          ensures j != i ==> once.envs[j].revision < once.envs[i].revision
        {
          if j != i { assert once.envs[j] == a.envs[j]; }
        }
      }
      ChoiceUnique(once.envs, Latest(once.envs), i);
    }
  }

  /** `ebg_env_open_current`: the latest record, opened. */
  function EbgEnvOpenCurrent(a: Api, initOk: bool): (r: Reply)
    requires Valid(a)
    ensures Valid(r.api)
    ensures !initOk ==> r == Reply(a, EIO)
    ensures initOk ==> r == Reply(a.(current := Some(Latest(a.envs))), 0)
  {
    if !initOk then Reply(a, EIO) else Reply(a.(current := Some(Latest(a.envs))), 0)
  }

  // ---------------------------------------------------------------------
  // Get and set.

  /** `ebg_env_get_ex`; `ebg_env_get` is the same with `maxlen` 255. */
  function EbgEnvGet(a: Api, key: Option<seq<byte>>, buffer: bool, maxlen: nat): (r: GetOut)
    requires Valid(a)
    ensures r == BgenvGet(Current(a), key, buffer, maxlen)
    ensures key.Some? && maxlen > 0 && a.current.None? ==> r.status == -EPERM
  {
    BgenvGet(Current(a), key, buffer, maxlen)
  }

  /** The sets after which a record is no longer one that get and set can
      work on: kernel text of 255 bytes or more runs past its field and
      leaves it without a NUL, and a stored user variable with an empty
      key puts a NUL where the next record would start, so the list ends
      there with a length field behind it. */
  predicate SetBreaks(d: EnvData, key: seq<byte>, vtype: nat, data: seq<byte>, datalen: nat)
    requires Sound(d) && CString(key) && vtype < TWO_64
    requires datalen <= |data| && |key| + 13 + datalen < TWO_32 - 1
  {
    datalen > 0 &&
    ((Str2Enum(key) in {KernelFile, KernelParams} && |CStr(data)| >= ENV_STRING_LENGTH) ||
     (|key| == 0 && !IsDeleted(vtype) && SetUservar(d.userdata, key, vtype, data[..datalen]).status == 0))
  }

  /** `ebg_env_set_ex`: `bgenv_set` on the open record, which takes the
      result; the other records do not change.  The context stays one that
      get and set can work on exactly when the set does not break the open
      record. */
  function EbgEnvSetEx(a: Api, key: seq<byte>, vtype: nat, data: seq<byte>, datalen: nat): (r: Reply)
    requires Valid(a)
    requires CString(key) && vtype < TWO_64
    requires datalen <= |data| && |key| + 13 + datalen < TWO_32 - 1
    ensures r.api.current == a.current && r.api.gc == a.gc && |r.api.envs| == |a.envs|
    ensures Valid(r.api) <==> a.current.None? || !SetBreaks(a.envs[a.current.value], key, vtype, data, datalen)
    ensures r.status == BgenvSet(Current(a), Some(key), vtype, Some(data), datalen).status
    ensures a.current.None? ==> r.api == a && (datalen > 0 ==> r.status == -EPERM)
    ensures a.current.Some? ==>
      r.api.envs == a.envs[a.current.value := BgenvSet(Current(a), Some(key), vtype, Some(data), datalen).env.value]
  {
    var s := BgenvSet(Current(a), Some(key), vtype, Some(data), datalen);
    if a.current.None? then Reply(a, s.status)
    else
      var i := a.current.value;
      SetKeepsSound(a.envs[i], key, vtype, data, datalen);
      ValidPut(a, i, s.env.value);
      Reply(a.(envs := a.envs[i := s.env.value]), s.status)
  }

  /** Replacing one record of a valid context keeps it valid exactly when
      the new record is sound and has the size the context needs. */
  lemma ValidPut(a: Api, i: nat, d: EnvData)
    requires Valid(a) && i < |a.envs|
    ensures Valid(a.(envs := a.envs[i := d])) <==> Sound(d) && 0 < |d.userdata| < TWO_32
  {
    var b := a.(envs := a.envs[i := d]);
    if Sound(d) && 0 < |d.userdata| < TWO_32 {
      forall j | 0 <= j < |b.envs|
        ensures Sound(b.envs[j]) && 0 < |b.envs[j].userdata| < TWO_32
      {
        if j != i {
          assert b.envs[j] == a.envs[j];
        }
      }
    } else {
      assert b.envs[i] == d;
    }
  }

  /** `ebg_env_set`: a string value, with its NUL, of the default type. */
  function EbgEnvSet(a: Api, key: seq<byte>, value: seq<byte>): (r: Reply)
    requires Valid(a)
    requires CString(key) && |key| + 14 + |CStr(value)| < TWO_32 - 1
    ensures Valid(r.api) <==>
      a.current.None? || !SetBreaks(a.envs[a.current.value], key, USERVAR_TYPE_STRING_ASCII, CStrz(value), |CStrz(value)|)
    ensures r == EbgEnvSetEx(a, key, USERVAR_TYPE_STRING_ASCII, CStrz(value), |CStrz(value)|)
  {
    EbgEnvSetEx(a, key, USERVAR_TYPE_STRING_ASCII, CStrz(value), |CStrz(value)|)
  }

  /** `bgenv_set` keeps a record one that get and set can work on exactly
      when it does not break it: it neither copies kernel text of 255
      bytes or more nor stores a user variable with an empty key. */
  lemma SetKeepsSound(d: EnvData, key: seq<byte>, vtype: nat, data: seq<byte>, datalen: nat)
    requires Sound(d) && CString(key) && vtype < TWO_64
    requires datalen <= |data| && |key| + 13 + datalen < TWO_32 - 1
    ensures var s := BgenvSet(Some(d), Some(key), vtype, Some(data), datalen);
      |s.env.value.userdata| == |d.userdata| &&
      (Sound(s.env.value) <==> !SetBreaks(d, key, vtype, data, datalen))
  {
    var k := Str2Enum(key);
    if datalen > 0 {
      if k == Unknown && |key| > 0 {
        SetUservarSpec(d.userdata, UserVar(key, vtype, data[..datalen]));
      } else if k == Unknown {
        EmptyKeyBreaksArea(d.userdata, vtype, data[..datalen]);
      } else if k == KernelFile && |CStr(data)| < ENV_STRING_LENGTH {
        var w := Str8To16(d.kernelfile, data);
        assert w[254] == 0 by { Str8To16Terminated(d.kernelfile, data); }
      } else if k == KernelParams && |CStr(data)| < ENV_STRING_LENGTH {
        var w := Str8To16(d.kernelparams, data);
        assert w[254] == 0 by { Str8To16Terminated(d.kernelparams, data); }
      }
    }
  }

  /** A string written into a terminated array leaves it terminated. */
  lemma Str8To16Terminated(buffer: Str16, data: seq<byte>)
    requires buffer[254] == 0 && |CStr(data)| < ENV_STRING_LENGTH
    ensures Str8To16(buffer, data)[254] == 0
  {
    var w := Str8To16(buffer, data);
    var n := |CStr(data)|;
    if n + 1 <= 254 {
      assert w[254] == w[n + 1..][254 - (n + 1)];
    } else {
      assert |CStr16(w)| == n;
    }
  }

  /** `ebg_env_user_free`: the free bytes of the open record's user
      variables, 0 when none is open. */
  function EbgEnvUserFree(a: Api): (r: nat)
    requires Valid(a)
    ensures a.current.None? ==> r == 0
    ensures a.current.Some? ==>
      var u := a.envs[a.current.value].userdata; r == |u| - Used(Vars(u))
  {
    if a.current.None? then 0 else UserFree(a.envs[a.current.value].userdata)
  }

  // ---------------------------------------------------------------------
  // Global state.

  /** The mark of a failed update: revision 0 and state FAILED. */
  predicate Failed(d: EnvData)
  {
    d.revision == REVISION_FAILED && d.ustate == USTATE_FAILED
  }

  /** The loop of `ebg_env_getglobalstate` from record `i` on: whether one
      is marked failed. */
  function AnyFailedFrom(envs: seq<EnvData>, i: nat): (r: bool)
    requires i <= |envs|
    ensures r <==> exists j :: i <= j < |envs| && Failed(envs[j])
    decreases |envs| - i
  {
    if i == |envs| then false
    else if Failed(envs[i]) then true
    else AnyFailedFrom(envs, i + 1)
  }

  /** `ebg_env_getglobalstate`: FAILED when some record is marked failed,
      otherwise the state of the latest record. */
  function EbgEnvGetGlobalState(a: Api): (r: nat)
    requires Valid(a)
    ensures r <= 255
    ensures r == USTATE_FAILED as nat <==>
      (exists j :: 0 <= j < |a.envs| && Failed(a.envs[j])) || a.envs[Latest(a.envs)].ustate == USTATE_FAILED
    ensures (forall j :: 0 <= j < |a.envs| ==> !Failed(a.envs[j])) ==> r == a.envs[Latest(a.envs)].ustate as nat
  {
    if AnyFailedFrom(a.envs, 0) then USTATE_FAILED as nat else a.envs[Latest(a.envs)].ustate as nat
  }

  /** The loop of `ebg_env_setglobalstate` for state OK from record `i` on:
      each record not in state OK is set to it, given a fresh checksum and
      written to its partition; the first failed write ends it with -EIO. */
  function ResetFrom(envs: seq<EnvData>, i: nat, crc: Crc, writeOk: nat -> bool): (r: (seq<EnvData>, int))
    requires i <= |envs|
    ensures |r.0| == |envs|
    ensures r.1 == 0 || r.1 == -EIO
    ensures forall j :: 0 <= j < |envs| ==> r.0[j].(ustate := envs[j].ustate, crc32 := envs[j].crc32) == envs[j]
    ensures forall j :: 0 <= j < |envs| && envs[j].ustate == USTATE_OK ==> r.0[j] == envs[j]
    ensures forall j :: 0 <= j < |envs| && r.0[j] != envs[j] ==> i <= j && r.0[j].ustate == USTATE_OK && CrcOk(r.0[j], crc)
    ensures r.1 == 0 <==> forall j :: i <= j < |envs| && envs[j].ustate != USTATE_OK ==> writeOk(j)
    ensures r.1 == 0 ==> forall j :: i <= j < |envs| ==> r.0[j].ustate == USTATE_OK
    decreases |envs| - i
  {
    if i == |envs| then (envs, 0)
    else if envs[i].ustate != USTATE_OK then
      var e := WithCrc(envs[i].(ustate := USTATE_OK), crc);
      if !BgenvWrite(OpenByIndex(|envs|, i), writeOk) then (envs[i := e], -EIO)
      else
        var r := ResetFrom(envs[i := e], i + 1, crc, writeOk);
        assert forall j :: 0 <= j < |envs| && j != i ==> envs[i := e][j] == envs[j];
        r
    else ResetFrom(envs, i + 1, crc, writeOk)
  }

  /** `ebg_env_setglobalstate`: a state above FAILED is refused; otherwise
      it is set in the open record (as the text `bgenv_set` parses) and,
      for any state but OK, that result returned.  For OK every record is
      reset to OK as well and written back. */
  function EbgEnvSetGlobalState(a: Api, ustate: nat, crc: Crc, writeOk: nat -> bool): (r: Reply)
    requires Valid(a) && ustate < TWO_16
    ensures Valid(r.api) && r.api.current == a.current && r.api.gc == a.gc && |r.api.envs| == |a.envs|
    ensures ustate > USTATE_FAILED as nat ==> r == Reply(a, -EINVAL)
    ensures 0 < ustate <= USTATE_FAILED as nat ==>
      r.api.envs == (if a.current.None? then a.envs
                     else a.envs[a.current.value := SetNumber(a.envs[a.current.value], Ustate, ustate)]) &&
      r.status == (if a.current.None? then -EPERM else 0)
    ensures ustate == 0 && r.status == 0 ==> forall j :: 0 <= j < |a.envs| ==> r.api.envs[j].ustate == USTATE_OK
  {
    if ustate > USTATE_FAILED as nat then Reply(a, -EINVAL)
    else
      var s := SetUstate(a, ustate);
      if ustate != USTATE_OK as nat then s
      else
        var reset := ResetFrom(s.api.envs, 0, crc, writeOk);
        ResetSound(s.api.envs, reset.0, crc);
        Reply(s.api.(envs := reset.0), reset.1)
  }

  /** The `bgenv_set(e->bgenv, "ustate", ...)` step of
      `ebg_env_setglobalstate`, for a state of one digit. */
  function SetUstate(a: Api, ustate: nat): (r: Reply)
    requires Valid(a) && ustate <= USTATE_FAILED as nat
    ensures Valid(r.api) && r.api.current == a.current && r.api.gc == a.gc
    ensures r.api.envs == (if a.current.None? then a.envs
                           else a.envs[a.current.value := SetNumber(a.envs[a.current.value], Ustate, ustate)])
    ensures r.status == (if a.current.None? then -EPERM else 0)
  {
    var key := Ascii("ustate");
    assert key == KeyName(Ustate);
    Str2EnumNames(Ustate);
    CStrOfString(Decimal(ustate));
    var r := EbgEnvSetEx(a, key, 0, Decimal(ustate) + [0], |Decimal(ustate)| + 1);
    if a.current.None? then r
    else
      SetGetNumber(a.envs[a.current.value], Ustate, ustate);
      r
  }

  /** Resetting the state keeps every record sound. */
  lemma ResetSound(envs: seq<EnvData>, reset: seq<EnvData>, crc: Crc)
    requires |reset| == |envs|
    requires forall j :: 0 <= j < |envs| ==> reset[j].(ustate := envs[j].ustate, crc32 := envs[j].crc32) == envs[j]
    ensures forall j :: 0 <= j < |envs| ==> reset[j].userdata == envs[j].userdata && (Terminated(reset[j]) <==> Terminated(envs[j]))
  {
    forall j | 0 <= j < |envs|
      ensures reset[j].userdata == envs[j].userdata && (Terminated(reset[j]) <==> Terminated(envs[j]))
    {
      assert reset[j].(ustate := envs[j].ustate, crc32 := envs[j].crc32).userdata == reset[j].userdata;
    }
  }

  /** After a successful reset to OK, the global state reads OK. */
  lemma SetGlobalStateOk(a: Api, crc: Crc, writeOk: nat -> bool)
    requires Valid(a)
    ensures var r := EbgEnvSetGlobalState(a, 0, crc, writeOk);
      r.status == 0 ==> EbgEnvGetGlobalState(r.api) == USTATE_OK as nat
  {
    var r := EbgEnvSetGlobalState(a, 0, crc, writeOk);
    if r.status == 0 {
      var envs := r.api.envs;
      assert forall j :: 0 <= j < |envs| ==> envs[j].ustate == USTATE_OK;
      assert forall j :: 0 <= j < |envs| ==> !Failed(envs[j]);
      assert envs[Latest(envs)].ustate == USTATE_OK;
    }
  }

  /** Setting INSTALLED, TESTING or FAILED in the latest record, when no
      record is marked failed, is what the global state reads next. */
  lemma SetGlobalStateGet(a: Api, ustate: nat, crc: Crc, writeOk: nat -> bool)
    requires Valid(a) && 0 < ustate <= USTATE_FAILED as nat
    requires a.current == Some(Latest(a.envs))
    requires forall j :: 0 <= j < |a.envs| ==> !Failed(a.envs[j])
    ensures EbgEnvGetGlobalState(EbgEnvSetGlobalState(a, ustate, crc, writeOk).api) == ustate
  {
    var r := EbgEnvSetGlobalState(a, ustate, crc, writeOk).api;
    StateOfLatest(a.envs, r, Latest(a.envs), ustate);
  }

  /** The state set in the latest of records none of which is marked
      failed is the global state that follows. */
  lemma StateOfLatest(envs: seq<EnvData>, r: Api, i: nat, ustate: nat)
    requires Valid(r) && 0 < ustate <= USTATE_FAILED as nat
    requires i < |envs| && i == Latest(envs) && forall j :: 0 <= j < |envs| ==> !Failed(envs[j])
    requires r.envs == envs[i := SetNumber(envs[i], Ustate, ustate)]
    ensures EbgEnvGetGlobalState(r) == ustate
  {
    assert forall j :: 0 <= j < |envs| ==> r.envs[j].revision == envs[j].revision;
    assert IsLatest(r.envs, i);
    ChoiceUnique(r.envs, Latest(r.envs), i);
  }

  // ---------------------------------------------------------------------
  // Closing and garbage collection.

  /** `ebg_env_close`: EIO when no record is open; otherwise the open
      record gets a fresh checksum and is written back (EIO when that
      fails), and the context has no record open. */
  function EbgEnvClose(a: Api, crc: Crc, writeOk: nat -> bool): (r: Reply)
    requires Valid(a)
    ensures Valid(r.api) && r.api.current.None? && r.api.gc == a.gc
    ensures a.current.None? ==> r == Reply(a, EIO)
    ensures a.current.Some? ==>
      var i := a.current.value;
      r.api.envs == a.envs[i := WithCrc(a.envs[i], crc)] &&
      (r.status == 0 <==> writeOk(i)) && (r.status != 0 ==> r.status == EIO)
  {
    if a.current.None? then Reply(a, EIO)
    else
      var i := a.current.value;
      var envs := a.envs[i := WithCrc(a.envs[i], crc)];
      var ok := BgenvWrite(OpenByIndex(|a.envs|, i), writeOk);
      Reply(Api(envs, None, a.gc), if ok then 0 else EIO)
  }

  /** What `ebg_env_close` writes, `read_env` reads back unchanged and
      valid, provided the user variables pass validation. */
  lemma CloseReadsBack(a: Api, crc: Crc, writeOk: nat -> bool, uservarsOk: seq<byte> -> bool)
    requires Valid(a) && a.current.Some?
    requires uservarsOk(a.envs[a.current.value].userdata)
    ensures var w := EbgEnvClose(a, crc, writeOk).api.envs[a.current.value];
      ReadEnv(Some(w), |w.userdata|, crc, uservarsOk) == (true, w)
  {
    var w := EbgEnvClose(a, crc, writeOk).api.envs[a.current.value];
    assert w.kernelfile[254 := 0] == w.kernelfile;
    assert w.kernelparams[254 := 0] == w.kernelparams;
  }

  /** `ebg_env_register_gc_var`: EINVAL for a null key, otherwise the key
      is added to the registry. */
  function EbgEnvRegisterGcVar(a: Api, key: Option<seq<byte>>): (r: Reply)
    ensures key.None? ==> r == Reply(a, EINVAL)
    ensures key.Some? ==> r == Reply(a.(gc := a.gc + [CStr(key.value)]), 0)
  {
    if key.None? then Reply(a, EINVAL) else Reply(a.(gc := a.gc + [CStr(key.value)]), 0)
  }

  /** The registry loop of `ebg_env_finalize_update`: each key that names a
      user variable has it deleted. */
  function DeleteKeys(u: seq<byte>, keys: seq<seq<byte>>): (r: seq<byte>)
    requires WellFormed(u)
    ensures WellFormed(r) && |r| == |u|
    decreases |keys|
  {
    if keys == [] then u
    else
      match FindUservar(u, keys[0])
      case None => DeleteKeys(u, keys[1..])
      case Some(p) =>
        assert p == Offsets(Vars(u))[IndexOf(Vars(u), keys[0]).value];
        DelUservarSpec(u, p);
        DeleteKeys(DelUservar(u, p), keys[1..])
  }

  /** Deleting the user variable a key finds removes that key and nothing
      else, when keys are distinct. */
  lemma DeleteKey(u: seq<byte>, key: seq<byte>, p: nat)
    requires WellFormed(u) && UniqueKeys(Vars(u)) && FindUservar(u, key) == Some(p)
    ensures p in Offsets(Vars(u))
    ensures WellFormed(DelUservar(u, p)) && UniqueKeys(Vars(DelUservar(u, p)))
    ensures forall k :: Lookup(Vars(DelUservar(u, p)), k) == if k == key then None else Lookup(Vars(u), k)
  {
    var vs := Vars(u);
    var i := IndexOf(vs, key).value;
    assert p == Offsets(vs)[i];
    DelUservarSpec(u, p);
    OffsetInjective(vs, OffsetIndex(vs, p), i);
    UniqueKeysRemove(vs, i);
    forall k
      ensures Lookup(Remove(vs, i), k) == if k == key then None else Lookup(vs, k)
    {
      LookupRemove(vs, i, k);
    }
  }

  /** After the registry loop, no registered key names a variable, and
      every other key looks up what it did before. */
  lemma {:induction false} DeleteKeysSpec(u: seq<byte>, keys: seq<seq<byte>>)
    requires WellFormed(u) && UniqueKeys(Vars(u))
    ensures UniqueKeys(Vars(DeleteKeys(u, keys)))
    ensures forall k :: Lookup(Vars(DeleteKeys(u, keys)), k) == if k in keys then None else Lookup(Vars(u), k)
    decreases |keys|
  {
    if keys != [] {
      match FindUservar(u, keys[0])
      case None =>
        DeleteKeysSpec(u, keys[1..]);
        LookupSpec(Vars(u), keys[0]);
        IndexOfSpec(Vars(u), keys[0]);
      case Some(p) =>
        DeleteKey(u, keys[0], p);
        DeleteKeysSpec(DelUservar(u, p), keys[1..]);
    }
  }

  /** `ebg_env_finalize_update`: EIO when no record is open; otherwise the
      registered user variables are deleted from it, the registry emptied,
      and the record marked installed and no longer in progress. */
  function EbgEnvFinalizeUpdate(a: Api): (r: Reply)
    requires Valid(a)
    ensures Valid(r.api) && r.api.current == a.current
    ensures a.current.None? ==> r == Reply(a, EIO)
    ensures a.current.Some? ==>
      var i := a.current.value;
      r.status == 0 && r.api.gc == [] &&
      r.api.envs == a.envs[i := a.envs[i].(userdata := DeleteKeys(a.envs[i].userdata, a.gc),
                                           inProgress := 0, ustate := USTATE_INSTALLED)]
  {
    if a.current.None? then Reply(a, EIO)
    else
      var i := a.current.value;
      var d := a.envs[i];
      var d' := d.(userdata := DeleteKeys(d.userdata, a.gc), inProgress := 0, ustate := USTATE_INSTALLED);
      Reply(a.(envs := a.envs[i := d'], gc := []), 0)
  }

  /** After finalising, a registered key is gone from the open record and
      every other user variable is as it was. */
  lemma FinalizeForgetsGarbage(a: Api, key: seq<byte>)
    requires Valid(a) && a.current.Some? && UniqueKeys(Vars(a.envs[a.current.value].userdata))
    ensures var u := EbgEnvFinalizeUpdate(a).api.envs[a.current.value].userdata;
      Lookup(Vars(u), key) == if key in a.gc then None else Lookup(Vars(a.envs[a.current.value].userdata), key)
  {
    DeleteKeysSpec(a.envs[a.current.value].userdata, a.gc);
  }

  /** After finalising, the registry is empty: a second finalize deletes
      nothing and leaves the context as it is. */
  lemma FinalizeAgainChangesNothing(a: Api)
    requires Valid(a) && a.current.Some?
    ensures var b := EbgEnvFinalizeUpdate(a).api; EbgEnvFinalizeUpdate(b) == Reply(b, 0)
  {
  }

  // ---------------------------------------------------------------------
  // The registry as written.

  /** An item of the registry list: its key, and whether its memory has
      been freed. */
  datatype GcItem = GcItem(key: seq<byte>, freed: bool)

  /** The context as the C code keeps it: the records and open record of
      `api`, and the list of items `gc_registry` leads to, freed ones
      included. */
  datatype RawApi = RawApi(api: Api, registry: seq<GcItem>)

  /** What a call as written ends in: the context and the return value, or
      a read of freed memory, after which nothing is defined. */
  datatype RawReply = RawReply(ctx: RawApi, status: int) | UseAfterFree

  /** The keys of the items, in list order. */
  function Keys(reg: seq<GcItem>): (r: seq<seq<byte>>)
    ensures |r| == |reg| && forall j :: 0 <= j < |reg| ==> r[j] == reg[j].key
  {
    seq(|reg|, j requires 0 <= j < |reg| => reg[j].key)
  }

  /** The items list the keys `api.gc` holds. */
  predicate Mirrors(c: RawApi)
  {
    Keys(c.registry) == c.api.gc
  }

  /** The registry of a context no finalize has run on: every registered
      key in an allocated item. */
  function Live(a: Api): (r: RawApi)
    ensures Mirrors(r) && r.api == a
    ensures forall j :: 0 <= j < |r.registry| ==> !r.registry[j].freed
  {
    var reg := seq(|a.gc|, j requires 0 <= j < |a.gc| => GcItem(a.gc[j], false));
    assert Keys(reg) == a.gc;
    RawApi(a, reg)
  }

  /** The items after `free(pgci)` on each of them. */
  function FreeAll(reg: seq<GcItem>): (r: seq<GcItem>)
    ensures Keys(r) == Keys(reg)
    ensures forall j :: 0 <= j < |r| ==> r[j].freed
  {
    var r := seq(|reg|, j requires 0 <= j < |reg| => GcItem(reg[j].key, true));
    assert Keys(r) == Keys(reg);
    r
  }

  /** The walk from item `i` along the `next` fields, as both the search
      for the list's end in `ebg_env_register_gc_var` and the loop of
      `ebg_env_finalize_update` do it: it reads every item, so it reads
      freed memory exactly when some item from `i` on is freed. */
  function WalkMeetsFreed(reg: seq<GcItem>, i: nat): (r: bool)
    requires i <= |reg|
    ensures r <==> exists j :: i <= j < |reg| && reg[j].freed
    decreases |reg| - i
  {
    if i == |reg| then false else reg[i].freed || WalkMeetsFreed(reg, i + 1)
  }

  /** `ebg_env_register_gc_var` as written: EINVAL for a null key;
      otherwise the walk to the end of the list, then a new allocated item
      with a copy of the key. */
  function EbgEnvRegisterGcVarAsWritten(c: RawApi, key: Option<seq<byte>>): (r: RawReply)
    requires Mirrors(c)
    ensures key.None? ==> r == RawReply(c, EINVAL)
    ensures key.Some? ==> (r.UseAfterFree? <==> exists j :: 0 <= j < |c.registry| && c.registry[j].freed)
    ensures r.RawReply? ==> Mirrors(r.ctx) && Reply(r.ctx.api, r.status) == EbgEnvRegisterGcVar(c.api, key)
    ensures r.RawReply? && key.Some? ==> r.ctx.registry == c.registry + [GcItem(CStr(key.value), false)]
  {
    if key.None? then RawReply(c, EINVAL)
    else if WalkMeetsFreed(c.registry, 0) then UseAfterFree
    else
      var reg := c.registry + [GcItem(CStr(key.value), false)];
      assert Keys(reg) == Keys(c.registry) + [CStr(key.value)];
      RawReply(RawApi(c.api.(gc := c.api.gc + [CStr(key.value)]), reg), 0)
  }

  /** `ebg_env_finalize_update` as written: EIO when no record is open;
      otherwise the loop deletes the variable each item's key finds and
      frees the item, and the record is marked installed and no longer in
      progress.  `gc_registry` is never reset, so the context still leads
      to the freed items. */
  function EbgEnvFinalizeUpdateAsWritten(c: RawApi): (r: RawReply)
    requires Valid(c.api) && Mirrors(c)
    ensures c.api.current.None? ==> r == RawReply(c, EIO)
    ensures c.api.current.Some? ==> (r.UseAfterFree? <==> exists j :: 0 <= j < |c.registry| && c.registry[j].freed)
    ensures r.RawReply? ==>
      Valid(r.ctx.api) && Mirrors(r.ctx) && r.ctx.api.current == c.api.current && r.ctx.api.gc == c.api.gc
    ensures r.RawReply? && c.api.current.Some? ==>
      r.status == 0 && |r.ctx.registry| == |c.registry| &&
      forall j :: 0 <= j < |r.ctx.registry| ==> r.ctx.registry[j].freed
  {
    if c.api.current.None? then RawReply(c, EIO)
    else if WalkMeetsFreed(c.registry, 0) then UseAfterFree
    else
      var i := c.api.current.value;
      var d := c.api.envs[i];
      var d' := d.(userdata := DeleteKeys(d.userdata, Keys(c.registry)), inProgress := 0, ustate := USTATE_INSTALLED);
      RawReply(RawApi(c.api.(envs := c.api.envs[i := d']), FreeAll(c.registry)), 0)
  }

  /** On a registry no finalize has freed, the finalize as written does to
      the records what the corrected one does; but when a key was
      registered, it leaves a context the corrected one does not, still
      listing the freed items. */
  lemma FinalizeAsWrittenAgrees(a: Api)
    requires Valid(a) && a.current.Some?
    ensures var r := EbgEnvFinalizeUpdateAsWritten(Live(a));
      var b := EbgEnvFinalizeUpdate(a);
      r.RawReply? && r.status == b.status && r.ctx.api.envs == b.api.envs && r.ctx.api.current == b.api.current &&
      (a.gc != [] ==> r.ctx.api != b.api && r.ctx.registry != [])
  {
    var c := Live(a);
    assert !WalkMeetsFreed(c.registry, 0);
  }

  /** As written, once a key was registered and the update finalised, the
      next `ebg_env_register_gc_var` walks into a freed item. */
  lemma FinalizeThenRegisterFaults(a: Api, key: seq<byte>)
    requires Valid(a) && a.current.Some? && a.gc != []
    ensures var r := EbgEnvFinalizeUpdateAsWritten(Live(a));
      r.RawReply? && EbgEnvRegisterGcVarAsWritten(r.ctx, Some(key)).UseAfterFree?
  {
    var c := Live(a);
    assert !WalkMeetsFreed(c.registry, 0);
    var r := EbgEnvFinalizeUpdateAsWritten(c);
    assert r.ctx.registry[0].freed;
  }

  /** As written, finalising twice after a key was registered walks into a
      freed item; corrected, the second finalize changes nothing. */
  lemma FinalizeTwiceFaults(a: Api)
    requires Valid(a) && a.current.Some? && a.gc != []
    ensures var r := EbgEnvFinalizeUpdateAsWritten(Live(a));
      r.RawReply? && EbgEnvFinalizeUpdateAsWritten(r.ctx).UseAfterFree?
    ensures var b := EbgEnvFinalizeUpdate(a).api; EbgEnvFinalizeUpdate(b) == Reply(b, 0)
  {
    var c := Live(a);
    assert !WalkMeetsFreed(c.registry, 0);
    var r := EbgEnvFinalizeUpdateAsWritten(c);
    assert r.ctx.registry[0].freed;
  }
}
