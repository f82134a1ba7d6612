/** The operations of env/uservars.c on a user-variable area.  Offsets into
    the area stand for the C code's pointers and `|u|` for
    `ENV_MEM_USERVARS`.  Each operation rewrites bytes the way the C code
    does; the lemmas at the end state its effect on the list of variables
    (`Vars`) against the list-level reference `SetVars`. */
module UserVars {
  import opened Wrappers
  import opened Bytes
  import opened Seqs
  import opened UserVarRecord
  import opened UserVarArea
  import opened CLib

  /** The area after an operation that may move variables, and where the
      caller may now write (or the errno why not). */
  datatype Placed = Placed(area: seq<byte>, at: Result<nat, int>)

  /** The area and the return value of `bgenv_set_uservar`. */
  datatype SetOut = SetOut(area: seq<byte>, status: int)

  /** `bgenv_find_uservar`: the offset of the first record whose key equals
      `key` (the comparison includes the terminating NUL, so it is exact). */
  function FindUservar(u: seq<byte>, key: seq<byte>): (r: Option<nat>)
    requires WellFormed(u)
    ensures r == (match IndexOf(Vars(u), key)
                  case None => None
                  case Some(i) => Some(Offset(Vars(u), i)))
  {
    FindArea(u, key);
    FindFrom(u, 0, key)
  }

  /** `bgenv_user_free`: the area size minus the size of every record. */
  function UserFree(u: seq<byte>): (r: nat)
    requires WellFormed(u)
    ensures r == |u| - Used(Vars(u))
    ensures Vars(u) == [] ==> r == |u|
  {
    FreeArea(u);
    if u[0] == 0 then |u| else FreeFrom(u, 0, |u|)
  }

  /** `bgenv_next_uservar`: the offset just past the record at `p`. */
  function NextUservar(u: seq<byte>, p: nat): (r: nat)
    requires WellFormed(u) && p in Offsets(Vars(u))
    ensures OffsetIndex(Vars(u), p) + 1 <= |Vars(u)|
    ensures r == Offset(Vars(u), OffsetIndex(Vars(u), p) + 1)
  {
    RecordAt(u, p);
    p + MapUservar(u, p).value.recordSize
  }

  /** `bgenv_del_uservar`: moves the records after the one at `p` down over
      it and zero-fills the freed tail. */
  function DelUservar(u: seq<byte>, p: nat): (r: seq<byte>)
    requires WellFormed(u) && p in Offsets(Vars(u))
    ensures |r| == |u|
    ensures p <= |u| && r[..p] == u[..p]
  {
    RecordAt(u, p);
    var rsize := MapUservar(u, p).value.recordSize;
    var spaceLeft := UserFree(u);
    var end := |u| - spaceLeft;
    u[..p] + u[p + rsize..end] + Zeros(spaceLeft + rsize)
  }

  /** `bgenv_uservar_alloc`: the offset of the end of the records when
      `datalen` bytes and one terminating zero byte still fit, else ENOMEM.
      The `datalen + 1` is a 32-bit sum. */
  function Alloc(u: seq<byte>, datalen: nat): (r: Result<nat, int>)
    requires WellFormed(u) && datalen < TWO_32
    ensures r.Success? ==> r.value == Used(Vars(u))
    ensures r.Failure? ==> r.error == ENOMEM
    ensures datalen + 1 < TWO_32 ==> (r.Success? <==> Used(Vars(u)) + datalen < |u|)
  {
    var spaceLeft := UserFree(u);
    if spaceLeft < Wrap32(datalen + 1) then Failure(ENOMEM)
    else Success(|u| - spaceLeft)
  }

  /** `bgenv_uservar_realloc` with the space test of `Alloc`: a record of
      unchanged size stays where it is; otherwise the old record is deleted
      and the new one goes to the end of the records, if it fits together
      with the terminating zero byte.  The area is returned because the
      deletion happens even when the new record does not fit. */
  function Realloc(u: seq<byte>, newRsize: nat, p: nat): (r: Placed)
    requires WellFormed(u) && p in Offsets(Vars(u)) && newRsize < TWO_32
    ensures |r.area| == |u|
  {
    RecordAt(u, p);
    var rsize := MapUservar(u, p).value.recordSize;
    if newRsize == rsize then Placed(u, Success(p))
    else
      var u' := DelUservar(u, p);
      DelUservarSpec(u, p);
      var spaceLeft := UserFree(u');
      if spaceLeft < newRsize + 1 then Placed(u', Failure(ENOMEM))
      else Placed(u', Success(|u'| - spaceLeft))
  }

  /** `bgenv_uservar_realloc` as the C code writes its space test,
      `spaceleft < new_rsize - 1` (a 32-bit subtraction). */
  function ReallocAsWritten(u: seq<byte>, newRsize: nat, p: nat): (r: Placed)
    requires WellFormed(u) && p in Offsets(Vars(u)) && newRsize < TWO_32
    ensures |r.area| == |u|
  {
    RecordAt(u, p);
    var rsize := MapUservar(u, p).value.recordSize;
    if newRsize == rsize then Placed(u, Success(p))
    else
      var u' := DelUservar(u, p);
      DelUservarSpec(u, p);
      var spaceLeft := UserFree(u');
      if spaceLeft < Sub32(newRsize, 1) then Placed(u', Failure(ENOMEM))
      else Placed(u', Success(|u'| - spaceLeft))
  }

  /** `bgenv_get_uservar`: the type and the first `maxlen` data bytes of the
      variable named `key`, or -EINVAL if there is none. */
  function GetUservar(u: seq<byte>, key: seq<byte>, maxlen: nat): (r: Result<(nat, seq<byte>), int>)
    requires WellFormed(u)
    ensures r.Failure? <==> IndexOf(Vars(u), key).None?
    ensures r.Failure? ==> r.error == -EINVAL
    ensures r.Success? ==>
      var v := Vars(u)[IndexOf(Vars(u), key).value];
      r.value.0 == v.vtype &&
      r.value.1 == v.data[..if |v.data| > maxlen then maxlen else |v.data|]
  {
    match FindUservar(u, key)
    case None => Failure(-EINVAL)
    case Some(p) =>
      assert p == Offsets(Vars(u))[IndexOf(Vars(u), key).value];
      RecordAt(u, p);
      OffsetInjective(Vars(u), OffsetIndex(Vars(u), p), IndexOf(Vars(u), key).value);
      var m := MapUservar(u, p).value;
      var dsize := if |m.v.data| > maxlen then maxlen else |m.v.data|;
      Success((m.v.vtype, m.v.data[..dsize]))
  }

  /** `bgenv_set_uservar`.  The record size `|data| + 12 + |key| + 1` is a
      32-bit sum; the model takes inputs for which neither it nor the
      `+ 1` of the space test wraps. */
  function SetUservar(u: seq<byte>, key: seq<byte>, vtype: nat, data: seq<byte>): (r: SetOut)
    requires WellFormed(u)
    requires CString(key) && vtype < TWO_64
    requires |key| + 13 + |data| < TWO_32 - 1
    ensures |r.area| == |u|
    ensures r.status == 0 || r.status == -ENOMEM
    ensures IsDeleted(vtype) ==> r.status == 0
    ensures IsDeleted(vtype) && FindUservar(u, key).None? ==> r.area == u
  {
    var total := |key| + 13 + |data|;
    match FindUservar(u, key)
    case Some(p) =>
      if IsDeleted(vtype) then SetOut(DelUservar(u, p), 0)
      else
        ReallocSpec(u, total, p);
        Store(Realloc(u, total, p), key, vtype, data)
    case None =>
      if IsDeleted(vtype) then SetOut(u, 0)
      else
        WellFormedWalks(u);
        Store(Placed(u, Alloc(u, total)), key, vtype, data)
  }

  /** The end of `bgenv_set_uservar`: -errno when no place was found,
      otherwise the record serialised at the place and 0. */
  function Store(placed: Placed, key: seq<byte>, vtype: nat, data: seq<byte>): (r: SetOut)
    requires CString(key) && vtype < TWO_64 && |key| + 13 + |data| < TWO_32
    requires placed.at.Success? ==> placed.at.value + |key| + 13 + |data| <= |placed.area|
    ensures |r.area| == |placed.area|
    ensures placed.at.Failure? ==> r == SetOut(placed.area, -placed.at.error)
    ensures placed.at.Success? ==>
      r.status == 0 &&
      r.area[placed.at.value..placed.at.value + |key| + 13 + |data|] ==
        SerializeUservar(key, vtype, data, |key| + 13 + |data|)
  {
    match placed.at
    case Failure(e) => SetOut(placed.area, -e)
    case Success(p) =>
      SetOut(Write(placed.area, p, SerializeUservar(key, vtype, data, |key| + 13 + |data|)), 0)
  }

  // ---------------------------------------------------------------------
  // The effect of the operations on the list.

  /** Deleting the record of `vs[i]` gives the canonical area of the list
      without it: the later records move down unchanged and in order. */
  lemma DelUservarArea(u: seq<byte>, p: nat)
    requires WellFormed(u) && p in Offsets(Vars(u))
    ensures OffsetIndex(Vars(u), p) < |Vars(u)|
    ensures ValidVars(Remove(Vars(u), OffsetIndex(Vars(u), p)))
    ensures Used(Remove(Vars(u), OffsetIndex(Vars(u), p))) < |u|
    ensures DelUservar(u, p) == Area(Remove(Vars(u), OffsetIndex(Vars(u), p)), |u|)
  {
    var vs := Vars(u);
    var i := OffsetIndex(vs, p);
    RecordAt(u, p);
    WellFormedArea(u);
    var rsize, free := MapUservar(u, p).value.recordSize, UserFree(u);
    var end := |u| - free;
    assert DelUservar(u, p) == u[..p] + u[p + rsize..end] + Zeros(free + rsize);
    RemoveArea(vs, i, |u|, p, rsize, end, free);
  }

  /** Deleting the record of `vs[i]` leaves a well-formed area holding the
      list without it, and the free space grows by exactly the record
      size. */
  lemma DelUservarSpec(u: seq<byte>, p: nat)
    requires WellFormed(u) && p in Offsets(Vars(u))
    ensures OffsetIndex(Vars(u), p) < |Vars(u)|
    ensures WellFormed(DelUservar(u, p))
    ensures Vars(DelUservar(u, p)) == Remove(Vars(u), OffsetIndex(Vars(u), p))
    ensures UserFree(DelUservar(u, p)) == UserFree(u) + RecordSize(Vars(u)[OffsetIndex(Vars(u), p)])
  {
    var vs := Vars(u);
    var i := OffsetIndex(vs, p);
    DelUservarArea(u, p);
    WellFormedWalks(u);
    RemoveValid(vs, i);
    AreaWellFormed(Remove(vs, i), |u|);
  }

  /** What `Realloc` does to the list: in place when the size is unchanged;
      otherwise the variable is removed, and there is room for the new
      record at the end of the rest exactly when it fits with a spare
      zero byte. */
  lemma ReallocSpec(u: seq<byte>, newRsize: nat, p: nat)
    requires WellFormed(u) && p in Offsets(Vars(u)) && newRsize < TWO_32
    ensures var i := OffsetIndex(Vars(u), p);
      var r := Realloc(u, newRsize, p);
      i < |Vars(u)| &&
      WellFormed(r.area) &&
      (r.at.Success? ==> r.at.value + newRsize < |u|) &&
      (newRsize == RecordSize(Vars(u)[i]) ==> r.area == u && r.at == Success(p)) &&
      (newRsize != RecordSize(Vars(u)[i]) ==>
        Vars(r.area) == Remove(Vars(u), i) &&
        (r.at.Failure? ==> r.at.error == ENOMEM) &&
        (r.at.Success? <==> Used(Vars(r.area)) + newRsize < |u|) &&
        (r.at.Success? ==> r.at.value == Used(Vars(r.area))))
  {
    RecordAt(u, p);
    WellFormedWalks(u);
    DelUservarSpec(u, p);
  }

  /** The list-level meaning of `bgenv_set_uservar` on variables `vs` in an
      area of `mem` bytes: the new list and the return value. */
  function SetVars(vs: seq<UserVar>, v: UserVar, mem: nat): (seq<UserVar>, int)
    requires ValidVars(vs) && Used(vs) < mem
  {
    match IndexOf(vs, v.key)
    case Some(i) =>
      if IsDeleted(v.vtype) then (Remove(vs, i), 0)
      else if RecordSize(v) == RecordSize(vs[i]) then (vs[i := v], 0)
      else if Used(vs) - RecordSize(vs[i]) + RecordSize(v) < mem then (Remove(vs, i) + [v], 0)
      else (Remove(vs, i), -ENOMEM)
    case None =>
      if IsDeleted(v.vtype) then (vs, 0)
      else if Used(vs) + RecordSize(v) < mem then (vs + [v], 0)
      else (vs, -ENOMEM)
  }

  /** Where `FindUservar` points: the offset of the variable `IndexOf`
      finds, which `OffsetIndex` maps back to that index. */
  lemma FoundAt(u: seq<byte>, key: seq<byte>)
    requires WellFormed(u) && FindUservar(u, key).Some?
    ensures IndexOf(Vars(u), key).Some?
    ensures FindUservar(u, key).value in Offsets(Vars(u))
    ensures OffsetIndex(Vars(u), FindUservar(u, key).value) == IndexOf(Vars(u), key).value
  {
    var vs := Vars(u);
    var i := IndexOf(vs, key).value;
    var p := FindUservar(u, key).value;
    assert p == Offsets(vs)[i];
    OffsetInjective(vs, OffsetIndex(vs, p), i);
  }

  /** The encoding `bgenv_serialize_uservar` writes for a new variable. */
  lemma SerializeIsEncode(key: seq<byte>, vtype: nat, data: seq<byte>)
    requires ValidVar(UserVar(key, vtype, data))
    ensures SerializeUservar(key, vtype, data, |key| + 13 + |data|) == Encode(UserVar(key, vtype, data))
  {
    EncodeIsSerialize(UserVar(key, vtype, data));
  }

  /** Storing a record at the end of the records of a well-formed area
      appends its variable to the list. */
  lemma StoreAppend(placed: Placed, v: UserVar)
    requires WellFormed(placed.area) && ValidVar(v) && RecordSize(v) < TWO_32 - 1
    requires Used(Vars(placed.area)) + RecordSize(v) < |placed.area|
    requires placed.at == Success(Used(Vars(placed.area)))
    ensures var r := Store(placed, v.key, v.vtype, v.data);
      WellFormed(r.area) && Vars(r.area) == Vars(placed.area) + [v] && r.status == 0
  {
    SerializeIsEncode(v.key, v.vtype, v.data);
    AppendWellFormed(placed.area, v);
  }

  /** Storing a record of the same size over the record of `Vars(u)[i]`
      replaces that variable. */
  lemma StoreReplace(u: seq<byte>, i: nat, v: UserVar)
    requires WellFormed(u) && i < |Vars(u)| && ValidVar(v) && RecordSize(v) < TWO_32 - 1
    requires RecordSize(v) == RecordSize(Vars(u)[i])
    ensures Offset(Vars(u), i) + RecordSize(v) < |u|
    ensures var r := Store(Placed(u, Success(Offset(Vars(u), i))), v.key, v.vtype, v.data);
      WellFormed(r.area) && Vars(r.area) == Vars(u)[i := v] && r.status == 0
  {
    var vs := Vars(u);
    WellFormedArea(u);
    SerializeIsEncode(v.key, v.vtype, v.data);
    ReplaceArea(vs, i, v, |u|);
    AreaWellFormed(vs[i := v], |u|);
  }

  /** `SetUservar` on a key that is present, with the DELETED bit. */
  lemma SetDeleteSpec(u: seq<byte>, v: UserVar)
    requires WellFormed(u) && ValidVar(v) && RecordSize(v) < TWO_32 - 1
    requires FindUservar(u, v.key).Some? && IsDeleted(v.vtype)
    ensures var r := SetUservar(u, v.key, v.vtype, v.data);
      WellFormed(r.area) && IndexOf(Vars(u), v.key).Some? &&
      Vars(r.area) == Remove(Vars(u), IndexOf(Vars(u), v.key).value) && r.status == 0
  {
    FoundAt(u, v.key);
    DelUservarSpec(u, FindUservar(u, v.key).value);
  }

  /** `SetUservar` on a key that is present, with a record of the same
      size: the record is rewritten in place. */
  lemma SetSameSizeSpec(u: seq<byte>, v: UserVar)
    requires WellFormed(u) && ValidVar(v) && RecordSize(v) < TWO_32 - 1
    requires FindUservar(u, v.key).Some? && !IsDeleted(v.vtype)
    requires RecordSize(v) == RecordSize(Vars(u)[IndexOf(Vars(u), v.key).value])
    ensures var r := SetUservar(u, v.key, v.vtype, v.data);
      var i := IndexOf(Vars(u), v.key).value;
      WellFormed(r.area) && Vars(r.area) == Vars(u)[i := v] && r.status == 0
  {
    var vs := Vars(u);
    var i := IndexOf(vs, v.key).value;
    var p := FindUservar(u, v.key).value;
    FoundAt(u, v.key);
    ReallocSpec(u, RecordSize(v), p);
    assert SetUservar(u, v.key, v.vtype, v.data) == Store(Realloc(u, RecordSize(v), p), v.key, v.vtype, v.data);
    StoreReplace(u, i, v);
  }

  /** `SetUservar` on a key that is present, with a record of another
      size: the old record is deleted, and the new one goes to the end if
      it fits; otherwise the result is ENOMEM and the variable stays
      deleted. */
  lemma SetResizeSpec(u: seq<byte>, v: UserVar)
    requires WellFormed(u) && ValidVar(v) && RecordSize(v) < TWO_32 - 1
    requires FindUservar(u, v.key).Some? && !IsDeleted(v.vtype)
    requires RecordSize(v) != RecordSize(Vars(u)[IndexOf(Vars(u), v.key).value])
    ensures var r := SetUservar(u, v.key, v.vtype, v.data);
      var rest := Remove(Vars(u), IndexOf(Vars(u), v.key).value);
      ValidVars(rest) && WellFormed(r.area) &&
      (Used(rest) + RecordSize(v) < |u| ==> Vars(r.area) == rest + [v] && r.status == 0) &&
      (Used(rest) + RecordSize(v) >= |u| ==> Vars(r.area) == rest && r.status == -ENOMEM)
  {
    var vs := Vars(u);
    var i := IndexOf(vs, v.key).value;
    var p := FindUservar(u, v.key).value;
    var rest := Remove(vs, i);
    FoundAt(u, v.key);
    WellFormedWalks(u);
    RemoveValid(vs, i);
    ReallocSpec(u, RecordSize(v), p);
    var placed := Realloc(u, RecordSize(v), p);
    assert SetUservar(u, v.key, v.vtype, v.data) == Store(placed, v.key, v.vtype, v.data);
    if placed.at.Success? {
      StoreAppend(placed, v);
    }
  }

  /** `SetUservar` on a key that is absent: nothing happens for the DELETED
      bit; otherwise the record is appended if it fits with a spare zero
      byte, and else the result is ENOMEM and the area is unchanged. */
  lemma SetNewSpec(u: seq<byte>, v: UserVar)
    requires WellFormed(u) && ValidVar(v) && RecordSize(v) < TWO_32 - 1
    requires FindUservar(u, v.key).None?
    ensures var r := SetUservar(u, v.key, v.vtype, v.data);
      WellFormed(r.area) &&
      (IsDeleted(v.vtype) ==> r == SetOut(u, 0)) &&
      (!IsDeleted(v.vtype) && Used(Vars(u)) + RecordSize(v) < |u| ==>
        Vars(r.area) == Vars(u) + [v] && r.status == 0) &&
      (!IsDeleted(v.vtype) && Used(Vars(u)) + RecordSize(v) >= |u| ==>
        r == SetOut(u, -ENOMEM))
  {
    var vs := Vars(u);
    if !IsDeleted(v.vtype) && Used(vs) + RecordSize(v) < |u| {
      StoreAppend(Placed(u, Alloc(u, RecordSize(v))), v);
    }
  }

  /** `bgenv_set_uservar` on the bytes does to the list of variables what
      `SetVars` says, and keeps the area well formed. */
  lemma SetUservarSpec(u: seq<byte>, v: UserVar)
    requires WellFormed(u) && ValidVar(v) && RecordSize(v) < TWO_32 - 1
    ensures ValidVars(Vars(u)) && Used(Vars(u)) < |u|
    ensures var r := SetUservar(u, v.key, v.vtype, v.data);
      WellFormed(r.area) && Vars(r.area) == SetVars(Vars(u), v, |u|).0 &&
      r.status == SetVars(Vars(u), v, |u|).1
  {
    var vs := Vars(u);
    WellFormedWalks(u);
    match IndexOf(vs, v.key)
    case None =>
      SetNewSpec(u, v);
    case Some(i) =>
      RemoveValid(vs, i);
      if IsDeleted(v.vtype) {
        SetDeleteSpec(u, v);
      } else if RecordSize(v) == RecordSize(vs[i]) {
        SetSameSizeSpec(u, v);
      } else {
        SetResizeSpec(u, v);
      }
  }

  /** `bgenv_set_uservar` with an empty key keeps the area well formed
      exactly when it writes nothing. */
  lemma EmptyKeyBreaksArea(u: seq<byte>, vtype: nat, data: seq<byte>)
    requires WellFormed(u) && vtype < TWO_64 && 13 + |data| < TWO_32 - 1
    ensures var r := SetUservar(u, [], vtype, data);
      WellFormed(r.area) <==> IsDeleted(vtype) || r.status != 0
  {
    var vs := Vars(u);
    WellFormedWalks(u);
    assert FindUservar(u, []).None?;
    var r := SetUservar(u, [], vtype, data);
    if !IsDeleted(vtype) && r.status == 0 {
      var n := 13 + |data|;
      assert Alloc(u, n) == Success(Used(vs));
      assert r.area == Write(u, Used(vs), SerializeUservar([], vtype, data, n));
      EmptyKeyRecord(u, vtype, data);
    }
  }

  /** A record with an empty key stored after the records: it starts with
      the key's NUL, which ends the list there, and its length field is
      not zero, so the bytes after the list are no longer all zero. */
  lemma EmptyKeyRecord(u: seq<byte>, vtype: nat, data: seq<byte>)
    requires WellFormed(u) && vtype < TWO_64 && 13 + |data| < TWO_32 - 1
    requires Used(Vars(u)) + 13 + |data| <= |u|
    ensures !WellFormed(Write(u, Used(Vars(u)), SerializeUservar([], vtype, data, 13 + |data|)))
  {
    var vs := Vars(u);
    var p := Used(vs);
    var ser := SerializeUservar([], vtype, data, 13 + |data|);
    var k := EmptyKeyBytes(vtype, data);
    var w := Write(u, p, ser);
    WalkEndsAt(u, ser);
    DecodeWalks(w, 0, vs);
    assert Decode(w, 0) == Some(vs);
    assert w[p..p + |ser|] == ser;
    assert w[p + k] == ser[k] != 0;
    assert !ZerosFrom(w, p);
  }

  /** The record of an empty key: a NUL, then a length field with a
      non-zero byte `k`. */
  lemma EmptyKeyBytes(vtype: nat, data: seq<byte>) returns (k: nat)
    requires vtype < TWO_64 && 13 + |data| < TWO_32 - 1
    ensures var ser := SerializeUservar([], vtype, data, 13 + |data|);
      ser[0] == 0 && 1 <= k < 5 && ser[k] != 0
  {
    var ser := SerializeUservar([], vtype, data, 13 + |data|);
    SerializeUservarFields([], vtype, data, 13 + |data|);
    k := Le32NonZero(ser, 1);
  }

  /** Bytes that start with a zero, written right after the records, keep
      the walk over them: it ends at that zero. */
  lemma WalkEndsAt(u: seq<byte>, x: seq<byte>)
    requires WellFormed(u) && x != [] && x[0] == 0 && Used(Vars(u)) + |x| <= |u|
    ensures Walks(Write(u, Used(Vars(u)), x), 0, Vars(u))
  {
    var vs := Vars(u);
    var p := Used(vs);
    var w := Write(u, p, x);
    WellFormedArea(u);
    assert w[..p] == EncodeAll(vs);
    assert w == [] + EncodeAll(vs) + w[p..];
    EncodedWalks([], vs, w[p..]);
  }

  /** What `bgenv_get_uservar` copies out of a variable. */
  function Got(w: UserVar, maxlen: nat): (nat, seq<byte>)
  {
    (w.vtype, w.data[..if |w.data| > maxlen then maxlen else |w.data|])
  }

  /** `GetUservar` reads the map view of the area. */
  lemma GetLookup(u: seq<byte>, key: seq<byte>, maxlen: nat)
    requires WellFormed(u)
    ensures GetUservar(u, key, maxlen) ==
      match Lookup(Vars(u), key)
      case None => Failure(-EINVAL)
      case Some(w) => Success(Got(w, maxlen))
  {
  }

  /** On a list with distinct keys, `SetVars` keeps the keys distinct and
      changes at most what `v.key` looks up: to `v` when the set succeeds
      without the DELETED bit, and to nothing otherwise. */
  lemma SetVarsLookup(vs: seq<UserVar>, v: UserVar, mem: nat, key: seq<byte>)
    requires ValidVars(vs) && Used(vs) < mem && UniqueKeys(vs)
    ensures UniqueKeys(SetVars(vs, v, mem).0)
    ensures Lookup(SetVars(vs, v, mem).0, key) ==
      if key != v.key then Lookup(vs, key)
      else if SetVars(vs, v, mem).1 == 0 && !IsDeleted(v.vtype) then Some(v)
      else None
  {
    LookupSpec(vs, v.key);
    match IndexOf(vs, v.key)
    case Some(i) =>
      var rest := Remove(vs, i);
      UniqueKeysRemove(vs, i);
      LookupRemove(vs, i, key);
      LookupRemove(vs, i, v.key);
      if IsDeleted(v.vtype) {
      } else if RecordSize(v) == RecordSize(vs[i]) {
        UniqueKeysUpdate(vs, i, v);
        LookupUpdate(vs, i, v, key);
      } else if Used(vs) - RecordSize(vs[i]) + RecordSize(v) < mem {
        UniqueKeysAppend(rest, v);
        LookupAppend(rest, v, key);
      }
    case None =>
      if !IsDeleted(v.vtype) && Used(vs) + RecordSize(v) < mem {
        UniqueKeysAppend(vs, v);
        LookupAppend(vs, v, key);
      }
  }

  /** After `bgenv_set_uservar` on an area with distinct keys, getting the
      key returns the stored type and data, truncated to `maxlen`, when the
      set succeeded without the DELETED bit, and -EINVAL otherwise; every
      other key reads as before. */
  lemma GetAfterSet(u: seq<byte>, v: UserVar, key: seq<byte>, maxlen: nat)
    requires WellFormed(u) && UniqueKeys(Vars(u))
    requires ValidVar(v) && RecordSize(v) < TWO_32 - 1
    ensures var r := SetUservar(u, v.key, v.vtype, v.data);
      WellFormed(r.area) && UniqueKeys(Vars(r.area)) &&
      GetUservar(r.area, key, maxlen) ==
        if key != v.key then GetUservar(u, key, maxlen)
        else if r.status == 0 && !IsDeleted(v.vtype) then Success(Got(v, maxlen))
        else Failure(-EINVAL)
  {
    var r := SetUservar(u, v.key, v.vtype, v.data);
    SetUservarSpec(u, v);
    SetVarsLookup(Vars(u), v, |u|, key);
    GetLookup(u, key, maxlen);
    GetLookup(r.area, key, maxlen);
  }

  // ---------------------------------------------------------------------
  // The space test of `bgenv_uservar_realloc` as written.

  /** As written, the resize test accepts a new record of up to one byte
      more than the free space left after the deletion, and places it at
      the end of the records; the corrected test demands one spare byte
      for the terminating zero. */
  lemma ReallocAsWrittenSpace(u: seq<byte>, newRsize: nat, p: nat)
    requires WellFormed(u) && p in Offsets(Vars(u)) && 0 < newRsize < TWO_32
    requires newRsize != RecordSize(Vars(u)[OffsetIndex(Vars(u), p)])
    ensures WellFormed(DelUservar(u, p))
    ensures var free := UserFree(DelUservar(u, p));
      var r := ReallocAsWritten(u, newRsize, p);
      (r.at.Success? <==> newRsize <= free + 1) &&
      (r.at.Success? ==> r.at.value == |u| - free) &&
      (Realloc(u, newRsize, p).at.Success? <==> newRsize + 1 <= free)
  {
    RecordAt(u, p);
    DelUservarSpec(u, p);
  }

  /** The area of the example below: "A" and "B" with no data, 14
      bytes each, in 30 bytes. */
  lemma ExampleArea()
    ensures var vs := [UserVar([65], 0, []), UserVar([66], 0, [])];
      var u := Area(vs, 30);
      ValidVars(vs) && Used(vs) == 28 && |u| == 30 &&
      WellFormed(u) && Vars(u) == vs && 0 in Offsets(vs) && OffsetIndex(vs, 0) == 0 &&
      RecordSize(vs[0]) == 14 && UserFree(u) == 2
  {
    var a, b := UserVar([65], 0, []), UserVar([66], 0, []);
    var vs := [a, b];
    assert ValidVar(a) && ValidVar(b);
    assert Used([b]) == 14 by {
      assert [b][1..] == [];
    }
    assert Used(vs) == 28 by {
      assert vs[1..] == [b];
    }
    AreaWellFormed(vs, 30);
    assert Offsets(vs)[0] == Offset(vs, 0) == 0 by {
      assert vs[..0] == [];
    }
    assert OffsetIndex(vs, 0) == 0 by {
      OffsetInjective(vs, OffsetIndex(vs, 0), 0);
    }
  }

  /** An input on which the test as written lets a record run one byte
      past the end of the area: a 30-byte area holding "A" and "B" with no
      data (14 bytes each); resizing "A" to a 17-byte record deletes it,
      leaves 16 bytes free, and places the new record at offset 14, so it
      would end at byte 31.  The corrected test refuses. */
  lemma ReallocOverflowExample()
    ensures var vs := [UserVar([65], 0, []), UserVar([66], 0, [])];
      ValidVars(vs) && Used(vs) < 30 &&
      WellFormed(Area(vs, 30)) && 0 in Offsets(Vars(Area(vs, 30))) &&
      ReallocAsWritten(Area(vs, 30), 17, 0).at == Success(14) &&
      Realloc(Area(vs, 30), 17, 0).at == Failure(ENOMEM)
  {
    var u := Area([UserVar([65], 0, []), UserVar([66], 0, [])], 30);
    ExampleArea();
    DelUservarSpec(u, 0);
    assert UserFree(DelUservar(u, 0)) == 16;
    ReallocAsWrittenSpace(u, 17, 0);
    ReallocSpec(u, 17, 0);
  }
}
