/** The user-variable area of an environment (env/uservars.c): a fixed-size
    buffer of packed records (see `UserVarRecord`).  The list of variables
    ends at the first record position whose first byte is 0, so an area
    always keeps at least one zero byte after its last record.

    `Decode` walks the records the way the C loops do; `Area` is the
    canonical buffer holding a list.  `WellFormedArea` and `AreaWellFormed`
    show that the two views coincide on the areas the library keeps. */
module UserVarArea {
  import opened Wrappers
  import opened Bytes
  import opened Seqs
  import opened UserVarRecord

  /** The records from offset `p` up to the terminating zero byte, or `None`
      if the walk would leave the area. */
  function Decode(s: seq<byte>, p: nat): Option<seq<UserVar>>
    requires p <= |s| < TWO_32
    decreases |s| - p
  {
    if p == |s| then None
    else if s[p] == 0 then Some([])
    else
      match MapUservar(s, p)
      case None => None
      case Some(m) =>
        match Decode(s, p + m.recordSize)
        case None => None
        case Some(rest) => Some([m.v] + rest)
  }

  /** Total size of the records of `vs`. */
  function Used(vs: seq<UserVar>): nat
  {
    if vs == [] then 0 else RecordSize(vs[0]) + Used(vs[1..])
  }

  function EncodeAll(vs: seq<UserVar>): (r: seq<byte>)
    requires ValidVars(vs)
    ensures |r| == Used(vs)
  {
    if vs == [] then [] else Encode(vs[0]) + EncodeAll(vs[1..])
  }

  /** The canonical area holding `vs`: the records, then zeros to the end. */
  function Area(vs: seq<UserVar>, mem: nat): (r: seq<byte>)
    requires ValidVars(vs) && Used(vs) < mem
    ensures |r| == mem
  {
    EncodeAll(vs) + Zeros(mem - Used(vs))
  }

  /** Every byte from `n` on is zero. */
  predicate ZerosFrom(s: seq<byte>, n: nat)
  {
    n <= |s| && forall j :: n <= j < |s| ==> s[j] == 0
  }

  /** An area the library keeps: a list of records ended by a zero byte and
      zero-filled after it, in a buffer whose size fits 32 bits. */
  predicate WellFormed(u: seq<byte>)
  {
    |u| < TWO_32 && Decode(u, 0).Some? && ZerosFrom(u, Used(Decode(u, 0).value))
  }

  /** The variables a well-formed area holds, in order. */
  function Vars(u: seq<byte>): seq<UserVar>
    requires WellFormed(u)
  {
    Decode(u, 0).value
  }

  /** Reference definition: the index of the first variable named `key`. */
  function IndexOf(vs: seq<UserVar>, key: seq<byte>): (r: Option<nat>)
    ensures r.Some? ==> r.value < |vs| && vs[r.value].key == key
  {
    if vs == [] then None
    else if vs[0].key == key then Some(0)
    else match IndexOf(vs[1..], key)
      case None => None
      case Some(i) => Some(i + 1)
  }

  /** Byte offset of the record of `vs[i]` in the area. */
  function Offset(vs: seq<UserVar>, i: nat): nat
    requires i <= |vs|
  {
    Used(vs[..i])
  }

  function Offsets(vs: seq<UserVar>): (r: seq<nat>)
    ensures |r| == |vs|
    ensures forall i :: 0 <= i < |vs| ==> r[i] == Offset(vs, i)
  {
    seq(|vs|, i requires 0 <= i < |vs| => Offset(vs, i))
  }

  ghost function OffsetIndex(vs: seq<UserVar>, p: nat): (i: nat)
    requires p in Offsets(vs)
    ensures i < |vs| && Offset(vs, i) == p
  {
    var i :| 0 <= i < |vs| && Offsets(vs)[i] == p; i
  }

  /** The list without its `i`-th variable. */
  function Remove(vs: seq<UserVar>, i: nat): (r: seq<UserVar>)
    requires i < |vs|
    ensures |r| == |vs| - 1
  {
    vs[..i] + vs[i + 1..]
  }

  /** Every key names at most one variable. */
  predicate UniqueKeys(vs: seq<UserVar>)
  {
    forall i, j :: 0 <= i < j < |vs| ==> vs[i].key != vs[j].key
  }

  // ---------------------------------------------------------------------
  // The loops of the C code.

  /** The loop of `bgenv_find_uservar` from the record at `p`.  The C loop
      trusts the area to be well formed; on bytes that are not, the model
      stops with `None`. */
  function FindFrom(s: seq<byte>, p: nat, key: seq<byte>): Option<nat>
    requires p <= |s| < TWO_32
    decreases |s| - p
  {
    if p == |s| || s[p] == 0 then None
    else
      match MapUservar(s, p)
      case None => None
      case Some(m) =>
        if m.v.key == key then Some(p)
        else FindFrom(s, p + m.recordSize, key)
  }

  /** The loop of `bgenv_user_free` from the record at `p`: subtracts each
      record size from `spaceLeft` and stops early when it reaches zero. */
  function FreeFrom(s: seq<byte>, p: nat, spaceLeft: int): int
    requires p <= |s| < TWO_32
    decreases |s| - p
  {
    if p == |s| || s[p] == 0 then spaceLeft
    else
      match MapUservar(s, p)
      case None => spaceLeft
      case Some(m) =>
        if spaceLeft - m.recordSize == 0 then 0
        else FreeFrom(s, p + m.recordSize, spaceLeft - m.recordSize)
  }

  // ---------------------------------------------------------------------
  // Lemmas on lists and offsets.

  lemma {:induction false} UsedAppend(a: seq<UserVar>, b: seq<UserVar>)
    ensures Used(a + b) == Used(a) + Used(b)
    decreases |a|
  {
    if a == [] {
      assert a + b == b;
    } else {
      assert (a + b)[1..] == a[1..] + b;
      UsedAppend(a[1..], b);
    }
  }

  lemma {:induction false} EncodeAllAppend(a: seq<UserVar>, b: seq<UserVar>)
    requires ValidVars(a) && ValidVars(b)
    ensures ValidVars(a + b)
    ensures EncodeAll(a + b) == EncodeAll(a) + EncodeAll(b)
    decreases |a|
  {
    if a == [] {
      assert a + b == b;
    } else {
      assert (a + b)[1..] == a[1..] + b;
      assert (a + b)[0] == a[0];
      EncodeAllAppend(a[1..], b);
      AppendAssoc(Encode(a[0]), EncodeAll(a[1..]), EncodeAll(b));
    }
  }

  /** Offsets split the list: the record of `vs[i]` starts where the
      records before it end. */
  lemma UsedSplit(vs: seq<UserVar>, i: nat)
    requires i < |vs|
    ensures Used(vs) == Offset(vs, i) + RecordSize(vs[i]) + Used(vs[i + 1..])
    ensures Offset(vs, i + 1) == Offset(vs, i) + RecordSize(vs[i])
  {
    SplitAt(vs, i);
    UsedAppend(vs[..i], vs[i..]);
    assert vs[i..][1..] == vs[i + 1..];
    assert vs[..i + 1] == vs[..i] + [vs[i]];
    UsedAppend(vs[..i], [vs[i]]);
  }

  lemma {:induction false} OffsetMonotone(vs: seq<UserVar>, i: nat, j: nat)
    requires i < j <= |vs|
    ensures Offset(vs, i) < Offset(vs, j)
    decreases j - i
  {
    UsedSplit(vs, i);
    if i + 1 < j {
      OffsetMonotone(vs, i + 1, j);
    }
  }

  lemma OffsetInjective(vs: seq<UserVar>, i: nat, j: nat)
    requires i < |vs| && j < |vs| && Offset(vs, i) == Offset(vs, j)
    ensures i == j
  {
    if i < j {
      OffsetMonotone(vs, i, j);
    } else if j < i {
      OffsetMonotone(vs, j, i);
    }
  }

  // ---------------------------------------------------------------------
  // Walking the records of an area.

  /** Walking the records of `s` from offset `p` visits exactly the
      variables `ws` and then a zero byte. */
  predicate Walks(s: seq<byte>, p: nat, ws: seq<UserVar>)
    decreases |ws|
  {
    p < |s| < TWO_32 &&
    if ws == [] then s[p] == 0
    else
      s[p] != 0 && MapUservar(s, p) == Some(Mapped(ws[0], RecordSize(ws[0]))) &&
      Walks(s, p + RecordSize(ws[0]), ws[1..])
  }

  /** A walk decodes to the variables it visits, all of them valid. */
  lemma {:induction false} DecodeWalks(s: seq<byte>, p: nat, ws: seq<UserVar>)
    requires Walks(s, p, ws)
    ensures Decode(s, p) == Some(ws)
    ensures ValidVars(ws) && p + Used(ws) < |s|
    decreases |ws|
  {
    if ws != [] {
      var r := RecordSize(ws[0]);
      DecodeWalks(s, p + r, ws[1..]);
      assert [ws[0]] + ws[1..] == ws;
      assert ValidVar(ws[0]);
      forall i | 0 <= i < |ws|
        ensures ValidVar(ws[i])
      {
        if i > 0 {
          assert ws[i] == ws[1..][i - 1];
        }
      }
    }
  }

  /** One record followed by a walk is a walk. */
  lemma WalksCons(s: seq<byte>, p: nat, v: UserVar, ws: seq<UserVar>)
    requires p < |s| && s[p] != 0 && MapUservar(s, p) == Some(Mapped(v, RecordSize(v)))
    requires Walks(s, p + RecordSize(v), ws)
    ensures Walks(s, p, [v] + ws)
  {
    assert ([v] + ws)[0] == v && ([v] + ws)[1..] == ws;
  }

  /** Conversely, what `Decode` returns is a walk. */
  lemma {:induction false} WalksDecode(s: seq<byte>, p: nat)
    requires p <= |s| < TWO_32 && Decode(s, p).Some?
    ensures Walks(s, p, Decode(s, p).value)
    decreases |s| - p
  {
    if s[p] != 0 {
      var m := MapUservar(s, p).value;
      WalksDecode(s, p + m.recordSize);
      var rest := Decode(s, p + m.recordSize).value;
      assert Decode(s, p).value == [m.v] + rest;
      WalksCons(s, p, m.v, rest);
    }
  }

  /** The walk from the record of `ws[i]` visits `ws[i..]`. */
  lemma {:induction false} WalksSuffix(s: seq<byte>, p: nat, ws: seq<UserVar>, i: nat)
    requires Walks(s, p, ws) && i <= |ws|
    ensures Walks(s, p + Offset(ws, i), ws[i..])
    decreases i
  {
    if i > 0 {
      WalksSuffix(s, p, ws, i - 1);
      UsedSplit(ws, i - 1);
      assert ws[i - 1..][1..] == ws[i..];
    } else {
      assert ws[..0] == [];
    }
  }

  /** The facts a well-formed area gives about its list. */
  lemma WellFormedWalks(u: seq<byte>)
    requires WellFormed(u)
    ensures Walks(u, 0, Vars(u)) && ValidVars(Vars(u)) && Used(Vars(u)) < |u|
  {
    WalksDecode(u, 0);
    DecodeWalks(u, 0, Vars(u));
  }

  /** The record at a valid offset of a well-formed area maps to that
      variable and ends inside the records. */
  lemma RecordAt(u: seq<byte>, p: nat)
    requires WellFormed(u) && p in Offsets(Vars(u))
    ensures p < |u| && MapUservar(u, p).Some?
    ensures MapUservar(u, p).value ==
      Mapped(Vars(u)[OffsetIndex(Vars(u), p)], RecordSize(Vars(u)[OffsetIndex(Vars(u), p)]))
    ensures p + MapUservar(u, p).value.recordSize <= Used(Vars(u))
    ensures OffsetIndex(Vars(u), p) + 1 <= |Vars(u)|
    ensures p + MapUservar(u, p).value.recordSize == Offset(Vars(u), OffsetIndex(Vars(u), p) + 1)
  {
    var vs := Vars(u);
    var i := OffsetIndex(vs, p);
    WellFormedWalks(u);
    WalksSuffix(u, 0, vs, i);
    assert vs[i..][0] == vs[i];
    UsedSplit(vs, i);
  }

  /** The list-level search `FindFrom` performs along a walk. */
  function FindIn(ws: seq<UserVar>, key: seq<byte>, base: nat): Option<nat>
  {
    if ws == [] then None
    else if ws[0].key == key then Some(base)
    else FindIn(ws[1..], key, base + RecordSize(ws[0]))
  }

  lemma {:induction false} FindFromWalks(s: seq<byte>, p: nat, ws: seq<UserVar>, key: seq<byte>)
    requires Walks(s, p, ws)
    ensures FindFrom(s, p, key) == FindIn(ws, key, p)
    decreases |ws|
  {
    if ws != [] {
      FindFromWalks(s, p + RecordSize(ws[0]), ws[1..], key);
    }
  }

  /** `FindIn` returns the offset of the first variable named `key`. */
  lemma {:induction false} FindInIndex(ws: seq<UserVar>, key: seq<byte>, base: nat)
    ensures FindIn(ws, key, base) ==
      (match IndexOf(ws, key) case None => None case Some(i) => Some(base + Offset(ws, i)))
    decreases |ws|
  {
    if ws == [] {
    } else if ws[0].key == key {
      assert ws[..0] == [];
    } else {
      FindInIndex(ws[1..], key, base + RecordSize(ws[0]));
      match IndexOf(ws[1..], key)
      case None =>
      case Some(i) =>
        assert ws[..i + 1][1..] == ws[1..][..i];
    }
  }

  lemma FindArea(u: seq<byte>, key: seq<byte>)
    requires WellFormed(u)
    ensures FindFrom(u, 0, key) ==
      (match IndexOf(Vars(u), key) case None => None case Some(i) => Some(Offset(Vars(u), i)))
  {
    WellFormedWalks(u);
    FindFromWalks(u, 0, Vars(u), key);
    FindInIndex(Vars(u), key, 0);
  }

  lemma {:induction false} FreeFromWalks(s: seq<byte>, p: nat, ws: seq<UserVar>, space: int)
    requires Walks(s, p, ws) && space > Used(ws)
    ensures FreeFrom(s, p, space) == space - Used(ws)
    decreases |ws|
  {
    if ws != [] {
      FreeFromWalks(s, p + RecordSize(ws[0]), ws[1..], space - RecordSize(ws[0]));
    }
  }

  lemma FreeArea(u: seq<byte>)
    requires WellFormed(u)
    ensures FreeFrom(u, 0, |u|) == |u| - Used(Vars(u))
    ensures u[0] == 0 ==> Used(Vars(u)) == 0
  {
    WellFormedWalks(u);
    FreeFromWalks(u, 0, Vars(u), |u|);
  }

  // ---------------------------------------------------------------------
  // Areas as bytes.

  /** The records of a list, followed by any bytes that start with a zero,
      are walked as that list. */
  lemma {:induction false} EncodedWalks(a: seq<byte>, ws: seq<UserVar>, t: seq<byte>)
    requires ValidVars(ws) && t != [] && t[0] == 0 && |a| + Used(ws) + |t| < TWO_32
    ensures Walks(a + EncodeAll(ws) + t, |a|, ws)
    decreases |ws|
  {
    var s := a + EncodeAll(ws) + t;
    if ws == [] {
      assert s[|a|] == t[0];
    } else {
      var e := Encode(ws[0]);
      var rest := EncodeAll(ws[1..]) + t;
      AppendAssoc(a, e, EncodeAll(ws[1..]));
      AppendAssoc(a + e, EncodeAll(ws[1..]), t);
      AppendAssoc(e, EncodeAll(ws[1..]), t);
      AppendAssoc(a, e, rest);
      assert s == a + e + rest;
      MapEncode(a, ws[0], rest);
      EncodeStartsWithKey(ws[0]);
      assert s[|a|] == e[0];
      assert ValidVars(ws[1..]) by {
        forall i | 0 <= i < |ws| - 1
          ensures ValidVar(ws[1..][i])
        {
          assert ws[1..][i] == ws[i + 1];
        }
      }
      EncodedWalks(a + e, ws[1..], t);
      assert s == (a + e) + EncodeAll(ws[1..]) + t;
    }
  }

  /** The canonical area of a list, behind any prefix, walks as the list. */
  lemma AreaWalks(a: seq<byte>, ws: seq<UserVar>, z: nat)
    requires ValidVars(ws) && z > 0 && |a| + Used(ws) + z < TWO_32
    ensures Walks(a + EncodeAll(ws) + Zeros(z), |a|, ws)
  {
    EncodedWalks(a, ws, Zeros(z));
  }

  /** The bytes of a walk that is followed only by zeros are the canonical
      area of the list it visits. */
  lemma {:induction false} WalksArea(s: seq<byte>, p: nat, ws: seq<UserVar>)
    requires Walks(s, p, ws) && p + Used(ws) <= |s|
    requires s[p + Used(ws)..] == Zeros(|s| - p - Used(ws))
    ensures ValidVars(ws)
    ensures s[p..] == EncodeAll(ws) + Zeros(|s| - p - Used(ws))
    decreases |ws|
  {
    DecodeWalks(s, p, ws);
    var z := Zeros(|s| - p - Used(ws));
    if ws == [] {
      assert p + Used(ws) == p;
      AppendEmpty(z);
    } else {
      var r := RecordSize(ws[0]);
      MapSerialize(s, p);
      assert s[p..p + r] == Encode(ws[0]);
      assert Used(ws) == r + Used(ws[1..]);
      assert p + r + Used(ws[1..]) == p + Used(ws);
      assert |s| - (p + r) - Used(ws[1..]) == |s| - p - Used(ws);
      WalksArea(s, p + r, ws[1..]);
      SuffixParts(s, p, p + r, Encode(ws[0]), EncodeAll(ws[1..]), z);
      assert EncodeAll(ws) == Encode(ws[0]) + EncodeAll(ws[1..]);
    }
  }

  /** Zero bytes from `n` on form a run of zeros. */
  lemma ZerosSuffix(s: seq<byte>, n: nat)
    requires ZerosFrom(s, n)
    ensures s[n..] == Zeros(|s| - n)
  {
  }

  /** A well-formed area is the canonical area of its variables. */
  lemma WellFormedArea(u: seq<byte>)
    requires WellFormed(u)
    ensures ValidVars(Vars(u)) && Used(Vars(u)) < |u|
    ensures u == Area(Vars(u), |u|)
  {
    WellFormedWalks(u);
    ZerosSuffix(u, Used(Vars(u)));
    WalksArea(u, 0, Vars(u));
    assert u[0..] == u;
  }

  /** Every valid list that leaves one byte free is held by exactly one
      well-formed area. */
  lemma AreaWellFormed(vs: seq<UserVar>, mem: nat)
    requires ValidVars(vs) && Used(vs) < mem < TWO_32
    ensures WellFormed(Area(vs, mem)) && Vars(Area(vs, mem)) == vs
  {
    var u := Area(vs, mem);
    AreaWalks([], vs, mem - Used(vs));
    AppendEmpty(EncodeAll(vs));
    assert [] + EncodeAll(vs) + Zeros(mem - Used(vs)) == u;
    DecodeWalks(u, 0, vs);
    forall j | Used(vs) <= j < mem
      ensures u[j] == 0
    {
      assert u[j] == Zeros(mem - Used(vs))[j - Used(vs)];
    }
  }

  /** The pieces of a list of valid variables are lists of valid variables. */
  lemma ValidVarsSplit(vs: seq<UserVar>, i: nat)
    requires ValidVars(vs) && i < |vs|
    ensures ValidVars(vs[..i]) && ValidVars(vs[i..]) && ValidVars(vs[i + 1..]) && ValidVar(vs[i])
  {
    forall j | 0 <= j < i ensures ValidVar(vs[..i][j]) { assert vs[..i][j] == vs[j]; }
    forall j | 0 <= j < |vs| - i ensures ValidVar(vs[i..][j]) { assert vs[i..][j] == vs[i + j]; }
    var rest := vs[i + 1..];
    forall j | 0 <= j < |rest| ensures ValidVar(rest[j]) { assert rest[j] == vs[i + 1 + j]; }
  }

  /** The encoding of a list around its `i`-th variable. */
  lemma AreaSplit(vs: seq<UserVar>, i: nat)
    requires ValidVars(vs) && i < |vs|
    ensures ValidVars(vs[..i]) && ValidVars(vs[i + 1..]) && ValidVar(vs[i])
    ensures EncodeAll(vs) == EncodeAll(vs[..i]) + Encode(vs[i]) + EncodeAll(vs[i + 1..])
  {
    ValidVarsSplit(vs, i);
    SplitAt(vs, i);
    EncodeAllAppend(vs[..i], vs[i..]);
    assert vs[i..][0] == vs[i] && vs[i..][1..] == vs[i + 1..];
    assert EncodeAll(vs[i..]) == Encode(vs[i]) + EncodeAll(vs[i + 1..]);
    AppendAssoc(EncodeAll(vs[..i]), Encode(vs[i]), EncodeAll(vs[i + 1..]));
  }

  /** Removing a variable keeps the others valid and frees its record. */
  lemma RemoveValid(vs: seq<UserVar>, i: nat)
    requires ValidVars(vs) && i < |vs|
    ensures ValidVars(Remove(vs, i))
    ensures Used(Remove(vs, i)) + RecordSize(vs[i]) == Used(vs)
  {
    ValidVarsSplit(vs, i);
    EncodeAllAppend(vs[..i], vs[i + 1..]);
    UsedAppend(vs[..i], vs[i + 1..]);
    UsedSplit(vs, i);
  }

  /** The canonical area from the encoding of the list and the size of the
      zero tail. */
  lemma AreaOf(vs: seq<UserVar>, mem: nat, e: seq<byte>, z: nat)
    requires ValidVars(vs) && Used(vs) < mem
    requires EncodeAll(vs) == e && mem - Used(vs) == z
    ensures Area(vs, mem) == e + Zeros(z)
  {
  }

  /** A run of zeros without its first `k` bytes. */
  lemma ZerosDrop(n: nat, k: nat)
    requires k <= n
    ensures Zeros(n)[k..] == Zeros(n - k)
  {
  }

  /** Cutting the record of `vs[i]` (at `p`, of `rsize` bytes) out of the
      canonical area, moving the records up to `end` down and zero-filling
      the `free + rsize` bytes of the tail gives the area of the list
      without `vs[i]`. */
  lemma RemoveArea(vs: seq<UserVar>, i: nat, mem: nat, p: nat, rsize: nat, end: nat, free: nat)
    requires ValidVars(vs) && Used(vs) < mem && i < |vs|
    requires p == Offset(vs, i) && rsize == RecordSize(vs[i])
    requires end == Used(vs) && free == mem - Used(vs)
    ensures p + rsize <= end <= mem
    ensures ValidVars(Remove(vs, i)) && Used(Remove(vs, i)) < mem
    ensures var u := Area(vs, mem);
      u[..p] + u[p + rsize..end] + Zeros(free + rsize) == Area(Remove(vs, i), mem)
  {
    var a, b, c := EncodeAll(vs[..i]), Encode(vs[i]), EncodeAll(vs[i + 1..]);
    RemoveList(vs, i);
    AreaOf(vs, mem, a + b + c, free);
    CutOut(a, b, c, Zeros(free), p, p + rsize, end);
    AreaOf(Remove(vs, i), mem, a + c, free + rsize);
  }

  /** The encodings around `vs[i]`, and the list without it. */
  lemma RemoveList(vs: seq<UserVar>, i: nat)
    requires ValidVars(vs) && i < |vs|
    ensures ValidVars(vs[..i]) && ValidVars(vs[i + 1..]) && ValidVar(vs[i])
    ensures ValidVars(Remove(vs, i))
    ensures var a, b, c := EncodeAll(vs[..i]), Encode(vs[i]), EncodeAll(vs[i + 1..]);
      EncodeAll(vs) == a + b + c && EncodeAll(Remove(vs, i)) == a + c &&
      |a| == Offset(vs, i) && |b| == RecordSize(vs[i]) &&
      Used(Remove(vs, i)) + RecordSize(vs[i]) == Used(vs)
  {
    AreaSplit(vs, i);
    RemoveValid(vs, i);
    EncodeAllAppend(vs[..i], vs[i + 1..]);
  }

  /** Writing the record of `v` at the end of the records of the canonical
      area of `vs` gives the area of `vs + [v]`. */
  lemma AppendArea(vs: seq<UserVar>, v: UserVar, mem: nat)
    requires ValidVars(vs) && ValidVar(v) && Used(vs) + RecordSize(v) < mem
    ensures ValidVars(vs + [v]) && Used(vs + [v]) == Used(vs) + RecordSize(v)
    ensures Write(Area(vs, mem), Used(vs), Encode(v)) == Area(vs + [v], mem)
  {
    var z := mem - Used(vs);
    var e := Encode(v);
    assert ValidVars([v]);
    EncodeAllAppend(vs, [v]);
    UsedAppend(vs, [v]);
    assert [v][1..] == [];
    assert EncodeAll([v]) == e;
    var u := Area(vs, mem);
    assert u[..Used(vs)] == EncodeAll(vs);
    assert u[Used(vs) + |e|..] == Zeros(z)[|e|..];
    ZerosDrop(z, |e|);
  }

  /** Replacing `vs[i]` by a variable with a record of the same size. */
  lemma ReplaceList(vs: seq<UserVar>, i: nat, v: UserVar)
    requires ValidVars(vs) && i < |vs|
    requires ValidVar(v) && RecordSize(v) == RecordSize(vs[i])
    ensures ValidVars(vs[i := v]) && Used(vs[i := v]) == Used(vs)
    ensures Offset(vs, i) + RecordSize(v) <= Used(vs)
    ensures EncodeAll(vs[i := v]) == EncodeAll(vs[..i]) + Encode(v) + EncodeAll(vs[i + 1..])
  {
    var ws := vs[i := v];
    assert ValidVars(ws) by {
      forall j | 0 <= j < |ws| ensures ValidVar(ws[j]) {}
    }
    UpdateParts(vs, i, v);
    AreaSplit(ws, i);
    UsedSplit(vs, i);
    UsedSplit(ws, i);
  }

  /** Writing a record of the same size over the record of `vs[i]` gives
      the area of the list with `vs[i]` replaced. */
  lemma ReplaceArea(vs: seq<UserVar>, i: nat, v: UserVar, mem: nat)
    requires ValidVars(vs) && Used(vs) < mem && i < |vs|
    requires ValidVar(v) && RecordSize(v) == RecordSize(vs[i])
    ensures ValidVars(vs[i := v]) && Used(vs[i := v]) == Used(vs)
    ensures Offset(vs, i) + RecordSize(v) < mem
    ensures Write(Area(vs, mem), Offset(vs, i), Encode(v)) == Area(vs[i := v], mem)
  {
    ReplaceList(vs, i, v);
    AreaSplit(vs, i);
    var a, b, c := EncodeAll(vs[..i]), Encode(vs[i]), EncodeAll(vs[i + 1..]);
    var z := Zeros(mem - Used(vs));
    AppendAssoc(a + b, c, z);
    AppendAssoc(a + Encode(v), c, z);
    ReplaceMiddle(a, b, c + z, Encode(v));
  }

  /** Writing a record after the last one of a well-formed area, with a
      zero byte to spare, appends its variable to the list. */
  lemma AppendWellFormed(u: seq<byte>, v: UserVar)
    requires WellFormed(u) && ValidVar(v) && Used(Vars(u)) + RecordSize(v) < |u|
    ensures WellFormed(Write(u, Used(Vars(u)), Encode(v)))
    ensures Vars(Write(u, Used(Vars(u)), Encode(v))) == Vars(u) + [v]
  {
    WellFormedArea(u);
    AppendArea(Vars(u), v, |u|);
    AreaWellFormed(Vars(u) + [v], |u|);
  }

  // ---------------------------------------------------------------------
  // Keys.

  /** `IndexOf` finds nothing exactly when no key matches, and otherwise
      no earlier key matches. */
  lemma {:induction false} IndexOfSpec(vs: seq<UserVar>, key: seq<byte>)
    ensures IndexOf(vs, key).None? <==> forall j :: 0 <= j < |vs| ==> vs[j].key != key
    ensures IndexOf(vs, key).Some? ==>
      forall j :: 0 <= j < IndexOf(vs, key).value ==> vs[j].key != key
    decreases |vs|
  {
    if vs != [] && vs[0].key != key {
      IndexOfSpec(vs[1..], key);
      forall j | 1 <= j < |vs|
        ensures vs[j] == vs[1..][j - 1]
      {
      }
    }
  }

  /** The first variable named `key` is the one `IndexOf` finds. */
  lemma IndexOfAt(vs: seq<UserVar>, key: seq<byte>, i: nat)
    requires i < |vs| && vs[i].key == key
    requires forall j :: 0 <= j < i ==> vs[j].key != key
    ensures IndexOf(vs, key) == Some(i)
  {
    IndexOfSpec(vs, key);
  }

  /** The variables without `vs[i]` keep distinct keys, none of them the
      key of `vs[i]`. */
  lemma UniqueKeysRemove(vs: seq<UserVar>, i: nat)
    requires UniqueKeys(vs) && i < |vs|
    ensures UniqueKeys(Remove(vs, i))
    ensures forall j :: 0 <= j < |vs| - 1 ==> Remove(vs, i)[j].key != vs[i].key
  {
    var r := Remove(vs, i);
    forall j | 0 <= j < |r|
      ensures r[j] == vs[if j < i then j else j + 1]
    {
    }
  }

  /** Appending a variable whose key is new keeps the keys distinct. */
  lemma UniqueKeysAppend(vs: seq<UserVar>, v: UserVar)
    requires UniqueKeys(vs) && forall j :: 0 <= j < |vs| ==> vs[j].key != v.key
    ensures UniqueKeys(vs + [v])
  {
    var r := vs + [v];
    forall j | 0 <= j < |r|
      ensures r[j] == if j < |vs| then vs[j] else v
    {
    }
  }

  /** Replacing a variable by one with the same key keeps the keys
      distinct. */
  lemma UniqueKeysUpdate(vs: seq<UserVar>, i: nat, v: UserVar)
    requires UniqueKeys(vs) && i < |vs| && v.key == vs[i].key
    ensures UniqueKeys(vs[i := v])
  {
  }

  /** The variable named `key`, as a map from keys to variables sees it. */
  function Lookup(vs: seq<UserVar>, key: seq<byte>): Option<UserVar>
  {
    match IndexOf(vs, key)
    case None => None
    case Some(i) => Some(vs[i])
  }

  /** `Lookup` finds a variable with the key, and only when there is one. */
  lemma LookupSpec(vs: seq<UserVar>, key: seq<byte>)
    ensures Lookup(vs, key).Some? ==> Lookup(vs, key).value in vs && Lookup(vs, key).value.key == key
    ensures Lookup(vs, key).None? <==> forall j :: 0 <= j < |vs| ==> vs[j].key != key
  {
    IndexOfSpec(vs, key);
  }

  /** With distinct keys, a variable of the list is what its key looks up. */
  lemma LookupUnique(vs: seq<UserVar>, i: nat)
    requires UniqueKeys(vs) && i < |vs|
    ensures Lookup(vs, vs[i].key) == Some(vs[i])
  {
    IndexOfAt(vs, vs[i].key, i);
  }

  /** Removing `vs[i]` from a list with distinct keys forgets its key and
      nothing else. */
  lemma LookupRemove(vs: seq<UserVar>, i: nat, key: seq<byte>)
    requires UniqueKeys(vs) && i < |vs|
    ensures Lookup(Remove(vs, i), key) == if key == vs[i].key then None else Lookup(vs, key)
  {
    var r := Remove(vs, i);
    UniqueKeysRemove(vs, i);
    forall j | 0 <= j < |r|
      ensures r[j] == vs[if j < i then j else j + 1]
    {
    }
    LookupSpec(r, key);
    LookupSpec(vs, key);
    if key != vs[i].key && Lookup(vs, key).Some? {
      var k := IndexOf(vs, key).value;
      LookupUnique(r, if k < i then k else k - 1);
    }
  }

  /** Appending `v` to a list that does not hold its key adds it. */
  lemma LookupAppend(vs: seq<UserVar>, v: UserVar, key: seq<byte>)
    requires Lookup(vs, v.key).None?
    ensures Lookup(vs + [v], key) == if key == v.key then Some(v) else Lookup(vs, key)
  {
    var r := vs + [v];
    forall j | 0 <= j < |r|
      ensures r[j] == if j < |vs| then vs[j] else v
    {
    }
    LookupSpec(vs, key);
    LookupSpec(vs, v.key);
    if key == v.key {
      IndexOfAt(r, key, |vs|);
    } else if Lookup(vs, key).Some? {
      var k := IndexOf(vs, key).value;
      IndexOfSpec(vs, key);
      IndexOfAt(r, key, k);
    } else {
      IndexOfSpec(r, key);
    }
  }

  /** Replacing `vs[i]` by a variable with the same key, in a list with
      distinct keys, changes what that key looks up and nothing else. */
  lemma LookupUpdate(vs: seq<UserVar>, i: nat, v: UserVar, key: seq<byte>)
    requires UniqueKeys(vs) && i < |vs| && v.key == vs[i].key
    ensures Lookup(vs[i := v], key) == if key == v.key then Some(v) else Lookup(vs, key)
  {
    var r := vs[i := v];
    UniqueKeysUpdate(vs, i, v);
    LookupSpec(vs, key);
    LookupSpec(r, key);
    if key == v.key {
      LookupUnique(r, i);
    } else if Lookup(vs, key).Some? {
      LookupUnique(r, IndexOf(vs, key).value);
    }
  }
}
