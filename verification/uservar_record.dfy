/** One record of the user-variable area (env/uservars.c):
      key bytes, NUL, 32-bit payload length, 64-bit type, data
    where the payload length counts the type field, itself and the data.
    `MapUservar` reads a record the way `bgenv_map_uservar` does and
    `SerializeUservar` writes one the way `bgenv_serialize_uservar` does;
    the lemmas at the end show that the two are inverse. */
module UserVarRecord {
  import opened Wrappers
  import opened Bytes
  import opened Seqs

  /** USERVAR_TYPE_DELETED, bit 63 of the type. */
  const TYPE_DELETED: nat := 0x8000_0000_0000_0000

  /** A decoded user variable. */
  datatype UserVar = UserVar(key: seq<byte>, vtype: nat, data: seq<byte>)

  /** A record as `bgenv_map_uservar` reports it: the variable and the
      record size it computes. */
  datatype Mapped = Mapped(v: UserVar, recordSize: nat)

  /** A C string's characters: no NUL inside. */
  predicate CString(s: seq<byte>)
  {
    forall i :: 0 <= i < |s| ==> s[i] != 0
  }

  /** The `USERVAR_TYPE_DELETED` bit of a type. */
  predicate IsDeleted(vtype: nat)
  {
    (vtype / TYPE_DELETED) % 2 == 1
  }

  /** Bytes the record of `v` occupies: the key, its NUL, the 4-byte payload
      length, the 8-byte type and the data.  (The 12 bytes of length and type
      are what the C code calls the header of the payload.) */
  function RecordSize(v: UserVar): nat
  {
    |v.key| + 13 + |v.data|
  }

  /** A variable that can be stored: a non-empty C-string key, a 64-bit type
      and a record size that fits the 32-bit length fields. */
  predicate ValidVar(v: UserVar)
  {
    |v.key| > 0 && CString(v.key) && v.vtype < TWO_64 && RecordSize(v) < TWO_32
  }

  predicate ValidVars(vs: seq<UserVar>)
  {
    forall i :: 0 <= i < |vs| ==> ValidVar(vs[i])
  }

  /** `bgenv_map_uservar` on the record at offset `p`.  It is `None` exactly
      when the C code would read past the end of the area: no NUL ends the
      key, or the header or the data (of `payload - 12` bytes, a 32-bit
      subtraction) does not fit.  The record size is a 32-bit sum. */
  function MapUservar(s: seq<byte>, p: nat): (r: Option<Mapped>)
    requires p <= |s|
    ensures r.Some? ==> p < |s| && CString(r.value.v.key) && r.value.v.vtype < TWO_64
    ensures r.Some? ==> (|r.value.v.key| == 0 <==> s[p] == 0)
    ensures r.Some? && |s| < TWO_32 ==>
      r.value.recordSize == RecordSize(r.value.v) && p + r.value.recordSize <= |s|
  {
    MapFrom(s, p, p)
  }

  /** `MapUservar` once the `strlen` of the key has scanned `s[p..k]`. */
  function MapFrom(s: seq<byte>, p: nat, k: nat): (r: Option<Mapped>)
    requires p <= k <= |s|
    requires forall j :: p <= j < k ==> s[j] != 0
    ensures r.Some? ==> k < |s| && k - p <= |r.value.v.key|
    ensures r.Some? ==> CString(r.value.v.key) && r.value.v.vtype < TWO_64
    ensures r.Some? ==> (|r.value.v.key| == 0 <==> s[p] == 0)
    ensures r.Some? && |s| < TWO_32 ==>
      r.value.recordSize == RecordSize(r.value.v) && p + r.value.recordSize <= |s|
    decreases |s| - k
  {
    if k == |s| then None
    else if s[k] != 0 then MapFrom(s, p, k + 1)
    else MapHeader(s, p, k)
  }

  /** The rest of `MapUservar` once the key `s[p..k]` and its NUL at `k`
      are found: the header and the data must fit in the area. */
  function MapHeader(s: seq<byte>, p: nat, k: nat): (r: Option<Mapped>)
    requires p <= k < |s| && s[k] == 0
    ensures r.Some? ==> r.value.v.key == Slice(s, p, k) && r.value.v.vtype < TWO_64
    ensures r.Some? && |s| < TWO_32 ==>
      r.value.recordSize == RecordSize(r.value.v) && p + r.value.recordSize <= |s|
  {
    if k + 13 > |s| then None
    else
      var payload := Le32At(s, k + 1);
      Le32Bound(s, k + 1);
      Le64Bound(s, k + 5);
      var dataSize := Sub32(payload, 12);
      if k + 13 + dataSize > |s| then None
      else
        Some(Mapped(UserVar(Slice(s, p, k), Le64At(s, k + 5), Slice(s, k + 13, k + 13 + dataSize)),
                    Wrap32(payload + (k - p) + 1)))
  }

  /** The scan for the key's NUL ends at the first one. */
  lemma {:induction false} MapFromNul(s: seq<byte>, p: nat, k: nat, n: nat)
    requires p <= k <= n < |s| && s[n] == 0
    requires forall j :: p <= j < n ==> s[j] != 0
    ensures MapFrom(s, p, k) == MapHeader(s, p, n)
    decreases n - k
  {
    if k < n {
      MapFromNul(s, p, k + 1, n);
    }
  }

  /** The data size `bgenv_map_uservar` derives from the payload length
      stored after the key's NUL at `k`: `payload - 12`, a 32-bit
      subtraction. */
  function DataSizeAt(s: seq<byte>, k: nat): (r: nat)
    requires k + 13 <= |s|
    ensures r < TWO_32
    ensures Le32At(s, k + 1) >= 12 ==> r == Le32At(s, k + 1) - 12
  {
    Le32Bound(s, k + 1);
    Sub32(Le32At(s, k + 1), 12)
  }

  /** Without a NUL after `p`, the key's `strlen` runs off the area and
      mapping fails. */
  lemma {:induction false} MapFromNoNul(s: seq<byte>, p: nat, k: nat)
    requires p <= k <= |s|
    requires forall j :: p <= j < |s| ==> s[j] != 0
    ensures MapFrom(s, p, k).None?
    decreases |s| - k
  {
    if k < |s| {
      MapFromNoNul(s, p, k + 1);
    }
  }

  /** Mapping the record at `p` fails exactly when the C code would read
      past the area: no NUL ends the key, or, with the key's NUL at `n`,
      the 12 header bytes or the `payload - 12` data bytes do not fit. */
  lemma MapUservarFails(s: seq<byte>, p: nat, n: nat)
    requires p <= |s|
    ensures (forall j :: p <= j < |s| ==> s[j] != 0) ==> MapUservar(s, p).None?
    ensures p <= n < |s| && s[n] == 0 && (forall j :: p <= j < n ==> s[j] != 0) ==>
      (MapUservar(s, p).None? <==> n + 13 > |s| || n + 13 + DataSizeAt(s, n) > |s|)
  {
    if forall j :: p <= j < |s| ==> s[j] != 0 {
      MapFromNoNul(s, p, p);
    }
    if p <= n < |s| && s[n] == 0 && (forall j :: p <= j < n ==> s[j] != 0) {
      MapFromNul(s, p, p, n);
    }
  }

  /** `bgenv_serialize_uservar`: the bytes written for a record of
      `recordSize` bytes; the payload length is derived from the record size
      and the data is the first `payload - 12` bytes of `data`. */
  function SerializeUservar(key: seq<byte>, vtype: nat, data: seq<byte>, recordSize: nat): (r: seq<byte>)
    requires CString(key) && vtype < TWO_64
    requires |key| + 13 <= recordSize < TWO_32
    requires recordSize - |key| - 13 <= |data|
    ensures |r| == recordSize
  {
    key + [0] + Le32Bytes(recordSize - |key| - 1) + Le64Bytes(vtype) +
      data[..recordSize - |key| - 13]
  }

  /** Where the fields of a serialised record lie. */
  lemma SerializeUservarFields(key: seq<byte>, vtype: nat, data: seq<byte>, recordSize: nat)
    requires CString(key) && vtype < TWO_64
    requires |key| + 13 <= recordSize < TWO_32
    requires recordSize - |key| - 13 <= |data|
    ensures var r := SerializeUservar(key, vtype, data, recordSize);
      r[..|key|] == key && r[|key|] == 0 &&
      Le32At(r, |key| + 1) == recordSize - |key| - 1 &&
      Le64At(r, |key| + 5) == vtype &&
      r[|key| + 13..] == data[..recordSize - |key| - 13]
  {
    var payload := recordSize - |key| - 1;
    var r := SerializeUservar(key, vtype, data, recordSize);
    assert r[|key| + 1..|key| + 5] == Le32Bytes(payload);
    Le32AtSlice(r, |key| + 1, Le32Bytes(payload));
    Le32RoundTrip(payload);
    assert r[|key| + 5..|key| + 13] == Le64Bytes(vtype);
    Le64AtSlice(r, |key| + 5, Le64Bytes(vtype));
    Le64RoundTrip(vtype);
  }

  /** The record of a variable: the bytes `SerializeUservar` writes for it
      (see `EncodeIsSerialize`), listed byte by byte. */
  function Encode(v: UserVar): (r: seq<byte>)
    requires ValidVar(v)
    ensures |r| == RecordSize(v)
  {
    seq(RecordSize(v), i requires 0 <= i < RecordSize(v) =>
      SerializeUservar(v.key, v.vtype, v.data, RecordSize(v))[i])
  }

  lemma EncodeIsSerialize(v: UserVar)
    requires ValidVar(v)
    ensures Encode(v) == SerializeUservar(v.key, v.vtype, v.data, RecordSize(v))
  {
  }

  /** A record starts with the first byte of its key, which is not 0. */
  lemma EncodeStartsWithKey(v: UserVar)
    requires ValidVar(v)
    ensures Encode(v)[0] == v.key[0] != 0
  {
    EncodeIsSerialize(v);
  }

  /** A record that maps ends its key at the first NUL after its start. */
  lemma {:induction false} MapFromFound(s: seq<byte>, p: nat, k: nat)
    requires p <= k <= |s| && (forall j :: p <= j < k ==> s[j] != 0)
    requires MapFrom(s, p, k).Some?
    ensures var n := p + |MapFrom(s, p, k).value.v.key|;
      k <= n < |s| && s[n] == 0 && MapFrom(s, p, k) == MapHeader(s, p, n)
    decreases |s| - k
  {
    if s[k] != 0 {
      MapFromFound(s, p, k + 1);
    }
  }

  /** The bytes of a key that lies at `p` are not NUL. */
  lemma KeyNoNul(s: seq<byte>, p: nat, key: seq<byte>)
    requires p + |key| <= |s| && Slice(s, p, p + |key|) == key && CString(key)
    ensures forall j :: p <= j < p + |key| ==> s[j] != 0
  {
    forall j | p <= j < p + |key|
      ensures s[j] != 0
    {
      assert s[j] == Slice(s, p, p + |key|)[j - p];
    }
  }

  /** Bytes holding a key, a NUL, four and eight bytes and data in a row
      are their concatenation. */
  lemma RecordPieces(s: seq<byte>, p: nat, key: seq<byte>, l4: seq<byte>, l8: seq<byte>, data: seq<byte>)
    requires |l4| == 4 && |l8| == 8
    requires p + |key| + 13 + |data| <= |s|
    requires s[p..p + |key|] == key && s[p + |key|] == 0
    requires s[p + |key| + 1..p + |key| + 5] == l4 && s[p + |key| + 5..p + |key| + 13] == l8
    requires s[p + |key| + 13..p + |key| + 13 + |data|] == data
    ensures s[p..p + |key| + 13 + |data|] == key + [0] + l4 + l8 + data
  {
    var n := p + |key|;
    assert s[n..n + 1] == [0];
    SplitSlice(s, p, n, n + 1);
    SplitSlice(s, p, n + 1, n + 5);
    SplitSlice(s, p, n + 5, n + 13);
    SplitSlice(s, p, n + 13, n + 13 + |data|);
  }

  /** Conversely, the pieces of such a concatenation. */
  lemma PiecesOf(s: seq<byte>, p: nat, key: seq<byte>, l4: seq<byte>, l8: seq<byte>, data: seq<byte>)
    requires |l4| == 4 && |l8| == 8
    requires p + |key| + 13 + |data| <= |s|
    requires s[p..p + |key| + 13 + |data|] == key + [0] + l4 + l8 + data
    ensures s[p..p + |key|] == key && s[p + |key|] == 0
    ensures s[p + |key| + 1..p + |key| + 5] == l4 && s[p + |key| + 5..p + |key| + 13] == l8
    ensures s[p + |key| + 13..p + |key| + 13 + |data|] == data
  {
    var e := key + [0] + l4 + l8 + data;
    var k := |key|;
    SliceOfSlice(s, p, e, 0, k);
    assert e[..k] == key;
    assert s[p + k] == e[k];
    SliceOfSlice(s, p, e, k + 1, k + 5);
    assert e[k + 1..k + 5] == l4;
    SliceOfSlice(s, p, e, k + 5, k + 13);
    assert e[k + 5..k + 13] == l8;
    SliceOfSlice(s, p, e, k + 13, |e|);
    assert e[k + 13..] == data;
  }

  /** An encoded record as the concatenation of its fields. */
  lemma EncodePieces(v: UserVar)
    requires ValidVar(v)
    ensures Encode(v) == v.key + [0] + Le32Bytes(12 + |v.data|) + Le64Bytes(v.vtype) + v.data
  {
    EncodeIsSerialize(v);
    assert v.data[..|v.data|] == v.data;
  }

  /** The record at offset `p` of `s` has the fields of `v`: its key, the
      key's NUL, a payload length of `12 + |data|`, its type and its data. */
  predicate FieldsAt(s: seq<byte>, p: nat, v: UserVar)
  {
    var n := p + |v.key|;
    p + RecordSize(v) <= |s| &&
    Slice(s, p, n) == v.key && s[n] == 0 &&
    Le32At(s, n + 1) == 12 + |v.data| &&
    Le64At(s, n + 5) == v.vtype &&
    Slice(s, n + 13, p + RecordSize(v)) == v.data
  }

  /** Bytes whose slices are the pieces of a record hold its fields. */
  lemma SlicesFields(s: seq<byte>, p: nat, v: UserVar, l4: seq<byte>, l8: seq<byte>)
    requires |l4| == 4 && |l8| == 8 && Le32At(l4, 0) == 12 + |v.data| && Le64At(l8, 0) == v.vtype
    requires p + |v.key| + 13 + |v.data| <= |s|
    requires s[p..p + |v.key|] == v.key && s[p + |v.key|] == 0
    requires s[p + |v.key| + 1..p + |v.key| + 5] == l4
    requires s[p + |v.key| + 5..p + |v.key| + 13] == l8
    requires s[p + |v.key| + 13..p + |v.key| + 13 + |v.data|] == v.data
    ensures FieldsAt(s, p, v)
  {
    var n := p + |v.key|;
    Le32AtSlice(s, n + 1, l4);
    Le64AtSlice(s, n + 5, l8);
    SliceIsSubseq(s, p, n);
    SliceIsSubseq(s, n + 13, n + 13 + |v.data|);
  }

  /** The serialisation of `v` has the fields of `v`. */
  lemma EncodedFields(s: seq<byte>, p: nat, v: UserVar)
    requires ValidVar(v) && p + RecordSize(v) <= |s|
    requires s[p..p + RecordSize(v)] == Encode(v)
    ensures FieldsAt(s, p, v)
  {
    var l4, l8 := Le32Bytes(12 + |v.data|), Le64Bytes(v.vtype);
    EncodePieces(v);
    PiecesOf(s, p, v.key, l4, l8, v.data);
    Le32RoundTrip(12 + |v.data|);
    Le64RoundTrip(v.vtype);
    SlicesFields(s, p, v, l4, l8);
  }

  /** The fields of `v` at `p`, as pieces of `s`. */
  lemma FieldSlices(s: seq<byte>, p: nat, v: UserVar)
    requires FieldsAt(s, p, v)
    ensures s[p..p + |v.key|] == v.key && s[p + |v.key|] == 0
    ensures s[p + |v.key| + 1..p + |v.key| + 5] == Le32Bytes(12 + |v.data|)
    ensures s[p + |v.key| + 5..p + |v.key| + 13] == Le64Bytes(v.vtype)
    ensures s[p + |v.key| + 13..p + |v.key| + 13 + |v.data|] == v.data
  {
    SliceIsSubseq(s, p, p + |v.key|);
    SliceIsSubseq(s, p + |v.key| + 13, p + |v.key| + 13 + |v.data|);
    Le32BytesRoundTrip(s, p + |v.key| + 1);
    Le64BytesRoundTrip(s, p + |v.key| + 5);
  }

  /** Bytes with the fields of `v` are its serialisation. */
  lemma FieldsEncoded(s: seq<byte>, p: nat, v: UserVar)
    requires ValidVar(v) && FieldsAt(s, p, v)
    ensures s[p..p + RecordSize(v)] == Encode(v)
  {
    FieldSlices(s, p, v);
    RecordPieces(s, p, v.key, Le32Bytes(12 + |v.data|), Le64Bytes(v.vtype), v.data);
    EncodePieces(v);
  }

  /** A record with the fields of a valid `v` maps to `v`. */
  lemma MapFields(s: seq<byte>, p: nat, v: UserVar)
    requires ValidVar(v) && FieldsAt(s, p, v) && |s| < TWO_32
    ensures MapUservar(s, p) == Some(Mapped(v, RecordSize(v)))
  {
    KeyNoNul(s, p, v.key);
    MapFromNul(s, p, p, p + |v.key|);
  }

  /** A record that maps, and has a key, has the fields of what it maps to. */
  lemma MappedFields(s: seq<byte>, p: nat)
    requires p <= |s| < TWO_32 && MapUservar(s, p).Some? && s[p] != 0
    ensures ValidVar(MapUservar(s, p).value.v)
    ensures MapUservar(s, p).value.recordSize == RecordSize(MapUservar(s, p).value.v)
    ensures FieldsAt(s, p, MapUservar(s, p).value.v)
  {
    var m := MapUservar(s, p).value;
    var v := m.v;
    MapFromFound(s, p, p);
    var n := p + |v.key|;
    assert m == MapHeader(s, p, n).value;
    Le32Bound(s, n + 1);
  }

  /** The bytes of a serialised record, wherever they lie, map to the
      variable and its record size. */
  lemma MapEncoded(s: seq<byte>, p: nat, v: UserVar)
    requires ValidVar(v) && p + RecordSize(v) <= |s| < TWO_32
    requires s[p..p + RecordSize(v)] == Encode(v)
    ensures MapUservar(s, p) == Some(Mapped(v, RecordSize(v)))
  {
    EncodedFields(s, p, v);
    MapFields(s, p, v);
  }

  /** Mapping the bytes of a serialised record, whatever surrounds it,
      gives back the variable and its record size. */
  lemma MapEncode(a: seq<byte>, v: UserVar, t: seq<byte>)
    requires ValidVar(v) && |a + Encode(v) + t| < TWO_32
    ensures MapUservar(a + Encode(v) + t, |a|) == Some(Mapped(v, RecordSize(v)))
  {
    var s := a + Encode(v) + t;
    assert s[|a|..|a| + RecordSize(v)] == Encode(v);
    MapEncoded(s, |a|, v);
  }

  /** Conversely, the bytes of a record that maps, with a key, are the
      serialisation of what it maps to. */
  lemma MapSerialize(s: seq<byte>, p: nat)
    requires p <= |s| < TWO_32 && MapUservar(s, p).Some? && s[p] != 0
    ensures ValidVar(MapUservar(s, p).value.v)
    ensures MapUservar(s, p).value.recordSize == RecordSize(MapUservar(s, p).value.v)
    ensures p + MapUservar(s, p).value.recordSize <= |s|
    ensures s[p..p + MapUservar(s, p).value.recordSize] == Encode(MapUservar(s, p).value.v)
  {
    MappedFields(s, p);
    FieldsEncoded(s, p, MapUservar(s, p).value.v);
  }
}
