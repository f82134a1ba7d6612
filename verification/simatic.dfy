/** The SIMATIC station id (simatic.c): the fourth entry of the OEM data
    in SMBIOS structure 129. */
module Simatic {
  import opened Wrappers
  import opened Bytes
  import Smbios

  const SMBIOS_TYPE_OEM_129: nat := 129
  const OEM_ENTRY_TYPE_BINARY: nat := 0xff
  /** `sizeof(SIMATIC_OEM_ENTRY)`: type, length, three reserved bytes and
      the 32-bit station id. */
  const OEM_ENTRY_SIZE: nat := 9

  /** The loop of `get_station_id` from the entry at `entry` with `n`
      entries still to pass over; nothing when it reads past the table. */
  function StationIdFrom(t: seq<byte>, entry: nat, n: nat): (r: Option<nat>)
    ensures entry < |t| && n > 0 && t[entry] != OEM_ENTRY_TYPE_BINARY ==> r == Some(0)
    ensures entry + 1 < |t| && n == 0 && (t[entry] != OEM_ENTRY_TYPE_BINARY || t[entry + 1] != OEM_ENTRY_SIZE)
      ==> r == Some(0)
    ensures r.Some? && r.value != 0 ==> r.value < TWO_32
    decreases n
  {
    if entry >= |t| then None
    else if n > 0 then
      if t[entry] != OEM_ENTRY_TYPE_BINARY then Some(0)
      else if entry + 1 >= |t| then None
      else StationIdFrom(t, entry + t[entry + 1], n - 1)
    else if t[entry] != OEM_ENTRY_TYPE_BINARY then Some(0)
    else if entry + 1 >= |t| then None
    else if t[entry + 1] != OEM_ENTRY_SIZE then Some(0)
    else if entry + OEM_ENTRY_SIZE > |t| then None
    else
      Le32Bound(t, entry + 5);
      Some(Le32At(t, entry + 5))
  }

  /** `get_station_id` for the structure at `off`: its OEM entries start
      right after the structure header. */
  function StationId(t: seq<byte>, off: nat): (r: Option<nat>)
  {
    StationIdFrom(t, off + Smbios.HEADER_SIZE, 3)
  }

  /** `simatic_station_id`: 0 without an SMBIOS table or without structure
      129, else the station id of the first structure 129. The table is its
      structure area and its structure count. */
  function SimaticStationId(table: Option<(seq<byte>, nat)>): (r: Option<nat>)
    ensures table.None? ==> r == Some(0)
    ensures table.Some? && Smbios.FindStruct(table.value.0, table.value.1, SMBIOS_TYPE_OEM_129).NotFound?
      ==> r == Some(0)
    ensures table.Some? && Smbios.FindStruct(table.value.0, table.value.1, SMBIOS_TYPE_OEM_129).Found?
      ==> r == StationId(table.value.0, Smbios.FindStruct(table.value.0, table.value.1, SMBIOS_TYPE_OEM_129).offset)
  {
    match table
    case None => Some(0)
    case Some((t, count)) =>
      match Smbios.FindStruct(t, count, SMBIOS_TYPE_OEM_129)
      case NotFound => Some(0)
      case Overrun => None
      case Found(off) => StationId(t, off)
  }

  /** A binary OEM entry whose length byte is its size. */
  predicate BinaryEntry(e: seq<byte>)
  {
    |e| >= 2 && e[0] == OEM_ENTRY_TYPE_BINARY && e[1] == |e|
  }

  /** The entry carrying the station id. */
  function StationEntry(id: nat): (r: seq<byte>)
    requires id < TWO_32
    ensures |r| == OEM_ENTRY_SIZE && BinaryEntry(r)
  {
    [OEM_ENTRY_TYPE_BINARY, OEM_ENTRY_SIZE, 0, 0, 0] + Le32Bytes(id)
  }

  /** The bytes of `t` from `p` on start with `e`. */
  predicate EntryAt(t: seq<byte>, p: nat, e: seq<byte>)
  {
    p + |e| <= |t| && t[p..p + |e|] == e
  }

  /** A piece of a concatenation lies where the pieces before it end. */
  lemma Within(a: seq<byte>, x: seq<byte>, b: seq<byte>)
    ensures EntryAt(a + x + b, |a|, x)
  {
    assert (a + x + b)[|a|..|a| + |x|] == x;
  }

  /** The first two bytes of `t` from `p` on, the type and length of an
      entry, are those of `e`. */
  predicate Heads(t: seq<byte>, p: nat, e: seq<byte>)
  {
    p + 1 < |t| && |e| >= 2 && t[p] == e[0] && t[p + 1] == e[1]
  }

  lemma HeadsOf(t: seq<byte>, p: nat, e: seq<byte>)
    requires EntryAt(t, p, e) && |e| >= 2
    ensures Heads(t, p, e)
  {
    assert t[p] == t[p..p + |e|][0] && t[p + 1] == t[p..p + |e|][1];
  }

  /** Passing one binary entry. */
  lemma PassEntry(t: seq<byte>, p: nat, e: seq<byte>, n: nat)
    requires BinaryEntry(e) && n > 0 && Heads(t, p, e)
    ensures StationIdFrom(t, p, n) == StationIdFrom(t, p + |e|, n - 1)
  {
  }

  /** The fourth entry, when it is the station entry, yields the id. */
  lemma ReadStationEntry(t: seq<byte>, p: nat, id: nat)
    requires id < TWO_32 && EntryAt(t, p, StationEntry(id))
    ensures StationIdFrom(t, p, 0) == Some(id)
  {
    var s := StationEntry(id);
    assert t[p] == s[0] && t[p + 1] == s[1];
    assert t[p + 5..p + 9] == s[5..] == Le32Bytes(id);
    Le32AtSlice(t, p + 5, Le32Bytes(id));
    Le32RoundTrip(id);
  }

  /** Three binary entries and the station entry, one after the other,
      yield the station id. */
  lemma ReadEntries(t: seq<byte>, q: nat, e1: seq<byte>, e2: seq<byte>, e3: seq<byte>, id: nat)
    requires BinaryEntry(e1) && BinaryEntry(e2) && BinaryEntry(e3) && id < TWO_32
    requires Heads(t, q, e1) && Heads(t, q + |e1|, e2) && Heads(t, q + |e1| + |e2|, e3)
    requires EntryAt(t, q + |e1| + |e2| + |e3|, StationEntry(id))
    ensures StationIdFrom(t, q, 3) == Some(id)
  {
    var q2 := q + |e1|;
    var q3 := q2 + |e2|;
    var q4 := q3 + |e3|;
    PassEntry(t, q, e1, 3);
    PassEntry(t, q2, e2, 2);
    PassEntry(t, q3, e3, 1);
    ReadStationEntry(t, q4, id);
    assert StationIdFrom(t, q, 3) == StationIdFrom(t, q2, 2) == StationIdFrom(t, q3, 1) == StationIdFrom(t, q4, 0);
  }

  /** Structure 129 with three binary entries before the station entry
      yields that entry's station id. */
  lemma EncodedStationId(pre: seq<byte>, header: seq<byte>, e1: seq<byte>, e2: seq<byte>, e3: seq<byte>, id: nat, rest: seq<byte>)
    requires |header| == Smbios.HEADER_SIZE
    requires BinaryEntry(e1) && BinaryEntry(e2) && BinaryEntry(e3) && id < TWO_32
    ensures StationId(pre + header + e1 + e2 + e3 + StationEntry(id) + rest, |pre|) == Some(id)
  {
    var s := StationEntry(id);
    var p1 := pre + header;
    var t := p1 + e1 + e2 + e3 + s + rest;
    Regroup(p1, e1, e2, e3, s + rest);
    Within(p1, e1, e2 + e3 + s + rest);
    HeadsOf(t, |p1|, e1);
    Within(p1 + e1, e2, e3 + s + rest);
    HeadsOf(t, |p1| + |e1|, e2);
    Within(p1 + e1 + e2, e3, s + rest);
    HeadsOf(t, |p1| + |e1| + |e2|, e3);
    Within(p1 + e1 + e2 + e3, s, rest);
    ReadEntries(t, |p1|, e1, e2, e3, id);
  }

  /** The ways of cutting the concatenation of five pieces at each of the
      middle three. */
  lemma Regroup(a: seq<byte>, b: seq<byte>, c: seq<byte>, d: seq<byte>, e: seq<byte>)
    ensures a + b + c + d + e == a + b + (c + d + e)
    ensures a + b + c + d + e == a + b + c + (d + e)
    ensures a + b + c + d + e == a + (b + c + d + e)
  {
  }
}
