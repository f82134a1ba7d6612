/** The ACPI WDAT watchdog driver (drivers/watchdog/wdat.c): locating the
    Watchdog Action Table through the RSDP and the RSDT or XSDT, reading
    its instruction entries, and interpreting them against the watchdog's
    registers. Table layouts follow sections 5.2.5.3 (RSDP), 5.2.6 (system
    description table header) and 5.2.3.2 (generic address structure) of
    the ACPI specification, version 6.4. */
module Wdat {
  import opened Wrappers
  import opened Bytes
  import Seqs
  import Efi

  // ---------------------------------------------------------------------
  // Locating the table. Physical memory is a byte sequence indexed by
  // address; a read past its end is reported instead of performed.

  type Memory = seq<byte>

  /** How a search through the ACPI tables ends. */
  datatype Located = Located(address: nat) | Failed(status: Efi.Status) | Overrun

  const SDT_HEADER_SIZE: nat := 36
  const RSDP_REVISION_2: nat := 2

  /** "RSDT", "XSDT", "WDAT" and "RSD PTR ". */
  const SIG_RSDT: seq<byte> := [0x52, 0x53, 0x44, 0x54]
  const SIG_XSDT: seq<byte> := [0x58, 0x53, 0x44, 0x54]
  const SIG_WDAT: seq<byte> := [0x57, 0x44, 0x41, 0x54]
  const SIG_RSDP: seq<byte> := [0x52, 0x53, 0x44, 0x20, 0x50, 0x54, 0x52, 0x20]

  /** `strncmpa(sig, p, |sig|) == 0` for a signature without NUL: the bytes
      at `p` are the signature's. */
  predicate SignatureAt(mem: Memory, p: nat, sig: seq<byte>)
  {
    p + |sig| <= |mem| && mem[p..p + |sig|] == sig
  }

  /** The number of root-table entries of `entrySize` bytes: the length
      less the header, computed on 64-bit `size_t` (so a short length wraps),
      then stored in the loop counter's type (32 bits for the RSDT). */
  function EntryCount(length: nat, entrySize: nat): (r: nat)
    requires length < TWO_32 && entrySize in {4, 8}
    ensures length >= SDT_HEADER_SIZE ==> r == (length - SDT_HEADER_SIZE) / entrySize
    ensures length < SDT_HEADER_SIZE && entrySize == 4 ==> r == TWO_32 - 9 + length / 4
    ensures length < SDT_HEADER_SIZE && entrySize == 8 ==> r >= 0x1000_0000_0000_0000
  {
    if length >= 36 then
      if entrySize == 4 then ((length - 36) / 4) % 0x1_0000_0000 else (length - 36) / 8
    else if entrySize == 4 then
      assert (length + 0x1_0000_0000_0000_0000 - 36) / 4 == length / 4 + 0x3fff_ffff_ffff_fff7;
      ((length + 0x1_0000_0000_0000_0000 - 36) / 4) % 0x1_0000_0000
    else (length + 0x1_0000_0000_0000_0000 - 36) / 8
  }

  /** One root-table entry: a 32-bit (RSDT) or 64-bit (XSDT) address. */
  function RootEntry(mem: Memory, p: nat, entrySize: nat): (r: Option<nat>)
    ensures r.Some? <==> p + entrySize <= |mem| && entrySize in {4, 8}
  {
    if entrySize == 4 && p + 4 <= |mem| then Some(Le32At(mem, p))
    else if entrySize == 8 && p + 8 <= |mem| then Some(Le64At(mem, p))
    else None
  }

  /** Entry `n` of the root table whose entries start at `first`. */
  function EntryAt(mem: Memory, first: nat, entrySize: nat, n: nat): Option<nat>
  {
    RootEntry(mem, first + entrySize * n, entrySize)
  }

  /** Entry `n` can be read and points at a table header inside memory. */
  predicate Readable(mem: Memory, first: nat, entrySize: nat, n: nat)
  {
    EntryAt(mem, first, entrySize, n).Some? && EntryAt(mem, first, entrySize, n).value + 4 <= |mem|
  }

  predicate IsWdat(mem: Memory, first: nat, entrySize: nat, n: nat)
    requires Readable(mem, first, entrySize, n)
  {
    SignatureAt(mem, EntryAt(mem, first, entrySize, n).value, SIG_WDAT)
  }

  /** The loop of `parse_rsdt`/`parse_xsdt` from entry `n`: the first entry
      that points at a "WDAT" signature, or UNSUPPORTED. */
  function ScanRoot(mem: Memory, first: nat, entrySize: nat, n: nat, count: nat): (r: Located)
    requires entrySize in {4, 8}
    ensures r.Located? ==> SignatureAt(mem, r.address, SIG_WDAT)
    ensures r.Failed? ==> r.status == Efi.Unsupported
    decreases count - n
  {
    if n >= count then Failed(Efi.Unsupported)
    else
      match EntryAt(mem, first, entrySize, n)
      case None => Overrun
      case Some(entry) =>
        if entry + 4 > |mem| then Overrun
        else if SignatureAt(mem, entry, SIG_WDAT) then Located(entry)
        else ScanRoot(mem, first, entrySize, n + 1, count)
  }

  lemma ScanRootSkips(mem: Memory, first: nat, entrySize: nat, n: nat, count: nat)
    requires entrySize in {4, 8} && n < count
    requires Readable(mem, first, entrySize, n) && !IsWdat(mem, first, entrySize, n)
    ensures ScanRoot(mem, first, entrySize, n, count) == ScanRoot(mem, first, entrySize, n + 1, count)
  {
  }

  /** The scan returns the first entry that points at a WDAT table. */
  lemma {:induction false} ScanRootFinds(mem: Memory, first: nat, entrySize: nat, n: nat, count: nat, k: nat)
    requires entrySize in {4, 8} && n <= k < count
    requires forall j :: n <= j <= k ==> Readable(mem, first, entrySize, j)
    requires forall j :: n <= j < k ==> !IsWdat(mem, first, entrySize, j)
    requires IsWdat(mem, first, entrySize, k)
    ensures ScanRoot(mem, first, entrySize, n, count) == Located(EntryAt(mem, first, entrySize, k).value)
    decreases k - n
  {
    if n < k {
      ScanRootSkips(mem, first, entrySize, n, count);
      ScanRootFinds(mem, first, entrySize, n + 1, count, k);
    }
  }

  /** When every entry is readable and none points at a WDAT table, the
      scan reports UNSUPPORTED. */
  lemma {:induction false} ScanRootMisses(mem: Memory, first: nat, entrySize: nat, n: nat, count: nat)
    requires entrySize in {4, 8}
    requires forall j :: n <= j < count ==> Readable(mem, first, entrySize, j) && !IsWdat(mem, first, entrySize, j)
    ensures ScanRoot(mem, first, entrySize, n, count) == Failed(Efi.Unsupported)
    decreases count - n
  {
    if n < count {
      ScanRootSkips(mem, first, entrySize, n, count);
      ScanRootMisses(mem, first, entrySize, n + 1, count);
    }
  }

  /** `parse_rsdt` (`entrySize` 4) and `parse_xsdt` (`entrySize` 8) for the
      table at `sdt`. */
  function ParseRoot(mem: Memory, sdt: nat, sig: seq<byte>, entrySize: nat): (r: Located)
    ensures r.Failed? ==> r.status != Efi.Success
    requires entrySize in {4, 8} && |sig| == 4
    ensures sdt + SDT_HEADER_SIZE <= |mem| && !SignatureAt(mem, sdt, sig) ==> r == Failed(Efi.IncompatibleVersion)
    ensures r.Located? ==> SignatureAt(mem, sdt, sig) && SignatureAt(mem, r.address, SIG_WDAT)
    ensures sdt + SDT_HEADER_SIZE <= |mem| && SignatureAt(mem, sdt, sig) ==>
      r == ScanRoot(mem, sdt + SDT_HEADER_SIZE, entrySize, 0,
                    EntryCount(Le32At(mem, sdt + 4), entrySize))
  {
    if sdt + SDT_HEADER_SIZE > |mem| then Overrun
    else if !SignatureAt(mem, sdt, sig) then Failed(Efi.IncompatibleVersion)
    else
      Le32Bound(mem, sdt + 4);
      var count := EntryCount(Le32At(mem, sdt + 4), entrySize);
      ScanRoot(mem, sdt + SDT_HEADER_SIZE, entrySize, 0, count)
  }

  /** `parse_rsdp`: a revision above 2 is rejected; revision 2 walks the
      XSDT, earlier revisions the RSDT.  The fields read are the revision
      at byte 15, the 32-bit RSDT address at 16 and, for revision 2 only,
      the 64-bit XSDT address at 24, so a revision 0 or 1 structure needs
      only its first 20 bytes. */
  function ParseRsdp(mem: Memory, rsdp: nat): (r: Located)
    ensures r.Failed? ==> r.status != Efi.Success
    ensures rsdp + 16 <= |mem| && mem[rsdp + 15] > RSDP_REVISION_2 ==> r == Failed(Efi.IncompatibleVersion)
    ensures rsdp + 32 <= |mem| && mem[rsdp + 15] == RSDP_REVISION_2 ==>
      r == ParseRoot(mem, Le64At(mem, rsdp + 24), SIG_XSDT, 8)
    ensures rsdp + 20 <= |mem| && mem[rsdp + 15] < RSDP_REVISION_2 ==>
      r == ParseRoot(mem, Le32At(mem, rsdp + 16), SIG_RSDT, 4)
    ensures rsdp + 16 > |mem| ==> r == Overrun
  {
    if rsdp + 16 > |mem| then Overrun
    else if mem[rsdp + 15] > RSDP_REVISION_2 then Failed(Efi.IncompatibleVersion)
    else if mem[rsdp + 15] == RSDP_REVISION_2 then
      if rsdp + 32 > |mem| then Overrun else ParseRoot(mem, Le64At(mem, rsdp + 24), SIG_XSDT, 8)
    else if rsdp + 20 > |mem| then Overrun
    else ParseRoot(mem, Le32At(mem, rsdp + 16), SIG_RSDT, 4)
  }

  /** The vendor GUID of a configuration table entry, as far as the driver
      distinguishes them. */
  datatype Vendor = Acpi10Table | Acpi20Table | OtherTable

  datatype ConfigEntry = ConfigEntry(vendor: Vendor, table: nat)

  /** `locate_and_parse_rsdp`: the first ACPI 1.0 or 2.0 configuration
      table that starts with "RSD PTR " is parsed; without one the result
      is UNSUPPORTED. */
  function LocateRsdp(mem: Memory, config: seq<ConfigEntry>): (r: Located)
    ensures r.Failed? ==> r.status != Efi.Success
    ensures (forall i :: 0 <= i < |config| ==> config[i].vendor == OtherTable) ==> r == Failed(Efi.Unsupported)
    decreases |config|
  {
    if config == [] then Failed(Efi.Unsupported)
    else
      var e := config[0];
      if e.vendor != OtherTable && e.table + 8 > |mem| then Overrun
      else if e.vendor != OtherTable && SignatureAt(mem, e.table, SIG_RSDP) then ParseRsdp(mem, e.table)
      else LocateRsdp(mem, config[1..])
  }

  // ---------------------------------------------------------------------
  // The Watchdog Action Table and its instruction entries.

  /** A generic address structure; `address` is 64 bits wide. */
  datatype Gas = Gas(spaceId: byte, bitWidth: byte, bitOffset: byte, accessWidth: byte, address: nat)

  /** One instruction entry of 24 bytes. */
  datatype Entry = Entry(action: byte, instruction: byte, region: Gas, value: bv32, mask: bv32)

  predicate ValidEntry(e: Entry)
  {
    e.region.address < TWO_64
  }

  /** The fields of the table header the driver reads; `entries` holds the
      instructions that follow the 68-byte header. */
  datatype Table = Table(timerPeriod: nat, flags: byte, entries: seq<Entry>)

  const WDAT_HEADER_SIZE: nat := 68
  const ENTRY_SIZE: nat := 24

  function DecodeEntry(mem: Memory, p: nat): (r: Option<Entry>)
    ensures r.Some? <==> p + ENTRY_SIZE <= |mem|
    ensures r.Some? ==> ValidEntry(r.value) && r.value.action == mem[p] && r.value.instruction == mem[p + 1]
  {
    if p + 24 > |mem| then None
    else
      Le64Bound(mem, p + 8);
      Le32Bound(mem, p + 16);
      Le32Bound(mem, p + 20);
      Some(Entry(mem[p], mem[p + 1],
                 Gas(mem[p + 4], mem[p + 5], mem[p + 6], mem[p + 7], Le64At(mem, p + 8)),
                 Le32At(mem, p + 16) as bv32, Le32At(mem, p + 20) as bv32))
  }

  /** The inverse of `DecodeEntry`; the two reserved bytes are zero. */
  function EncodeEntry(e: Entry): (r: seq<byte>)
    requires ValidEntry(e)
    ensures |r| == ENTRY_SIZE && r[0] == e.action && r[1] == e.instruction
  {
    [e.action, e.instruction, 0, 0,
     e.region.spaceId, e.region.bitWidth, e.region.bitOffset, e.region.accessWidth]
      + Le64Bytes(e.region.address) + Le32Bytes(e.value as nat) + Le32Bytes(e.mask as nat)
  }

  lemma EncodedEntryParts(e: Entry)
    requires ValidEntry(e)
    ensures var t := EncodeEntry(e);
      t[4] == e.region.spaceId && t[5] == e.region.bitWidth && t[6] == e.region.bitOffset
      && t[7] == e.region.accessWidth && t[8..16] == Le64Bytes(e.region.address)
      && t[16..20] == Le32Bytes(e.value as nat) && t[20..24] == Le32Bytes(e.mask as nat)
  {
    var t := EncodeEntry(e);
    var h: seq<byte> := [e.action, e.instruction, 0, 0,
                         e.region.spaceId, e.region.bitWidth, e.region.bitOffset, e.region.accessWidth];
    var a, b, c := Le64Bytes(e.region.address), Le32Bytes(e.value as nat), Le32Bytes(e.mask as nat);
    assert t == h + a + b + c;
    assert t[8..16] == a;
    assert t[16..20] == b;
    assert t[20..24] == c;
  }

  /** Decoding the bytes of an encoded entry gives the entry back. */
  lemma DecodeEncodedEntry(mem: Memory, p: nat, e: Entry)
    requires ValidEntry(e) && p + ENTRY_SIZE <= |mem| && mem[p..p + 24] == EncodeEntry(e)
    ensures DecodeEntry(mem, p) == Some(e)
  {
    var t := EncodeEntry(e);
    EncodedEntryParts(e);
    Seqs.SliceOfSlice(mem, p, t, 8, 16);
    Seqs.SliceOfSlice(mem, p, t, 16, 20);
    Seqs.SliceOfSlice(mem, p, t, 20, 24);
    Le64AtSlice(mem, p + 8, Le64Bytes(e.region.address));
    Le64RoundTrip(e.region.address);
    Le32AtSlice(mem, p + 16, Le32Bytes(e.value as nat));
    Le32RoundTrip(e.value as nat);
    Le32AtSlice(mem, p + 20, Le32Bytes(e.mask as nat));
    Le32RoundTrip(e.mask as nat);
    assert forall i :: 0 <= i < 8 ==> mem[p + i] == t[i];
  }

  /** Entries `n` to `count` of the array starting at `base`. */
  function DecodeEntries(mem: Memory, base: nat, n: nat, count: nat): (r: Option<seq<Entry>>)
    ensures r.Some? <==> n >= count || base + ENTRY_SIZE * count <= |mem|
    ensures r.Some? ==> |r.value| == if n >= count then 0 else count - n
    decreases count - n
  {
    if n >= count then Some([])
    else
      var e :- DecodeEntry(mem, base + ENTRY_SIZE * n);
      var rest :- DecodeEntries(mem, base, n + 1, count);
      Some([e] + rest)
  }

  /** The table at `wdat` with all of its entries, or None when it does not
      fit in memory. */
  function DecodeTable(mem: Memory, wdat: nat): (r: Option<Table>)
    ensures r.Some? ==> wdat + WDAT_HEADER_SIZE <= |mem|
    ensures r.Some? ==> r.value.flags == mem[wdat + 60] && r.value.timerPeriod == Le32At(mem, wdat + 48)
    ensures r.Some? ==> |r.value.entries| == Le32At(mem, wdat + 64) && r.value.timerPeriod < TWO_32
  {
    if wdat + WDAT_HEADER_SIZE > |mem| then None
    else
      Le32Bound(mem, wdat + 48);
      var entries :- DecodeEntries(mem, wdat + WDAT_HEADER_SIZE, 0, Le32At(mem, wdat + 64));
      Some(Table(Le32At(mem, wdat + 48), mem[wdat + 60], entries))
  }

  // ---------------------------------------------------------------------
  // Registers. Each (space, address) pair holds a 32-bit register; an
  // access of width 1, 2 or 3 touches its low 8, 16 or 32 bits.

  datatype Space = SystemMemory | SystemIo

  type Port = (Space, nat)
  type Registers = map<Port, bv32>

  /** Space id 1 is port I/O; every other id is treated as memory.  The
      port accessors of `sys/io.h` take an `unsigned short`, so a port
      is the address cut to 16 bits; a memory access uses the whole
      address. */
  function PortOf(g: Gas): (r: Port)
    ensures r.0 == SystemIo <==> g.spaceId == 1
    ensures r.0 == SystemIo ==> r.1 < TWO_16 && r.1 == g.address % TWO_16
    ensures r.0 == SystemMemory ==> r.1 == g.address
  {
    if g.spaceId == 1 then (SystemIo, g.address % TWO_16) else (SystemMemory, g.address)
  }

  /** The content of a register never written: zero. */
  function Peek(regs: Registers, p: Port): bv32
  {
    if p in regs then regs[p] else 0
  }

  predicate ValidWidth(g: Gas)
  {
    1 <= g.accessWidth <= 3
  }

  function WidthMask(g: Gas): (r: bv32)
    requires ValidWidth(g)
    ensures g.accessWidth == 3 <==> r == 0xffff_ffff
  {
    if g.accessWidth == 1 then 0xff else if g.accessWidth == 2 then 0xffff else 0xffff_ffff
  }

  /** The shift count of `x << bit_offset` as x86 executes it: the offset
      modulo 32. */
  function Offset(g: Gas): (r: bv5)
    ensures r as int == g.bitOffset % 32
  {
    (g.bitOffset % 32) as bv5
  }

  function Shl(x: bv32, n: bv5): bv32
  {
    x << n
  }

  function Shr(x: bv32, n: bv5): bv32
  {
    x >> n
  }

  /** `read_reg`: an access width outside 1..3 is UNSUPPORTED; otherwise
      the value is zero-extended from the access width. */
  function ReadReg(regs: Registers, g: Gas): (r: Result<bv32, Efi.Status>)
    ensures r.Failure? <==> !ValidWidth(g)
    ensures r.Failure? ==> r.error == Efi.Unsupported
    ensures r.Success? ==> r.value & !WidthMask(g) == 0
  {
    if !ValidWidth(g) then Failure(Efi.Unsupported)
    else Success(Peek(regs, PortOf(g)) & WidthMask(g))
  }

  /** `write_reg`: an access width outside 1..3 is UNSUPPORTED; otherwise
      the low bits of the register within the access width are replaced. */
  function WriteReg(regs: Registers, g: Gas, v: bv32): (r: Result<Registers, Efi.Status>)
    ensures r.Failure? <==> !ValidWidth(g)
    ensures r.Failure? ==> r.error == Efi.Unsupported
    ensures r.Success? ==> forall p :: p != PortOf(g) ==> Peek(r.value, p) == Peek(regs, p)
    ensures r.Success? ==> Peek(r.value, PortOf(g)) & !WidthMask(g) == Peek(regs, PortOf(g)) & !WidthMask(g)
  {
    if !ValidWidth(g) then Failure(Efi.Unsupported)
    else
      var old_ := Peek(regs, PortOf(g));
      Success(regs[PortOf(g) := (old_ & !WidthMask(g)) | (v & WidthMask(g))])
  }

  /** `read_value`: whether the masked field at the register's bit offset
      equals `value`; a value with bits outside the mask never matches. */
  function ReadValue(regs: Registers, g: Gas, value: bv32, mask: bv32): (r: Result<bool, Efi.Status>)
    ensures r.Failure? <==> !ValidWidth(g)
    ensures r.Success? && r.value ==> value & !mask == 0
  {
    var x :- ReadCountdown(regs, g, mask);
    Success(x == value)
  }

  /** `read_countdown`: the masked field at the register's bit offset. */
  function ReadCountdown(regs: Registers, g: Gas, mask: bv32): (r: Result<bv32, Efi.Status>)
    ensures r.Failure? <==> !ValidWidth(g)
    ensures r.Success? ==> r.value & !mask == 0
  {
    var x :- ReadReg(regs, g);
    Success(Shr(x, Offset(g)) & mask)
  }

  /** `write_value`: `value & mask` is shifted to the bit offset; with
      `preserve` the register's other bits are read back and kept. */
  function WriteValue(regs: Registers, g: Gas, value: bv32, mask: bv32, preserve: bool): (r: Result<Registers, Efi.Status>)
    ensures r.Failure? <==> !ValidWidth(g)
    ensures r.Success? ==> forall p :: p != PortOf(g) ==> Peek(r.value, p) == Peek(regs, p)
  {
    var x := Shl(value & mask, Offset(g));
    if preserve then
      var y :- ReadReg(regs, g);
      WriteReg(regs, g, x | (y & !Shl(mask, Offset(g))))
    else WriteReg(regs, g, x)
  }

  lemma ShlMasked(v: bv32, m: bv32, n: bv5)
    ensures Shl(v & m, n) & !Shl(m, n) == 0
  {
  }

  /** A preserving write puts the masked value in the field at the bit
      offset, as far as the access width reaches. */
  lemma PreservingWriteSetsField(regs: Registers, g: Gas, value: bv32, mask: bv32)
    requires ValidWidth(g)
    ensures WriteValue(regs, g, value, mask, true).Success?
    ensures Peek(WriteValue(regs, g, value, mask, true).value, PortOf(g)) & WidthMask(g) & Shl(mask, Offset(g))
         == Shl(value & mask, Offset(g)) & WidthMask(g)
  {
    ShlMasked(value, mask, Offset(g));
  }

  /** A preserving write keeps every bit outside the field. */
  lemma PreservingWriteKeepsRest(regs: Registers, g: Gas, value: bv32, mask: bv32)
    requires ValidWidth(g)
    ensures WriteValue(regs, g, value, mask, true).Success?
    ensures Peek(WriteValue(regs, g, value, mask, true).value, PortOf(g)) & !Shl(mask, Offset(g))
         == Peek(regs, PortOf(g)) & !Shl(mask, Offset(g))
  {
    ShlMasked(value, mask, Offset(g));
  }

  /** A plain write puts the masked value in the field at the bit offset,
      as far as the access width reaches. */
  lemma PlainWriteSetsField(regs: Registers, g: Gas, value: bv32, mask: bv32)
    requires ValidWidth(g)
    ensures WriteValue(regs, g, value, mask, false).Success?
    ensures Peek(WriteValue(regs, g, value, mask, false).value, PortOf(g)) & WidthMask(g) & Shl(mask, Offset(g))
         == Shl(value & mask, Offset(g)) & WidthMask(g)
  {
    ShlMasked(value, mask, Offset(g));
  }

  /** A plain write clears the bits of the access width outside the
      field. */
  lemma PlainWriteClearsRest(regs: Registers, g: Gas, value: bv32, mask: bv32)
    requires ValidWidth(g)
    ensures WriteValue(regs, g, value, mask, false).Success?
    ensures Peek(WriteValue(regs, g, value, mask, false).value, PortOf(g)) & WidthMask(g) & !Shl(mask, Offset(g)) == 0
  {
    ShlMasked(value, mask, Offset(g));
  }

  // ---------------------------------------------------------------------
  // Running actions.

  const ACTION_RESET: byte := 1
  const ACTION_SET_COUNTDOWN: byte := 6
  const ACTION_SET_RUNNING_STATE: byte := 9
  const ACTION_SET_REBOOT: byte := 17
  const ACTION_GET_STATUS: byte := 32

  /** The state `run_action` threads through its loop: the last status,
      the registers and the last value stored through `retval`. */
  datatype Run = Run(status: Efi.Status, regs: Registers, retval: Option<bv32>)

  /** Bit 0x80 of the instruction asks to preserve the register's other
      bits; the remaining bits select the instruction. */
  predicate Preserve(e: Entry)
  {
    e.instruction >= 0x80
  }

  function Instruction(e: Entry): (r: nat)
    ensures r < 0x80 && r + (if Preserve(e) then 0x80 else 0) == e.instruction
  {
    e.instruction % 0x80
  }

  /** One matching entry: read value (0), read countdown (1), write value
      (2) or write countdown with `param` (3); anything else is
      UNSUPPORTED. */
  function Perform(e: Entry, param: bv32, st: Run): (r: Run)
    ensures Instruction(e) > 3 ==> r == Run(Efi.Unsupported, st.regs, st.retval)
    ensures Instruction(e) <= 3 ==> (r.status.IsError() <==> !ValidWidth(e.region))
    ensures Instruction(e) <= 1 ==> r.regs == st.regs
    ensures r.status.IsError() ==> r.status == Efi.Unsupported && r.regs == st.regs && r.retval == st.retval
    ensures forall p :: p != PortOf(e.region) ==> Peek(r.regs, p) == Peek(st.regs, p)
  {
    var g := e.region;
    if Instruction(e) == 0 then
      match ReadValue(st.regs, g, e.value, e.mask)
      case Failure(s) => Run(s, st.regs, st.retval)
      case Success(b) => Run(Efi.Success, st.regs, Some(if b then 1 else 0))
    else if Instruction(e) == 1 then
      match ReadCountdown(st.regs, g, e.mask)
      case Failure(s) => Run(s, st.regs, st.retval)
      case Success(x) => Run(Efi.Success, st.regs, Some(x))
    else if Instruction(e) == 2 || Instruction(e) == 3 then
      var v := if Instruction(e) == 2 then e.value else param;
      match WriteValue(st.regs, g, v, e.mask, Preserve(e))
      case Failure(s) => Run(s, st.regs, st.retval)
      case Success(regs) => Run(Efi.Success, regs, st.retval)
    else Run(Efi.Unsupported, st.regs, st.retval)
  }

  /** The loop of `run_action` from the first of `entries`: matching
      entries run in table order and the first error ends the loop. */
  function RunFrom(entries: seq<Entry>, action: byte, param: bv32, st: Run): (r: Run)
    decreases |entries|
  {
    if entries == [] then st
    else if entries[0].action != action then RunFrom(entries[1..], action, param, st)
    else
      var next := Perform(entries[0], param, st);
      if next.status.IsError() then next else RunFrom(entries[1..], action, param, next)
  }

  /** `run_action`: the status starts as UNSUPPORTED, so an action without
      entries reports UNSUPPORTED. */
  function RunAction(entries: seq<Entry>, action: byte, param: bv32, regs: Registers): (r: Run)
  {
    RunFrom(entries, action, param, Run(Efi.Unsupported, regs, None))
  }

  predicate Matches(entries: seq<Entry>, action: byte)
  {
    exists i :: 0 <= i < |entries| && entries[i].action == action
  }

  /** Without a matching entry nothing runs and the status stays
      UNSUPPORTED. */
  lemma {:induction false} RunNoMatch(entries: seq<Entry>, action: byte, param: bv32, st: Run)
    requires !Matches(entries, action)
    ensures RunFrom(entries, action, param, st) == st
  {
    if entries != [] {
      assert !Matches(entries[1..], action) by {
        forall i | 0 <= i < |entries[1..]|
          ensures entries[1..][i].action != action
        {
          assert entries[1..][i] == entries[i + 1];
        }
      }
      RunNoMatch(entries[1..], action, param, st);
    }
  }

  /** A run succeeds only when the action has an entry and every entry of
      the action carries a known instruction and a valid access width. */
  lemma {:induction false} RunSuccess(entries: seq<Entry>, action: byte, param: bv32, st: Run)
    requires RunFrom(entries, action, param, st).status == Efi.Success
    ensures st.status == Efi.Success || Matches(entries, action)
    ensures forall i :: 0 <= i < |entries| && entries[i].action == action ==>
      Instruction(entries[i]) <= 3 && ValidWidth(entries[i].region)
  {
    if entries != [] {
      var e := entries[0];
      var next := if e.action == action then Perform(e, param, st) else st;
      RunSuccess(entries[1..], action, param, next);
      forall i | 1 <= i < |entries| && entries[i].action == action
        ensures Instruction(entries[i]) <= 3 && ValidWidth(entries[i].region)
      {
        assert entries[1..][i - 1] == entries[i];
      }
      if Matches(entries[1..], action) {
        var i :| 0 <= i < |entries[1..]| && entries[1..][i].action == action;
        assert entries[i + 1].action == action;
      }
    }
  }

  /** Registers that no entry of the action addresses keep their value. */
  lemma {:induction false} RunFrame(entries: seq<Entry>, action: byte, param: bv32, st: Run, p: Port)
    requires forall i :: 0 <= i < |entries| && entries[i].action == action ==> PortOf(entries[i].region) != p
    ensures Peek(RunFrom(entries, action, param, st).regs, p) == Peek(st.regs, p)
  {
    if entries != [] {
      var next := if entries[0].action == action then Perform(entries[0], param, st) else st;
      forall i | 0 <= i < |entries[1..]| && entries[1..][i].action == action
        ensures PortOf(entries[1..][i].region) != p
      {
        assert entries[1..][i] == entries[i + 1];
      }
      RunFrame(entries[1..], action, param, next, p);
    }
  }

  // ---------------------------------------------------------------------
  // Probing the watchdog.

  /** `(timeout * 1000) / timer_period` on 64-bit `UINTN`, handed to
      `run_action` as a 32-bit parameter. */
  function Countdown(timeout: nat, period: nat): (r: nat)
    requires 0 < period < TWO_32 && timeout < TWO_64
    ensures r < TWO_32
  {
    ((timeout * 1000) % 0x1_0000_0000_0000_0000 / period) % 0x1_0000_0000
  }

  /** Without wrap-around the countdown is the number of whole timer
      periods in the timeout. */
  lemma CountdownPeriods(timeout: nat, period: nat)
    requires 0 < period < TWO_32 && timeout * 1000 < TWO_64 && timeout * 1000 / period < TWO_32
    ensures Countdown(timeout, period) * period <= timeout * 1000 < (Countdown(timeout, period) + 1) * period
  {
    var x := timeout * 1000;
    var q := x / period;
    assert x % 0x1_0000_0000_0000_0000 == x;
    assert q % 0x1_0000_0000 == q;
    assert Countdown(timeout, period) == q;
    assert x == q * period + x % period;
    assert (q + 1) * period == q * period + period;
  }

  datatype InitOutcome = Done(status: Efi.Status, regs: Registers) | Malformed

  /** `init`: a second probe is UNSUPPORTED; the table must be found and
      enabled; GET_STATUS runs first, SET_REBOOT may be missing, a zero
      timer period is INVALID_PARAMETER, and SET_COUNTDOWN, RESET and
      SET_RUNNING_STATE must each succeed, in that order. */
  function Init(probedBefore: bool, mem: Memory, config: seq<ConfigEntry>, regs: Registers, timeout: nat): (r: InitOutcome)
    requires timeout < TWO_64
    ensures probedBefore ==> r == Done(Efi.Unsupported, regs)
    ensures !probedBefore && LocateRsdp(mem, config).Failed? ==> r == Done(LocateRsdp(mem, config).status, regs)
    ensures !probedBefore && LocateRsdp(mem, config).Located?
            && LocateRsdp(mem, config).address + WDAT_HEADER_SIZE <= |mem|
            && mem[LocateRsdp(mem, config).address + 60] % 2 == 0
            ==> r == Done(Efi.Unsupported, regs)
    ensures r.Done? && r.status == Efi.Success ==>
              !probedBefore && LocateRsdp(mem, config).Located?
              && DecodeTable(mem, LocateRsdp(mem, config).address).Some?
              && DecodeTable(mem, LocateRsdp(mem, config).address).value.flags % 2 == 1
  {
    if probedBefore then Done(Efi.Unsupported, regs)
    else
      match LocateRsdp(mem, config)
      case Overrun => Malformed
      case Failed(s) => Done(s, regs)
      case Located(wdat) =>
        if wdat + WDAT_HEADER_SIZE > |mem| then Malformed
        // the enabled flag is read before any action entry is looked at
        else if mem[wdat + 60] % 2 == 0 then Done(Efi.Unsupported, regs)
        else
          match DecodeTable(mem, wdat)
          case None => Malformed
          case Some(t) => Program(t, RunAction(t.entries, ACTION_GET_STATUS, 0, regs).regs, timeout)
  }

  /** `init` after the boot status has been read. */
  function Program(t: Table, regs: Registers, timeout: nat): (r: InitOutcome)
    requires timeout < TWO_64
    requires t.timerPeriod < TWO_32
    ensures r.Done?
    ensures t.timerPeriod == 0 ==> r.status != Efi.Success
  {
    var reboot := RunAction(t.entries, ACTION_SET_REBOOT, 0, regs);
    if reboot.status.IsError() && reboot.status != Efi.Unsupported then Done(reboot.status, reboot.regs)
    else if t.timerPeriod == 0 then Done(Efi.InvalidParameter, reboot.regs)
    else Arm(t.entries, Countdown(timeout, t.timerPeriod) as bv32, reboot.regs)
  }

  /** The last three actions of `init`: program the countdown `n`, ping
      with it, and start the watchdog, stopping at the first error. */
  function Arm(entries: seq<Entry>, n: bv32, regs: Registers): (r: InitOutcome)
    ensures r.Done?
  {
    var countdown := RunAction(entries, ACTION_SET_COUNTDOWN, n, regs);
    if countdown.status.IsError() then Done(countdown.status, countdown.regs)
    else
      var reset := RunAction(entries, ACTION_RESET, n, countdown.regs);
      if reset.status.IsError() then Done(reset.status, reset.regs)
      else
        var running := RunAction(entries, ACTION_SET_RUNNING_STATE, 0, reset.regs);
        if running.status.IsError() then Done(running.status, running.regs)
        else Done(Efi.Success, running.regs)
  }

  /** A table without SET_REBOOT entries proceeds to the timer period
      check. */
  lemma ProgramWithoutReboot(t: Table, regs: Registers, timeout: nat)
    requires timeout < TWO_64 && t.timerPeriod < TWO_32
    requires !Matches(t.entries, ACTION_SET_REBOOT) && t.timerPeriod == 0
    ensures Program(t, regs, timeout) == Done(Efi.InvalidParameter, regs)
  {
    RunNoMatch(t.entries, ACTION_SET_REBOOT, 0, Run(Efi.Unsupported, regs, None));
  }

  /** An action that succeeds has at least one entry. */
  lemma ActionRan(entries: seq<Entry>, action: byte, param: bv32, regs: Registers)
    requires RunAction(entries, action, param, regs).status == Efi.Success
    ensures Matches(entries, action)
  {
    RunSuccess(entries, action, param, Run(Efi.Unsupported, regs, None));
  }

  /** Arming succeeds only when SET_COUNTDOWN, RESET and SET_RUNNING_STATE
      all have entries. */
  lemma ArmSuccess(entries: seq<Entry>, n: bv32, regs: Registers)
    requires Arm(entries, n, regs).status == Efi.Success
    ensures Matches(entries, ACTION_SET_COUNTDOWN) && Matches(entries, ACTION_RESET)
         && Matches(entries, ACTION_SET_RUNNING_STATE)
  {
    var countdown := RunAction(entries, ACTION_SET_COUNTDOWN, n, regs);
    var reset := RunAction(entries, ACTION_RESET, n, countdown.regs);
    ActionRan(entries, ACTION_SET_COUNTDOWN, n, regs);
    ActionRan(entries, ACTION_RESET, n, countdown.regs);
    ActionRan(entries, ACTION_SET_RUNNING_STATE, 0, reset.regs);
  }

  lemma ProgramSuccess(t: Table, regs: Registers, timeout: nat)
    requires timeout < TWO_64 && t.timerPeriod < TWO_32
    requires Program(t, regs, timeout).status == Efi.Success
    ensures t.timerPeriod > 0
    ensures Matches(t.entries, ACTION_SET_COUNTDOWN) && Matches(t.entries, ACTION_RESET)
         && Matches(t.entries, ACTION_SET_RUNNING_STATE)
  {
    var reboot := RunAction(t.entries, ACTION_SET_REBOOT, 0, regs);
    ArmSuccess(t.entries, Countdown(timeout, t.timerPeriod) as bv32, reboot.regs);
  }

  /** A successful probe found an enabled table with a non-zero timer
      period and entries for SET_COUNTDOWN, RESET and SET_RUNNING_STATE. */
  lemma InitSuccess(probedBefore: bool, mem: Memory, config: seq<ConfigEntry>, regs: Registers, timeout: nat)
    requires timeout < TWO_64
    requires Init(probedBefore, mem, config, regs, timeout).Done?
    requires Init(probedBefore, mem, config, regs, timeout).status == Efi.Success
    ensures !probedBefore && LocateRsdp(mem, config).Located?
    ensures var t := DecodeTable(mem, LocateRsdp(mem, config).address);
      t.Some? && t.value.flags % 2 == 1 && t.value.timerPeriod > 0
      && Matches(t.value.entries, ACTION_SET_COUNTDOWN) && Matches(t.value.entries, ACTION_RESET)
      && Matches(t.value.entries, ACTION_SET_RUNNING_STATE)
  {
    var t := DecodeTable(mem, LocateRsdp(mem, config).address).value;
    ProgramSuccess(t, RunAction(t.entries, ACTION_GET_STATUS, 0, regs).regs, timeout);
  }
}
