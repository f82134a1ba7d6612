/** The watchdog of the SIMATIC IPC427E and IPC477E
    (drivers/watchdog/ipc4x7e_wdt.c).

    The driver reads and writes memory-mapped registers of the Sunrise
    Point PCH and two I/O ports of the board controller. Memory is a map
    from address to 32-bit contents (a register never written reads 0);
    the port accesses are kept as the sequence the driver issues, with the
    value the enable register reads as a parameter. */
module Ipc4x7e {
  import opened Bytes
  import Efi
  import Itco

  const PCI_DEVICE_ID_SUNRISEPOINT_H_LPC: nat := 0xa150

  /** Station ids of include/simatic.h. */
  const STATION_IPC427E: nat := 0x0a01
  const STATION_IPC477E: nat := 0x0a02

  const WD_ENABLE_REG: nat := 0x62
  const WD_ENABLE: bv8 := 0x01
  const WD_MACRO_MOD: bv8 := 0x02
  const WD_SCALER_SHIFT: bv8 := 3
  const WD_TRIGGERED: bv8 := 0x80
  const WD_TRIGGER_REG: nat := 0x66

  // ---------------------------------------------------------------------
  // Configuration space of the P2SB bridge (lines 33-75)
  // ---------------------------------------------------------------------

  const MMCFG_BASE: nat := 0xf000_0000

  /** `mmcfg_address`: the memory-mapped configuration register `offset`
      of bus `bus`, device `device`, function `fn`. */
  function MmcfgAddress(bus: nat, device: nat, fn: nat, offset: nat): (a: nat)
    ensures a >= MMCFG_BASE + offset
  {
    MMCFG_BASE + bus * 0x10_0000 + device * 0x8000 + fn * 0x1000 + offset
  }

  /** Where a configuration address points: bus, device, function and
      register offset. */
  datatype Location = Location(bus: nat, device: nat, fn: nat, offset: nat)

  function Locate(a: nat): Location
    requires a >= MMCFG_BASE
  {
    var x := a - MMCFG_BASE;
    var page := x / 0x1000;
    var slot := page / 8;
    Location(slot / 32, slot % 32, page % 8, x % 0x1000)
  }

  lemma Div8(x: nat, b: nat, y: nat)
    requires x == b + 8 * y && b < 8
    ensures x % 8 == b && x / 8 == y
  {
  }

  lemma Div32(x: nat, b: nat, y: nat)
    requires x == b + 32 * y && b < 32
    ensures x % 32 == b && x / 32 == y
  {
  }

  lemma Div4096(x: nat, b: nat, y: nat)
    requires x == b + 0x1000 * y && b < 0x1000
    ensures x % 0x1000 == b && x / 0x1000 == y
  {
  }

  lemma Div2p24(x: nat, b: nat, y: nat)
    requires x == b + 0x100_0000 * y && b < 0x100_0000
    ensures x % 0x100_0000 == b && x / 0x100_0000 == y
  {
  }

  /** Within its field widths every location has exactly one address:
      the address decodes back to the bus, device, function and offset it
      was built from. */
  lemma {:induction false} MmcfgLocates(bus: nat, device: nat, fn: nat, offset: nat)
    requires device < 32 && fn < 8 && offset < 0x1000
    ensures Locate(MmcfgAddress(bus, device, fn, offset)) == Location(bus, device, fn, offset)
  {
    var x := MmcfgAddress(bus, device, fn, offset) - MMCFG_BASE;
    var slot := bus * 32 + device;
    var page := slot * 8 + fn;
    Div4096(x, offset, page);
    Div8(page, fn, slot);
    Div32(slot, device, bus);
  }

  /** The P2SB bridge is bus 0, device 0x1f, function 1. */
  function P2sbRegister(offset: nat): nat
  {
    MmcfgAddress(0, 0x1f, 1, offset)
  }

  const P2SB_PCIID: nat := 0x00
  const P2SB_SBREG_BAR: nat := 0x10
  const P2SB_SBREG_BARH: nat := 0x14
  const P2SB_CTRL: nat := 0xe0
  const P2SB_CFG_HIDE: bv32 := 0x100

  lemma SbregParts(top: nat, h: nat)
    requires top < 0x100 && h < 0x1_0000_0000
    ensures var r := top * 0x100_0000 + h * 0x1_0000_0000;
      r < 0x1_0000_0000_0000_0000 && r % 0x100_0000 == 0
      && r / 0x1_0000_0000 == h && (r % 0x1_0000_0000) / 0x100_0000 == top
  {
    var r := top * 0x100_0000 + h * 0x1_0000_0000;
    DivMod32(r, top * 0x100_0000, h);
    Div2p24(top * 0x100_0000, 0, top);
    Div2p24(r, 0, top + h * 0x100);
  }

  /** The sideband register base from the two halves of the SBREG BAR:
      bits 24-31 of the low half, the high half above them. */
  function Sbreg(lo: bv32, hi: bv32): (r: nat)
    ensures r < TWO_64
    ensures r % 0x100_0000 == 0
    ensures r / TWO_32 == hi as nat
    ensures (r % TWO_32) / 0x100_0000 == (lo as nat) / 0x100_0000
  {
    var top := (lo as nat) / 0x100_0000;
    SbregParts(top, hi as nat);
    top * 0x100_0000 + (hi as nat) * 0x1_0000_0000
  }

  /** `get_sbreg_rba`: the sideband base and the memory afterwards. A
      hidden bridge (its id reads 0xffff) is unhidden for the two reads
      and hidden again. */
  function SbregRba(mem: map<nat, bv32>): (r: (nat, map<nat, bv32>))
    ensures Itco.Peek(mem, P2sbRegister(P2SB_PCIID)) & 0xffff == 0xffff
      ==> Itco.Peek(r.1, P2sbRegister(P2SB_CTRL)) == P2SB_CFG_HIDE
    ensures Itco.Peek(mem, P2sbRegister(P2SB_PCIID)) & 0xffff != 0xffff ==> r.1 == mem
    ensures forall a :: a != P2sbRegister(P2SB_CTRL) ==> Itco.Peek(r.1, a) == Itco.Peek(mem, a)
    ensures r.0 == Sbreg(Itco.Peek(mem, P2sbRegister(P2SB_SBREG_BAR)), Itco.Peek(mem, P2sbRegister(P2SB_SBREG_BARH)))
  {
    var ctrl := P2sbRegister(P2SB_CTRL);
    var hidden := Itco.Peek(mem, P2sbRegister(P2SB_PCIID)) & 0xffff == 0xffff;
    var m1 := if hidden then mem[ctrl := 0] else mem;
    var lo := Itco.Peek(m1, P2sbRegister(P2SB_SBREG_BAR));
    var hi := Itco.Peek(m1, P2sbRegister(P2SB_SBREG_BARH));
    (Sbreg(lo, hi), if hidden then m1[ctrl := P2SB_CFG_HIDE] else m1)
  }

  // ---------------------------------------------------------------------
  // The SAFE_EN_N pad (lines 41-45, 97-99)
  // ---------------------------------------------------------------------

  const GPIO_COMMUNITY0_PORT_ID: nat := 0xaf
  const PAD_CFG_DW0_GPP_A_23: nat := 0x4b8
  const PAD_CFG_GPIOTXSTATE: bv32 := 0x1

  /** The pad configuration register of GPP_A_23 in GPIO community 0,
      a 64-bit address. */
  function PadAddress(sbreg: nat): (a: nat)
    ensures a < TWO_64
    ensures sbreg + 0xaf_04b8 < TWO_64 ==> a - sbreg == GPIO_COMMUNITY0_PORT_ID * 0x1_0000 + PAD_CFG_DW0_GPP_A_23
  {
    (sbreg + GPIO_COMMUNITY0_PORT_ID * 0x1_0000 + PAD_CFG_DW0_GPP_A_23) % TWO_64
  }

  /** The pad register this driver writes for the memory it starts from. */
  function PadOf(mem: map<nat, bv32>): nat
  {
    PadAddress(SbregRba(mem).0)
  }

  // ---------------------------------------------------------------------
  // The enable register (lines 26-31, 101-128)
  // ---------------------------------------------------------------------

  /** The largest timeout in seconds of scalers 0 to 6; scaler 7 takes
      everything above 48. */
  function ScalerBound(s: nat): nat
    requires s < 7
  {
    [2, 4, 6, 8, 16, 32, 48][s]
  }

  /** The scaler for a timeout: the first band that holds it. */
  function Scaler(timeout: nat): (s: nat)
    ensures s <= 7
    ensures s < 7 ==> timeout <= ScalerBound(s)
    ensures s > 0 ==> timeout > ScalerBound(s - 1)
  {
    if timeout <= 2 then 0
    else if timeout <= 4 then 1
    else if timeout <= 6 then 2
    else if timeout <= 8 then 3
    else if timeout <= 16 then 4
    else if timeout <= 32 then 5
    else if timeout <= 48 then 6
    else 7
  }

  /** The band characterisation leaves one scaler for each timeout, so a
      longer timeout never gets a smaller scaler. */
  lemma ScalerMonotone(a: nat, b: nat)
    requires a <= b
    ensures Scaler(a) <= Scaler(b)
  {
  }

  /** The value of the first write: the scaler in bits 3-5, MACRO_MOD,
      TRIGGERED only when the register read it set (writing it back
      acknowledges a watchdog reset), and the watchdog not yet enabled. */
  function ProgramValue(scaler: nat, current: bv8): (v: bv8)
    requires scaler <= 7
    ensures v & WD_ENABLE == 0
    ensures v & WD_MACRO_MOD == WD_MACRO_MOD
    ensures v & WD_TRIGGERED == current & WD_TRIGGERED
    ensures (v >> WD_SCALER_SHIFT) & 7 == scaler as bv8
    ensures v & 0x44 == 0
  {
    var v := ((scaler as bv8) << WD_SCALER_SHIFT) | WD_MACRO_MOD;
    if current & WD_TRIGGERED != 0 then v | WD_TRIGGERED else v
  }

  /** The port accesses of the driver, in order. */
  datatype PortOp = Inb(port: nat) | Outb(port: nat, value: bv8)

  datatype Outcome = Outcome(status: Efi.Status, mem: map<nat, bv32>, ops: seq<PortOp>)

  predicate Supported(pciIo: bool, vendor: nat, device: nat, station: nat)
  {
    pciIo && vendor == Itco.PCI_VENDOR_ID_INTEL && device == PCI_DEVICE_ID_SUNRISEPOINT_H_LPC
    && (station == STATION_IPC427E || station == STATION_IPC477E)
  }

  /** `init`. `station` is what `simatic_station_id` returns (the model
      Simatic.SimaticStationId), `enableReg` what the enable register
      reads. */
  function Init(pciIo: bool, vendor: nat, device: nat, station: nat,
                mem: map<nat, bv32>, enableReg: bv8, timeout: nat): (r: Outcome)
    ensures r.status == Efi.Success <==> Supported(pciIo, vendor, device, station)
    ensures r.status != Efi.Success ==> r == Outcome(Efi.Unsupported, mem, [])
    ensures r.status == Efi.Success ==>
      |r.ops| == 4 && r.ops[0] == Inb(WD_ENABLE_REG) && r.ops[3] == Inb(WD_TRIGGER_REG)
      && r.ops[1].Outb? && r.ops[1].port == WD_ENABLE_REG
      && r.ops[2] == Outb(WD_ENABLE_REG, r.ops[1].value | WD_ENABLE)
      && r.ops[1].value & WD_ENABLE == 0
  {
    if !Supported(pciIo, vendor, device, station) then Outcome(Efi.Unsupported, mem, [])
    else
      var (sbreg, m1) := SbregRba(mem);
      var pad := PadAddress(sbreg);
      var m2 := m1[pad := Itco.Peek(m1, pad) & !PAD_CFG_GPIOTXSTATE];
      var v := ProgramValue(Scaler(timeout), enableReg);
      Outcome(Efi.Success, m2, [Inb(WD_ENABLE_REG), Outb(WD_ENABLE_REG, v),
                                Outb(WD_ENABLE_REG, v | WD_ENABLE), Inb(WD_TRIGGER_REG)])
  }

  /** The first write programs the scaler for the timeout, sets MACRO_MOD
      and writes TRIGGERED back exactly when it was read set. */
  lemma InitProgram(pciIo: bool, vendor: nat, device: nat, station: nat,
                    mem: map<nat, bv32>, enableReg: bv8, timeout: nat)
    requires Supported(pciIo, vendor, device, station)
    ensures var r := Init(pciIo, vendor, device, station, mem, enableReg, timeout);
      (r.ops[1].value >> WD_SCALER_SHIFT) & 7 == Scaler(timeout) as bv8
      && r.ops[1].value & WD_MACRO_MOD == WD_MACRO_MOD
      && r.ops[1].value & WD_TRIGGERED == enableReg & WD_TRIGGERED
  {
  }

  /** SAFE_EN_N is driven low: the TX-state bit of the pad register is
      cleared and its other bits are kept. */
  lemma InitPad(pciIo: bool, vendor: nat, device: nat, station: nat,
                mem: map<nat, bv32>, enableReg: bv8, timeout: nat)
    requires Supported(pciIo, vendor, device, station)
    requires PadOf(mem) != P2sbRegister(P2SB_CTRL)
    ensures var r := Init(pciIo, vendor, device, station, mem, enableReg, timeout);
      Itco.Peek(r.mem, PadOf(mem)) == Itco.Peek(mem, PadOf(mem)) & 0xffff_fffe
  {
  }

  /** Apart from the pad register and the bridge's hide register, memory
      is left as it was; the hide register ends as it started when the
      bridge was visible and hidden again when it was not. */
  lemma InitFrame(pciIo: bool, vendor: nat, device: nat, station: nat,
                  mem: map<nat, bv32>, enableReg: bv8, timeout: nat)
    requires Supported(pciIo, vendor, device, station)
    ensures var r := Init(pciIo, vendor, device, station, mem, enableReg, timeout);
      forall a :: a != PadOf(mem) && a != P2sbRegister(P2SB_CTRL) ==> Itco.Peek(r.mem, a) == Itco.Peek(mem, a)
  {
  }
}
