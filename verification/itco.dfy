/** The Intel TCO watchdog, versions 2, 3, 5 and 6
    (drivers/watchdog/itco.c).

    The driver reads the PCI configuration space of the LPC bridge, and
    reads and writes I/O ports and memory-mapped registers. The model
    keeps the two register spaces as maps from address to contents (a
    register never written reads 0) and the configuration space as a map
    from offset to the 32-bit value a read returns; an offset missing from
    it is a read that fails. */
module Itco {
  import opened Wrappers
  import Efi

  /** The PCI SIG's vendor id of Intel (pci/header.h is not part of this
      model). */
  const PCI_VENDOR_ID_INTEL: nat := 0x8086

  datatype Machine = Machine(io: map<nat, bv32>, mem: map<nat, bv32>)

  function Peek(regs: map<nat, bv32>, a: nat): bv32
  {
    if a in regs then regs[a] else 0
  }

  /** `inw`, `inl`, `outw`. */
  function Inw(m: Machine, port: nat): bv32
  {
    Peek(m.io, port) & 0xffff
  }

  function Inl(m: Machine, port: nat): bv32
  {
    Peek(m.io, port)
  }

  function Outw(m: Machine, port: nat, v: bv32): Machine
  {
    m.(io := m.io[port := v & 0xffff])
  }

  /** An 8-bit and a 32-bit memory-mapped write. */
  function Write8(m: Machine, a: nat, v: bv32): Machine
  {
    m.(mem := m.mem[a := v & 0xff])
  }

  function Write32(m: Machine, a: nat, v: bv32): Machine
  {
    m.(mem := m.mem[a := v])
  }

  // ---------------------------------------------------------------------
  // Chipsets and versions (lines 21-170)
  // ---------------------------------------------------------------------

  const V2: nat := 2
  const V3: nat := 3
  const V5: nat := 5
  const V6: nat := 6

  const SMI_EN_REG: nat := 0x30
  /** `TCO_EN | GBL_SMI_EN`. */
  const SMI_BITS: bv32 := 0x2001
  const TCO_RLD_REG: nat := 0x00
  const TCO1_CNT_REG: nat := 0x08
  const TCO1_CNT_NO_REBOOT: bv32 := 0x1
  const TCO_TMR_HLT_MASK: bv32 := 0x800
  const TCO_TMR_REG: nat := 0x12

  /** `iTCO_regs`: where each version keeps its registers; zero means
      absent. */
  datatype Regs = Regs(tcoBase: nat, pmBaseReg: nat, pmBaseAddrMask: bv32, pmcBaseReg: nat,
                       pmcReg: nat, pmcNoRebootMask: bv32, pmcBaseAddrMask: bv32)

  /** `iTCO_version_regs`. */
  function VersionRegs(version: nat): Regs
  {
    if version == V2 then Regs(0, 0x40, 0xff80, 0xf0, 0x3410, 0x20, 0xffff_c000)
    else if version == V3 then Regs(0, 0x40, 0xff80, 0x44, 0x08, 0x10, 0xffff_fe00)
    else if version == V5 then Regs(0x460, 0, 0, 0x10, 0x1008, 0x10, 0xffff_fe00)
    else if version == V6 then Regs(0x400, 0, 0, 0, 0, 0, 0)
    else Regs(0, 0, 0, 0, 0, 0, 0)
  }

  datatype Chipset = Chipset(pciId: nat, version: nat)

  /** `iTCO_chipset_info`: Apollo Lake, Bay Trail, Wildcat Point LP, ICH9,
      NM10, Lynx Point, Wellsburg, Elkhart Lake. */
  const CHIPSETS: seq<Chipset> := [
    Chipset(0x5ae8, V5), Chipset(0x0f1c, V3), Chipset(0x9cc3, V3), Chipset(0x2918, V3),
    Chipset(0x27bc, V2), Chipset(0x8c4e, V2), Chipset(0x8d44, V2), Chipset(0x4b23, V6)]

  /** The scan of `itco_supported` from entry `i` on. */
  function ChipsetFrom(device: nat, i: nat): (r: Option<nat>)
    requires i <= |CHIPSETS|
    ensures r.Some? ==> i <= r.value < |CHIPSETS| && CHIPSETS[r.value].pciId == device
    ensures r.Some? ==> forall j :: i <= j < r.value ==> CHIPSETS[j].pciId != device
    ensures r.None? <==> forall j :: i <= j < |CHIPSETS| ==> CHIPSETS[j].pciId != device
    decreases |CHIPSETS| - i
  {
    if i == |CHIPSETS| then None
    else if CHIPSETS[i].pciId == device then Some(i)
    else ChipsetFrom(device, i + 1)
  }

  /** `itco_supported`: the first chipset entry with the device id. Every
      entry is of a version the driver implements. */
  function ChipsetIndex(device: nat): (r: Option<nat>)
    ensures r.Some? ==> r.value < |CHIPSETS| && CHIPSETS[r.value].pciId == device
    ensures r.Some? ==> CHIPSETS[r.value].version in {V2, V3, V5, V6}
    ensures r.Some? ==> forall j :: 0 <= j < r.value ==> CHIPSETS[j].pciId != device
    ensures r.None? <==> forall j :: 0 <= j < |CHIPSETS| ==> CHIPSETS[j].pciId != device
  {
    ChipsetFrom(device, 0)
  }

  // ---------------------------------------------------------------------
  // Timeout and base addresses (lines 172-208, 290-304)
  // ---------------------------------------------------------------------

  /** `get_timeout_value`: version 3 counts in seconds, the others in
      ticks of 0.6 seconds; `seconds * 10` is a `UINTN` product. */
  function TimeoutTicks(version: nat, seconds: nat): (r: nat)
    ensures version == V3 ==> r == seconds
    ensures version != V3 && seconds * 10 < 0x1_0000_0000_0000_0000 ==> 6 * r <= 10 * seconds < 6 * r + 6
  {
    if version == V3 then seconds else ((seconds * 10) % 0x1_0000_0000_0000_0000) / 6
  }

  /** `get_pm_base`: the power management base from configuration space,
      masked to its address bits; 0 for a version without one and when the
      read fails. */
  function PmBase(regs: Regs, pci: map<nat, bv32>): (r: nat)
    ensures r < 0x1_0000_0000
    ensures regs.pmBaseReg == 0 || regs.pmBaseReg !in pci ==> r == 0
    ensures regs.pmBaseReg != 0 && regs.pmBaseReg in pci ==> r == (pci[regs.pmBaseReg] & regs.pmBaseAddrMask) as nat
  {
    if regs.pmBaseReg == 0 || regs.pmBaseReg !in pci then 0
    else (pci[regs.pmBaseReg] & regs.pmBaseAddrMask) as nat
  }

  /** The TCO_EN and GBL_SMI_EN bits are both set. */
  predicate SmiArmed(smiEn: bv32)
  {
    smiEn & SMI_BITS == SMI_BITS
  }

  /** Lines 290-299: unless SMIs fire on the first expiry, the reboot only
      comes on the second, so the driver programs half the timeout. */
  function EffectiveTimeout(m: Machine, pmBase: nat, timeout: nat): (r: nat)
    ensures pmBase == 0 || SmiArmed(Inl(m, pmBase + SMI_EN_REG)) ==> r == timeout
    ensures pmBase != 0 && !SmiArmed(Inl(m, pmBase + SMI_EN_REG)) ==> 2 * r <= timeout < 2 * r + 2
  {
    if pmBase != 0 && !SmiArmed(Inl(m, pmBase + SMI_EN_REG)) then timeout / 2 else timeout
  }

  /** `get_tco_base`: fixed for versions 5 and 6, 0x60 above the power
      management base for versions 2 and 3, 0 when that is unknown. */
  function TcoBase(pmBase: nat, version: nat): (r: nat)
    ensures version == V5 ==> r == 0x460
    ensures version == V6 ==> r == 0x400
    ensures version in {V2, V3} ==> (r == 0 <==> pmBase == 0)
    ensures version in {V2, V3} && pmBase != 0 ==> r == pmBase + 0x60
  {
    var regs := VersionRegs(version);
    if regs.tcoBase != 0 then regs.tcoBase
    else if pmBase != 0 then pmBase + 0x60
    else 0
  }

  // ---------------------------------------------------------------------
  // Register updates (lines 210-271, 306-337)
  // ---------------------------------------------------------------------

  /** Lines 307-309: the timer field is the low 10 bits of the 16-bit
      timer register; the upper six bits are kept. */
  function TimerWord(prev: bv32, ticks: nat): (r: bv32)
    ensures r & 0x3ff == (ticks % 1024) as bv32
    ensures r & 0xfc00 == prev & 0xfc00
    ensures r & 0xffff_0000 == 0
  {
    (prev & 0xfc00) | ((ticks % 1024) as bv32)
  }

  /** Lines 306-313: program the timer, then force a reload. */
  function SetTimer(m: Machine, tco: nat, ticks: nat): Machine
  {
    var m1 := Outw(m, tco + TCO_TMR_REG, TimerWord(Inw(m, tco + TCO_TMR_REG), ticks));
    Outw(m1, tco + TCO_RLD_REG, 1)
  }

  /** Clear `bits` in TCO1_CNT with a read-modify-write. */
  function ClearCnt(m: Machine, tco: nat, bits: bv32): (r: Machine)
    ensures Inw(r, tco + TCO1_CNT_REG) & bits == 0
    ensures Inw(r, tco + TCO1_CNT_REG) & !bits == Inw(m, tco + TCO1_CNT_REG) & !bits
  {
    Outw(m, tco + TCO1_CNT_REG, Inw(m, tco + TCO1_CNT_REG) & !bits)
  }

  /** `update_no_reboot_flag_mem`: clear the no-reboot bit in the
      memory-mapped register above the base from configuration space; the
      status of a failed configuration read is passed on. */
  function NoRebootMem(m: Machine, regs: Regs, pci: map<nat, bv32>, fault: Efi.Status): (r: Result<Machine, Efi.Status>)
    ensures r.Failure? <==> regs.pmcBaseReg !in pci
    ensures r.Failure? ==> r.error == fault
    ensures r.Success? ==>
      var a := (pci[regs.pmcBaseReg] & regs.pmcBaseAddrMask) as nat + regs.pmcReg;
      Peek(r.value.mem, a) & regs.pmcNoRebootMask == 0
  {
    if regs.pmcBaseReg !in pci then Failure(fault)
    else
      var a := (pci[regs.pmcBaseReg] & regs.pmcBaseAddrMask) as nat + regs.pmcReg;
      Success(Write32(m, a, Peek(m.mem, a) & !regs.pmcNoRebootMask))
  }

  /** `apl_mmcfg_address`: the memory-mapped configuration address of a
      bus, device, function and offset on Apollo Lake. */
  function MmcfgAddress(bus: nat, device: nat, fn: nat, offset: nat): nat
  {
    0xE000_0000 + bus * 0x10_0000 + device * 0x8000 + fn * 0x1000 + offset
  }

  /** The P2SB bridge, device 13 function 0, and its hide register. */
  const P2SB: nat := 0xE006_8000
  const P2SB_HIDE: nat := 0xE006_80E1

  /** `update_no_reboot_flag_apl`: unhide the P2SB bridge if hidden, clear
      the no-reboot bit in the byte at offset `pmc_reg` of device 13
      function 1, hide the bridge again. */
  function NoRebootApl(m: Machine, regs: Regs): (r: Machine)
    ensures var a := MmcfgAddress(0, 13, 1, regs.pmcReg);
      a != P2SB_HIDE ==> Peek(r.mem, a) & regs.pmcNoRebootMask == 0
    ensures Peek(m.mem, P2SB) & 0xffff == 0xffff ==> Peek(r.mem, P2SB_HIDE) == 1
    ensures Peek(m.mem, P2SB) & 0xffff != 0xffff && MmcfgAddress(0, 13, 1, regs.pmcReg) != P2SB_HIDE
      ==> Peek(r.mem, P2SB_HIDE) == Peek(m.mem, P2SB_HIDE)
  {
    var hidden := Peek(m.mem, P2SB) & 0xffff == 0xffff;
    var m1 := if hidden then Write8(m, P2SB_HIDE, 0) else m;
    var a := MmcfgAddress(0, 13, 1, regs.pmcReg);
    var m2 := Write8(m1, a, Peek(m1.mem, a) & 0xff & !regs.pmcNoRebootMask);
    if hidden then Write8(m2, P2SB_HIDE, 1) else m2
  }

  /** The Apollo Lake register offset 0x1008 runs past the 4 KiB
      configuration space of function 1: the byte cleared is offset 8 of
      function 2. */
  lemma AplRegisterAddress()
    ensures MmcfgAddress(0, 13, 1, VersionRegs(V5).pmcReg) == MmcfgAddress(0, 13, 2, 8)
  {
  }

  /** Lines 315-332: clear the no-reboot flag the way the version keeps
      it; any other version is unsupported. */
  function ClearNoReboot(version: nat, m: Machine, tco: nat, pci: map<nat, bv32>, fault: Efi.Status)
    : (r: Result<Machine, Efi.Status>)
    ensures r.Failure? ==> r.error == (if version in {V2, V3} then fault else Efi.Unsupported)
    ensures r.Success? <==> version in {V5, V6} || (version in {V2, V3} && VersionRegs(version).pmcBaseReg in pci)
    ensures r.Success? ==> r.value.io == m.io || version == V6
  {
    if version == V6 then Success(ClearCnt(m, tco, TCO1_CNT_NO_REBOOT))
    else if version == V5 then Success(NoRebootApl(m, VersionRegs(version)))
    else if version == V3 || version == V2 then NoRebootMem(m, VersionRegs(version), pci, fault)
    else Failure(Efi.Unsupported)
  }

  // ---------------------------------------------------------------------
  // init (lines 273-340)
  // ---------------------------------------------------------------------

  datatype Outcome = Outcome(status: Efi.Status, machine: Machine)

  /** The TCO base `init` settles on for a version. */
  function TcoOf(version: nat, pci: map<nat, bv32>): nat
  {
    TcoBase(PmBase(VersionRegs(version), pci), version)
  }

  /** The timer ticks `init` programs for a version. */
  function TicksOf(version: nat, pci: map<nat, bv32>, m: Machine, timeout: nat): nat
  {
    TimeoutTicks(version, EffectiveTimeout(m, PmBase(VersionRegs(version), pci), timeout))
  }

  /** `init` once the chipset is known: locate the TCO block, program and
      reload the timer, clear the no-reboot flag, clear the halt bit. */
  function Start(version: nat, pci: map<nat, bv32>, fault: Efi.Status, m: Machine, timeout: nat): (r: Outcome)
    requires fault.IsError()
    ensures r.status == Efi.Success || r.status == Efi.Unsupported || r.status == fault
    ensures TcoOf(version, pci) == 0 ==> r == Outcome(Efi.Unsupported, m)
    ensures version in {V2, V3, V5, V6} && TcoOf(version, pci) != 0 ==>
      r.status == Efi.Success || (version in {V2, V3} && r.status == fault)
  {
    var tco := TcoOf(version, pci);
    if tco == 0 then Outcome(Efi.Unsupported, m)
    else
      var m1 := SetTimer(m, tco, TicksOf(version, pci, m, timeout));
      match ClearNoReboot(version, m1, tco, pci, fault)
      case Failure(e) => Outcome(e, m1)
      case Success(m2) => Outcome(Efi.Success, ClearCnt(m2, tco, TCO_TMR_HLT_MASK))
  }

  /** `init`: only Intel LPC bridges of a listed chipset are probed. A
      configuration read that fails is `fault`. */
  function Init(pciIo: bool, vendor: nat, device: nat, pci: map<nat, bv32>, fault: Efi.Status,
                m: Machine, timeout: nat): (r: Outcome)
    requires fault.IsError()
    ensures !pciIo || vendor != PCI_VENDOR_ID_INTEL || ChipsetIndex(device).None?
      ==> r == Outcome(Efi.Unsupported, m)
    ensures pciIo && vendor == PCI_VENDOR_ID_INTEL && ChipsetIndex(device).Some?
      ==> r == Start(CHIPSETS[ChipsetIndex(device).value].version, pci, fault, m, timeout)
  {
    if !pciIo || vendor != PCI_VENDOR_ID_INTEL then Outcome(Efi.Unsupported, m)
    else
      match ChipsetIndex(device)
      case None => Outcome(Efi.Unsupported, m)
      case Some(i) => Start(CHIPSETS[i].version, pci, fault, m, timeout)
  }

  lemma Low16(x: bv32)
    requires x & 0xffff_0000 == 0
    ensures x & 0xffff == x
  {
  }

  /** `outw` changes one port, and reads back as the low 16 bits written. */
  lemma OutwEffect(m: Machine, port: nat, v: bv32, q: nat)
    ensures q != port ==> Peek(Outw(m, port, v).io, q) == Peek(m.io, q)
    ensures Inw(Outw(m, port, v), port) == v & 0xffff
  {
    assert (v & 0xffff) & 0xffff == v & 0xffff;
  }

  /** The three I/O writes of `init` and the ports they leave alone. */
  lemma SetTimerEffect(m: Machine, tco: nat, ticks: nat, q: nat)
    ensures var m1 := SetTimer(m, tco, ticks);
      && Inw(m1, tco + TCO_TMR_REG) == TimerWord(Inw(m, tco + TCO_TMR_REG), ticks)
      && Inw(m1, tco + TCO_RLD_REG) == 1
      && (q != tco + TCO_TMR_REG && q != tco + TCO_RLD_REG ==> Peek(m1.io, q) == Peek(m.io, q))
  {
    var w := TimerWord(Inw(m, tco + TCO_TMR_REG), ticks);
    var m0 := Outw(m, tco + TCO_TMR_REG, w);
    OutwEffect(m, tco + TCO_TMR_REG, w, q);
    OutwEffect(m0, tco + TCO_RLD_REG, 1, q);
    OutwEffect(m0, tco + TCO_RLD_REG, 1, tco + TCO_TMR_REG);
    OutwEffect(m, tco + TCO_TMR_REG, w, tco + TCO_TMR_REG);
    Low16(w);
  }

  /** The machine `Start` leaves behind when it succeeds. */
  lemma StartShape(version: nat, pci: map<nat, bv32>, fault: Efi.Status, m: Machine, timeout: nat)
    requires fault.IsError()
    requires Start(version, pci, fault, m, timeout).status == Efi.Success
    ensures var tco := TcoOf(version, pci);
      var m1 := SetTimer(m, tco, TicksOf(version, pci, m, timeout));
      && ClearNoReboot(version, m1, tco, pci, fault).Success?
      && Start(version, pci, fault, m, timeout).machine
         == ClearCnt(ClearNoReboot(version, m1, tco, pci, fault).value, tco, TCO_TMR_HLT_MASK)
  {
  }

  /** Only version 6 clears its no-reboot flag through an I/O port. */
  lemma NoRebootIo(version: nat, m: Machine, tco: nat, pci: map<nat, bv32>, fault: Efi.Status)
    requires ClearNoReboot(version, m, tco, pci, fault).Success?
    ensures version == V6 ==> ClearNoReboot(version, m, tco, pci, fault).value == ClearCnt(m, tco, TCO1_CNT_NO_REBOOT)
    ensures version != V6 ==> ClearNoReboot(version, m, tco, pci, fault).value.io == m.io
  {
  }

  /** A read-modify-write of TCO1_CNT leaves every other port alone. */
  lemma ClearCntFrame(m: Machine, tco: nat, bits: bv32, q: nat)
    requires q != tco + TCO1_CNT_REG
    ensures Peek(ClearCnt(m, tco, bits).io, q) == Peek(m.io, q)
  {
    OutwEffect(m, tco + TCO1_CNT_REG, Inw(m, tco + TCO1_CNT_REG) & !bits, q);
  }

  /** The I/O side of a start away from TCO1_CNT: the timer write and the
      reload survive the optional no-reboot clear and the halt clear. */
  lemma ArmTimer(m: Machine, tco: nat, ticks: nat, v6: bool, m2: Machine, q: nat)
    requires v6 ==> m2 == ClearCnt(SetTimer(m, tco, ticks), tco, TCO1_CNT_NO_REBOOT)
    requires !v6 ==> m2.io == SetTimer(m, tco, ticks).io
    requires q != tco + TCO1_CNT_REG
    ensures Peek(ClearCnt(m2, tco, TCO_TMR_HLT_MASK).io, q) == Peek(SetTimer(m, tco, ticks).io, q)
  {
    ClearCntFrame(m2, tco, TCO_TMR_HLT_MASK, q);
    if v6 {
      ClearCntFrame(SetTimer(m, tco, ticks), tco, TCO1_CNT_NO_REBOOT, q);
    }
  }

  /** The I/O side of a start on TCO1_CNT. */
  lemma ArmCnt(m1: Machine, tco: nat, v6: bool, m2: Machine)
    requires v6 ==> m2 == ClearCnt(m1, tco, TCO1_CNT_NO_REBOOT)
    ensures var r := ClearCnt(m2, tco, TCO_TMR_HLT_MASK);
      && Inw(r, tco + TCO1_CNT_REG) & TCO_TMR_HLT_MASK == 0
      && (v6 ==> Inw(r, tco + TCO1_CNT_REG) & TCO1_CNT_NO_REBOOT == 0)
  {
    if v6 {
      var cnt := tco + TCO1_CNT_REG;
      ClearTwice(Inw(m2, cnt), Inw(ClearCnt(m2, tco, TCO_TMR_HLT_MASK), cnt));
    }
  }

  /** The I/O side of a start, over any TCO base and tick count. */
  lemma ArmAll(m: Machine, tco: nat, ticks: nat, v6: bool, m2: Machine, q: nat)
    requires v6 ==> m2 == ClearCnt(SetTimer(m, tco, ticks), tco, TCO1_CNT_NO_REBOOT)
    requires !v6 ==> m2.io == SetTimer(m, tco, ticks).io
    ensures var r := ClearCnt(m2, tco, TCO_TMR_HLT_MASK);
      && Inw(r, tco + TCO_TMR_REG) == TimerWord(Inw(m, tco + TCO_TMR_REG), ticks)
      && Inw(r, tco + TCO_RLD_REG) == 1
      && Inw(r, tco + TCO1_CNT_REG) & TCO_TMR_HLT_MASK == 0
      && (v6 ==> Inw(r, tco + TCO1_CNT_REG) & TCO1_CNT_NO_REBOOT == 0)
      && (q != tco + TCO_RLD_REG && q != tco + TCO1_CNT_REG && q != tco + TCO_TMR_REG ==> Peek(r.io, q) == Peek(m.io, q))
  {
    SetTimerEffect(m, tco, ticks, q);
    ArmCnt(SetTimer(m, tco, ticks), tco, v6, m2);
    ArmTimer(m, tco, ticks, v6, m2, tco + TCO_TMR_REG);
    ArmTimer(m, tco, ticks, v6, m2, tco + TCO_RLD_REG);
    if q != tco + TCO1_CNT_REG {
      ArmTimer(m, tco, ticks, v6, m2, q);
    }
  }

  /** A started watchdog: the timer field holds the ticks (modulo 1024)
      above the timer register's kept upper bits, the reload register was
      written, the halt bit is clear and, on version 6, so is the
      no-reboot bit. Among the I/O ports, nothing else changed. */
  lemma StartArms(version: nat, pci: map<nat, bv32>, fault: Efi.Status, m: Machine, timeout: nat, q: nat)
    requires fault.IsError()
    requires Start(version, pci, fault, m, timeout).status == Efi.Success
    ensures var tco := TcoOf(version, pci);
      var r := Start(version, pci, fault, m, timeout).machine;
      && Inw(r, tco + TCO_TMR_REG) == TimerWord(Inw(m, tco + TCO_TMR_REG), TicksOf(version, pci, m, timeout))
      && Inw(r, tco + TCO_RLD_REG) == 1
      && Inw(r, tco + TCO1_CNT_REG) & TCO_TMR_HLT_MASK == 0
      && (version == V6 ==> Inw(r, tco + TCO1_CNT_REG) & TCO1_CNT_NO_REBOOT == 0)
      && (q != tco + TCO_RLD_REG && q != tco + TCO1_CNT_REG && q != tco + TCO_TMR_REG ==> Peek(r.io, q) == Peek(m.io, q))
  {
    var tco := TcoOf(version, pci);
    var ticks := TicksOf(version, pci, m, timeout);
    var m1 := SetTimer(m, tco, ticks);
    var m2 := ClearNoReboot(version, m1, tco, pci, fault).value;
    StartShape(version, pci, fault, m, timeout);
    NoRebootIo(version, m1, tco, pci, fault);
    ArmAll(m, tco, ticks, version == V6, m2, q);
  }

  /** Two read-modify-writes of TCO1_CNT leave both bits clear. */
  lemma ClearTwice(b: bv32, c: bv32)
    requires b & TCO1_CNT_NO_REBOOT == 0
    requires c & !TCO_TMR_HLT_MASK == b & !TCO_TMR_HLT_MASK
    ensures c & TCO1_CNT_NO_REBOOT == 0
  {
    assert c & TCO1_CNT_NO_REBOOT == (c & !TCO_TMR_HLT_MASK) & TCO1_CNT_NO_REBOOT;
  }
}
