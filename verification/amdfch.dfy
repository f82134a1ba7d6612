/** The watchdog of the AMD Fusion Controller Hub
    (drivers/watchdog/amdfch_wdt.c).

    Every register access goes through the PCI I/O protocol of the SMBus
    device and can fail. The model keeps the power-management registers
    (reached through an index and a data port), the memory-mapped
    watchdog registers (a register never written reads 0) and the set of
    accesses that fail, with the status they fail with. A failed read
    yields 0 and a failed write changes nothing, as in the driver, which
    reports read errors but goes on with the value 0. */
module AmdFch {
  import opened Wrappers
  import opened Bytes
  import Efi

  type word = x: nat | x < TWO_32

  const PCI_VENDOR_ID_AMD: nat := 0x1022
  const PCI_DEVICE_ID_AMD_CARRIZO_SMBUS: nat := 0x790B
  /** The revisions the driver knows. */
  const REVISION_A: nat := 0x59
  const REVISION_B: nat := 0x61

  const MIN_TIMEOUT: nat := 0x0001
  const MAX_TIMEOUT: nat := 0xFFFF

  /** The watchdog's memory-mapped registers: ACPI MMIO base plus 0xB00. */
  const WDT_BASE: nat := 0xFED8_0000 + 0xB00
  const WDT_CONTROL: nat := WDT_BASE
  const WDT_COUNT: nat := WDT_BASE + 0x04

  /** Power-management registers and the index/data port pair. */
  const PM_WATCHDOG_EN_REG: byte := 0x00
  const PM_WATCHDOG_CONFIG_REG: byte := 0x03
  const PM_WATCHDOG_1SEC_RES: byte := 0x3
  const PM_INDEX_PORT: nat := 0xCD6
  const PM_DATA_PORT: nat := 0xCD7

  // ---------------------------------------------------------------------
  // Register accesses (lines 70-138)
  // ---------------------------------------------------------------------

  datatype Access = IoIn(port: nat) | IoOut(port: nat) | MemRead(addr: nat) | MemWrite(addr: nat)

  /** The hardware as the driver sees it. `index` is the register the
      index port selects; `pm` the power-management registers. */
  datatype Fch = Fch(index: byte, pm: map<byte, byte>, mem: map<nat, word>,
                     fails: set<Access>, fault: Efi.Status)

  function Pm(f: Fch, reg: byte): byte
  {
    if reg in f.pm then f.pm[reg] else 0
  }

  function Mem(f: Fch, a: nat): word
  {
    if a in f.mem then f.mem[a] else 0
  }

  /** `outb`: a write to the index port selects a register, one to the
      data port stores into the selected register. */
  function Outb(f: Fch, v: byte, port: nat): (r: (Efi.Status, Fch))
    ensures r.1.fails == f.fails && r.1.fault == f.fault && r.1.mem == f.mem
    ensures IoOut(port) in f.fails ==> r == (f.fault, f)
    ensures IoOut(port) !in f.fails ==> r.0 == Efi.Success
  {
    if IoOut(port) in f.fails then (f.fault, f)
    else if port == PM_INDEX_PORT then (Efi.Success, f.(index := v))
    else if port == PM_DATA_PORT then (Efi.Success, f.(pm := f.pm[f.index := v]))
    else (Efi.Success, f)
  }

  /** `inb` of the data port: the selected register, 0 when the read
      fails. */
  function InData(f: Fch): (v: byte)
    ensures IoIn(PM_DATA_PORT) !in f.fails ==> v == Pm(f, f.index)
    ensures IoIn(PM_DATA_PORT) in f.fails ==> v == 0
  {
    if IoIn(PM_DATA_PORT) in f.fails then 0 else Pm(f, f.index)
  }

  /** `readl` and `writel`. */
  function Readl(f: Fch, a: nat): (v: word)
    ensures MemRead(a) !in f.fails ==> v == Mem(f, a)
    ensures MemRead(a) in f.fails ==> v == 0
  {
    if MemRead(a) in f.fails then 0 else Mem(f, a)
  }

  function Writel(f: Fch, v: word, a: nat): (r: (Efi.Status, Fch))
    ensures r.1.fails == f.fails && r.1.fault == f.fault && r.1.pm == f.pm && r.1.index == f.index
    ensures MemWrite(a) in f.fails ==> r == (f.fault, f)
    ensures MemWrite(a) !in f.fails ==> r.0 == Efi.Success && r.1.mem == f.mem[a := v]
  {
    if MemWrite(a) in f.fails then (f.fault, f)
    else (Efi.Success, f.(mem := f.mem[a := v]))
  }

  // ---------------------------------------------------------------------
  // Register values (lines 140-205)
  // ---------------------------------------------------------------------

  /** Bit 7 of the watchdog enable register set, bits 0-6 as read. */
  function TimerEnableValue(v: byte): (r: byte)
    ensures r / 0x80 == 1
    ensures r % 0x80 == v % 0x80
  {
    v % 0x80 + 0x80
  }

  /** The resolution in bits 0-1 of the configuration register, the other
      bits as read. */
  function ResolutionValue(v: byte, freq: nat): (r: byte)
    requires freq <= 3
    ensures r % 4 == freq
    ensures r / 4 == v / 4
  {
    (v / 4) * 4 + freq
  }

  /** Bit 2 of the control register (reset, rather than power off, on
      expiry) cleared; the driver sets the action to reboot this way. */
  function ActionRebootValue(v: word): (r: word)
    ensures (r / 4) % 2 == 0
    ensures r % 4 == v % 4 && r / 8 == v / 8
  {
    if (v / 4) % 2 == 1 then v - 4 else v
  }

  /** Bit 0 (start) of the control register set, the rest as read. */
  function StartValue(v: word): (r: word)
    ensures r % 2 == 1
    ensures r / 2 == v / 2
  {
    if v % 2 == 1 then v else v + 1
  }

  /** Bit 7 (trigger) of the control register set, the rest as read. */
  function PingValue(v: word): (r: word)
    ensures (r / 0x80) % 2 == 1
    ensures r % 0x80 == v % 0x80 && r / 0x100 == v / 0x100
  {
    if (v / 0x80) % 2 == 1 then v else v + 0x80
  }

  /** `amdfch_wdt_set_time`: the timeout, passed as a 32-bit number,
      clamped to [1, 0xFFFF]. */
  function CountValue(timeout: nat): (r: word)
    ensures MIN_TIMEOUT <= r <= MAX_TIMEOUT
    ensures MIN_TIMEOUT <= timeout % TWO_32 <= MAX_TIMEOUT ==> r == timeout % TWO_32
    ensures timeout % TWO_32 == 0 ==> r == MIN_TIMEOUT
    ensures timeout % TWO_32 > MAX_TIMEOUT ==> r == MAX_TIMEOUT
  {
    var t := timeout % TWO_32;
    if t < MIN_TIMEOUT then MIN_TIMEOUT
    else if t > MAX_TIMEOUT then MAX_TIMEOUT
    else t
  }

  // ---------------------------------------------------------------------
  // The steps of init (lines 140-205, 241-277)
  // ---------------------------------------------------------------------

  datatype Step = EnableTimer | SetResolution | ActionReboot | SetTime | StartTimer | Ping

  /** The steps in the order `init` runs them. */
  const INIT_STEPS: seq<Step> := [EnableTimer, SetResolution, ActionReboot, SetTime, StartTimer, Ping]

  /** A read-modify-write of a power-management register; its status is
      that of the final write. */
  function PmUpdate(f: Fch, reg: byte, s: Step): (r: (Efi.Status, Fch))
    requires s == EnableTimer || s == SetResolution
  {
    var (_, f1) := Outb(f, reg, PM_INDEX_PORT);
    var v := InData(f1);
    Outb(f1, if s == EnableTimer then TimerEnableValue(v) else ResolutionValue(v, PM_WATCHDOG_1SEC_RES), PM_DATA_PORT)
  }

  /** One step: its status and the hardware afterwards. */
  function Apply(s: Step, f: Fch, timeout: nat): (r: (Efi.Status, Fch))
    ensures r.0 == Efi.Success || r.0 == f.fault
    ensures r.1.fails == f.fails && r.1.fault == f.fault
  {
    match s
    case EnableTimer => PmUpdate(f, PM_WATCHDOG_EN_REG, s)
    case SetResolution => PmUpdate(f, PM_WATCHDOG_CONFIG_REG, s)
    case ActionReboot => Writel(f, ActionRebootValue(Readl(f, WDT_CONTROL)), WDT_CONTROL)
    case SetTime => Writel(f, CountValue(timeout), WDT_COUNT)
    case StartTimer => Writel(f, StartValue(Readl(f, WDT_CONTROL)), WDT_CONTROL)
    case Ping => Writel(f, PingValue(Readl(f, WDT_CONTROL)), WDT_CONTROL)
  }

  /** Run steps in order, stopping at the first that fails. */
  function Run(steps: seq<Step>, f: Fch, timeout: nat): (r: (Efi.Status, Fch))
    ensures r.0 == Efi.Success || r.0 == f.fault
    ensures r.1.fails == f.fails && r.1.fault == f.fault
    decreases |steps|
  {
    if |steps| == 0 then (Efi.Success, f)
    else
      var (st, f1) := Apply(steps[0], f, timeout);
      if st != Efi.Success then (st, f1) else Run(steps[1..], f1, timeout)
  }

  /** Running two lists of steps is running the first and, if it
      succeeded, the second from where it left the hardware. */
  lemma {:induction false} RunAppend(a: seq<Step>, b: seq<Step>, f: Fch, timeout: nat)
    ensures Run(a + b, f, timeout) ==
      (var ra := Run(a, f, timeout); if ra.0 != Efi.Success then ra else Run(b, ra.1, timeout))
    decreases |a|
  {
    if |a| > 0 {
      assert (a + b)[0] == a[0];
      assert (a + b)[1..] == a[1..] + b;
      var (st, f1) := Apply(a[0], f, timeout);
      if st == Efi.Success {
        RunAppend(a[1..], b, f1, timeout);
      }
    } else {
      assert a + b == b;
    }
  }

  /** A step that fails stops the run: nothing after it happens. */
  lemma StopsAtFailure(a: seq<Step>, s: Step, b: seq<Step>, f: Fch, timeout: nat)
    requires Run(a, f, timeout).0 == Efi.Success
    requires Apply(s, Run(a, f, timeout).1, timeout).0 != Efi.Success
    ensures Run(a + [s] + b, f, timeout) == Apply(s, Run(a, f, timeout).1, timeout)
  {
    RunAppend(a, [s] + b, f, timeout);
    assert a + [s] + b == a + ([s] + b);
  }

  // ---------------------------------------------------------------------
  // init (lines 207-278)
  // ---------------------------------------------------------------------

  predicate Supported(pciIo: bool, vendor: nat, device: nat, revision: Option<nat>)
  {
    pciIo && vendor == PCI_VENDOR_ID_AMD && device == PCI_DEVICE_ID_AMD_CARRIZO_SMBUS
    && revision.Some? && (revision.value == REVISION_A || revision.value == REVISION_B)
  }

  /** `init`. `revision` is the PCI revision id, None when reading it
      fails. */
  function Init(pciIo: bool, vendor: nat, device: nat, revision: Option<nat>, f: Fch, timeout: nat): (r: (Efi.Status, Fch))
    ensures !Supported(pciIo, vendor, device, revision) ==> r == (Efi.Unsupported, f)
    ensures Supported(pciIo, vendor, device, revision) ==> r.0 == Efi.Success || r.0 == f.fault
    ensures r.1.fails == f.fails && r.1.fault == f.fault
  {
    if !pciIo || vendor != PCI_VENDOR_ID_AMD || device != PCI_DEVICE_ID_AMD_CARRIZO_SMBUS then (Efi.Unsupported, f)
    else if revision.None? then (Efi.Unsupported, f)
    else if revision.value != REVISION_A && revision.value != REVISION_B then (Efi.Unsupported, f)
    else Run(INIT_STEPS, f, timeout)
  }

  /** A successful run of a nonempty list ran its first step
      successfully and then the rest. */
  lemma Peel(steps: seq<Step>, f: Fch, timeout: nat)
    requires |steps| > 0 && Run(steps, f, timeout).0 == Efi.Success
    ensures Apply(steps[0], f, timeout).0 == Efi.Success
    ensures Run(steps, f, timeout) == Run(steps[1..], Apply(steps[0], f, timeout).1, timeout)
  {
  }

  /** The power-management steps leave the watchdog registers alone. */
  lemma PmStepMem(s: Step, f: Fch, timeout: nat)
    requires s == EnableTimer || s == SetResolution
    ensures Apply(s, f, timeout).1.mem == f.mem
  {
  }

  /** What a successful control-register step leaves in memory. */
  lemma ControlStepMem(s: Step, f: Fch, timeout: nat)
    requires s == ActionReboot || s == StartTimer || s == Ping
    requires Apply(s, f, timeout).0 == Efi.Success && f.fault != Efi.Success
    ensures var v := Readl(f, WDT_CONTROL);
      Apply(s, f, timeout).1.mem
        == f.mem[WDT_CONTROL := if s == ActionReboot then ActionRebootValue(v) else if s == StartTimer then StartValue(v) else PingValue(v)]
  {
  }

  /** After a successful run the count register holds the clamped
      timeout and the trigger bit is set; when control register reads
      succeed, the control register is the one read with the action set
      to reboot, the watchdog started and triggered. */
  lemma {:induction false} InitArms(f: Fch, timeout: nat)
    requires f.fault != Efi.Success
    requires Run(INIT_STEPS, f, timeout).0 == Efi.Success
    ensures var g := Run(INIT_STEPS, f, timeout).1;
      Mem(g, WDT_COUNT) == CountValue(timeout) && (Mem(g, WDT_CONTROL) / 0x80) % 2 == 1
    ensures MemRead(WDT_CONTROL) !in f.fails ==>
      Mem(Run(INIT_STEPS, f, timeout).1, WDT_CONTROL) == PingValue(StartValue(ActionRebootValue(Mem(f, WDT_CONTROL))))
  {
    var f1 := Apply(EnableTimer, f, timeout).1;
    var f2 := Apply(SetResolution, f1, timeout).1;
    var f3 := Apply(ActionReboot, f2, timeout).1;
    var f4 := Apply(SetTime, f3, timeout).1;
    var f5 := Apply(StartTimer, f4, timeout).1;
    InitRuns(f, timeout);
    PmStepMem(EnableTimer, f, timeout);
    PmStepMem(SetResolution, f1, timeout);
    ControlStepMem(ActionReboot, f2, timeout);
    ControlStepMem(StartTimer, f4, timeout);
    ControlStepMem(Ping, f5, timeout);
  }

  /** A successful `init` is the six steps one after the other, each
      succeeding. */
  lemma InitRuns(f: Fch, timeout: nat)
    requires Run(INIT_STEPS, f, timeout).0 == Efi.Success
    ensures var f1 := Apply(EnableTimer, f, timeout);
      var f2 := Apply(SetResolution, f1.1, timeout);
      var f3 := Apply(ActionReboot, f2.1, timeout);
      var f4 := Apply(SetTime, f3.1, timeout);
      var f5 := Apply(StartTimer, f4.1, timeout);
      var f6 := Apply(Ping, f5.1, timeout);
      && f1.0 == Efi.Success && f2.0 == Efi.Success && f3.0 == Efi.Success
      && f4.0 == Efi.Success && f5.0 == Efi.Success && f6.0 == Efi.Success
      && Run(INIT_STEPS, f, timeout).1 == f6.1
  {
    var steps := INIT_STEPS;
    var f1 := Apply(EnableTimer, f, timeout).1;
    var f2 := Apply(SetResolution, f1, timeout).1;
    var f3 := Apply(ActionReboot, f2, timeout).1;
    var f4 := Apply(SetTime, f3, timeout).1;
    var f5 := Apply(StartTimer, f4, timeout).1;
    Peel(steps, f, timeout);
    Peel(steps[1..], f1, timeout);
    Peel(steps[2..], f2, timeout);
    Peel(steps[3..], f3, timeout);
    Peel(steps[4..], f4, timeout);
    Peel(steps[5..], f5, timeout);
  }

  /** What a successful power-management step leaves in the registers
      when the index port and data reads work. */
  lemma PmStepPm(s: Step, f: Fch, timeout: nat)
    requires s == EnableTimer || s == SetResolution
    requires IoOut(PM_INDEX_PORT) !in f.fails && IoIn(PM_DATA_PORT) !in f.fails
    requires Apply(s, f, timeout).0 == Efi.Success && f.fault != Efi.Success
    ensures s == EnableTimer ==>
      Apply(s, f, timeout).1.pm == f.pm[PM_WATCHDOG_EN_REG := TimerEnableValue(Pm(f, PM_WATCHDOG_EN_REG))]
    ensures s == SetResolution ==>
      Apply(s, f, timeout).1.pm
        == f.pm[PM_WATCHDOG_CONFIG_REG := ResolutionValue(Pm(f, PM_WATCHDOG_CONFIG_REG), PM_WATCHDOG_1SEC_RES)]
  {
  }

  /** After a successful run in which the index port and data reads work,
      the watchdog timer is enabled and runs at one-second resolution,
      the other bits of both registers as they were. */
  lemma {:induction false} InitPm(f: Fch, timeout: nat)
    requires f.fault != Efi.Success
    requires IoOut(PM_INDEX_PORT) !in f.fails && IoIn(PM_DATA_PORT) !in f.fails
    requires Run(INIT_STEPS, f, timeout).0 == Efi.Success
    ensures var g := Run(INIT_STEPS, f, timeout).1;
      Pm(g, PM_WATCHDOG_EN_REG) == TimerEnableValue(Pm(f, PM_WATCHDOG_EN_REG))
      && Pm(g, PM_WATCHDOG_CONFIG_REG) == ResolutionValue(Pm(f, PM_WATCHDOG_CONFIG_REG), PM_WATCHDOG_1SEC_RES)
  {
    var f1 := Apply(EnableTimer, f, timeout).1;
    var f2 := Apply(SetResolution, f1, timeout).1;
    var f3 := Apply(ActionReboot, f2, timeout).1;
    var f4 := Apply(SetTime, f3, timeout).1;
    var f5 := Apply(StartTimer, f4, timeout).1;
    InitRuns(f, timeout);
    PmStepPm(EnableTimer, f, timeout);
    PmStepPm(SetResolution, f1, timeout);
    ControlStepPm(ActionReboot, f2, timeout);
    ControlStepPm(SetTime, f3, timeout);
    ControlStepPm(StartTimer, f4, timeout);
    ControlStepPm(Ping, f5, timeout);
  }

  /** A step on the watchdog registers keeps the power-management
      registers. */
  lemma ControlStepPm(s: Step, f: Fch, timeout: nat)
    requires s != EnableTimer && s != SetResolution
    ensures Apply(s, f, timeout).1.pm == f.pm
  {
  }

  /** Steps that only touch the watchdog registers keep the
      power-management registers. */
  lemma {:induction false} ControlStepsPm(steps: seq<Step>, f: Fch, timeout: nat)
    requires forall i :: 0 <= i < |steps| ==> steps[i] != EnableTimer && steps[i] != SetResolution
    ensures Run(steps, f, timeout).1.pm == f.pm
    decreases |steps|
  {
    if |steps| > 0 {
      var f1 := Apply(steps[0], f, timeout).1;
      assert f1.pm == f.pm;
      ControlStepsPm(steps[1..], f1, timeout);
    }
  }
}
