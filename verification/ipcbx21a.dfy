/** The watchdog of the SIMATIC IPC BX-21A (drivers/watchdog/ipcbx21a.c):
    the over-clocking watchdog of the PCH, one 32-bit I/O port.

    The port accesses are kept as the sequence the driver issues; the two
    values the control register reads are parameters, since its status
    bits clear when written with a one and a read after a write need not
    return what was written. */
module IpcBx21a {
  import opened Bytes
  import Efi

  const WDT_CTRL_REG: nat := 0x1854
  const TIMEOUT_MIN: nat := 1
  const TIMEOUT_DEF: nat := 60
  const TIMEOUT_MAX: nat := 1024

  /** The fields of the control register: the timeout value in bits 0-9;
      ICC survivability impact, enable and force-all in bits 13-15; the two
      timeout status bits, cleared by writing ones, in bits 24 and 25. The
      register is a number below 2^32 and a field is read by division. */
  function TimeoutBits(x: nat): nat { x % 0x400 }
  function StartBits(x: nat): nat { (x / 0x2000) % 8 }
  function StatusBits(x: nat): nat { (x / 0x100_0000) % 4 }

  /** All three start bits, and both status bits. */
  const START_ALL: nat := 7
  const STATUS_ALL: nat := 3

  lemma Div1024(x: nat, b: nat, y: nat)
    requires x == b + 0x400 * y && b < 0x400
    ensures x % 0x400 == b && x / 0x400 == y
  {
  }

  lemma Div8192(x: nat, b: nat, y: nat)
    requires x == b + 0x2000 * y && b < 0x2000
    ensures x % 0x2000 == b && x / 0x2000 == y
  {
  }

  lemma Div8(x: nat, b: nat, y: nat)
    requires x == b + 8 * y && b < 8
    ensures x % 8 == b && x / 8 == y
  {
  }

  lemma Div4(x: nat, b: nat, y: nat)
    requires x == b + 4 * y && b < 4
    ensures x % 4 == b && x / 4 == y
  {
  }

  lemma Div2p24(x: nat, b: nat, y: nat)
    requires x == b + 0x100_0000 * y && b < 0x100_0000
    ensures x % 0x100_0000 == b && x / 0x100_0000 == y
  {
  }

  /** The timeout the driver programs: the one asked for when it lies in
      [1, 1024], 60 seconds otherwise. */
  function EffectiveTimeout(timeout: nat): (t: nat)
    ensures TIMEOUT_MIN <= t <= TIMEOUT_MAX
    ensures t == timeout <==> TIMEOUT_MIN <= timeout <= TIMEOUT_MAX
    ensures !(TIMEOUT_MIN <= timeout <= TIMEOUT_MAX) ==> t == TIMEOUT_DEF
  {
    if timeout < TIMEOUT_MIN || timeout > TIMEOUT_MAX then TIMEOUT_DEF else timeout
  }

  lemma Div16384(x: nat, b: nat, y: nat)
    requires x == b + 0x4000 * y && b < 0x4000
    ensures x % 0x4000 == b && x / 0x4000 == y
  {
  }

  lemma Div2p26(x: nat, b: nat, y: nat)
    requires x == b + 0x400_0000 * y && b < 0x400_0000
    ensures x % 0x400_0000 == b && x / 0x400_0000 == y
  {
  }

  /** The start bits lie in bits 10-23, so they are determined by that
      part of the register. */
  lemma {:induction false} StartOfMiddle(x: nat)
    ensures StartBits(x) == (((x / 0x400) % 0x4000) / 8) % 8
  {
    var top := x / 0x400;
    var mid := top % 0x4000;
    var h := top / 0x4000;
    Div8192(x, x % 0x400 + 0x400 * (top % 8), top / 8);
    Div8(top, mid % 8, mid / 8 + 0x800 * h);
    Div8(mid / 8 + 0x800 * h, (mid / 8) % 8, (mid / 8) / 8 + 0x100 * h);
  }

  /** The first write: the timeout less one in the timeout field, both
      status bits written with one to clear them, every other bit as
      read. */
  function TimeoutValue(prev: nat, t: nat): (v: nat)
    requires prev < TWO_32 && TIMEOUT_MIN <= t <= TIMEOUT_MAX
    ensures v < TWO_32
    ensures TimeoutBits(v) + 1 == t
    ensures StatusBits(v) == STATUS_ALL
    ensures (v / 0x400) % 0x4000 == (prev / 0x400) % 0x4000
    ensures v / 0x400_0000 == prev / 0x400_0000
  {
    var high := prev / 0x400_0000;
    var middle := (prev / 0x400) % 0x4000;
    var v := (high * 4 + STATUS_ALL) * 0x100_0000 + middle * 0x400 + (t - 1);
    Div1024(v, t - 1, (high * 4 + STATUS_ALL) * 0x4000 + middle);
    Div16384(v / 0x400, middle, high * 4 + STATUS_ALL);
    Div2p24(v, middle * 0x400 + (t - 1), high * 4 + STATUS_ALL);
    Div4(high * 4 + STATUS_ALL, STATUS_ALL, high);
    Div2p26(v, STATUS_ALL * 0x100_0000 + middle * 0x400 + (t - 1), high);
    v
  }

  /** The second write: all three start bits set, every other bit as
      read. */
  function StartValue(prev: nat): (v: nat)
    requires prev < TWO_32
    ensures v < TWO_32
    ensures StartBits(v) == START_ALL
    ensures v % 0x2000 == prev % 0x2000
    ensures v / 0x1_0000 == prev / 0x1_0000
  {
    var low := prev % 0x2000;
    var high := prev / 0x1_0000;
    var v := high * 0x1_0000 + START_ALL * 0x2000 + low;
    Div8192(v, low, high * 8 + START_ALL);
    Div8(high * 8 + START_ALL, START_ALL, high);
    Div8192(prev, low, prev / 0x2000);
    v
  }

  /** The port accesses of the driver, in order. */
  datatype PortOp = Inl(port: nat) | Outl(port: nat, value: nat)

  /** `init`. `station` is what `simatic_station_id` returns (the model
      Simatic.SimaticStationId) and `bx21a` the BX-21A station id; `first`
      and `second` are what the two reads of the control register
      return. */
  function Init(station: nat, bx21a: nat, timeout: nat, first: nat, second: nat): (r: (Efi.Status, seq<PortOp>))
    requires first < TWO_32 && second < TWO_32
    ensures r.0 == Efi.Success <==> station == bx21a
    ensures r.0 != Efi.Success ==> r == (Efi.Unsupported, [])
    ensures r.0 == Efi.Success ==>
      |r.1| == 4 && r.1[0] == Inl(WDT_CTRL_REG) && r.1[2] == Inl(WDT_CTRL_REG)
      && r.1[1].Outl? && r.1[1].port == WDT_CTRL_REG
      && r.1[3].Outl? && r.1[3].port == WDT_CTRL_REG
  {
    if station != bx21a then (Efi.Unsupported, [])
    else
      var t := EffectiveTimeout(timeout);
      (Efi.Success, [Inl(WDT_CTRL_REG), Outl(WDT_CTRL_REG, TimeoutValue(first, t)),
                     Inl(WDT_CTRL_REG), Outl(WDT_CTRL_REG, StartValue(second))])
  }

  /** The first write programs the effective timeout and clears both
      status bits but leaves the start bits as they were read: the
      watchdog is started only by the second write, which sets all three. */
  lemma {:induction false} InitWrites(station: nat, timeout: nat, first: nat, second: nat)
    requires first < TWO_32 && second < TWO_32
    ensures var r := Init(station, station, timeout, first, second);
      TimeoutBits(r.1[1].value) + 1 == EffectiveTimeout(timeout)
      && StatusBits(r.1[1].value) == STATUS_ALL
      && StartBits(r.1[1].value) == StartBits(first)
      && StartBits(r.1[3].value) == START_ALL
  {
    var v := TimeoutValue(first, EffectiveTimeout(timeout));
    StartOfMiddle(v);
    StartOfMiddle(first);
  }
}
