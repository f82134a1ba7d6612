/** The watchdog of the EIO-IS200 embedded controller on Advantech boards
    (drivers/watchdog/eiois200_wdt.c). The controller sits behind an index
    and a data port; its PMC mailbox carries the watchdog commands over a
    command and a data port, with a status handshake before every byte.

    Port I/O is modelled as a trace: each operation returns what it
    computed, the accesses it made in order, and the device answers it did
    not consume (every `inb` consumes one; a device that stopped answering
    reads as 0xff, a floating bus). */
module Eiois200 {
  import opened Wrappers
  import opened Bytes
  import Efi
  import Smbios

  /** One port access or busy wait. */
  datatype IoOp = Out(port: nat, value: byte) | In(port: nat) | Stall(micros: nat)

  /** The effect of a sequence of port accesses. */
  datatype Io<T> = Io(value: T, ops: seq<IoOp>, rest: seq<byte>)

  /** The byte the `i`-th read from now returns. */
  function Answer(answers: seq<byte>, i: nat): byte
  {
    if i < |answers| then answers[i] else 0xff
  }

  /** `inb`: consumes one answer. */
  function Inb(answers: seq<byte>, port: nat): (r: Io<byte>)
    ensures r.ops == [In(port)]
    ensures r.value == Answer(answers, 0)
    ensures forall i: nat :: Answer(r.rest, i) == Answer(answers, i + 1)
  {
    if answers == [] then Io(0xff, [In(port)], []) else Io(answers[0], [In(port)], answers[1..])
  }

  /** The bytes written to `port`, in order. */
  function Sent(ops: seq<IoOp>, port: nat): seq<byte>
  {
    if ops == [] then []
    else (if ops[0].Out? && ops[0].port == port then [ops[0].value] else []) + Sent(ops[1..], port)
  }

  /** Accesses that write nothing. */
  predicate Silent(ops: seq<IoOp>)
  {
    forall i :: 0 <= i < |ops| ==> !ops[i].Out?
  }

  lemma {:induction false} SentAppend(a: seq<IoOp>, b: seq<IoOp>, port: nat)
    ensures Sent(a + b, port) == Sent(a, port) + Sent(b, port)
  {
    if a == [] {
      assert a + b == b;
    } else {
      assert (a + b)[1..] == a[1..] + b;
      SentAppend(a[1..], b, port);
    }
  }

  lemma {:induction false} SilentSent(ops: seq<IoOp>, port: nat)
    requires Silent(ops)
    ensures Sent(ops, port) == []
  {
    if ops != [] {
      SilentSent(ops[1..], port);
    }
  }

  lemma SentOut(p: nat, v: byte, port: nat)
    ensures Sent([Out(p, v)], port) == if p == port then [v] else []
  {
    assert [Out(p, v)][1..] == [];
  }

  // ---------------------------------------------------------------------
  // The super-I/O configuration ports (lines 104-196)
  // ---------------------------------------------------------------------

  const INDEX_PORT: nat := 0x299
  const DATA_PORT: nat := 0x29a
  const MODE_ENTER: byte := 0x87
  const MODE_EXIT: byte := 0xaa
  const CHIPID1: byte := 0x20
  const CHIPID2: byte := 0x21
  const CHIP_ID_200: nat := 0x9610
  const CHIP_ID_211: nat := 0x9620
  const SIOCTRL: byte := 0x23
  const IRQCTRL: byte := 0x70
  const LDAR: byte := 0x30
  const LDAR_LDACT: byte := 1
  const IOBA0H: byte := 0x60
  const IOBA0L: byte := 0x61
  const IOBA1H: byte := 0x62
  const IOBA1L: byte := 0x63
  const LDN: byte := 0x07
  const LDN_PMC1: byte := 0x0d

  /** `eio200_enter`: the unlock sequence. */
  const Enter: seq<IoOp> := [Out(INDEX_PORT, MODE_ENTER), Out(INDEX_PORT, MODE_ENTER)]
  /** `eio200_exit`: the lock sequence. */
  const Exit: seq<IoOp> := [Out(INDEX_PORT, MODE_EXIT)]

  /** `eio200_read`: select a configuration register, read it. */
  function ReadIndex(answers: seq<byte>, index: byte): (r: Io<byte>)
    ensures r.ops == [Out(INDEX_PORT, index), In(DATA_PORT)]
    ensures r.value == Answer(answers, 0)
    ensures forall i: nat :: Answer(r.rest, i) == Answer(answers, i + 1)
  {
    var d := Inb(answers, DATA_PORT);
    Io(d.value, [Out(INDEX_PORT, index)] + d.ops, d.rest)
  }

  /** `eio200_write`: select a configuration register, write it. */
  function WriteIndex(index: byte, value: byte): seq<IoOp>
  {
    [Out(INDEX_PORT, index), Out(DATA_PORT, value)]
  }

  /** The chip id the two id reads return. */
  function ChipId(answers: seq<byte>): nat
  {
    Answer(answers, 0) * 256 + Answer(answers, 1)
  }

  /** `eio200_find`: unlock, read the chip id; a chip that is neither an
      EIO-IS200 nor an EIO-IS211 is locked again and not used. */
  function Find(answers: seq<byte>): (r: Io<bool>)
    ensures r.value <==> ChipId(answers) == CHIP_ID_200 || ChipId(answers) == CHIP_ID_211
    ensures |r.ops| >= 2 && r.ops[..2] == Enter
    ensures !r.value ==> r.ops[|r.ops| - 1] == Out(INDEX_PORT, MODE_EXIT)
    ensures forall i: nat :: Answer(r.rest, i) == Answer(answers, i + 2)
  {
    var id1 := ReadIndex(answers, CHIPID1);
    var id2 := ReadIndex(id1.rest, CHIPID2);
    var chip := id1.value * 256 + id2.value;
    var found := chip == CHIP_ID_200 || chip == CHIP_ID_211;
    Io(found, Enter + id1.ops + id2.ops + (if found then [] else Exit), id2.rest)
  }

  /** `reg |= EIOIS200_SIOCTRL_SIOEN`: bit 0 set, the other bits kept. */
  predicate SetsEnable(before: byte, after: byte)
  {
    after % 2 == 1 && after / 2 == before / 2
  }

  /** `eio200_enable`: read the control register and write it back with
      the enable bit set. */
  function Enable(answers: seq<byte>): (r: Io<()>)
    ensures |r.ops| == 4 && r.ops[..2] == [Out(INDEX_PORT, SIOCTRL), In(DATA_PORT)]
    ensures r.ops[3].Out? && r.ops[2..] == WriteIndex(SIOCTRL, r.ops[3].value)
    ensures SetsEnable(Answer(answers, 0), r.ops[3].value)
    ensures forall i: nat :: Answer(r.rest, i) == Answer(answers, i + 1)
  {
    var reg := ReadIndex(answers, SIOCTRL);
    var value: byte := if reg.value % 2 == 1 then reg.value else reg.value + 1;
    Io((), reg.ops + WriteIndex(SIOCTRL, value), reg.rest)
  }

  /** The PMC mailbox: its command (and status) port and its data port. */
  datatype PmcPorts = PmcPorts(cmd: nat, data: nat)

  /** `eio200_read_pmc_ports`: select and activate logical device PMC1,
      read its two 16-bit base addresses high byte first, mask its
      interrupt. */
  function ReadPmcPorts(answers: seq<byte>): (r: Io<PmcPorts>)
    ensures r.value.data == Answer(answers, 0) * 256 + Answer(answers, 1)
    ensures r.value.cmd == Answer(answers, 2) * 256 + Answer(answers, 3)
    ensures forall i: nat :: Answer(r.rest, i) == Answer(answers, i + 4)
  {
    var h0 := ReadIndex(answers, IOBA0H);
    var l0 := ReadIndex(h0.rest, IOBA0L);
    var h1 := ReadIndex(l0.rest, IOBA1H);
    var l1 := ReadIndex(h1.rest, IOBA1L);
    Io(PmcPorts(h1.value * 256 + l1.value, h0.value * 256 + l0.value),
       WriteIndex(LDN, LDN_PMC1) + WriteIndex(LDAR, LDAR_LDACT)
       + h0.ops + l0.ops + h1.ops + l1.ops + WriteIndex(IRQCTRL, 0),
       l1.rest)
  }

  // ---------------------------------------------------------------------
  // The PMC handshake (lines 198-322)
  // ---------------------------------------------------------------------

  const MAX_STATUS_RETRY: nat := 25
  const POLL_STALL_US: nat := 200
  const CLEAR_STALL_US: nat := 100

  /** Which status bit a transfer waits for: the input buffer to drain
      before a write, the output buffer to fill before a read. */
  datatype Flag = Ibf | Obf

  predicate Ready(status: byte, flag: Flag)
  {
    match flag
    case Ibf => (status / 2) % 2 == 0
    case Obf => status % 2 == 1
  }

  /** `pmc_wait_iobf` from poll `n` on: poll the status port, stalling
      200 microseconds after each poll that is not ready, and give up
      with a device error after 25 polls. */
  function WaitIobf(answers: seq<byte>, pmc: PmcPorts, flag: Flag, n: nat): (r: Io<Efi.Status>)
    requires n <= MAX_STATUS_RETRY
    ensures r.value == Efi.Success || r.value == Efi.DeviceError
    ensures Silent(r.ops)
    decreases MAX_STATUS_RETRY - n
  {
    if n == MAX_STATUS_RETRY then Io(Efi.DeviceError, [], answers)
    else
      var s := Inb(answers, pmc.cmd);
      if Ready(s.value, flag) then Io(Efi.Success, s.ops, s.rest)
      else
        var w := WaitIobf(s.rest, pmc, flag, n + 1);
        Io(w.value, s.ops + [Stall(POLL_STALL_US)] + w.ops, w.rest)
  }

  /** The wait succeeds exactly when one of the polls it has left sees
      the flag. */
  lemma {:induction false} WaitReady(answers: seq<byte>, pmc: PmcPorts, flag: Flag, n: nat)
    requires n <= MAX_STATUS_RETRY
    ensures WaitIobf(answers, pmc, flag, n).value == Efi.Success
      <==> exists i: nat :: i < MAX_STATUS_RETRY - n && Ready(Answer(answers, i), flag)
    decreases MAX_STATUS_RETRY - n
  {
    if n < MAX_STATUS_RETRY {
      var s := Inb(answers, pmc.cmd);
      if !Ready(s.value, flag) {
        WaitReady(s.rest, pmc, flag, n + 1);
        if WaitIobf(answers, pmc, flag, n).value == Efi.Success {
          var j: nat :| j < MAX_STATUS_RETRY - (n + 1) && Ready(Answer(s.rest, j), flag);
          assert Ready(Answer(answers, j + 1), flag);
        } else {
          forall i: nat | i < MAX_STATUS_RETRY - n
            ensures !Ready(Answer(answers, i), flag)
          {
            if i > 0 {
              assert Answer(s.rest, i - 1) == Answer(answers, i);
            }
          }
        }
      } else {
        assert Ready(Answer(answers, 0), flag);
      }
    }
  }

  /** A wait that gives up has polled the status port once per remaining
      retry, each poll followed by a 200 microsecond stall. */
  lemma {:induction false} WaitGivesUp(answers: seq<byte>, pmc: PmcPorts, flag: Flag, n: nat)
    requires n <= MAX_STATUS_RETRY
    requires WaitIobf(answers, pmc, flag, n).value == Efi.DeviceError
    ensures WaitIobf(answers, pmc, flag, n).ops == Polls(pmc.cmd, MAX_STATUS_RETRY - n)
    decreases MAX_STATUS_RETRY - n
  {
    if n < MAX_STATUS_RETRY {
      var rest := Inb(answers, pmc.cmd).rest;
      WaitStep(answers, pmc, flag, n);
      WaitGivesUp(rest, pmc, flag, n + 1);
    }
  }

  /** A poll that does not see the flag is followed by a stall and the
      rest of the wait, which gives up too. */
  lemma WaitStep(answers: seq<byte>, pmc: PmcPorts, flag: Flag, n: nat)
    requires n < MAX_STATUS_RETRY
    requires WaitIobf(answers, pmc, flag, n).value == Efi.DeviceError
    ensures var w := WaitIobf(Inb(answers, pmc.cmd).rest, pmc, flag, n + 1);
      w.value == Efi.DeviceError &&
      WaitIobf(answers, pmc, flag, n).ops == [In(pmc.cmd), Stall(POLL_STALL_US)] + w.ops
  {
    var s := Inb(answers, pmc.cmd);
    assert !Ready(s.value, flag);
  }

  /** `k` polls of the status port, each followed by a stall. */
  function Polls(port: nat, k: nat): (r: seq<IoOp>)
    ensures |r| == 2 * k
  {
    if k == 0 then [] else [In(port), Stall(POLL_STALL_US)] + Polls(port, k - 1)
  }

  /** Poll `m` of `k` reads the status port, then stalls. */
  lemma {:induction false} PollsAt(port: nat, k: nat, m: nat)
    requires m < k
    ensures Polls(port, k)[2 * m] == In(port) && Polls(port, k)[2 * m + 1] == Stall(POLL_STALL_US)
  {
    if m > 0 {
      PollsAt(port, k - 1, m - 1);
      var p := Polls(port, k - 1);
      assert Polls(port, k) == [In(port), Stall(POLL_STALL_US)] + p;
      assert Polls(port, k)[2 * m] == p[2 * (m - 1)];
      assert Polls(port, k)[2 * m + 1] == p[2 * (m - 1) + 1];
    }
  }

  /** `pmc_outb`: wait for the input buffer to drain, then write. */
  function PmcOutb(answers: seq<byte>, pmc: PmcPorts, value: byte, port: nat): (r: Io<Efi.Status>)
    ensures r.value == Efi.Success || r.value == Efi.DeviceError
  {
    var w := WaitIobf(answers, pmc, Ibf, 0);
    if w.value != Efi.Success then w
    else Io(Efi.Success, w.ops + [Out(port, value)], w.rest)
  }

  /** Consecutive `pmc_outb`s of `bytes` to `port`, stopping at the first
      error. */
  function Send(answers: seq<byte>, pmc: PmcPorts, bytes: seq<byte>, port: nat): (r: Io<Efi.Status>)
    ensures r.value == Efi.Success || r.value == Efi.DeviceError
    decreases |bytes|
  {
    if bytes == [] then Io(Efi.Success, [], answers)
    else
      var o := PmcOutb(answers, pmc, bytes[0], port);
      if o.value != Efi.Success then o
      else
        var s := Send(o.rest, pmc, bytes[1..], port);
        Io(s.value, o.ops + s.ops, s.rest)
  }

  lemma PmcOutbSends(answers: seq<byte>, pmc: PmcPorts, value: byte, port: nat, q: nat)
    ensures var r := PmcOutb(answers, pmc, value, port);
      Sent(r.ops, q) == if r.value == Efi.Success && q == port then [value] else []
  {
    var w := WaitIobf(answers, pmc, Ibf, 0);
    SilentSent(w.ops, q);
    if w.value == Efi.Success {
      SentAppend(w.ops, [Out(port, value)], q);
      SentOut(port, value, q);
    }
  }

  /** What `Send` writes: the bytes, in order, to `port` alone; all of
      them when it succeeds, a prefix when it fails. */
  lemma {:induction false} SendSends(answers: seq<byte>, pmc: PmcPorts, bytes: seq<byte>, port: nat, q: nat)
    ensures var r := Send(answers, pmc, bytes, port);
      && (q != port ==> Sent(r.ops, q) == [])
      && (q == port ==> Sent(r.ops, q) <= bytes)
      && (q == port && r.value == Efi.Success ==> Sent(r.ops, q) == bytes)
    decreases |bytes|
  {
    if bytes != [] {
      var o := PmcOutb(answers, pmc, bytes[0], port);
      PmcOutbSends(answers, pmc, bytes[0], port, q);
      if o.value == Efi.Success {
        var s := Send(o.rest, pmc, bytes[1..], port);
        SendSends(o.rest, pmc, bytes[1..], port, q);
        SentAppend(o.ops, s.ops, q);
        ConsPrefix(bytes, Sent(s.ops, q));
      }
    }
  }

  /** A prefix of a sequence's tail, after its head, is a prefix of it. */
  lemma ConsPrefix(b: seq<byte>, x: seq<byte>)
    requires b != []
    ensures x <= b[1..] ==> [b[0]] + x <= b
    ensures x == b[1..] ==> [b[0]] + x == b
  {
    assert b == [b[0]] + b[1..];
  }

  /** Reads of the payload from byte `n` on: each waits for the output
      buffer to fill, then reads the data port; stops at the first error. */
  function Receive(answers: seq<byte>, pmc: PmcPorts, payload: seq<byte>, n: nat): (r: Io<(Efi.Status, seq<byte>)>)
    requires n <= |payload|
    ensures r.value.0 == Efi.Success || r.value.0 == Efi.DeviceError
    ensures |r.value.1| == |payload|
    ensures Silent(r.ops)
    decreases |payload| - n
  {
    if n == |payload| then Io((Efi.Success, payload), [], answers)
    else
      var w := WaitIobf(answers, pmc, Obf, 0);
      if w.value != Efi.Success then Io((w.value, payload), w.ops, w.rest)
      else
        var d := Inb(w.rest, pmc.data);
        var k := Receive(d.rest, pmc, payload[n := d.value], n + 1);
        Io(k.value, w.ops + d.ops + k.ops, k.rest)
  }

  /** `pmc_clear`: with the input buffer full, drain one stale byte from
      the data port and stall 100 microseconds. It cannot fail. */
  function Clear(answers: seq<byte>, pmc: PmcPorts): (r: Io<Efi.Status>)
    ensures r.value == Efi.Success
    ensures Silent(r.ops)
  {
    var s := Inb(answers, pmc.cmd);
    if (s.value / 2) % 2 == 0 then Io(Efi.Success, s.ops, s.rest)
    else
      var d := Inb(s.rest, pmc.data);
      Io(Efi.Success, s.ops + d.ops + [Stall(CLEAR_STALL_US)], d.rest)
  }

  /** Bit 0 of a command: the payload is read, not written. */
  predicate IsRead(cmd: byte)
  {
    cmd % 2 == 1
  }

  /** The payload stage of `pmc_cmd_exec` (lines 305-314): read the
      payload for a read command, write it otherwise. */
  function Transfer(answers: seq<byte>, pmc: PmcPorts, cmd: byte, payload: seq<byte>)
    : (r: Io<(Efi.Status, seq<byte>)>)
    ensures r.value.0 == Efi.Success || r.value.0 == Efi.DeviceError
    ensures |r.value.1| == |payload|
    ensures !IsRead(cmd) ==> r.value.1 == payload
  {
    if IsRead(cmd) then Receive(answers, pmc, payload, 0)
    else
      var t := Send(answers, pmc, payload, pmc.data);
      Io((t.value, payload), t.ops, t.rest)
  }

  /** `pmc_cmd_exec` after the command byte: the control code, the device
      id and the payload size as data, then the payload. */
  function Exchange(answers: seq<byte>, pmc: PmcPorts, cmd: byte, ctl: byte, devid: byte, payload: seq<byte>)
    : (r: Io<(Efi.Status, seq<byte>)>)
    requires |payload| < 256
    ensures r.value.0 == Efi.Success || r.value.0 == Efi.DeviceError
    ensures |r.value.1| == |payload|
    ensures !IsRead(cmd) ==> r.value.1 == payload
  {
    var h := Send(answers, pmc, [ctl, devid, |payload| as byte], pmc.data);
    if h.value != Efi.Success then Io((h.value, payload), h.ops, h.rest)
    else
      var t := Transfer(h.rest, pmc, cmd, payload);
      Io(t.value, h.ops + t.ops, t.rest)
  }

  /** `pmc_cmd_exec`: clear, send the command, then the control code, the
      device id and the payload size as data, then transfer the payload;
      the first error ends the exchange. The result carries the status
      and the payload as it stands afterwards. */
  function CmdExec(answers: seq<byte>, pmc: PmcPorts, cmd: byte, ctl: byte, devid: byte, payload: seq<byte>)
    : (r: Io<(Efi.Status, seq<byte>)>)
    requires |payload| < 256
    ensures r.value.0 == Efi.Success || r.value.0 == Efi.DeviceError
    ensures |r.value.1| == |payload|
    ensures !IsRead(cmd) ==> r.value.1 == payload
  {
    var c := Clear(answers, pmc);
    var k := Send(c.rest, pmc, [cmd], pmc.cmd);
    if k.value != Efi.Success then Io((k.value, payload), c.ops + k.ops, k.rest)
    else
      var x := Exchange(k.rest, pmc, cmd, ctl, devid, payload);
      Io(x.value, c.ops + k.ops + x.ops, x.rest)
  }

  /** The data an exchange means to send after its command byte: the
      control code, the device id, the size and, for a write, the
      payload. */
  function Data(cmd: byte, ctl: byte, devid: byte, payload: seq<byte>): seq<byte>
    requires |payload| < 256
  {
    [ctl, devid, |payload| as byte] + (if IsRead(cmd) then [] else payload)
  }

  /** The bytes an exchange means to write to port `q`: the command byte
      to the command port, its data to the data port, nothing anywhere
      else. */
  function Intended(pmc: PmcPorts, cmd: byte, ctl: byte, devid: byte, payload: seq<byte>, q: nat): seq<byte>
    requires |payload| < 256
  {
    if q == pmc.cmd then [cmd]
    else if q == pmc.data then Data(cmd, ctl, devid, payload)
    else []
  }

  lemma TransferSends(answers: seq<byte>, pmc: PmcPorts, cmd: byte, payload: seq<byte>, q: nat)
    ensures var r := Transfer(answers, pmc, cmd, payload);
      && Sent(r.ops, q) <= (if q == pmc.data && !IsRead(cmd) then payload else [])
      && (r.value.0 == Efi.Success ==> Sent(r.ops, q) == (if q == pmc.data && !IsRead(cmd) then payload else []))
  {
    if IsRead(cmd) {
      SilentSent(Receive(answers, pmc, payload, 0).ops, q);
    } else {
      SendSends(answers, pmc, payload, pmc.data, q);
    }
  }

  lemma ExchangeSends(answers: seq<byte>, pmc: PmcPorts, cmd: byte, ctl: byte, devid: byte, payload: seq<byte>, q: nat)
    requires |payload| < 256
    ensures var r := Exchange(answers, pmc, cmd, ctl, devid, payload);
      && Sent(r.ops, q) <= (if q == pmc.data then Data(cmd, ctl, devid, payload) else [])
      && (r.value.0 == Efi.Success ==> Sent(r.ops, q) == (if q == pmc.data then Data(cmd, ctl, devid, payload) else []))
  {
    var header := [ctl, devid, |payload| as byte];
    var h := Send(answers, pmc, header, pmc.data);
    SendSends(answers, pmc, header, pmc.data, q);
    if h.value == Efi.Success {
      var t := Transfer(h.rest, pmc, cmd, payload);
      TransferSends(h.rest, pmc, cmd, payload, q);
      SentAppend(h.ops, t.ops, q);
    }
  }

  /** An exchange writes a prefix of what it means to write to each port,
      and all of it when it completes. */
  lemma CmdExecSends(answers: seq<byte>, pmc: PmcPorts, cmd: byte, ctl: byte, devid: byte, payload: seq<byte>, q: nat)
    requires |payload| < 256
    requires pmc.cmd != pmc.data
    ensures var r := CmdExec(answers, pmc, cmd, ctl, devid, payload);
      && Sent(r.ops, q) <= Intended(pmc, cmd, ctl, devid, payload, q)
      && (r.value.0 == Efi.Success ==> Sent(r.ops, q) == Intended(pmc, cmd, ctl, devid, payload, q))
  {
    var c := Clear(answers, pmc);
    SilentSent(c.ops, q);
    var k := Send(c.rest, pmc, [cmd], pmc.cmd);
    SendSends(c.rest, pmc, [cmd], pmc.cmd, q);
    SentAppend(c.ops, k.ops, q);
    if k.value == Efi.Success {
      var x := Exchange(k.rest, pmc, cmd, ctl, devid, payload);
      ExchangeSends(k.rest, pmc, cmd, ctl, devid, payload, q);
      SentAppend(c.ops + k.ops, x.ops, q);
    }
  }

  // ---------------------------------------------------------------------
  // The watchdog commands (lines 324-371)
  // ---------------------------------------------------------------------

  const CMD_WRITE: byte := 0x2a
  const CMD_READ: byte := 0x2b
  const CTRL_START: byte := 0x01
  const REG_STATUS: byte := 0x00
  const REG_CONTROL: byte := 0x02
  const REG_RESET_EVT_TIME: byte := 0x14
  const MIN_TIMEOUT_MS: nat := 1000
  const MAX_TIMEOUT_MS: nat := 32767000

  /** The clamp of `pmc_wdt_set_reset_timeout`. */
  function ClampTimeout(msec: nat): (r: nat)
    ensures MIN_TIMEOUT_MS <= r <= MAX_TIMEOUT_MS
    ensures MIN_TIMEOUT_MS <= msec <= MAX_TIMEOUT_MS ==> r == msec
    ensures msec < MIN_TIMEOUT_MS ==> r == MIN_TIMEOUT_MS
    ensures msec > MAX_TIMEOUT_MS ==> r == MAX_TIMEOUT_MS
  {
    if msec < MIN_TIMEOUT_MS then MIN_TIMEOUT_MS
    else if msec > MAX_TIMEOUT_MS then MAX_TIMEOUT_MS
    else msec
  }

  /** The four payload bytes of the reset timeout, least significant
      first: they decode to the clamped timeout. */
  function TimeoutPayload(msec: nat): (r: seq<byte>)
    ensures |r| == 4 && Le32At(r, 0) == ClampTimeout(msec)
  {
    var m := ClampTimeout(msec);
    Le32RoundTrip(m);
    Le32Bytes(m)
  }

  /** `pmc_wdt_status`: a one-byte read of the status register. The
      byte the driver reads into starts out as 0 here. */
  function StatusRead(answers: seq<byte>, pmc: PmcPorts): (r: Io<(Efi.Status, seq<byte>)>)
    ensures |r.value.1| == 1
  {
    CmdExec(answers, pmc, CMD_READ, REG_STATUS, 0, [0])
  }

  /** The watchdog is available and resets the board. */
  predicate Accepted(status: byte)
  {
    status % 2 == 1 && status >= 0x80
  }

  /** `timeout * 1000` passed as a `UINT32`: the product wraps. */
  function Millis(timeout: nat): (r: nat)
    ensures r < TWO_32
    ensures timeout * 1000 < TWO_32 ==> r == timeout * 1000
  {
    (timeout * 1000) % TWO_32
  }

  /** Lines 452-456 of `init`: set the reset timeout, then start. */
  function Arm(answers: seq<byte>, pmc: PmcPorts, timeout: nat): (r: Io<Efi.Status>)
    ensures r.value == Efi.Success || r.value == Efi.DeviceError
  {
    var t := CmdExec(answers, pmc, CMD_WRITE, REG_RESET_EVT_TIME, 0, TimeoutPayload(Millis(timeout)));
    if t.value.0 != Efi.Success then Io(t.value.0, t.ops, t.rest)
    else
      var s := CmdExec(t.rest, pmc, CMD_WRITE, REG_CONTROL, 0, [CTRL_START]);
      Io(s.value.0, t.ops + s.ops, s.rest)
  }

  /** Lines 438-456 of `init`: read the status, refuse an unknown
      watchdog, set the reset timeout, start the watchdog. */
  function Program(answers: seq<byte>, pmc: PmcPorts, timeout: nat): (r: Io<Efi.Status>)
    ensures r.value in {Efi.Success, Efi.DeviceError, Efi.Unsupported}
    ensures r.value == Efi.Success ==>
      StatusRead(answers, pmc).value.0 == Efi.Success && Accepted(StatusRead(answers, pmc).value.1[0])
  {
    var st := StatusRead(answers, pmc);
    if st.value.0 != Efi.Success then Io(st.value.0, st.ops, st.rest)
    else if !Accepted(st.value.1[0]) then Io(Efi.Unsupported, st.ops, st.rest)
    else
      var a := Arm(st.rest, pmc, timeout);
      Io(a.value, st.ops + a.ops, a.rest)
  }

  lemma ArmSends(answers: seq<byte>, pmc: PmcPorts, timeout: nat, q: nat)
    requires pmc.cmd != pmc.data
    requires Arm(answers, pmc, timeout).value == Efi.Success
    ensures Sent(Arm(answers, pmc, timeout).ops, q)
      == Intended(pmc, CMD_WRITE, REG_RESET_EVT_TIME, 0, TimeoutPayload(Millis(timeout)), q)
         + Intended(pmc, CMD_WRITE, REG_CONTROL, 0, [CTRL_START], q)
  {
    var payload := TimeoutPayload(Millis(timeout));
    var t := CmdExec(answers, pmc, CMD_WRITE, REG_RESET_EVT_TIME, 0, payload);
    var s := CmdExec(t.rest, pmc, CMD_WRITE, REG_CONTROL, 0, [CTRL_START]);
    CmdExecSends(answers, pmc, CMD_WRITE, REG_RESET_EVT_TIME, 0, payload, q);
    CmdExecSends(t.rest, pmc, CMD_WRITE, REG_CONTROL, 0, [CTRL_START], q);
    SentAppend(t.ops, s.ops, q);
  }

  lemma ProgramSendsTo(answers: seq<byte>, pmc: PmcPorts, timeout: nat, q: nat)
    requires pmc.cmd != pmc.data
    requires Program(answers, pmc, timeout).value == Efi.Success
    ensures Sent(Program(answers, pmc, timeout).ops, q)
      == Intended(pmc, CMD_READ, REG_STATUS, 0, [0], q)
         + Intended(pmc, CMD_WRITE, REG_RESET_EVT_TIME, 0, TimeoutPayload(Millis(timeout)), q)
         + Intended(pmc, CMD_WRITE, REG_CONTROL, 0, [CTRL_START], q)
  {
    var st := StatusRead(answers, pmc);
    var a := Arm(st.rest, pmc, timeout);
    assert st.value.0 == Efi.Success && Accepted(st.value.1[0]);
    assert Program(answers, pmc, timeout).ops == st.ops + a.ops;
    CmdExecSends(answers, pmc, CMD_READ, REG_STATUS, 0, [0], q);
    ArmSends(st.rest, pmc, timeout, q);
    SentAppend(st.ops, a.ops, q);
  }

  /** What the three commands of a start mean to write to the command and
      the data port. */
  lemma StartIntended(pmc: PmcPorts, payload: seq<byte>)
    requires pmc.cmd != pmc.data && |payload| == 4
    ensures Intended(pmc, CMD_READ, REG_STATUS, 0, [0], pmc.cmd)
            + Intended(pmc, CMD_WRITE, REG_RESET_EVT_TIME, 0, payload, pmc.cmd)
            + Intended(pmc, CMD_WRITE, REG_CONTROL, 0, [CTRL_START], pmc.cmd)
            == [CMD_READ, CMD_WRITE, CMD_WRITE]
    ensures Intended(pmc, CMD_READ, REG_STATUS, 0, [0], pmc.data)
            + Intended(pmc, CMD_WRITE, REG_RESET_EVT_TIME, 0, payload, pmc.data)
            + Intended(pmc, CMD_WRITE, REG_CONTROL, 0, [CTRL_START], pmc.data)
            == [REG_STATUS, 0, 1] + [REG_RESET_EVT_TIME, 0, 4] + payload + [REG_CONTROL, 0, 1, CTRL_START]
  {
  }

  /** A successful start sent exactly three commands (status read, timeout
      write, start) and, as data, their three headers with the clamped
      timeout and the start flag as payloads. */
  lemma ProgramSends(answers: seq<byte>, pmc: PmcPorts, timeout: nat)
    requires pmc.cmd != pmc.data
    requires Program(answers, pmc, timeout).value == Efi.Success
    ensures Sent(Program(answers, pmc, timeout).ops, pmc.cmd) == [CMD_READ, CMD_WRITE, CMD_WRITE]
    ensures Sent(Program(answers, pmc, timeout).ops, pmc.data)
      == [REG_STATUS, 0, 1] + [REG_RESET_EVT_TIME, 0, 4] + TimeoutPayload(Millis(timeout))
         + [REG_CONTROL, 0, 1, CTRL_START]
  {
    ProgramSendsTo(answers, pmc, timeout, pmc.cmd);
    ProgramSendsTo(answers, pmc, timeout, pmc.data);
    StartIntended(pmc, TimeoutPayload(Millis(timeout)));
  }

  // ---------------------------------------------------------------------
  // init (lines 373-461)
  // ---------------------------------------------------------------------

  const SMBIOS_TYPE_BASEBOARD: nat := 2
  /** "Advantech Co Ltd" */
  const ADV_MANUF: seq<byte> :=
    [0x41, 0x64, 0x76, 0x61, 0x6e, 0x74, 0x65, 0x63, 0x68, 0x20, 0x43, 0x6f, 0x20, 0x4c, 0x74, 0x64]
  /** "SOM-6872" */
  const ADV_PRODUCT: seq<byte> := [0x53, 0x4f, 0x4d, 0x2d, 0x36, 0x38, 0x37, 0x32]

  /** Lines 420-461 of `init`: find the controller, enable it, locate
      its PMC mailbox, program the watchdog, lock the controller. */
  function Probe(answers: seq<byte>, timeout: nat): (r: Io<Efi.Status>)
    ensures r.value == Efi.Success ==> ChipId(answers) == CHIP_ID_200 || ChipId(answers) == CHIP_ID_211
    // every way out locks the controller the probe unlocked
    ensures |r.ops| >= 2 && r.ops[..2] == Enter && r.ops[|r.ops| - 1] == Out(INDEX_PORT, MODE_EXIT)
  {
    var f := Find(answers);
    if !f.value then Io(Efi.Unsupported, f.ops, f.rest)
    else
      var e := Enable(f.rest);
      var p := ReadPmcPorts(e.rest);
      var g := Program(p.rest, p.value, timeout);
      var mid := e.ops + p.ops + g.ops;
      Bracketed(f.ops, mid);
      Io(g.value, f.ops + mid + Exit, g.rest)
  }

  /** Operations that start by unlocking, followed by anything and the
      lock sequence, start by unlocking and end locked. */
  lemma Bracketed(a: seq<IoOp>, mid: seq<IoOp>)
    requires |a| >= 2 && a[..2] == Enter
    ensures var s := a + mid + Exit; |s| >= 2 && s[..2] == Enter && s[|s| - 1] == Out(INDEX_PORT, MODE_EXIT)
  {
    var s := a + mid + Exit;
    assert s[..2] == a[..2];
  }

  /** The watchdog probe `init`. The SMBIOS table is its structure area and
      structure count, or the error of looking it up; `manufacturer` and
      `product` are strings 1 and 2 of the baseboard structure as the
      firmware library returns them. Nothing comes back when the
      structure walk runs past the table. */
  function Init(probedBefore: bool, table: Result<(seq<byte>, nat), Efi.Status>,
                manufacturer: Option<seq<byte>>, product: Option<seq<byte>>,
                answers: seq<byte>, timeout: nat): (r: Option<Io<Efi.Status>>)
    requires table.Failure? ==> table.error.IsError()
    ensures probedBefore ==> r == Some(Io(Efi.Unsupported, [], answers))
    ensures !probedBefore && table.Failure? ==> r == Some(Io(table.error, [], answers))
    ensures r.Some? && r.value.value == Efi.Success ==>
      && manufacturer == Some(ADV_MANUF) && product == Some(ADV_PRODUCT)
      && (ChipId(answers) == CHIP_ID_200 || ChipId(answers) == CHIP_ID_211)
    ensures r.Some? && r.value.ops != [] ==> r.value == Probe(answers, timeout)
  {
    if probedBefore then Some(Io(Efi.Unsupported, [], answers))
    else
      match table
      case Failure(e) => Some(Io(e, [], answers))
      case Success((t, count)) =>
        match Smbios.FindStruct(t, count, SMBIOS_TYPE_BASEBOARD)
        case Overrun => None
        case NotFound => Some(Io(Efi.Unsupported, [], answers))
        case Found(_) =>
          if manufacturer != Some(ADV_MANUF) || product != Some(ADV_PRODUCT) then
            Some(Io(Efi.Unsupported, [], answers))
          else
            Some(Probe(answers, timeout))
  }
}
