/** The boot loader's side of the environment (env/fatvars.c): reading the
    records from the config partitions, choosing the one to boot, and the
    update protocol's transitions — an in-progress record is skipped, a
    record still TESTING at the next boot is marked FAILED and the one
    before it booted, an INSTALLED record becomes TESTING.  Partition
    enumeration and file access are parameters. */
module FatVars {
  import opened Wrappers
  import opened Bytes
  import opened EnvRecord

  /** `BG_STATUS` values. */
  const BG_SUCCESS: int := 0
  const BG_CONFIG_PARTIALLY_CORRUPTED: int := -100
  const BG_CONFIG_ERROR: int := -110

  /** What the firmware file calls of `save_current_config` report:
      whether enumerating the config partitions succeeds and how many it
      finds, and whether opening, writing and closing the file succeed. */
  datatype SaveIo = SaveIo(enumOk: bool, handles: nat, openOk: bool, writeOk: bool, closeOk: bool)

  /** `save_current_config` for the record `current` (of `n`): refused
      unless exactly `n` config partitions are found and the file opens;
      otherwise the record gets a checksum over everything but its crc
      field and is written.  Returns the status and the records. */
  function SaveCurrentConfig(envs: seq<EnvData>, current: nat, io: SaveIo, crc: Crc): (r: (int, seq<EnvData>))
    requires current < |envs|
    ensures |r.1| == |envs|
    ensures !io.enumOk || io.handles != |envs| || !io.openOk ==> r == (BG_CONFIG_ERROR, envs)
    ensures io.enumOk && io.handles == |envs| && io.openOk ==>
      r.1 == envs[current := WithCrc(envs[current], crc)] &&
      r.0 == (if io.writeOk && io.closeOk then BG_SUCCESS else BG_CONFIG_ERROR)
  {
    if !io.enumOk || io.handles != |envs| || !io.openOk then (BG_CONFIG_ERROR, envs)
    else
      var saved := envs[current := WithCrc(envs[current], crc)];
      (if io.writeOk && io.closeOk then BG_SUCCESS else BG_CONFIG_ERROR, saved)
  }

  // ---------------------------------------------------------------------
  // Reading.

  /** The outcome of reading one config partition's file: it did not open,
      the read failed (leaving what it read, `partial`), or the record was
      read and the file closed (`closeOk`) or not. */
  datatype Slot = OpenFailed | ReadFailed(partial: EnvData) | Read(data: EnvData, closeOk: bool)

  /** The records after the read loop, which partitions were marked
      invalid, and whether a problem degraded the status. */
  datatype Loaded = Loaded(envs: seq<EnvData>, invalid: seq<bool>, degraded: bool)

  /** The record left in the array after reading a slot. */
  function SlotEnv(slot: Slot, before: EnvData): EnvData
  {
    match slot
    case OpenFailed => before
    case ReadFailed(partial) => partial
    case Read(d, _) => d
  }

  /** Whether reading a slot marks its record invalid: a failed read or a
      checksum mismatch. */
  predicate SlotInvalid(slot: Slot, crc: Crc)
  {
    slot.ReadFailed? || (slot.Read? && !CrcOk(slot.data, crc))
  }

  /** Whether a slot degrades the status: anything but a clean read with a
      matching checksum and a clean close. */
  predicate SlotBad(slot: Slot, crc: Crc)
  {
    slot.OpenFailed? || SlotInvalid(slot, crc) || (slot.Read? && !slot.closeOk)
  }

  /** The read loop of `load_config` over the files found, from `i` on.  A
      read error or a checksum mismatch marks the record invalid; a file
      that does not open leaves the record as it was and is not marked. */
  function ReadFrom(slots: seq<Slot>, i: nat, l: Loaded, crc: Crc): (r: Loaded)
    requires i <= |slots| <= |l.envs| == |l.invalid|
    ensures |r.envs| == |l.envs| && |r.invalid| == |l.invalid|
    decreases |slots| - i
  {
    if i == |slots| then l
    else
      ReadFrom(slots, i + 1, ReadSlot(slots, i, l, crc), crc)
  }

  /** One step of the read loop: slot `i` read into the records. */
  function ReadSlot(slots: seq<Slot>, i: nat, l: Loaded, crc: Crc): (r: Loaded)
    requires i < |slots| <= |l.envs| == |l.invalid|
    ensures |r.envs| == |l.envs| && |r.invalid| == |l.invalid|
    ensures forall j :: 0 <= j < |l.envs| && j != i ==> r.envs[j] == l.envs[j] && r.invalid[j] == l.invalid[j]
    ensures r.envs[i] == SlotEnv(slots[i], l.envs[i])
    ensures r.invalid[i] <==> l.invalid[i] || SlotInvalid(slots[i], crc)
    ensures r.degraded <==> l.degraded || SlotBad(slots[i], crc)
  {
    Loaded(l.envs[i := SlotEnv(slots[i], l.envs[i])],
           l.invalid[i := l.invalid[i] || SlotInvalid(slots[i], crc)],
           l.degraded || SlotBad(slots[i], crc))
  }

  /** The read loop from `i` on leaves the records before `i` and past the
      slots alone, puts each slot's record in its place and marks it
      invalid when its read failed or its checksum does not match. */
  lemma {:induction false} ReadFromAt(slots: seq<Slot>, i: nat, l: Loaded, crc: Crc, j: nat)
    requires i <= |slots| <= |l.envs| == |l.invalid| && j < |l.envs|
    ensures var r := ReadFrom(slots, i, l, crc);
      if i <= j < |slots| then
        r.envs[j] == SlotEnv(slots[j], l.envs[j]) && (r.invalid[j] <==> l.invalid[j] || SlotInvalid(slots[j], crc))
      else r.envs[j] == l.envs[j] && r.invalid[j] == l.invalid[j]
    decreases |slots| - i
  {
    if i < |slots| {
      ReadFromAt(slots, i + 1, ReadSlot(slots, i, l, crc), crc, j);
    }
  }

  /** The read loop from `i` on degrades the status exactly when it was
      degraded already or some slot from `i` on is bad. */
  lemma {:induction false} ReadFromDegraded(slots: seq<Slot>, i: nat, l: Loaded, crc: Crc)
    requires i <= |slots| <= |l.envs| == |l.invalid|
    ensures !ReadFrom(slots, i, l, crc).degraded <==> !l.degraded && forall j :: i <= j < |slots| ==> !SlotBad(slots[j], crc)
    decreases |slots| - i
  {
    if i < |slots| {
      var next := ReadSlot(slots, i, l, crc);
      ReadFromDegraded(slots, i + 1, next, crc);
    }
  }

  // ---------------------------------------------------------------------
  // Choosing.

  /** The revision a record competes with: 0 for an invalid one, which
      never wins (the loop compares with `>` from 0). */
  function Eligible(envs: seq<EnvData>, invalid: seq<bool>): (r: seq<nat>)
    requires |envs| == |invalid|
    ensures |r| == |envs|
    ensures forall j :: 0 <= j < |r| ==> r[j] == if invalid[j] then 0 else envs[j].revision as nat
  {
    seq(|envs|, j requires 0 <= j < |envs| => if invalid[j] then 0 else envs[j].revision as nat)
  }

  /** `k` is the first index with the greatest value among the indices
      other than `skip`. */
  predicate FirstMax(revs: seq<nat>, skip: int, k: nat)
  {
    k < |revs| && k != skip &&
    (forall j :: 0 <= j < |revs| && j != skip ==> revs[j] <= revs[k]) &&
    (forall j :: 0 <= j < k && j != skip ==> revs[j] < revs[k])
  }

  /** The runner-up of the selection: the first index with the greatest
      positive value among the others, or 0 when the others are all 0. */
  predicate RunnerUp(revs: seq<nat>, latest: nat, k: nat)
  {
    (k == 0 && forall j :: 0 <= j < |revs| && j != latest ==> revs[j] == 0) ||
    (FirstMax(revs, latest, k) && revs[k] > 0)
  }

  /** The selection loop of `load_config` from index `i` on, with the
      greatest revision so far and its index, and the runner-up's. */
  function SelectFrom(revs: seq<nat>, i: nat, lrev: nat, lidx: nat, prev: nat, pidx: nat): (r: (nat, nat))
    requires 0 < |revs| && i <= |revs|
    requires forall j :: 0 <= j < i ==> revs[j] <= lrev
    requires lrev > 0 ==> lidx < i && revs[lidx] == lrev && forall j :: 0 <= j < lidx ==> revs[j] < lrev
    requires lrev == 0 ==> lidx == 0
    requires forall j :: 0 <= j < i && j != lidx ==> revs[j] <= prev
    requires prev > 0 ==> pidx < i && pidx != lidx && revs[pidx] == prev
    requires prev > 0 ==> forall j :: 0 <= j < pidx && j != lidx ==> revs[j] < prev
    requires prev == 0 ==> pidx == 0
    requires prev <= lrev
    ensures FirstMax(revs, -1, r.0) && RunnerUp(revs, r.0, r.1)
    decreases |revs| - i
  {
    if i == |revs| then (lidx, pidx)
    else if revs[i] > lrev then SelectFrom(revs, i + 1, revs[i], i, lrev, lidx)
    else if revs[i] > prev then SelectFrom(revs, i + 1, lrev, lidx, revs[i], i)
    else SelectFrom(revs, i + 1, lrev, lidx, prev, pidx)
  }

  /** The latest and pre-latest records `load_config` finds. */
  function Select(revs: seq<nat>): (r: (nat, nat))
    requires 0 < |revs|
    ensures FirstMax(revs, -1, r.0) && RunnerUp(revs, r.0, r.1)
  {
    SelectFrom(revs, 0, 0, 0, 0, 0)
  }

  /** There is one latest record and one runner-up. */
  lemma SelectUnique(revs: seq<nat>, skip: int, a: nat, b: nat)
    requires FirstMax(revs, skip, a) && FirstMax(revs, skip, b)
    ensures a == b
  {
    if a < b { FirstMaxBefore(revs, skip, a, b); }
    else if b < a { FirstMaxBefore(revs, skip, b, a); }
  }

  lemma FirstMaxBefore(revs: seq<nat>, skip: int, a: nat, b: nat)
    requires FirstMax(revs, skip, b) && a < b && a != skip
    ensures !FirstMax(revs, skip, a)
  {
    assert revs[a] < revs[b];
  }

  // ---------------------------------------------------------------------
  // load_config.

  /** What the boot loader is handed: the chosen record's kernel path and
      arguments (up to their NUL) and watchdog timeout. */
  datatype LoaderParams = LoaderParams(payloadPath: seq<u16>, payloadOptions: seq<u16>, timeout: nat)

  /** The result of `load_config`: its status, the records as they end,
      the index booted and the parameters (`None` when it fails early). */
  datatype Boot = Boot(status: int, envs: seq<EnvData>, current: nat, params: Option<LoaderParams>)

  /** The parameters of record `i`. */
  function ParamsOf(d: EnvData): (r: LoaderParams)
    ensures r.payloadPath == CStr16(d.kernelfile) && r.payloadOptions == CStr16(d.kernelparams)
    ensures r.timeout == d.watchdog
  {
    LoaderParams(CStr16(d.kernelfile), CStr16(d.kernelparams), d.watchdog)
  }

  /** The transition on the latest record and the index to boot, given the
      latest and runner-up; `save` is what saving reports. */
  function Transition(envs: seq<EnvData>, latest: nat, pre: nat, save: SaveIo, crc: Crc): (r: (seq<EnvData>, nat))
    requires latest < |envs| && pre < |envs|
    ensures |r.0| == |envs|
    ensures forall j :: 0 <= j < |envs| && j != latest ==> r.0[j] == envs[j]
    ensures envs[latest].inProgress == 1 ==> r == (envs, pre)
    ensures envs[latest].inProgress != 1 && envs[latest].ustate == USTATE_TESTING ==>
      r.1 == pre &&
      r.0 == SaveCurrentConfig(envs[latest := envs[latest].(ustate := USTATE_FAILED, revision := REVISION_FAILED)], latest, save, crc).1
    ensures envs[latest].inProgress != 1 && envs[latest].ustate == USTATE_INSTALLED ==>
      r.1 == latest &&
      r.0 == SaveCurrentConfig(envs[latest := envs[latest].(ustate := USTATE_TESTING)], latest, save, crc).1
    ensures envs[latest].inProgress != 1 && envs[latest].ustate != USTATE_TESTING && envs[latest].ustate != USTATE_INSTALLED ==>
      r == (envs, latest)
  {
    var d := envs[latest];
    if d.inProgress == 1 then (envs, pre)
    else if d.ustate == USTATE_TESTING then
      var failed := envs[latest := d.(ustate := USTATE_FAILED, revision := REVISION_FAILED)];
      (SaveCurrentConfig(failed, latest, save, crc).1, pre)
    else if d.ustate == USTATE_INSTALLED then
      var testing := envs[latest := d.(ustate := USTATE_TESTING)];
      (SaveCurrentConfig(testing, latest, save, crc).1, latest)
    else (envs, latest)
  }

  /** `load_config` with `n` records of `mem` user bytes.  `enumOk` and
      `slots` are what enumerating the config partitions and reading
      their files give; `save` is what saving during the transition
      reports (its result is ignored). */
  function LoadConfig(n: nat, mem: nat, enumOk: bool, slots: seq<Slot>, save: SaveIo, crc: Crc): (r: Boot)
    requires 0 < n
    ensures !enumOk || |slots| > n ==> r.status == BG_CONFIG_ERROR && r.params.None?
    ensures enumOk && |slots| <= n ==>
      (r.params.Some? && |r.envs| == n && r.current < n && r.params.value == ParamsOf(r.envs[r.current]))
    ensures enumOk && |slots| <= n ==> (r.status == BG_SUCCESS || r.status == BG_CONFIG_PARTIALLY_CORRUPTED)
    ensures enumOk && |slots| <= n ==>
      (r.status == BG_SUCCESS <==> |slots| == n && forall j :: 0 <= j < |slots| ==> !SlotBad(slots[j], crc))
  {
    if !enumOk || |slots| > n then Boot(BG_CONFIG_ERROR, [], 0, None)
    else
      var l := ReadAll(n, mem, slots, crc);
      var sel := Select(Eligible(l.envs, l.invalid));
      var t := Transition(l.envs, sel.0, sel.1, save, crc);
      Boot(if l.degraded then BG_CONFIG_PARTIALLY_CORRUPTED else BG_SUCCESS, t.0, t.1, Some(ParamsOf(t.0[t.1])))
  }

  /** The records `load_config` reads from the slots and which of them it
      marks invalid. */
  function ReadAll(n: nat, mem: nat, slots: seq<Slot>, crc: Crc): (r: Loaded)
    requires |slots| <= n
    ensures |r.envs| == n && |r.invalid| == n
    ensures forall j :: 0 <= j < |slots| ==>
      r.envs[j] == SlotEnv(slots[j], Zeroed(mem)) && (r.invalid[j] <==> SlotInvalid(slots[j], crc))
    ensures forall j :: |slots| <= j < n ==> r.envs[j] == Zeroed(mem) && !r.invalid[j]
    ensures !r.degraded <==> |slots| == n && forall j :: 0 <= j < |slots| ==> !SlotBad(slots[j], crc)
  {
    if n == 0 then Loaded([], [], false)
    else
      var l := Loaded(seq(n, _ => Zeroed(mem)), seq(n, _ => false), |slots| < n);
      forall j | 0 <= j < n { ReadFromAt(slots, 0, l, crc, j); }
      ReadFromDegraded(slots, 0, l, crc);
      ReadFrom(slots, 0, l, crc)
  }

  /** A record that failed to read or failed its checksum, or that was
      never read, is only chosen when no record has a positive revision
      and it is the first. */
  lemma InvalidNotChosen(n: nat, mem: nat, slots: seq<Slot>, crc: Crc, j: nat)
    requires 0 < n && |slots| <= n && j < n
    requires j >= |slots| || !slots[j].Read? || !CrcOk(slots[j].data, crc)
    requires exists k :: 0 <= k < n && Eligible(ReadAll(n, mem, slots, crc).envs, ReadAll(n, mem, slots, crc).invalid)[k] > 0
    ensures Select(Eligible(ReadAll(n, mem, slots, crc).envs, ReadAll(n, mem, slots, crc).invalid)).0 != j
  {
    var l := ReadAll(n, mem, slots, crc);
    var revs := Eligible(l.envs, l.invalid);
    if j < |slots| && slots[j].OpenFailed? {
      assert l.envs[j] == Zeroed(mem);
    } else if j >= |slots| {
      assert l.envs[j] == Zeroed(mem);
    }
    assert revs[j] == 0;
  }

  // ---------------------------------------------------------------------
  // The update protocol across boots.

  /** The files of `n` partitions that all open, read and close cleanly. */
  function Clean(envs: seq<EnvData>): (r: seq<Slot>)
    ensures |r| == |envs| && forall j :: 0 <= j < |envs| ==> r[j] == Read(envs[j], true)
  {
    seq(|envs|, j requires 0 <= j < |envs| => Read(envs[j], true))
  }

  /** Reading records whose checksums all match keeps them all, marks
      none invalid and degrades nothing. */
  lemma ReadClean(envs: seq<EnvData>, mem: nat, crc: Crc)
    requires 0 < |envs| && forall j :: 0 <= j < |envs| ==> CrcOk(envs[j], crc)
    ensures ReadAll(|envs|, mem, Clean(envs), crc) == Loaded(envs, seq(|envs|, _ => false), false)
  {
    var l := ReadAll(|envs|, mem, Clean(envs), crc);
    assert l.envs == envs;
    assert l.invalid == seq(|envs|, _ => false);
  }

  /** A save that goes through: `n` partitions found, the file opened,
      written and closed. */
  predicate SaveWorks(save: SaveIo, n: nat)
  {
    save.enumOk && save.handles == n && save.openOk && save.writeOk && save.closeOk
  }

  /** A boot from records whose checksums all match succeeds and applies
      the transition to the latest record. */
  lemma BootClean(envs: seq<EnvData>, mem: nat, save: SaveIo, crc: Crc)
    requires 0 < |envs| && forall j :: 0 <= j < |envs| ==> CrcOk(envs[j], crc)
    ensures var sel := Select(Eligible(envs, seq(|envs|, _ => false)));
      var b := LoadConfig(|envs|, mem, true, Clean(envs), save, crc);
      b.status == BG_SUCCESS && (b.envs, b.current) == Transition(envs, sel.0, sel.1, save, crc)
  {
    ReadClean(envs, mem, crc);
  }

  lemma UpdateKeepsCrc(envs: seq<EnvData>, i: nat, d: EnvData, e: seq<EnvData>, crc: Crc)
    requires i < |envs| && e == envs[i := d]
    requires CrcOk(d, crc) && forall j :: 0 <= j < |envs| ==> CrcOk(envs[j], crc)
    ensures forall j :: 0 <= j < |e| ==> CrcOk(e[j], crc)
  {
  }

  lemma UpdateKeepsEligible(envs: seq<EnvData>, i: nat, d: EnvData)
    requires i < |envs| && d.revision == envs[i].revision
    ensures Eligible(envs[i := d], seq(|envs|, _ => false)) == Eligible(envs, seq(|envs|, _ => false))
  {
    var none := seq(|envs|, _ => false);
    assert forall j :: 0 <= j < |envs| ==> Eligible(envs[i := d], none)[j] == Eligible(envs, none)[j];
  }

  /** An installed update gets one try.  The first boot finds the latest
      record INSTALLED, marks it TESTING, saves it and boots it; if the
      next boot reads back the same records, it finds it still TESTING,
      marks it FAILED with revision 0 and boots the runner-up. */
  lemma UpdateTriedOnce(envs: seq<EnvData>, mem: nat, save: SaveIo, crc: Crc)
    requires 0 < |envs| && forall j :: 0 <= j < |envs| ==> CrcOk(envs[j], crc)
    requires SaveWorks(save, |envs|)
    requires var sel := Select(Eligible(envs, seq(|envs|, _ => false)));
      envs[sel.0].inProgress != 1 && envs[sel.0].ustate == USTATE_INSTALLED
    ensures var sel := Select(Eligible(envs, seq(|envs|, _ => false)));
      var first := LoadConfig(|envs|, mem, true, Clean(envs), save, crc);
      var second := LoadConfig(|envs|, mem, true, Clean(first.envs), save, crc);
      first.status == BG_SUCCESS && first.current == sel.0 && first.envs[sel.0].ustate == USTATE_TESTING &&
      second.status == BG_SUCCESS && second.current == sel.1 &&
      second.envs[sel.0].ustate == USTATE_FAILED && second.envs[sel.0].revision == REVISION_FAILED
  {
    var n := |envs|;
    var none := seq(n, _ => false);
    var sel := Select(Eligible(envs, none));
    BootClean(envs, mem, save, crc);
    var first := LoadConfig(n, mem, true, Clean(envs), save, crc);
    var tested := WithCrc(envs[sel.0].(ustate := USTATE_TESTING), crc);
    assert first.envs == envs[sel.0 := tested];
    UpdateKeepsCrc(envs, sel.0, tested, first.envs, crc);
    UpdateKeepsEligible(envs, sel.0, tested);
    BootClean(first.envs, mem, save, crc);
  }
}
