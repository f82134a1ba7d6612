/** Finding the config partitions (env/env_config_partitions.c): every
    FAT partition of every disk is a candidate, named after its device;
    those holding an environment file fill the output in the order they
    are found, and there must be exactly as many as there are records.
    The partition table scan (libparted) is given as data and looking for
    the file on a partition is a parameter. */
module ConfigPartitions {
  import opened Wrappers
  import opened Bytes
  import opened CLib

  /** A partition: its file-system name (`None` when it has none) and its
      number. */
  datatype Part = Part(fsType: Option<seq<byte>>, num: nat)

  /** A device: its path and its partitions, `None` when no disk label can
      be read from it. */
  datatype Device = Device(path: seq<byte>, parts: Option<seq<Part>>)

  /** The size of the `devpath` buffer. */
  const DEVPATH_SIZE: nat := 4096

  predicate HasPrefix(p: seq<byte>, s: seq<byte>)
  {
    |p| <= |s| && s[..|p|] == p
  }

  /** The file systems a config partition may have. */
  predicate IsFat(p: Part)
  {
    p.fsType.Some? &&
    (p.fsType.value == Ascii("fat12") || p.fsType.value == Ascii("fat16") || p.fsType.value == Ascii("fat32"))
  }

  /** Devices whose partition names put a `p` between device and number. */
  predicate NeedsP(path: seq<byte>)
  {
    HasPrefix(Ascii("/dev/mmcblk"), path) || HasPrefix(Ascii("/dev/loop"), path) || HasPrefix(Ascii("/dev/nvme"), path)
  }

  /** The device path of partition `num` of the device at `path`, as
      `snprintf` into the 4096-byte buffer leaves it. */
  function DevPath(path: seq<byte>, num: nat): (r: seq<byte>)
    ensures |r| < DEVPATH_SIZE
    ensures |path| + 1 + |Decimal(num)| < DEVPATH_SIZE ==>
      r == if NeedsP(path) then path + [112] + Decimal(num) else path + Decimal(num)
  {
    var full := if NeedsP(path) then path + [112] + Decimal(num) else path + Decimal(num);
    if |full| < DEVPATH_SIZE then full else full[..DEVPATH_SIZE - 1]
  }

  /** The candidate device paths of one device's partitions, from the
      `i`-th on: only FAT partitions. */
  function PartPaths(path: seq<byte>, parts: seq<Part>, i: nat): (r: seq<seq<byte>>)
    requires i <= |parts|
    ensures |r| <= |parts| - i
    decreases |parts| - i
  {
    if i == |parts| then []
    else if IsFat(parts[i]) then [DevPath(path, parts[i].num)] + PartPaths(path, parts, i + 1)
    else PartPaths(path, parts, i + 1)
  }

  /** The candidates of all devices from the `i`-th on, in the order the
      two loops visit them. */
  function Candidates(devs: seq<Device>, i: nat): seq<seq<byte>>
    requires i <= |devs|
    decreases |devs| - i
  {
    if i == |devs| then []
    else match devs[i].parts
      case None => Candidates(devs, i + 1)
      case Some(parts) => PartPaths(devs[i].path, parts, 0) + Candidates(devs, i + 1)
  }

  /** Reference definition: the candidates that hold an environment file. */
  function Found(cands: seq<seq<byte>>, hasEnv: seq<byte> -> bool): (r: seq<seq<byte>>)
    ensures |r| <= |cands|
  {
    if cands == [] then []
    else if hasEnv(cands[0]) then [cands[0]] + Found(cands[1..], hasEnv)
    else Found(cands[1..], hasEnv)
  }

  /** The body of the loops over the candidates from `i` on, with `out` the
      slots filled so far: a found partition goes into the next slot, and
      one more than `n` ends the search with false.  Returns whether the
      search ended early and the slots filled. */
  function ProbeFrom(cands: seq<seq<byte>>, i: nat, n: nat, hasEnv: seq<byte> -> bool, out: seq<seq<byte>>): (r: (bool, seq<seq<byte>>))
    requires i <= |cands| && |out| <= n
    requires out == Found(cands[..i], hasEnv)
    ensures r.1 == (var f := Found(cands, hasEnv); if |f| <= n then f else f[..n])
    ensures r.0 <==> |Found(cands, hasEnv)| > n
    decreases |cands| - i
  {
    if i == |cands| then
      assert cands[..i] == cands;
      (false, out)
    else
      FoundPrefix(cands, i, hasEnv);
      if hasEnv(cands[i]) then
        if |out| < n then ProbeFrom(cands, i + 1, n, hasEnv, out + [cands[i]])
        else
          FoundMonotone(cands, i + 1, hasEnv);
          (true, out)
      else ProbeFrom(cands, i + 1, n, hasEnv, out)
  }

  /** `probe_config_partitions(cfgpart)` for `n` records: false for a null
      array; otherwise true exactly when `n` partitions with an
      environment file are found, which fill the slots in the order
      found. */
  function ProbeConfigPartitions(cfgpart: bool, devs: seq<Device>, n: nat, hasEnv: seq<byte> -> bool): (r: (bool, seq<seq<byte>>))
    ensures !cfgpart ==> r == (false, [])
    ensures cfgpart ==> (r.0 <==> |Found(Candidates(devs, 0), hasEnv)| == n)
    ensures cfgpart ==> r.1 == (var f := Found(Candidates(devs, 0), hasEnv); if |f| <= n then f else f[..n])
  {
    if !cfgpart then (false, [])
    else
      var cands := Candidates(devs, 0);
      assert cands[..0] == [];
      var p := ProbeFrom(cands, 0, n, hasEnv, []);
      if p.0 then (false, p.1)
      else if |p.1| < n then (false, p.1)
      else (true, p.1)
  }

  /** Extending the prefix by one candidate adds it when it holds a file. */
  lemma {:induction false} FoundPrefix(cands: seq<seq<byte>>, i: nat, hasEnv: seq<byte> -> bool)
    requires i < |cands|
    ensures Found(cands[..i + 1], hasEnv) ==
      Found(cands[..i], hasEnv) + (if hasEnv(cands[i]) then [cands[i]] else [])
    decreases i
  {
    if i > 0 {
      assert cands[..i + 1][1..] == cands[1..][..i];
      assert cands[..i][1..] == cands[1..][..i - 1];
      FoundPrefix(cands[1..], i - 1, hasEnv);
    }
  }

  /** The files found in a prefix of the candidates begin the files found
      in all of them. */
  lemma {:induction false} FoundMonotone(cands: seq<seq<byte>>, i: nat, hasEnv: seq<byte> -> bool)
    requires i <= |cands|
    ensures |Found(cands[..i], hasEnv)| <= |Found(cands, hasEnv)|
    ensures Found(cands[..i], hasEnv) == Found(cands, hasEnv)[..|Found(cands[..i], hasEnv)|]
    decreases i
  {
    if i > 0 {
      assert cands[..i][1..] == cands[1..][..i - 1];
      FoundMonotone(cands[1..], i - 1, hasEnv);
    }
  }
}
