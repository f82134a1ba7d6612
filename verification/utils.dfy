/** The path helpers of the loader (utils.c): the label prefix of a
    payload path, which picks the volume the kernel is loaded from, and
    the boot medium's path, the device path text cut at its last '/'.

    A `CHAR16` string is its characters before the terminating NUL; the
    device paths and the volume list come from firmware and are
    parameters here. */
module Utils {
  import opened Wrappers

  /** The characters of a NUL-terminated `CHAR16` string. */
  type Str16 = seq<char>

  const NUL: char := '\0'

  /** A C string's content holds no NUL. */
  predicate NoNul(s: Str16)
  {
    forall k :: 0 <= k < |s| ==> s[k] != NUL
  }

  /** The character at `i`, reading the terminating NUL past the end. */
  function At(s: Str16, i: nat): char
  {
    if i < |s| then s[i] else NUL
  }

  // ---------------------------------------------------------------------
  // StrnCmp.

  /** The firmware library's `StrnCmp(a, b, n)` from position `k`: while
      `a` has not ended and characters remain, stop at the first
      difference; the result is the difference of the characters where
      it stopped, or 0 when all `n` were consumed. */
  function StrnCmpFrom(a: Str16, b: Str16, n: nat, k: nat): int
    decreases n - k
  {
    if k < n && At(a, k) != NUL && At(a, k) == At(b, k) then StrnCmpFrom(a, b, n, k + 1)
    else if k < n then At(a, k) as int - At(b, k) as int
    else 0
  }

  function StrnCmp(a: Str16, b: Str16, n: nat): int
  {
    StrnCmpFrom(a, b, n, 0)
  }

  /** `StrnCmp` is 0 exactly when the first `n` characters agree, the
      terminating NUL included. */
  lemma {:induction false} StrnCmpFromZero(a: Str16, b: Str16, n: nat, k: nat)
    requires NoNul(a) && NoNul(b)
    ensures StrnCmpFrom(a, b, n, k) == 0 <==> forall j :: k <= j < n ==> At(a, j) == At(b, j)
    decreases n - k
  {
    if k < n && At(a, k) != NUL && At(a, k) == At(b, k) {
      StrnCmpFromZero(a, b, n, k + 1);
    } else if k < n && At(a, k) == NUL {
      if At(b, k) == NUL {
        // Both strings end at k, so they agree from k on.
        forall j | k <= j < n
          ensures At(a, j) == At(b, j)
        {
          assert At(a, j) == NUL && At(b, j) == NUL;
        }
      }
    }
  }

  /** The first `n` characters of `name` are the `n` characters of `s`
      from `off`, and `name` has at least `n`. */
  predicate HasPrefixAt(name: Str16, s: Str16, off: nat, n: nat)
  {
    n <= |name| && off + n <= |s| && name[..n] == s[off..off + n]
  }

  /** Comparing `n` characters of a string with a slice of `s` that holds
      no NUL: 0 exactly when the slice is a prefix of the string. */
  lemma StrnCmpPrefix(name: Str16, s: Str16, off: nat, n: nat)
    requires NoNul(name) && NoNul(s) && off + n <= |s|
    ensures StrnCmp(name, s[off..], n) == 0 <==> HasPrefixAt(name, s, off, n)
  {
    var t := s[off..];
    StrnCmpFromZero(name, t, n, 0);
    if n > |name| {
      // `name` ends where the slice still has a character.
      assert At(name, |name|) != At(t, |name|);
    }
    if StrnCmp(name, t, n) == 0 {
      forall j | 0 <= j < n
        ensures name[j] == s[off + j]
      {
        assert At(name, j) == At(t, j);
      }
    }
  }

  // ---------------------------------------------------------------------
  // The label prefix of a payload path.

  /** `LABELMODE`: "L:" names a volume by its file system label, "C:" by
      the custom label in its EFILABEL file. */
  datatype LabelMode = DosFsLabel | CustomLabel | NoLabel

  /** The mode a payload path selects: its first two characters compared
      with "L:", then with "C:". */
  function ModeOf(path: Str16): LabelMode
  {
    if StrnCmp(path, "L:", 2) == 0 then DosFsLabel
    else if StrnCmp(path, "C:", 2) == 0 then CustomLabel
    else NoLabel
  }

  /** The mode is chosen by the first two characters alone. */
  lemma ModeOfPrefix(path: Str16)
    requires NoNul(path)
    ensures ModeOf(path) == DosFsLabel <==> |path| >= 2 && path[0] == 'L' && path[1] == ':'
    ensures ModeOf(path) == CustomLabel <==> |path| >= 2 && path[0] == 'C' && path[1] == ':'
  {
    StrnCmpFromZero(path, "L:", 2, 0);
    StrnCmpFromZero(path, "C:", 2, 0);
    if |path| < 2 {
      assert At(path, |path|) == NUL;
      if |path| == 0 {
        assert At(path, 0) != At("L:", 0) && At(path, 0) != At("C:", 0);
      } else {
        assert At(path, 1) != At("L:", 1) && At(path, 1) != At("C:", 1);
      }
    } else {
      assert At(path, 0) == path[0] && At(path, 1) == path[1];
    }
  }

  /** The index of the first ':' at or after `i`, if there is one. */
  function ColonFrom(path: Str16, i: nat): (r: Option<nat>)
    ensures r.Some? ==> i <= r.value < |path|
    decreases |path| - i
  {
    if i >= |path| then None
    else if path[i] == ':' then Some(i)
    else ColonFrom(path, i + 1)
  }

  /** `ColonFrom` finds the first colon and only that. */
  lemma {:induction false} ColonFromFirst(path: Str16, i: nat)
    ensures ColonFrom(path, i).Some? ==>
      var c := ColonFrom(path, i).value;
      i <= c < |path| && path[c] == ':' && forall k :: i <= k < c ==> path[k] != ':'
    ensures ColonFrom(path, i).None? ==> forall k :: i <= k < |path| ==> path[k] != ':'
    decreases |path| - i
  {
    if i < |path| && path[i] != ':' {
      ColonFromFirst(path, i + 1);
    }
  }

  /** `prefixlen`: the length of the label between "L:" or "C:" and the
      next ':'; 0 without a label mode or a closing colon. */
  function PrefixLen(path: Str16, mode: LabelMode): nat
  {
    if mode == NoLabel then 0
    else match ColonFrom(path, 2)
      case None => 0
      case Some(c) => c - 2
  }

  /** A positive `prefixlen` is the length of a non-empty label followed
      by a colon, with no colon inside it. */
  lemma PrefixLenColon(path: Str16, mode: LabelMode)
    ensures var n := PrefixLen(path, mode);
      n > 0 ==> (mode != NoLabel && n + 2 < |path| && path[n + 2] == ':'
                 && forall k :: 2 <= k < n + 2 ==> path[k] != ':')
    ensures PrefixLen(path, mode) == 0 && mode != NoLabel ==>
      (|path| > 2 && path[2] == ':') || forall k :: 2 <= k < |path| ==> path[k] != ':'
  {
    ColonFromFirst(path, 2);
  }

  /** A volume as `get_volumes` describes it: the device path and the two
      labels, either of which can be missing. */
  datatype Volume = Volume(devpath: Str16, fsLabel: Option<Str16>, customLabel: Option<Str16>)

  /** The label a mode compares with. */
  function LabelOf(v: Volume, mode: LabelMode): Option<Str16>
  {
    match mode
    case DosFsLabel => v.fsLabel
    case CustomLabel => v.customLabel
    case NoLabel => None
  }

  /** Where the payload is loaded from: a file on the boot device, a file
      on a labelled volume, or, as written, a read through the null label
      of a volume that has none. */
  datatype Location = OnBootDevice(file: Str16) | OnVolume(volume: nat, file: Str16) | NullLabel(volume: nat)

  /** The volume scan of `FileDevicePathFromConfig` as written: the first
      volume whose label starts with the `n` label characters wins; a
      missing label is compared all the same. */
  function ScanVolumesAsWritten(path: Str16, mode: LabelMode, n: nat, vols: seq<Volume>, v: nat): (r: Option<Location>)
    requires n + 2 < |path|
    ensures r.Some? ==> !r.value.OnBootDevice? && v <= r.value.volume < |vols|
    ensures r.Some? && r.value.NullLabel? ==> LabelOf(vols[r.value.volume], mode).None?
    decreases |vols| - v
  {
    if v >= |vols| then None
    else match LabelOf(vols[v], mode)
      case None => Some(NullLabel(v))
      case Some(name) =>
        if StrnCmp(name, path[2..], n) == 0 then Some(OnVolume(v, path[n + 3..]))
        else ScanVolumesAsWritten(path, mode, n, vols, v + 1)
  }

  /** The volume scan, corrected: a volume without the label is passed
      over. */
  function ScanVolumes(path: Str16, mode: LabelMode, n: nat, vols: seq<Volume>, v: nat): (r: Option<Location>)
    requires n + 2 < |path|
    ensures r.Some? ==> r.value.OnVolume? && v <= r.value.volume < |vols|
    decreases |vols| - v
  {
    if v >= |vols| then None
    else match LabelOf(vols[v], mode)
      case None => ScanVolumes(path, mode, n, vols, v + 1)
      case Some(name) =>
        if StrnCmp(name, path[2..], n) == 0 then Some(OnVolume(v, path[n + 3..]))
        else ScanVolumes(path, mode, n, vols, v + 1)
  }

  /** Volume `v` carries the label the path names. */
  predicate LabelMatches(path: Str16, mode: LabelMode, n: nat, vol: Volume)
  {
    LabelOf(vol, mode).Some? && HasPrefixAt(LabelOf(vol, mode).value, path, 2, n)
  }

  /** The corrected scan picks the first volume whose label starts with
      the path's label, and finds none when no volume has it. */
  lemma {:induction false} ScanVolumesFirst(path: Str16, mode: LabelMode, n: nat, vols: seq<Volume>, v: nat)
    requires n + 2 < |path| && NoNul(path)
    requires forall k :: 0 <= k < |vols| && LabelOf(vols[k], mode).Some? ==> NoNul(LabelOf(vols[k], mode).value)
    ensures var r := ScanVolumes(path, mode, n, vols, v);
      && (r.Some? ==> LabelMatches(path, mode, n, vols[r.value.volume])
                      && r.value.file == path[n + 3..]
                      && forall k :: v <= k < r.value.volume ==> !LabelMatches(path, mode, n, vols[k]))
      && (r.None? ==> forall k :: v <= k < |vols| ==> !LabelMatches(path, mode, n, vols[k]))
    decreases |vols| - v
  {
    if v < |vols| {
      ScanVolumesFirst(path, mode, n, vols, v + 1);
      if LabelOf(vols[v], mode).Some? {
        StrnCmpPrefix(LabelOf(vols[v], mode).value, path, 2, n);
      }
    }
  }

  /** Without volumes lacking the label, the scan as written is the
      corrected one. */
  lemma {:induction false} ScanVolumesAgree(path: Str16, mode: LabelMode, n: nat, vols: seq<Volume>, v: nat)
    requires n + 2 < |path|
    requires forall k :: v <= k < |vols| ==> LabelOf(vols[k], mode).Some?
    ensures ScanVolumesAsWritten(path, mode, n, vols, v) == ScanVolumes(path, mode, n, vols, v)
    decreases |vols| - v
  {
    if v < |vols| {
      ScanVolumesAgree(path, mode, n, vols, v + 1);
    }
  }

  /** A path naming custom label "A" and a volume without an EFILABEL
      file: as written the scan reads the missing label, corrected it
      loads from the boot device. */
  lemma MissingCustomLabel()
    ensures FileDevicePathFromConfigAsWritten("C:A:k", [Volume("d", Some("A"), None)]) == NullLabel(0)
    ensures FileDevicePathFromConfig("C:A:k", [Volume("d", Some("A"), None)]) == OnBootDevice("C:A:k")
  {
    var p: Str16 := "C:A:k";
    ModeOfPrefix(p);
    assert ColonFrom(p, 2) == Some(3);
  }

  /** `FileDevicePathFromConfig` as written. */
  function FileDevicePathFromConfigAsWritten(path: Str16, vols: seq<Volume>): (r: Location)
    ensures r.OnBootDevice? ==> r.file == path
    ensures r.NullLabel? ==> r.volume < |vols| && LabelOf(vols[r.volume], ModeOf(path)).None?
  {
    var mode := ModeOf(path);
    var n := PrefixLen(path, mode);
    PrefixLenColon(path, mode);
    if n == 0 then OnBootDevice(path)
    else match ScanVolumesAsWritten(path, mode, n, vols, 0)
      case None => OnBootDevice(path)
      case Some(loc) => loc
  }

  /** `FileDevicePathFromConfig`, corrected: a path "L:label:file" or
      "C:label:file" with a non-empty label loads `file` from the first
      volume whose label starts with `label`; every other path, and a
      label no volume has, loads the whole path from the boot device. */
  function FileDevicePathFromConfig(path: Str16, vols: seq<Volume>): (r: Location)
    ensures !r.NullLabel?
    ensures r.OnBootDevice? ==> r.file == path
  {
    var mode := ModeOf(path);
    var n := PrefixLen(path, mode);
    PrefixLenColon(path, mode);
    if n == 0 then OnBootDevice(path)
    else match ScanVolumes(path, mode, n, vols, 0)
      case None => OnBootDevice(path)
      case Some(loc) => loc
  }

  /** The label syntax: a volume is used only for a path with a label
      mode and a non-empty label closed by a colon, it carries that
      label, no earlier volume does, and the file is the rest of the
      path. */
  lemma FileDevicePathFromConfigVolume(path: Str16, vols: seq<Volume>)
    requires NoNul(path)
    requires forall k, m :: 0 <= k < |vols| && LabelOf(vols[k], m).Some? ==> NoNul(LabelOf(vols[k], m).value)
    ensures var r := FileDevicePathFromConfig(path, vols);
      var mode := ModeOf(path);
      var n := PrefixLen(path, mode);
      && (r.OnVolume? ==>
            && mode != NoLabel && n > 0 && n + 2 < |path| && path[n + 2] == ':'
            && LabelMatches(path, mode, n, vols[r.volume])
            && (forall k :: 0 <= k < r.volume ==> !LabelMatches(path, mode, n, vols[k]))
            && r.file == path[n + 3..])
      && (r.OnBootDevice? && n > 0 ==> forall k :: 0 <= k < |vols| ==> !LabelMatches(path, mode, n, vols[k]))
  {
    var mode := ModeOf(path);
    var n := PrefixLen(path, mode);
    PrefixLenColon(path, mode);
    if n > 0 {
      ScanVolumesFirst(path, mode, n, vols, 0);
    }
  }

  // ---------------------------------------------------------------------
  // GetBootMediumPath.

  /** Reference: the last '/' at index 1 or later, if any. */
  function LastSlash(s: Str16, i: nat): (r: Option<nat>)
    requires i <= |s|
    ensures r.Some? ==> 1 <= r.value < i
    decreases i
  {
    if i <= 1 then None
    else if s[i - 1] == '/' then Some(i - 1)
    else LastSlash(s, i - 1)
  }

  lemma {:induction false} LastSlashIsLast(s: Str16, i: nat)
    requires i <= |s|
    ensures LastSlash(s, i).Some? ==>
      var k := LastSlash(s, i).value;
      1 <= k < i && s[k] == '/' && forall j :: k < j < i ==> s[j] != '/'
    ensures LastSlash(s, i).None? ==> forall j :: 1 <= j < i ==> s[j] != '/'
    decreases i
  {
    if i > 1 && s[i - 1] != '/' {
      LastSlashIsLast(s, i - 1);
    }
  }

  /** The boot medium path of a device path text. */
  function BootMediumPath(s: Str16): Str16
  {
    match LastSlash(s, |s|)
    case None => s
    case Some(k) => s[..k]
  }

  /** `GetBootMediumPath`: a copy of the input cut at its last '/' at
      index 1 or later (the loop starts at the terminating NUL and stops
      before index 0); without such a '/' the copy is the input. */
  method GetBootMediumPath(input: Str16) returns (dst: Str16)
    ensures dst == BootMediumPath(input)
    ensures |dst| <= |input| && dst == input[..|dst|]
    ensures |dst| < |input| ==> 1 <= |dst| && input[|dst|] == '/' && forall j :: |dst| < j < |input| ==> input[j] != '/'
    ensures |dst| == |input| ==> forall j :: 1 <= j < |input| ==> input[j] != '/'
  {
    var buf := input + [NUL];
    var i := |input|;
    dst := input;
    LastSlashIsLast(input, |input|);
    while i > 0
      invariant 0 <= i <= |input|
      invariant forall j :: i < j < |input| ==> input[j] != '/'
      invariant LastSlash(input, |input|) == LastSlash(input, i + (if i < |input| then 1 else 0))
      decreases i
    {
      if buf[i] == '/' {
        dst := input[..i];
        assert LastSlash(input, i + 1) == Some(i);
        return;
      }
      i := i - 1;
    }
  }
}
