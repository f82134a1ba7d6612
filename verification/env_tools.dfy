/** Helpers shared by the command-line tools (tools/bg_envtools.c): the
    names of the update states, strict integer parsing, and the options
    every tool accepts. */
module EnvTools {
  import opened Wrappers
  import opened Bytes
  import opened CLib
  import opened EnvRecord

  /** `ustatemap`: the name of each update state. */
  function UstateName(u: nat): (r: seq<byte>)
    requires u <= USTATE_MAX as nat
  {
    if u == 0 then Ascii("OK")
    else if u == 1 then Ascii("INSTALLED")
    else if u == 2 then Ascii("TESTING")
    else if u == 3 then Ascii("FAILED")
    else Ascii("UNKNOWN")
  }

  /** `ustate2str`: the name of the state, a value above the largest one
      named as UNKNOWN. */
  function Ustate2Str(ustate: byte): (r: seq<byte>)
    ensures ustate <= USTATE_MAX ==> r == UstateName(ustate as nat)
    ensures ustate > USTATE_MAX ==> r == Ascii("UNKNOWN")
  {
    UstateName(if ustate > USTATE_MAX then USTATE_MAX as nat else ustate as nat)
  }

  /** The loop of `str2ustate` from state `i` on: the first state below
      UNKNOWN whose name starts `s`, compared without case. */
  function Str2UstateFrom(s: seq<byte>, i: nat): (r: byte)
    requires i <= USTATE_MAX as nat
    ensures i <= r as nat <= USTATE_MAX as nat
    ensures r < USTATE_MAX ==> CasePrefix(UstateName(r as nat), s)
    ensures forall j :: i <= j < r as nat ==> !CasePrefix(UstateName(j), s)
    decreases USTATE_MAX as nat - i
  {
    if i == USTATE_MAX as nat then USTATE_UNKNOWN
    else if CasePrefix(UstateName(i), s) then i as byte
    else Str2UstateFrom(s, i + 1)
  }

  /** `str2ustate`: UNKNOWN for a null string, otherwise the first state
      whose name begins it (case-insensitive), or UNKNOWN. */
  function Str2Ustate(str: Option<seq<byte>>): (r: byte)
    ensures r <= USTATE_MAX
    ensures str.None? ==> r == USTATE_UNKNOWN
    ensures str.Some? && r < USTATE_MAX ==> CasePrefix(UstateName(r as nat), str.value)
    ensures str.Some? ==> forall j :: 0 <= j < r as nat ==> !CasePrefix(UstateName(j), str.value)
  {
    if str.None? then USTATE_UNKNOWN else Str2UstateFrom(str.value, 0)
  }

  /** Every state's name reads back as that state, UNKNOWN included. */
  lemma UstateRoundTrip(u: byte)
    requires u <= USTATE_MAX
    ensures Str2Ustate(Some(Ustate2Str(u))) == u
  {
    var s := Ustate2Str(u);
    if u > 0 { assert !CasePrefix(UstateName(0), s) by { assert Lower(s[0]) != Lower(79); } }
    if u > 1 { assert !CasePrefix(UstateName(1), s) by { assert Lower(s[0]) != Lower(73); } }
    if u > 2 { assert !CasePrefix(UstateName(2), s) by { assert Lower(s[0]) != Lower(84); } }
    if u > 3 { assert !CasePrefix(UstateName(3), s) by { assert Lower(s[0]) != Lower(70); } }
    if u < 4 { assert CasePrefix(UstateName(u as nat), s); }
  }

  /** Names are compared without case and only up to their own length:
      "testing" is TESTING. */
  lemma Str2UstateTesting()
    ensures Str2Ustate(Some(Ascii("testing"))) == USTATE_TESTING
  {
    var t := Ascii("testing");
    assert !CasePrefix(UstateName(0), t) by { assert Lower(t[0]) != Lower(79); }
    assert !CasePrefix(UstateName(1), t) by { assert Lower(t[0]) != Lower(73); }
    assert CasePrefix(UstateName(2), t);
    assert Str2UstateFrom(t, 2) == USTATE_TESTING;
    assert Str2UstateFrom(t, 0) == Str2UstateFrom(t, 1) == Str2UstateFrom(t, 2);
  }

  /** "OKAY" begins with "ok" in any case, so it is OK. */
  lemma Str2UstateOkay()
    ensures Str2Ustate(Some(Ascii("OKAY"))) == USTATE_OK
  {
    assert CasePrefix(UstateName(0), Ascii("OKAY"));
  }

  /** "fail" is too short for FAILED and begins no other name. */
  lemma Str2UstateShort()
    ensures Str2Ustate(Some(Ascii("fail"))) == USTATE_UNKNOWN
  {
    var f := Ascii("fail");
    assert !CasePrefix(UstateName(0), f) by { assert Lower(f[0]) != Lower(79); }
    assert !CasePrefix(UstateName(1), f) by { assert Lower(f[0]) != Lower(73); }
    assert !CasePrefix(UstateName(2), f) by { assert Lower(f[0]) != Lower(84); }
    assert !CasePrefix(UstateName(3), f) by { assert |UstateName(3)| > |f|; }
  }

  // ---------------------------------------------------------------------
  // parse_int.

  /** `parse_int(arg)` on the C string `arg`: the value and `errno`.  The
      whole string must be one number in `int` range, else -1 and
      EINVAL. */
  function ParseInt(arg: seq<byte>): (r: (int, int))
    requires 0 !in arg
    ensures r.1 == 0 || r == (-1, EINVAL)
    ensures r.1 == 0 <==>
      var p := ParseLong(arg); !p.range && 0 < p.end == |arg| && INT_MIN <= p.value <= INT_MAX
    ensures r.1 == 0 ==> r.0 == ParseLong(arg).value
  {
    var p := ParseLong(arg);
    if p.range || p.end == 0 || p.end != |arg| || p.value < INT_MIN || p.value > INT_MAX then (-1, EINVAL)
    else (p.value, 0)
  }

  /** Decimal text of any number in `int` range, with or without a minus
      sign, is accepted as that number. */
  lemma ParseIntDecimal(n: nat)
    requires n <= INT_MAX
    ensures ParseInt(Decimal(n)) == (n, 0)
    ensures ParseInt([45] + Decimal(n)) == (-(n as int), 0)
  {
    ParseDecimal(n);
    ParseNegDecimal(n);
    assert 0 !in Decimal(n);
    assert 0 !in [45] + Decimal(n);
  }

  /** Text after the number, or a number past `int` range, is refused. */
  lemma ParseIntRejects(n: nat, c: byte)
    requires n <= LONG_MAX && c != 0 && !IsDigit(c)
    ensures ParseInt(Decimal(n) + [c]) == (-1, EINVAL)
    ensures n > INT_MAX ==> ParseInt(Decimal(n)) == (-1, EINVAL)
  {
    ParseDecimal(n);
    ParseDecimalThen(n, c);
    DigitsNoNul(Decimal(n), c);
  }

  /** A non-digit after the decimal text stops `strtol` there. */
  lemma ParseDecimalThen(n: nat, c: byte)
    requires n <= LONG_MAX && !IsDigit(c)
    ensures ParseLong(Decimal(n) + [c]) == Strtol(n, |Decimal(n)|, false)
  {
    var d := Decimal(n);
    var s := d + [c];
    assert s[0] == d[0] && !IsSpace(s[0]);
    assert s[0..|d|] == d;
    DigitSpanUpTo(s, 0, |d|);
    DecimalValue(n);
  }

  /** A run of digits from `i` to a non-digit at `k` is the whole span. */
  lemma DigitSpanUpTo(s: seq<byte>, i: nat, k: nat)
    requires i <= k < |s| && AllDigits(s[i..k]) && !IsDigit(s[k])
    ensures DigitSpan(s, i) == k
    decreases k - i
  {
    if i < k {
      assert s[i] == s[i..k][0];
      assert s[i + 1..k] == s[i..k][1..];
      DigitSpanUpTo(s, i + 1, k);
    }
  }

  // ---------------------------------------------------------------------
  // parse_common_opt.

  /** `ARGP_ERR_UNKNOWN` (`E2BIG`). */
  const ARGP_ERR_UNKNOWN: int := 7
  /** The status `argp_usage` exits with, in glibc (`argp_err_exit_status`,
      `EX_USAGE` of sysexits.h). */
  const EX_USAGE: int := 64

  /** `struct arguments_common`, with `search_all_devices`. */
  datatype Common = Common(envFilePath: Option<seq<byte>>, verbosity: bool, whichPart: int, partSpecified: bool, searchAll: bool)

  /** The result of an option: the arguments, the return value, and
      whether the program exits (`-V`). */
  datatype OptResult = OptResult(args: Common, status: int, exits: bool)

  /** `parse_common_opt(key, arg, compat_mode, arguments)` for `n`
      records.  `isDir` says whether `arg` names a directory, as `stat`
      finds it. */
  function ParseCommonOpt(key: byte, arg: seq<byte>, compatMode: bool, a: Common, n: nat, isDir: bool): (r: OptResult)
    requires 0 !in arg
    ensures key !in [65, 102, 112, 118, 86] ==> r == OptResult(a, ARGP_ERR_UNKNOWN, false)
    ensures key == 112 ==>
      var i := ParseInt(arg);
      (r.status == 0 <==> i.1 == 0 && 0 <= i.0 < n) &&
      (r.status == 0 ==> r.args == a.(whichPart := i.0, partSpecified := true)) &&
      (r.status != 0 ==> r == OptResult(a, 1, false))
    ensures key == 102 ==> (r.status == 0 &&
      r.args.envFilePath == Some(if compatMode && isDir then arg + Ascii("/BGENV.DAT") else arg))
  {
    if key == 65 then OptResult(a.(searchAll := true), 0, false)
    else if key == 102 then
      var path := if compatMode && isDir then arg + Ascii("/BGENV.DAT") else arg;
      OptResult(a.(envFilePath := Some(path)), 0, false)
    else if key == 112 then
      var i := ParseInt(arg);
      if i.1 != 0 then OptResult(a, 1, false)
      else if 0 <= i.0 < n then OptResult(a.(whichPart := i.0, partSpecified := true), 0, false)
      else OptResult(a, 1, false)
    else if key == 118 then OptResult(a.(verbosity := true), 0, false)
    else if key == 86 then OptResult(a, 0, true)
    else OptResult(a, ARGP_ERR_UNKNOWN, false)
  }

  /** `-p` takes exactly the partitions that exist, written in decimal. */
  lemma PartitionOption(a: Common, n: nat, k: nat)
    requires k <= INT_MAX
    ensures ParseCommonOpt(112, Decimal(k), false, a, n, false).status == 0 <==> k < n
  {
    ParseIntDecimal(k);
    assert 0 !in Decimal(k);
  }
}
