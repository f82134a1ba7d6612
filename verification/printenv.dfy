/** The option handling of `bg_printenv` (tools/bg_printenv.c): the list
    of fields to print, and which records are printed.  Printing itself is
    left out; the result is the plan the command follows. */
module PrintEnv {
  import opened Wrappers
  import opened Bytes
  import opened CLib
  import opened EnvTools

  /** `struct fields`: which of the seven fields are printed. */
  datatype Fields = Fields(inProgress: bool, revision: bool, kernel: bool, kernelargs: bool,
                           wdogTimeout: bool, ustate: bool, user: bool)

  const NO_FIELDS := Fields(false, false, false, false, false, false, false)

  /** `ALL_FIELDS`, the default when `-o` is not given. */
  const ALL_FIELDS := Fields(true, true, true, true, true, true, true)

  const NUM_FIELDS: nat := 7

  /** The name `-o` uses for field `k`. */
  function FieldName(k: nat): (r: seq<byte>)
    requires k < NUM_FIELDS
  {
    if k == 0 then Ascii("in_progress")
    else if k == 1 then Ascii("revision")
    else if k == 2 then Ascii("kernel")
    else if k == 3 then Ascii("kernelargs")
    else if k == 4 then Ascii("watchdog_timeout")
    else if k == 5 then Ascii("ustate")
    else Ascii("user")
  }

  /** Field `k` of a set of fields. */
  function Flag(f: Fields, k: nat): bool
    requires k < NUM_FIELDS
  {
    if k == 0 then f.inProgress
    else if k == 1 then f.revision
    else if k == 2 then f.kernel
    else if k == 3 then f.kernelargs
    else if k == 4 then f.wdogTimeout
    else if k == 5 then f.ustate
    else f.user
  }

  /** `f` with field `k` switched on. */
  function Enable(f: Fields, k: nat): (r: Fields)
    requires k < NUM_FIELDS
    ensures Flag(r, k)
    ensures forall j :: 0 <= j < NUM_FIELDS && j != k ==> Flag(r, j) == Flag(f, j)
  {
    if k == 0 then f.(inProgress := true)
    else if k == 1 then f.(revision := true)
    else if k == 2 then f.(kernel := true)
    else if k == 3 then f.(kernelargs := true)
    else if k == 4 then f.(wdogTimeout := true)
    else if k == 5 then f.(ustate := true)
    else f.(user := true)
  }

  /** The field a token names, as the chain of `strcmp` tests finds it. */
  function FieldOf(t: seq<byte>): (r: Option<nat>)
    ensures r.Some? ==> r.value < NUM_FIELDS && FieldName(r.value) == t
    ensures r.None? ==> forall k :: 0 <= k < NUM_FIELDS ==> FieldName(k) != t
  {
    if t == FieldName(0) then Some(0)
    else if t == FieldName(1) then Some(1)
    else if t == FieldName(2) then Some(2)
    else if t == FieldName(3) then Some(3)
    else if t == FieldName(4) then Some(4)
    else if t == FieldName(5) then Some(5)
    else if t == FieldName(6) then Some(6)
    else None
  }

  // ---------------------------------------------------------------------
  // strsep.

  const COMMA: byte := 44

  /** The first position of `c` in `s`. */
  function FirstIndex(s: seq<byte>, c: byte): (r: nat)
    requires c in s
    ensures r < |s| && s[r] == c && c !in s[..r]
  {
    if s[0] == c then 0
    else
      var i := FirstIndex(s[1..], c);
      assert s[..i + 1] == [s[0]] + s[1..][..i];
      i + 1
  }

  /** The tokens successive `strsep(&s, ",")` calls return: the pieces
      between commas, empty ones included. */
  function Split(s: seq<byte>): (r: seq<seq<byte>>)
    ensures |r| >= 1
    ensures forall i :: 0 <= i < |r| ==> COMMA !in r[i]
    decreases |s|
  {
    if COMMA !in s then [s]
    else
      var i := FirstIndex(s, COMMA);
      [s[..i]] + Split(s[i + 1..])
  }

  /** The tokens joined back with commas. */
  function Join(ts: seq<seq<byte>>): seq<byte>
    requires |ts| >= 1
  {
    if |ts| == 1 then ts[0] else ts[0] + [COMMA] + Join(ts[1..])
  }

  /** Splitting loses nothing: the tokens joined with commas are the
      input. */
  lemma {:induction false} SplitJoin(s: seq<byte>)
    ensures Join(Split(s)) == s
    decreases |s|
  {
    if COMMA in s {
      var i := FirstIndex(s, COMMA);
      SplitJoin(s[i + 1..]);
      assert Split(s)[1..] == Split(s[i + 1..]);
      assert s == s[..i] + [COMMA] + s[i + 1..];
    }
  }

  // ---------------------------------------------------------------------
  // parse_output_fields.

  /** The loop over the tokens from `f`: an empty token is skipped, a
      field name switches that field on, anything else stops with 1. */
  function ParseTokens(ts: seq<seq<byte>>, f: Fields): (r: (int, Fields))
    ensures r.0 == 0 || r.0 == 1
    ensures r.0 == 0 <==> forall i :: 0 <= i < |ts| ==> TokenOk(ts[i])
    ensures r.0 == 0 ==> forall k :: 0 <= k < NUM_FIELDS ==> (Flag(r.1, k) <==> Flag(f, k) || FieldName(k) in ts)
  {
    if ts == [] then (0, f)
    else
      TokensTail(ts);
      if ts[0] == [] then
        TokensSkip(ts);
        ParseTokens(ts[1..], f)
      else match FieldOf(ts[0])
        case None => (1, f)
        case Some(k) =>
          TokensStep(ts, k);
          ParseTokens(ts[1..], Enable(f, k))
  }

  /** A token the loop accepts: empty, or a field name. */
  predicate TokenOk(t: seq<byte>)
  {
    t == [] || FieldOf(t).Some?
  }

  /** The tokens are all accepted when the first is and the rest are. */
  lemma TokensTail(ts: seq<seq<byte>>)
    requires |ts| >= 1
    ensures (forall i :: 0 <= i < |ts| ==> TokenOk(ts[i])) <==>
      TokenOk(ts[0]) && forall i :: 0 <= i < |ts[1..]| ==> TokenOk(ts[1..][i])
  {
    if TokenOk(ts[0]) && forall i :: 0 <= i < |ts[1..]| ==> TokenOk(ts[1..][i]) {
      forall i | 1 <= i < |ts| ensures TokenOk(ts[i]) {
        assert ts[i] == ts[1..][i - 1];
      }
    }
  }

  /** An empty first token names no field. */
  lemma TokensSkip(ts: seq<seq<byte>>)
    requires |ts| >= 1 && ts[0] == []
    ensures forall j :: 0 <= j < NUM_FIELDS ==> (FieldName(j) in ts <==> FieldName(j) in ts[1..])
  {
    assert ts == [ts[0]] + ts[1..];
    forall j | 0 <= j < NUM_FIELDS
      ensures FieldName(j) in ts <==> FieldName(j) in ts[1..]
    {
      assert FieldName(j) != ts[0];
    }
  }

  /** The names among the tokens are the first one plus those in the rest. */
  lemma TokensStep(ts: seq<seq<byte>>, k: nat)
    requires |ts| >= 1 && k < NUM_FIELDS && ts[0] == FieldName(k)
    ensures forall j :: 0 <= j < NUM_FIELDS ==> (FieldName(j) in ts <==> j == k || FieldName(j) in ts[1..])
  {
    assert ts == [ts[0]] + ts[1..];
    forall j | 0 <= j < NUM_FIELDS
      ensures FieldName(j) in ts <==> j == k || FieldName(j) in ts[1..]
    {
      if j != k { assert FieldName(j) != FieldName(k) by { NamesDistinct(j, k); } }
    }
  }

  /** No two fields share a name. */
  lemma NamesDistinct(j: nat, k: nat)
    requires j < NUM_FIELDS && k < NUM_FIELDS && j != k
    ensures FieldName(j) != FieldName(k)
  {
    var a, b := FieldName(j), FieldName(k);
    if |a| == |b| {
      // Only "kernel" and "ustate" have the same length.
      assert a[0] != b[0];
    }
  }

  /** `parse_output_fields(fields, &out)`: 0 with exactly the listed fields
      switched on, or 1 when a non-empty token names no field. */
  function ParseOutputFields(fields: seq<byte>): (r: (int, Fields))
    ensures r.0 == 0 <==> forall t :: t in Split(fields) ==> t == [] || FieldOf(t).Some?
    ensures r.0 == 0 ==> forall k :: 0 <= k < NUM_FIELDS ==> (Flag(r.1, k) <==> FieldName(k) in Split(fields))
  {
    ParseTokens(Split(fields), NO_FIELDS)
  }

  /** Listing every name, in any order and with empty tokens in between,
      gives every field. */
  lemma AllNamesAllFields(fields: seq<byte>)
    requires forall t :: t in Split(fields) ==> t == [] || FieldOf(t).Some?
    requires forall k :: 0 <= k < NUM_FIELDS ==> FieldName(k) in Split(fields)
    ensures ParseOutputFields(fields) == (0, ALL_FIELDS)
  {
    var r := ParseOutputFields(fields);
    assert Flag(r.1, 0) && Flag(r.1, 1) && Flag(r.1, 2) && Flag(r.1, 3);
    assert Flag(r.1, 4) && Flag(r.1, 5) && Flag(r.1, 6);
  }

  // ---------------------------------------------------------------------
  // bg_printenv.

  /** `struct arguments_printenv`. */
  datatype PrintArgs = PrintArgs(common: Common, current: bool, output: Fields, raw: bool)

  /** The arguments before any option: all fields, nothing chosen. */
  const INITIAL := PrintArgs(Common(None, false, 0, false, false), false, ALL_FIELDS, false)

  /** An option as `argp` hands it over: its key and its argument. */
  datatype Opt = Opt(key: byte, arg: seq<byte>)

  /** The outcome of one option. */
  datatype Parsed = Parsed(args: PrintArgs, status: int, exits: bool)

  /** The key argp hands the parser for an argument that is not an option. */
  const ARGP_KEY_ARG: byte := 0

  /** `parse_printenv_opt` for `n` records: -c, -o and -r here, a
      positional argument is a usage error that ends the program, and the
      rest goes through the common options (not in compatibility mode). */
  function ParsePrintenvOpt(o: Opt, a: PrintArgs, n: nat, isDir: bool): (r: Parsed)
    requires 0 !in o.arg
    ensures o.key == ARGP_KEY_ARG ==> r == Parsed(a, EX_USAGE, true)
    ensures o.key == 99 ==> r == Parsed(a.(current := true), 0, false)
    ensures o.key == 114 ==> r == Parsed(a.(raw := true), 0, false)
    ensures o.key == 111 ==> r == Parsed(a.(output := ParseOutputFields(o.arg).1), ParseOutputFields(o.arg).0, false)
    ensures o.key !in [ARGP_KEY_ARG, 99, 111, 114] ==>
      var c := ParseCommonOpt(o.key, o.arg, false, a.common, n, isDir);
      r == Parsed(a.(common := c.args), c.status, c.exits)
  {
    if o.key == ARGP_KEY_ARG then Parsed(a, EX_USAGE, true)
    else if o.key == 99 then Parsed(a.(current := true), 0, false)
    else if o.key == 111 then
      var p := ParseOutputFields(o.arg);
      Parsed(a.(output := p.1), p.0, false)
    else if o.key == 114 then Parsed(a.(raw := true), 0, false)
    else
      var c := ParseCommonOpt(o.key, o.arg, false, a.common, n, isDir);
      Parsed(a.(common := c.args), c.status, c.exits)
  }

  /** `argp_parse` over the options in order: it stops at the first that
      fails or exits. */
  function ParseAll(opts: seq<Opt>, a: PrintArgs, n: nat, isDir: bool): (r: Parsed)
    requires forall i :: 0 <= i < |opts| ==> 0 !in opts[i].arg
    ensures opts == [] ==> r == Parsed(a, 0, false)
  {
    if opts == [] then Parsed(a, 0, false)
    else
      var p := ParsePrintenvOpt(opts[0], a, n, isDir);
      if p.status != 0 || p.exits then p
      else ParseAll(opts[1..], p.args, n, isDir)
  }

  /** How the fields are shown and whether every device is searched. */
  datatype View = View(fields: Fields, raw: bool, probeAll: bool)

  /** What `bg_printenv` goes on to do. */
  datatype Plan =
    | Exit(code: int)                         // returns without printing
    | FromFile(path: seq<byte>, view: View)   // prints the record in a file
    | Latest(view: View)                      // prints the current record
    | ByIndex(index: int, view: View)         // prints one record
    | All(view: View)                         // prints every record

  /** How many of -c, -f and -p were given. */
  function Sources(a: PrintArgs): (r: nat)
    ensures r <= 3
    ensures r == 0 <==> !a.current && a.common.envFilePath.None? && !a.common.partSpecified
  {
    (if a.common.envFilePath.Some? then 1 else 0) +
    (if a.common.partSpecified then 1 else 0) +
    (if a.current then 1 else 0)
  }

  /** `bg_printenv(argc, argv)` with `n` records, `isDir` whether the `-f`
      argument is a directory, and `initOk` whether `bgenv_init` succeeds. */
  function BgPrintenv(opts: seq<Opt>, n: nat, isDir: bool, initOk: bool): (r: Plan)
    requires forall i :: 0 <= i < |opts| ==> 0 !in opts[i].arg
    ensures var p := ParseAll(opts, INITIAL, n, isDir);
      && (p.exits && p.status == 0 ==> r == Exit(0))
      && (p.status != 0 ==> r == Exit(p.status))
      && (p.status == 0 && !p.exits && Sources(p.args) > 1 ==> r == Exit(1))
      && (p.status == 0 && !p.exits && p.args.raw && Sources(p.args) != 1 ==> r == Exit(1))
      && (r.FromFile? ==> Some(r.path) == p.args.common.envFilePath && Sources(p.args) == 1)
      && (r.Latest? ==> p.args.current && Sources(p.args) == 1)
      && (r.ByIndex? ==> p.args.common.partSpecified && r.index == p.args.common.whichPart && Sources(p.args) == 1)
      && (r.All? ==> Sources(p.args) == 0 && !r.view.raw)
      && (!r.Exit? ==> r.view.fields == p.args.output && r.view.raw == p.args.raw)
  {
    var p := ParseAll(opts, INITIAL, n, isDir);
    if p.status != 0 then Exit(p.status)
    else if p.exits then Exit(0)
    else
      var a := p.args;
      var view := View(a.output, a.raw, a.common.searchAll);
      if Sources(a) > 1 then Exit(1)
      else if a.raw && Sources(a) != 1 then Exit(1)
      else if a.common.envFilePath.Some? then FromFile(a.common.envFilePath.value, view)
      else if !initOk then Exit(1)
      else if a.current then Latest(view)
      else if a.common.partSpecified then ByIndex(a.common.whichPart, view)
      else All(view)
  }

  /** Options that all parse cleanly followed by a positional argument:
      `bg_printenv` stops with the usage status, whatever comes after. */
  lemma {:induction false} PositionalArgumentIsUsageError(opts: seq<Opt>, k: nat, n: nat, isDir: bool, initOk: bool)
    requires forall i :: 0 <= i < |opts| ==> 0 !in opts[i].arg
    requires k < |opts| && opts[k].key == ARGP_KEY_ARG
    requires var p := ParseAll(opts[..k], INITIAL, n, isDir); p.status == 0 && !p.exits
    ensures BgPrintenv(opts, n, isDir, initOk) == Exit(EX_USAGE)
  {
    PositionalStops(opts, k, INITIAL, n, isDir);
  }

  lemma {:induction false} PositionalStops(opts: seq<Opt>, k: nat, a: PrintArgs, n: nat, isDir: bool)
    requires forall i :: 0 <= i < |opts| ==> 0 !in opts[i].arg
    requires k < |opts| && opts[k].key == ARGP_KEY_ARG
    requires var p := ParseAll(opts[..k], a, n, isDir); p.status == 0 && !p.exits
    ensures ParseAll(opts, a, n, isDir).status == EX_USAGE
    decreases k
  {
    if k > 0 {
      assert opts[..k][0] == opts[0];
      assert opts[..k][1..] == opts[1..][..k - 1];
      var p := ParsePrintenvOpt(opts[0], a, n, isDir);
      PositionalStops(opts[1..], k - 1, p.args, n, isDir);
    }
  }

  /** Without options every record is printed with every field. */
  lemma DefaultPrintsAll(n: nat, isDir: bool)
    ensures BgPrintenv([], n, isDir, true) == All(View(ALL_FIELDS, false, false))
  {
  }

  /** Options that leave `-o` out keep all seven fields. */
  lemma {:induction false} OutputUntouched(opts: seq<Opt>, a: PrintArgs, n: nat, isDir: bool)
    requires forall i :: 0 <= i < |opts| ==> 0 !in opts[i].arg && opts[i].key != 111
    ensures ParseAll(opts, a, n, isDir).args.output == a.output
  {
    if opts != [] {
      var p := ParsePrintenvOpt(opts[0], a, n, isDir);
      if p.status == 0 && !p.exits {
        OutputUntouched(opts[1..], p.args, n, isDir);
      }
    }
  }

  /** `-c -p 0` is refused: two sources at once. */
  lemma CurrentAndPartition(n: nat)
    requires n >= 1
    ensures BgPrintenv([Opt(99, []), Opt(112, Ascii("0"))], n, false, true) == Exit(1)
  {
    ParseIntDecimal(0);
    assert Decimal(0) == Ascii("0");
    var a1 := ParsePrintenvOpt(Opt(99, []), INITIAL, n, false);
    var opts := [Opt(99, []), Opt(112, Ascii("0"))];
    assert opts[1..] == [Opt(112, Ascii("0"))];
    assert ParseAll(opts, INITIAL, n, false) == ParseAll(opts[1..], a1.args, n, false);
  }
}
