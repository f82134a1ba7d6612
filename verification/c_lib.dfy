/** The C library as the tools and the environment API use it: C strings,
    `strtol(s, &end, 10)` on a NUL-terminated string (the string is given
    without its NUL), `atoi`, `sprintf("%u")`, the conversion of a `long` to
    a 32-bit `int`, and ASCII case folding.  `errno` is modelled only where
    a caller reads it. */
module CLib {
  import opened Bytes

  const LONG_MAX: int := 0x7FFF_FFFF_FFFF_FFFF
  const LONG_MIN: int := -0x8000_0000_0000_0000
  const INT_MAX: int := 0x7FFF_FFFF
  const INT_MIN: int := -0x8000_0000

  const EPERM: int := 1
  const ENOENT: int := 2
  const EIO: int := 5
  const ENOMEM: int := 12
  const EINVAL: int := 22
  const ERANGE: int := 34

  /** The C string stored in a buffer: the bytes before the first NUL, or
      all of them when there is none. */
  function CStr(s: seq<byte>): (r: seq<byte>)
    ensures |r| <= |s| && r == s[..|r|]
    ensures 0 !in r
    ensures |r| < |s| ==> s[|r|] == 0
  {
    if |s| == 0 || s[0] == 0 then [] else [s[0]] + CStr(s[1..])
  }

  /** The bytes of an ASCII string literal. */
  function Ascii(s: string): (r: seq<byte>)
    requires forall i :: 0 <= i < |s| ==> s[i] as int < 0x80
    ensures |r| == |s| && forall i :: 0 <= i < |s| ==> r[i] == s[i] as int
  {
    seq(|s|, i requires 0 <= i < |s| => s[i] as int)
  }

  /** A string without NUL is its own C string. */
  lemma {:induction false} CStrOfString(s: seq<byte>)
    requires 0 !in s
    ensures CStr(s) == s && CStr(s + [0]) == s
  {
    if |s| > 0 {
      assert (s + [0])[1..] == s[1..] + [0];
      CStrOfString(s[1..]);
    }
  }

  /** The `strlen(s) + 1` bytes a C string occupies: its bytes and the NUL. */
  function CStrz(s: seq<byte>): (r: seq<byte>)
    ensures |r| == |CStr(s)| + 1 && r[|r| - 1] == 0
    ensures CStr(r) == CStr(s)
  {
    CStrOfString(CStr(s));
    CStr(s) + [0]
  }

  /** `isspace` in the C locale. */
  predicate IsSpace(c: byte)
  {
    c == 32 || 9 <= c <= 13
  }

  predicate IsDigit(c: byte)
  {
    48 <= c <= 57
  }

  predicate AllDigits(s: seq<byte>)
  {
    forall i :: 0 <= i < |s| ==> IsDigit(s[i])
  }

  /** Digits, and digits followed by another byte but NUL, hold no NUL. */
  lemma DigitsNoNul(d: seq<byte>, c: byte)
    requires AllDigits(d) && c != 0
    ensures 0 !in d && 0 !in d + [c]
  {
    assert forall i :: 0 <= i < |d + [c]| ==> (d + [c])[i] != 0 by {
      forall i | 0 <= i < |d + [c]| ensures (d + [c])[i] != 0 {
        if i < |d| { assert IsDigit(d[i]); }
      }
    }
  }

  /** The first index at or after `i` that is not white space. */
  function SkipSpace(s: seq<byte>, i: nat): (r: nat)
    requires i <= |s|
    ensures i <= r <= |s|
    ensures r < |s| ==> !IsSpace(s[r])
    ensures forall j :: i <= j < r ==> IsSpace(s[j])
    decreases |s| - i
  {
    if i < |s| && IsSpace(s[i]) then SkipSpace(s, i + 1) else i
  }

  /** The end of the run of digits that starts at `i`. */
  function DigitSpan(s: seq<byte>, i: nat): (r: nat)
    requires i <= |s|
    ensures i <= r <= |s|
    ensures r < |s| ==> !IsDigit(s[r])
    ensures AllDigits(s[i..r])
    decreases |s| - i
  {
    if i < |s| && IsDigit(s[i]) then DigitSpan(s, i + 1) else i
  }

  /** The value of a string of decimal digits, most significant first. */
  function DigitsValue(s: seq<byte>): nat
    requires AllDigits(s)
  {
    if |s| == 0 then 0 else 10 * DigitsValue(s[..|s| - 1]) + (s[|s| - 1] - 48)
  }

  /** `sprintf(buf, "%u", n)`: decimal digits without leading zeros. */
  function Decimal(n: nat): (r: seq<byte>)
    ensures 1 <= |r| && AllDigits(r)
    ensures r[0] == 48 ==> n == 0
  {
    if n < 10 then [48 + n] else Decimal(n / 10) + [48 + n % 10]
  }

  /** What `strtol` reports: the value, the offset where parsing stopped
      (0 when no digits were found, so `end == value`), and whether it set
      `errno` to ERANGE. */
  datatype Strtol = Strtol(value: int, end: nat, range: bool)

  /** `strtol(s, &end, 10)`: white space, an optional sign, then as many
      digits as there are; an out-of-range value saturates at
      LONG_MAX/LONG_MIN with ERANGE. */
  function ParseLong(s: seq<byte>): (r: Strtol)
    ensures LONG_MIN <= r.value <= LONG_MAX && r.end <= |s|
    ensures r.range ==> r.value == LONG_MAX || r.value == LONG_MIN
    ensures r.end == 0 ==> r == Strtol(0, 0, false)
    ensures r.end > 0 ==> r.end == |s| || !IsDigit(s[r.end])
  {
    var i := SkipSpace(s, 0);
    var signed := i < |s| && (s[i] == 43 || s[i] == 45);
    var j := if signed then i + 1 else i;
    var k := DigitSpan(s, j);
    if k == j then Strtol(0, 0, false)
    else
      var mag := DigitsValue(s[j..k]);
      var v: int := if signed && s[i] == 45 then 0 - mag as int else mag;
      if v > LONG_MAX then Strtol(LONG_MAX, k, true)
      else if v < LONG_MIN then Strtol(LONG_MIN, k, true)
      else Strtol(v, k, false)
  }

  /** `(int)x` for a `long` `x`: the low 32 bits read as two's complement. */
  function ToInt32(x: int): (r: int)
    ensures INT_MIN <= r <= INT_MAX
    ensures INT_MIN <= x <= INT_MAX ==> r == x
    ensures (r - x) % TWO_32 == 0
  {
    (x + 0x8000_0000) % TWO_32 - 0x8000_0000
  }

  /** `atoi`: `(int)strtol(s, NULL, 10)` with every error ignored. */
  function Atoi(s: seq<byte>): (r: int)
    ensures INT_MIN <= r <= INT_MAX
    ensures ParseLong(s).end == 0 ==> r == 0
  {
    ToInt32(ParseLong(s).value)
  }

  /** ASCII `tolower`, as `strncasecmp` compares. */
  function Lower(c: byte): (r: byte)
    ensures 65 <= c <= 90 ==> r == c + 32
    ensures !(65 <= c <= 90) ==> r == c
  {
    if 65 <= c <= 90 then c + 32 else c
  }

  /** `strncasecmp(s, p, strlen(p)) == 0`: `p` is a prefix of `s` when
      letters are compared without case. */
  predicate CasePrefix(p: seq<byte>, s: seq<byte>)
  {
    |p| <= |s| && forall i :: 0 <= i < |p| ==> Lower(p[i]) == Lower(s[i])
  }

  /** The decimal text of a number is read back as the same number. */
  lemma {:induction false} DecimalValue(n: nat)
    ensures DigitsValue(Decimal(n)) == n
  {
    if n >= 10 {
      var d := Decimal(n);
      assert d[..|d| - 1] == Decimal(n / 10);
      DecimalValue(n / 10);
    }
  }

  lemma DigitSpanAll(s: seq<byte>, i: nat)
    requires i <= |s| && AllDigits(s[i..])
    ensures DigitSpan(s, i) == |s|
    decreases |s| - i
  {
    if i < |s| {
      assert s[i] == s[i..][0];
      assert s[i + 1..] == s[i..][1..];
      DigitSpanAll(s, i + 1);
    }
  }

  /** `strtol` reads back every number `%u` prints, up to the end of the
      text. */
  lemma ParseDecimal(n: nat)
    requires n <= LONG_MAX
    ensures ParseLong(Decimal(n)) == Strtol(n, |Decimal(n)|, false)
  {
    var d := Decimal(n);
    assert !IsSpace(d[0]);
    assert d[0..] == d;
    DigitSpanAll(d, 0);
    assert d[0..|d|] == d;
    DecimalValue(n);
  }

  /** A printed number above LONG_MAX saturates with ERANGE. */
  lemma ParseDecimalBig(n: nat)
    requires n > LONG_MAX
    ensures ParseLong(Decimal(n)) == Strtol(LONG_MAX, |Decimal(n)|, true)
  {
    var d := Decimal(n);
    assert !IsSpace(d[0]);
    assert d[0..] == d;
    DigitSpanAll(d, 0);
    assert d[0..|d|] == d;
    DecimalValue(n);
  }

  /** A minus sign in front of a printed number gives its negation. */
  lemma ParseNegDecimal(n: nat)
    requires n <= LONG_MAX
    ensures ParseLong([45] + Decimal(n)) == Strtol(-(n as int), 1 + |Decimal(n)|, false)
  {
    var s := [45] + Decimal(n);
    var d := Decimal(n);
    assert s[1..] == d;
    DigitSpanAll(s, 1);
    assert s[1..|s|] == d;
    DecimalValue(n);
  }

  /** `k` digits "0". */
  function ZeroDigits(k: nat): (r: seq<byte>)
    ensures |r| == k && forall i :: 0 <= i < k ==> r[i] == 48
  {
    if k == 0 then [] else [48] + ZeroDigits(k - 1)
  }

  /** Zeros in front of a digit string do not change its value. */
  lemma {:induction false} LeadingZerosValue(k: nat, s: seq<byte>)
    requires AllDigits(s)
    ensures AllDigits(ZeroDigits(k) + s)
    ensures DigitsValue(ZeroDigits(k) + s) == DigitsValue(s)
    decreases |s|, k
  {
    var t := ZeroDigits(k) + s;
    if |s| > 0 {
      assert t[..|t| - 1] == ZeroDigits(k) + s[..|s| - 1];
      LeadingZerosValue(k, s[..|s| - 1]);
    } else if k > 0 {
      assert t == ZeroDigits(k);
      assert t[..|t| - 1] == ZeroDigits(k - 1) + [];
      LeadingZerosValue(k - 1, []);
    }
  }

  /** `strtol` reads a digit string to its end. */
  lemma ParseDigits(s: seq<byte>)
    requires AllDigits(s) && |s| > 0
    ensures var m := DigitsValue(s);
      ParseLong(s) == if m > LONG_MAX then Strtol(LONG_MAX, |s|, true) else Strtol(m, |s|, false)
  {
    assert !IsSpace(s[0]);
    assert s[0..] == s;
    DigitSpanAll(s, 0);
    assert s[0..|s|] == s;
  }

  /** Leading zeros are accepted: `strtol` reads zeros in front of a digit
      string as the same number, with the same range error, and only ends
      further on. */
  lemma ParseLeadingZeros(k: nat, s: seq<byte>)
    requires AllDigits(s) && |s| > 0
    ensures ParseLong(ZeroDigits(k) + s) == ParseLong(s).(end := k + |s|)
  {
    LeadingZerosValue(k, s);
    ParseDigits(s);
    ParseDigits(ZeroDigits(k) + s);
  }

  /** Example: "0013" is 13, one instance of `ParseLeadingZeros`. */
  lemma ParseZeroZeroThirteen()
    ensures ParseLong([48, 48, 49, 51]) == Strtol(13, 4, false)
  {
    assert [48, 48, 49, 51] == ZeroDigits(2) + Decimal(13);
    ParseLeadingZeros(2, Decimal(13));
    ParseDecimal(13);
  }

  /** Text without a digit after the optional sign is not a number. */
  lemma ParseNoDigits(s: seq<byte>)
    requires |s| > 0 && !IsDigit(s[0]) && !IsSpace(s[0]) && s[0] != 43 && s[0] != 45
    ensures ParseLong(s) == Strtol(0, 0, false)
  {
  }
}
