/** The environment record `BG_ENVDATA` of include/envdata.h, its packed
    byte layout (which the CRC covers), the CRC rules of env/env_api_fat.c
    (`clear_envdata`, `validate_envdata`, the NUL termination in `read_env`)
    and the 16/8-bit string conversions of env/env_api.c.

    CRC32 and `bgenv_validate_uservars` are not part of this model: every
    operation that needs them takes them as function parameters, so every
    property below holds whatever they compute.  `ENV_MEM_USERVARS` is the
    length of `userdata`. */
module EnvRecord {
  import opened Bytes
  import opened CLib
  import opened Wrappers

  type u16 = x: int | 0 <= x < 0x1_0000
  type u32 = x: int | 0 <= x < 0x1_0000_0000

  const ENV_STRING_LENGTH: nat := 255

  /** `n` zero units. */
  function ZeroUnits(n: nat): (r: seq<u16>)
    ensures |r| == n && forall i :: 0 <= i < n ==> r[i] == 0
  {
    if n == 0 then [] else [0] + ZeroUnits(n - 1)
  }

  /** A `uint16_t[ENV_STRING_LENGTH]` string field. */
  type Str16 = s: seq<u16> | |s| == 255 witness ZeroUnits(255)

  const USTATE_OK: byte := 0
  const USTATE_INSTALLED: byte := 1
  const USTATE_TESTING: byte := 2
  const USTATE_FAILED: byte := 3
  const USTATE_UNKNOWN: byte := 4
  const USTATE_MAX: byte := 4
  const REVISION_FAILED: u32 := 0
  const DEFAULT_TIMEOUT_SEC: u16 := 30

  /** Bytes before `userdata` in the packed record. */
  const HEAD: nat := 1028

  datatype EnvData = EnvData(
    kernelfile: Str16,
    kernelparams: Str16,
    inProgress: byte,
    ustate: byte,
    watchdog: u16,
    revision: u32,
    userdata: seq<byte>,
    crc32: u32)

  /** The checksum function: zlib `crc32(0, bytes, len)`. */
  type Crc = seq<byte> -> u32

  /** A 16-bit unit as it lies in memory, low byte first. */
  function Le16Bytes(w: u16): (r: seq<byte>)
    ensures |r| == 2 && r[0] as int + 256 * (r[1] as int) == w
  {
    [w % 256, w / 256]
  }

  /** A string field as it lies in memory. */
  function Units(s: seq<u16>): (r: seq<byte>)
    ensures |r| == 2 * |s|
  {
    if |s| == 0 then [] else Le16Bytes(s[0]) + Units(s[1..])
  }

  /** The record's bytes in the packed (`pack(1)`) layout, without the
      trailing crc32: what `bgenv_crc32(0, data, sizeof(BG_ENVDATA) -
      sizeof(data->crc32))` reads. */
  function Payload(d: EnvData): (r: seq<byte>)
    ensures |r| == HEAD + |d.userdata|
  {
    Units(d.kernelfile) + Units(d.kernelparams) + [d.inProgress, d.ustate] +
      Le16Bytes(d.watchdog) + Le32Bytes(d.revision) + d.userdata
  }

  /** The stored checksum matches the record. */
  predicate CrcOk(d: EnvData, crc: Crc)
  {
    d.crc32 == crc(Payload(d))
  }

  /** The checksum ignores its own field. */
  lemma PayloadIgnoresCrc(d: EnvData, c: u32)
    ensures Payload(d.(crc32 := c)) == Payload(d)
  {
  }

  /** `data->crc32 = crc32(0, data, sizeof(BG_ENVDATA) - sizeof(crc32))`:
      every field but the checksum is kept and the checksum then matches. */
  function WithCrc(d: EnvData, crc: Crc): (r: EnvData)
    ensures CrcOk(r, crc)
    ensures r.(crc32 := d.crc32) == d
  {
    PayloadIgnoresCrc(d, 0);
    d.(crc32 := crc(Payload(d)))
  }

  /** The record after `memset(data, 0, sizeof(BG_ENVDATA))`. */
  function Zeroed(mem: nat): (r: EnvData)
    ensures |r.userdata| == mem
  {
    EnvData(ZeroUnits(255), ZeroUnits(255), 0, 0, 0, 0, Zeros(mem), 0)
  }

  lemma {:induction false} UnitsZero(s: seq<u16>)
    requires forall i :: 0 <= i < |s| ==> s[i] == 0
    ensures Units(s) == Zeros(2 * |s|)
  {
    if |s| > 0 {
      UnitsZero(s[1..]);
      assert Units(s) == [0, 0] + Zeros(2 * |s| - 2);
    }
  }

  /** A zeroed record has only zero bytes. */
  lemma ZeroedPayload(mem: nat)
    ensures Payload(Zeroed(mem)) == Zeros(HEAD + mem)
  {
    UnitsZero(ZeroUnits(255));
    assert Le32Bytes(0) == Zeros(4);
    assert Le16Bytes(0) == Zeros(2);
    assert [0, 0] == Zeros(2);
    ZerosConcat(510, 510);
    ZerosConcat(1020, 2);
    ZerosConcat(1022, 2);
    ZerosConcat(1024, 4);
    ZerosConcat(1028, mem);
  }

  lemma ZerosConcat(a: nat, b: nat)
    ensures Zeros(a) + Zeros(b) == Zeros(a + b)
  {
  }

  /** `clear_envdata`: all bytes zero and a checksum that matches them. */
  function ClearEnvdata(mem: nat, crc: Crc): (r: EnvData)
    ensures |r.userdata| == mem && CrcOk(r, crc)
    ensures Payload(r) == Zeros(HEAD + mem)
    ensures r.crc32 == crc(Zeros(HEAD + mem))
  {
    ZeroedPayload(mem);
    WithCrc(Zeroed(mem), crc)
  }

  /** `validate_envdata`: a record is kept when its checksum matches and
      its user variables pass `bgenv_validate_uservars` (`uservarsOk`);
      otherwise it is cleared and reported invalid. */
  function ValidateEnvdata(d: EnvData, crc: Crc, uservarsOk: seq<byte> -> bool): (r: (bool, EnvData))
    ensures r.0 <==> CrcOk(d, crc) && uservarsOk(d.userdata)
    ensures r.0 ==> r.1 == d
    ensures !r.0 ==> r.1 == ClearEnvdata(|d.userdata|, crc)
  {
    if d.crc32 != crc(Payload(d)) then (false, ClearEnvdata(|d.userdata|, crc))
    else if !uservarsOk(d.userdata) then (false, ClearEnvdata(|d.userdata|, crc))
    else (true, d)
  }

  /** Whatever the record, validation leaves one whose checksum matches and
      whose size is unchanged. */
  lemma ValidateKeepsCrc(d: EnvData, crc: Crc, uservarsOk: seq<byte> -> bool)
    ensures CrcOk(ValidateEnvdata(d, crc, uservarsOk).1, crc)
    ensures |ValidateEnvdata(d, crc, uservarsOk).1.userdata| == |d.userdata|
  {
  }

  /** Both strings end in a NUL inside their arrays. */
  predicate Terminated(d: EnvData)
  {
    d.kernelfile[254] == 0 && d.kernelparams[254] == 0
  }

  /** The tail of `read_env`: the record read from the file (`None` when the
      read failed), its strings forcibly terminated, then validated.  A
      failed read clears the record. */
  function ReadEnv(file: Option<EnvData>, mem: nat, crc: Crc, uservarsOk: seq<byte> -> bool): (r: (bool, EnvData))
    requires file.Some? ==> |file.value.userdata| == mem
    ensures |r.1.userdata| == mem && CrcOk(r.1, crc) && Terminated(r.1)
    ensures file.None? ==> !r.0
    ensures r.0 ==> file.Some? && r.1.kernelfile[..254] == file.value.kernelfile[..254]
    ensures r.0 ==> file.Some? && r.1.kernelparams[..254] == file.value.kernelparams[..254]
    ensures r.0 ==> file.Some? && r.1.userdata == file.value.userdata
  {
    match file
    case None => (false, ClearEnvdata(mem, crc))
    case Some(d) =>
      var t := d.(kernelfile := d.kernelfile[254 := 0], kernelparams := d.kernelparams[254 := 0]);
      ValidateEnvdata(t, crc, uservarsOk)
  }

  // ---------------------------------------------------------------------
  // env/env_api.c: 16-bit and 8-bit strings.

  /** The units of a 16-bit string before its first NUL. */
  function CStr16(s: seq<u16>): (r: seq<u16>)
    ensures |r| <= |s| && r == s[..|r|] && 0 !in r
    ensures |r| < |s| ==> s[|r|] == 0
  {
    if |s| == 0 || s[0] == 0 then [] else [s[0]] + CStr16(s[1..])
  }

  /** `(char)u`: the low byte of a unit. */
  function Narrow(u: u16): byte
  {
    u % 256
  }

  /** `(wchar_t)c` for a signed `char` and a 16-bit `wchar_t`: bytes from
      0x80 up are sign-extended. */
  function Widen(c: byte): (r: u16)
    ensures Narrow(r) == c
    ensures c < 0x80 ==> r == c
    ensures r == 0 <==> c == 0
  {
    if c < 0x80 then c else c + 0xFF00
  }

  function NarrowAll(s: seq<u16>): (r: seq<byte>)
    ensures |r| == |s|
    ensures forall i :: 0 <= i < |s| ==> r[i] == Narrow(s[i])
  {
    seq(|s|, i requires 0 <= i < |s| => Narrow(s[i]))
  }

  function WidenAll(s: seq<byte>): (r: seq<u16>)
    ensures |r| == |s|
    ensures forall i :: 0 <= i < |s| ==> r[i] == Widen(s[i])
  {
    seq(|s|, i requires 0 <= i < |s| => Widen(s[i]))
  }

  /** `str16to8(buffer, src)`: each unit before the NUL narrowed, then a
      NUL.  `None` stands for a null pointer, in or out. */
  function Str16To8(buffer: bool, src: Option<seq<u16>>): (r: Option<seq<byte>>)
    requires src.Some? ==> 0 in src.value
    ensures r.Some? <==> buffer && src.Some?
    ensures r.Some? ==> |r.value| >= 1 && r.value[|r.value| - 1] == 0
    ensures r.Some? ==> r.value[..|r.value| - 1] == NarrowAll(CStr16(src.value))
  {
    if !buffer || src.None? then None
    else Some(NarrowAll(CStr16(src.value)) + [0])
  }

  /** `str8to16(buffer, src)` into a string field: the bytes before the NUL
      widened, then a NUL; the units after it keep their old values.  The
      text must fit in the field with its NUL. */
  function Str8To16(buffer: Str16, src: seq<byte>): (r: Str16)
    requires |CStr(src)| < ENV_STRING_LENGTH
    ensures CStr16(r) == WidenAll(CStr(src))
    ensures r[|CStr(src)| + 1..] == buffer[|CStr(src)| + 1..]
  {
    var w := WidenAll(CStr(src));
    var r := w + [0] + buffer[|w| + 1..];
    CStr16Of(w, buffer[|w| + 1..]);
    r
  }

  lemma {:induction false} CStr16Of(w: seq<u16>, rest: seq<u16>)
    requires 0 !in w
    ensures CStr16(w + [0] + rest) == w
  {
    if |w| > 0 {
      assert (w + [0] + rest)[1..] == w[1..] + [0] + rest;
      CStr16Of(w[1..], rest);
    }
  }

  /** Narrowing undoes widening for every byte, so a string stored with
      `str8to16` is read back unchanged by `str16to8`. */
  lemma StringRoundTrip(buffer: Str16, src: seq<byte>)
    requires |CStr(src)| < ENV_STRING_LENGTH
    ensures 0 in Str8To16(buffer, src)
    ensures Str16To8(true, Some(Str8To16(buffer, src))) == Some(CStr(src) + [0])
  {
    var r := Str8To16(buffer, src);
    assert r[|CStr(src)|] == 0;
    assert NarrowAll(WidenAll(CStr(src))) == CStr(src);
  }

  /** For ASCII text the conversions are the identity on unit values. */
  lemma AsciiWiden(s: seq<byte>)
    requires forall i :: 0 <= i < |s| ==> s[i] < 0x80
    ensures forall i :: 0 <= i < |s| ==> WidenAll(s)[i] == s[i]
  {
  }
  // ---------------------------------------------------------------------
  // The record in memory, and strings longer than their field.

  /** The 16-bit units an even number of bytes hold, low byte first. */
  function UnitsOf(b: seq<byte>): (r: seq<u16>)
    requires |b| % 2 == 0
    ensures |r| == |b| / 2
  {
    if |b| == 0 then [] else [b[0] as int + 256 * (b[1] as int)] + UnitsOf(b[2..])
  }

  /** Unit `k` of a string lies in bytes `2k` and `2k + 1`. */
  lemma {:induction false} UnitsAt(s: seq<u16>, k: nat)
    requires k < |s|
    ensures Units(s)[2 * k] as int + 256 * (Units(s)[2 * k + 1] as int) == s[k]
  {
    if k > 0 {
      UnitsAt(s[1..], k - 1);
      assert Units(s)[2 * k] == Units(s[1..])[2 * (k - 1)];
      assert Units(s)[2 * k + 1] == Units(s[1..])[2 * (k - 1) + 1];
    }
  }

  lemma {:induction false} UnitsOfAt(b: seq<byte>, k: nat)
    requires |b| % 2 == 0 && 2 * k + 1 < |b|
    ensures UnitsOf(b)[k] == b[2 * k] as int + 256 * (b[2 * k + 1] as int)
  {
    if k > 0 {
      UnitsOfAt(b[2..], k - 1);
    }
  }

  lemma {:induction false} UnitsAppend(a: seq<u16>, b: seq<u16>)
    ensures Units(a + b) == Units(a) + Units(b)
  {
    if |a| > 0 {
      assert (a + b)[0] == a[0] && (a + b)[1..] == a[1..] + b;
      UnitsAppend(a[1..], b);
      assert Units(a + b) == Le16Bytes(a[0]) + (Units(a[1..]) + Units(b));
    } else {
      assert a + b == b;
    }
  }

  /** Reading units back from their bytes gives them back, and the other
      way round. */
  lemma {:induction false} UnitsOfUnits(s: seq<u16>)
    ensures UnitsOf(Units(s)) == s
  {
    if |s| > 0 {
      assert Units(s)[2..] == Units(s[1..]);
      UnitsOfUnits(s[1..]);
    }
  }

  lemma {:induction false} UnitsUnitsOf(b: seq<byte>)
    requires |b| % 2 == 0
    ensures Units(UnitsOf(b)) == b
  {
    if |b| > 0 {
      DivMod256(b[0] as int + 256 * (b[1] as int), b[0], b[1]);
      UnitsUnitsOf(b[2..]);
      assert b == b[..2] + b[2..];
    }
  }

  /** The whole record as it lies in memory: the payload, then the
      checksum. */
  function Image(d: EnvData): (r: seq<byte>)
    ensures |r| == HEAD + |d.userdata| + 4
  {
    Payload(d) + Le32Bytes(d.crc32)
  }

  /** The record a block of `sizeof(BG_ENVDATA)` bytes holds, with
      `userdata` of `mem` bytes. */
  function FromImage(b: seq<byte>, mem: nat): (r: EnvData)
    requires |b| == HEAD + mem + 4
    ensures |r.userdata| == mem
  {
    Le16Bound(b, 1022);
    Le32Bound(b, 1024);
    Le32Bound(b, HEAD + mem);
    EnvData(UnitsOf(b[..510]), UnitsOf(b[510..1020]), b[1020], b[1021], Le16At(b, 1022),
            Le32At(b, 1024), b[HEAD..HEAD + mem], Le32At(b, HEAD + mem))
  }

  /** A record read back from its memory is the record. */
  lemma ImageRoundTrip(d: EnvData)
    ensures FromImage(Image(d), |d.userdata|) == d
  {
    var b := Image(d);
    var mem := |d.userdata|;
    assert b[..510] == Units(d.kernelfile);
    assert b[510..1020] == Units(d.kernelparams);
    UnitsOfUnits(d.kernelfile);
    UnitsOfUnits(d.kernelparams);
    assert b[1022..1024] == Le16Bytes(d.watchdog);
    Le32AtSlice(b, 1024, Le32Bytes(d.revision));
    Le32RoundTrip(d.revision);
    assert b[HEAD..HEAD + mem] == d.userdata;
    Le32AtSlice(b, HEAD + mem, Le32Bytes(d.crc32));
    Le32RoundTrip(d.crc32);
  }

  /** Each field of the record read from memory writes back the bytes it
      was read from. */
  lemma FromImageFields(b: seq<byte>, mem: nat)
    requires |b| == HEAD + mem + 4
    ensures Units(FromImage(b, mem).kernelfile) == b[..510]
    ensures Units(FromImage(b, mem).kernelparams) == b[510..1020]
    ensures [FromImage(b, mem).inProgress, FromImage(b, mem).ustate] == b[1020..1022]
    ensures Le16Bytes(FromImage(b, mem).watchdog) == b[1022..1024]
    ensures Le32Bytes(FromImage(b, mem).revision) == b[1024..HEAD]
    ensures Le32Bytes(FromImage(b, mem).crc32) == b[HEAD + mem..]
  {
    UnitsUnitsOf(b[..510]);
    UnitsUnitsOf(b[510..1020]);
    Le16Bound(b, 1022);
    Le32BytesRoundTrip(b, 1024);
    Le32BytesRoundTrip(b, HEAD + mem);
  }

  /** Memory read as a record and written back is unchanged. */
  lemma FromImageRoundTrip(b: seq<byte>, mem: nat)
    requires |b| == HEAD + mem + 4
    ensures Image(FromImage(b, mem)) == b
  {
    FromImageFields(b, mem);
    assert b == b[..510] + b[510..1020] + b[1020..1022] + b[1022..1024] + b[1024..HEAD] +
      b[HEAD..HEAD + mem] + b[HEAD + mem..];
  }

  /** Where the two string fields start in the record. */
  const KERNELFILE_AT: nat := 0
  const KERNELPARAMS_AT: nat := 510

  /** The units `str8to16` writes for a text: the bytes before its NUL
      widened, then a NUL. */
  function TextUnits(src: seq<byte>): (r: seq<u16>)
    ensures |r| == |CStr(src)| + 1 && r[|CStr(src)|] == 0
    ensures forall i :: 0 <= i < |CStr(src)| ==> r[i] == Widen(CStr(src)[i]) != 0
  {
    WidenAll(CStr(src)) + [0]
  }

  /** `str8to16(field, src)` on the string field that starts at byte `at`
      of the record.  The copy has no bound: the units are written one
      after another from the start of the field for as long as the text
      lasts, so text of 255 bytes or more runs on into the fields that
      follow.  The bytes that would land past the end of the record are
      not kept. */
  function Str8To16In(d: EnvData, at: nat, src: seq<byte>): (r: EnvData)
    requires at == KERNELFILE_AT || at == KERNELPARAMS_AT
    ensures |r.userdata| == |d.userdata|
    ensures forall i :: 0 <= i < |Image(d)| ==>
      Image(r)[i] == if at <= i < at + 2 * (|CStr(src)| + 1) then Units(TextUnits(src))[i - at] else Image(d)[i]
  {
    ClippedImage(d, at, Units(TextUnits(src)));
    FromImage(WriteClipped(Image(d), at, Units(TextUnits(src))), |d.userdata|)
  }

  /** Bytes written over a record's image, clipped at its end, read back
      as a record whose image holds exactly those bytes. */
  lemma ClippedImage(d: EnvData, at: nat, t: seq<byte>)
    requires at <= HEAD
    ensures var r := FromImage(WriteClipped(Image(d), at, t), |d.userdata|);
      |r.userdata| == |d.userdata| &&
      forall i :: 0 <= i < |Image(d)| ==> Image(r)[i] == if at <= i < at + |t| then t[i - at] else Image(d)[i]
  {
    var b := WriteClipped(Image(d), at, t);
    FromImageRoundTrip(b, |d.userdata|);
  }

  /** A change to the bytes of `kernelfile` only changes that field. */
  lemma FromImageFirstField(b: seq<byte>, c: seq<byte>, mem: nat)
    requires |b| == |c| == HEAD + mem + 4
    requires forall i :: 510 <= i < |b| ==> c[i] == b[i]
    ensures FromImage(c, mem) == FromImage(b, mem).(kernelfile := UnitsOf(c[..510]))
  {
    assert b[510..1020] == c[510..1020];
    assert b[HEAD..HEAD + mem] == c[HEAD..HEAD + mem];
  }

  /** A change to the bytes of `kernelparams` only changes that field. */
  lemma FromImageSecondField(b: seq<byte>, c: seq<byte>, mem: nat)
    requires |b| == |c| == HEAD + mem + 4
    requires forall i :: 0 <= i < |b| && !(510 <= i < 1020) ==> c[i] == b[i]
    ensures FromImage(c, mem) == FromImage(b, mem).(kernelparams := UnitsOf(c[510..1020]))
  {
    assert b[..510] == c[..510];
    assert b[HEAD..HEAD + mem] == c[HEAD..HEAD + mem];
  }

  /** The bytes of a string field are its units. */
  lemma ImageFields(d: EnvData)
    ensures Image(d)[..510] == Units(d.kernelfile)
    ensures Image(d)[510..1020] == Units(d.kernelparams)
  {
  }

  /** The units of a field with its first `n` replaced by `t`. */
  lemma UnitsOverwrite(f: seq<u16>, t: seq<u16>, b: seq<byte>)
    requires |t| <= |f| && |b| == 2 * |f|
    requires forall i :: 0 <= i < |b| ==> b[i] == if i < 2 * |t| then Units(t)[i] else Units(f)[i]
    ensures UnitsOf(b) == t + f[|t|..]
  {
    UnitsAppend(f[..|t|], f[|t|..]);
    assert f == f[..|t|] + f[|t|..];
    UnitsAppend(t, f[|t|..]);
    var rest := Units(f[|t|..]);
    forall i | 0 <= i < |b|
      ensures b[i] == (Units(t) + rest)[i]
    {
      if i >= 2 * |t| {
        assert Units(f)[i] == rest[i - 2 * |t|];
      }
    }
    assert b == Units(t) + rest;
    UnitsOfUnits(t + f[|t|..]);
  }

  /** What the unbounded copy does to the string fields: text that fits
      with its NUL changes its field as the bounded `Str8To16` does, and
      longer text leaves the record unterminated. */
  lemma Str8To16InCases(d: EnvData, src: seq<byte>)
    ensures |CStr(src)| < ENV_STRING_LENGTH ==>
      Str8To16In(d, KERNELFILE_AT, src) == d.(kernelfile := Str8To16(d.kernelfile, src)) &&
      Str8To16In(d, KERNELPARAMS_AT, src) == d.(kernelparams := Str8To16(d.kernelparams, src))
    ensures |CStr(src)| >= ENV_STRING_LENGTH ==>
      Str8To16In(d, KERNELFILE_AT, src).kernelfile[254] != 0 &&
      Str8To16In(d, KERNELPARAMS_AT, src).kernelparams[254] != 0
  {
    if |CStr(src)| < ENV_STRING_LENGTH {
      Str8To16InFits(d, src);
    } else {
      Str8To16InLastUnit(d, src);
    }
  }

  /** Text that fits its field with its NUL changes that field only, as
      the bounded `Str8To16` describes. */
  lemma Str8To16InFits(d: EnvData, src: seq<byte>)
    requires |CStr(src)| < ENV_STRING_LENGTH
    ensures Str8To16In(d, KERNELFILE_AT, src) == d.(kernelfile := Str8To16(d.kernelfile, src))
    ensures Str8To16In(d, KERNELPARAMS_AT, src) == d.(kernelparams := Str8To16(d.kernelparams, src))
  {
    FitsFirst(d, src);
    FitsSecond(d, src);
  }

  lemma FitsFirst(d: EnvData, src: seq<byte>)
    requires |CStr(src)| < ENV_STRING_LENGTH
    ensures Str8To16In(d, KERNELFILE_AT, src) == d.(kernelfile := Str8To16(d.kernelfile, src))
  {
    var t := TextUnits(src);
    var img := Image(d);
    var c := WriteClipped(img, KERNELFILE_AT, Units(t));
    ImageRoundTrip(d);
    FromImageFirstField(img, c, |d.userdata|);
    ImageFields(d);
    UnitsOverwrite(d.kernelfile, t, c[..510]);
    assert Str8To16(d.kernelfile, src) == t + d.kernelfile[|t|..];
  }

  lemma FitsSecond(d: EnvData, src: seq<byte>)
    requires |CStr(src)| < ENV_STRING_LENGTH
    ensures Str8To16In(d, KERNELPARAMS_AT, src) == d.(kernelparams := Str8To16(d.kernelparams, src))
  {
    var t := TextUnits(src);
    var img := Image(d);
    var c := WriteClipped(img, KERNELPARAMS_AT, Units(t));
    ImageRoundTrip(d);
    FromImageSecondField(img, c, |d.userdata|);
    ImageFields(d);
    UnitsOverwrite(d.kernelparams, t, c[510..1020]);
    assert Str8To16(d.kernelparams, src) == t + d.kernelparams[|t|..];
  }

  /** Text of 255 bytes or more leaves no NUL in the last unit of its
      field: that unit holds the text's 255th byte. */
  lemma Str8To16InLastUnit(d: EnvData, src: seq<byte>)
    requires |CStr(src)| >= ENV_STRING_LENGTH
    ensures Str8To16In(d, KERNELFILE_AT, src).kernelfile[254] == Widen(CStr(src)[254]) != 0
    ensures Str8To16In(d, KERNELPARAMS_AT, src).kernelparams[254] == Widen(CStr(src)[254]) != 0
  {
    LastUnitFirst(d, src);
    LastUnitSecond(d, src);
  }

  lemma LastUnitFirst(d: EnvData, src: seq<byte>)
    requires |CStr(src)| >= ENV_STRING_LENGTH
    ensures Str8To16In(d, KERNELFILE_AT, src).kernelfile[254] == Widen(CStr(src)[254])
  {
    var t := TextUnits(src);
    var c := WriteClipped(Image(d), KERNELFILE_AT, Units(t));
    UnitsAt(t, 254);
    UnitsOfAt(c[..510], 254);
  }

  lemma LastUnitSecond(d: EnvData, src: seq<byte>)
    requires |CStr(src)| >= ENV_STRING_LENGTH
    ensures Str8To16In(d, KERNELPARAMS_AT, src).kernelparams[254] == Widen(CStr(src)[254])
  {
    var t := TextUnits(src);
    var c := WriteClipped(Image(d), KERNELPARAMS_AT, Units(t));
    UnitsAt(t, 254);
    UnitsOfAt(c[510..1020], 254);
  }

  /** Text of exactly 255 bytes fills its field without a NUL, and the NUL
      lands on the unit after it: after `kernelfile` it empties
      `kernelparams`; after `kernelparams` it zeroes `in_progress` and
      `ustate`. */
  lemma Str8To16InRunsOn(d: EnvData, src: seq<byte>)
    requires |CStr(src)| == ENV_STRING_LENGTH
    ensures var r := Str8To16In(d, KERNELFILE_AT, src);
      r.kernelfile == WidenAll(CStr(src)) && r.kernelparams[0] == 0
    ensures var q := Str8To16In(d, KERNELPARAMS_AT, src);
      q.kernelparams == WidenAll(CStr(src)) && q.inProgress == 0 && q.ustate == 0 && q.kernelfile == d.kernelfile
  {
    RunsOnFirst(d, src);
    RunsOnSecond(d, src);
  }

  lemma RunsOnFirst(d: EnvData, src: seq<byte>)
    requires |CStr(src)| == ENV_STRING_LENGTH
    ensures var r := Str8To16In(d, KERNELFILE_AT, src);
      r.kernelfile == WidenAll(CStr(src)) && r.kernelparams[0] == 0
  {
    var t := TextUnits(src);
    var w := WidenAll(CStr(src));
    var c := WriteClipped(Image(d), KERNELFILE_AT, Units(t));
    assert t == w + [0];
    UnitsAppend(w, [0]);
    assert c[..510] == Units(w);
    UnitsOfUnits(w);
    UnitsOfAt(c[510..1020], 0);
  }

  lemma RunsOnSecond(d: EnvData, src: seq<byte>)
    requires |CStr(src)| == ENV_STRING_LENGTH
    ensures var q := Str8To16In(d, KERNELPARAMS_AT, src);
      q.kernelparams == WidenAll(CStr(src)) && q.inProgress == 0 && q.ustate == 0 && q.kernelfile == d.kernelfile
  {
    var t := TextUnits(src);
    var w := WidenAll(CStr(src));
    var c := WriteClipped(Image(d), KERNELPARAMS_AT, Units(t));
    assert t == w + [0];
    UnitsAppend(w, [0]);
    assert c[510..1020] == Units(w);
    UnitsOfUnits(w);
    ImageFields(d);
    assert c[..510] == Image(d)[..510];
    UnitsOfUnits(d.kernelfile);
  }
}
