# EFI Boot Guard, modelled in Dafny

EFI Boot Guard is a UEFI boot loader with a Linux-side toolset. It keeps
several copies of a boot environment, one per config partition. Each copy
holds a kernel path, kernel arguments, a watchdog timeout, a revision, an
update state, a packed area of user variables and a trailing CRC32. At
boot, the loader picks the valid copy with the highest revision and arms a
hardware watchdog. It also drives the update-confirmation protocol:

- an `INSTALLED` copy becomes `TESTING`;
- a `TESTING` copy that boots again has failed: it is demoted to `FAILED`
  with revision 0, and the runner-up is booted;
- a copy still in progress is skipped.

This project models the sequential, byte-level core of that system as pure
functions over immutable values and proves what the code promises of them.

- **User-variable store** (`UserVarRecord`, `UserVarArea`, `UserVars`).
  - A record is key, NUL, a 32-bit payload length, a 64-bit type and the
    data, packed into a fixed area ended by a zero byte.
  - Find, get, set, append, in-place rewrite, resize, delete with compaction
    and free-space accounting work on the bytes.
  - Each is tied to an abstract list-of-variables view by lemmas.
- **Environment API** (`EnvRecord`, `EnvApiFat`, `EnvApi`, `FatVars`,
  `ConfigPartitions`).
  - Revision argmin/argmax, typed get/set with their error codes,
    create-new and the global-state API.
  - The loader's selection and state transitions.
  - Config-partition probing and device naming.
- **Older API generation** (`LegacyEnv`, `LegacySetenv`, `LegacyEbgenv`).
  The `testing`/`boot_once` flag record of the old tools and the swupdate
  adapter. It is kept apart from the `ustate`/`in_progress` record.
- **Command-line parsing** (`EnvTools`, `PrintEnv`, `LegacySetenv`).
  - Update-state names, strict integer parsing and output-field lists.
  - The option conflict rules.
- **Binary parsers.** Each walks a byte sequence and returns a value or a
  defined failure:
  - the FAT boot sector and the FAT12/16/32 decision (`Fat`);
  - MBR/EBR/GPT partition tables and GUID text (`EbgPart`);
  - the flattened device tree root `compatible` (`Fdt`);
  - the PE section table of the kernel stub (`StubMain`);
  - the LoadFile2 buffer contract (`StubInitrd`);
  - the SMBIOS structure walk and the SIMATIC OEM entry (`Smbios`,
    `Simatic`);
  - the ACPI RSDP/RSDT/XSDT walk and WDAT instruction interpreter
    (`Wdat`).
- **Paths** (`Utils`). Boot-medium path truncation and `L:`/`C:`
  label-prefixed payload paths.
- **Watchdog drivers** (`Wdat`, `Eiois200`, `Itco`, `Ipc4x7e`, `IpcBx21a`,
  `AmdFch`).
  - The register values written are functions of the timeout and of the
    values read.
  - Port and memory accesses are kept as the sequence the driver issues.
  - Register reads are parameters.

Shared helpers:

- `Wrappers`: `Option`/`Result`.
- `Bytes`: bytes and little/big-endian words.
- `Seqs`: sequence lemmas.
- `CLib`: `strtol`, `atoi`, `strncasecmp` and UTF-16 strings.
- `Efi`: UEFI status codes.

Names that come from headers outside the model are parameters:

- the number of config partitions;
- the size of the user-variable area;
- the old partition count.

The FAT12 cluster limit is the constant `Fat.MAX_FAT12` (0xFF4).

CRC32 and the user-variable validator are function-typed parameters.
Everything else is stated in full.

Two points where the code differs from what its documentation suggests
are modelled as the code has them:

- `bgenv_get` reports the revision, a 32-bit field, with the type code of
  a 16-bit integer (`EnvApiFat.BgenvGet`).
- The BX-21A station id that `ipcbx21a.c` compares against is not defined
  in include/simatic.h, so it is a parameter (`IpcBx21a.Init`).

## Model

| member | source | states |
|---|---|---|
| UserVarRecord.MapUservar | env/uservars.c:17-71 | a mapped key is a NUL-free string, empty exactly when the first byte is 0, its type fits 64 bits, and in an area below 4 GiB the record size (payload length + key length + 1) is the variable's record size and keeps the record inside the area |
| UserVarRecord.MapUservarFails | env/uservars.c:41-70 | mapping fails exactly when the code would read past the area: no NUL ends the key, or the 12 header bytes after it or the `payload - 12` data bytes (a 32-bit subtraction) do not fit |
| UserVarRecord.MapFromNul | env/uservars.c:41-52 | the key ends at the first NUL after the record start, as `strlen` finds it |
| UserVarRecord.SerializeUservar | env/uservars.c:73-94 | serialising writes exactly `record_size` bytes |
| UserVarRecord.SerializeUservarFields | env/uservars.c:73-94 | the serialised record is the key, a NUL, the payload length `record_size - strlen(key) - 1` as little-endian 32 bits, the 64-bit type, then the first `payload - 12` data bytes |
| UserVarRecord.EncodeIsSerialize | env/uservars.c:73-94 | the record of a variable is exactly what `bgenv_serialize_uservar` writes for its record size |
| UserVarRecord.EncodePieces | env/uservars.c:20-35 | a record is key, NUL, payload length 12 + data length, type, data, in that order |
| UserVarRecord.EncodeStartsWithKey | env/uservars.c:165 | a record starts with a non-NUL byte, so the walk does not take it for the end of the list |
| UserVarRecord.MapEncode | env/uservars.c:17-94 | round trip: mapping a serialised record, whatever bytes surround it, gives back the same key, type, data and record size |
| UserVarRecord.MapSerialize | env/uservars.c:17-94 | converse round trip: the bytes of any record that maps, with a key, are the serialisation of what it maps to |
| UserVarRecord.MapFields | env/uservars.c:17-71 | bytes holding the fields of a valid variable map to that variable and its record size |
| UserVarRecord.MappedFields | env/uservars.c:17-71 | a mapped record with a key is a valid variable whose fields lie at its offset |
| UserVarArea.DecodeWalks | env/uservars.c:165-183 | walking the records from an offset, each step advancing by the record size, decodes to exactly the variables visited, all valid and inside the area |
| UserVarArea.WalksDecode | env/uservars.c:165-183 | conversely, whatever the walk decodes is a walk of the area |
| UserVarArea.WellFormedArea | env/uservars.c:197-205 | a well-formed area is its records one after another followed by zeros to the end (at least one zero ends the list) |
| UserVarArea.AreaWellFormed | env/uservars.c:197-205 | every valid list of variables that leaves a byte free has a well-formed area that decodes back to that list |
| UserVarArea.FindArea | env/uservars.c:158-174 | the search returns the offset of the first variable whose key equals the requested key exactly, and nothing when no key matches |
| UserVarArea.FindFromWalks | env/uservars.c:165-172 | the byte-level search along a walk agrees with the search over the variables it visits |
| UserVarArea.FindInIndex | env/uservars.c:165-172 | the search over the list returns the offset of the variable `IndexOf` picks |
| UserVarArea.IndexOfSpec | env/uservars.c:165-172 | `IndexOf` finds nothing exactly when no key matches, and otherwise no earlier key matches |
| UserVarArea.IndexOfAt | env/uservars.c:165-172 | the first variable with the key is the one found |
| UserVarArea.FreeArea | env/uservars.c:255-279 | free space is the area size minus the sum of the record sizes; an area starting with 0 is empty and reports the whole size |
| UserVarArea.FreeFromWalks | env/uservars.c:269-276 | the free-space loop subtracts each visited record size |
| UserVarArea.UsedSplit | env/uservars.c:176-183 | the record of `vs[i]` starts where the records before it end, and the next one right after it |
| UserVarArea.OffsetMonotone | env/uservars.c:176-183 | later records start at strictly larger offsets |
| UserVarArea.OffsetInjective | env/uservars.c:176-183 | two variables never share a record offset |
| UserVarArea.AppendArea | env/uservars.c:185-206 | writing a record after the last one, with a zero byte to spare, gives the area of the list with the variable appended |
| UserVarArea.AppendWellFormed | env/uservars.c:197-205 | an appended record keeps the area well formed and adds exactly its variable at the end |
| UserVarArea.ReplaceArea | env/uservars.c:216-220 | overwriting a record with one of the same size gives the area of the list with that variable replaced in place |
| UserVarArea.RemoveArea | env/uservars.c:235-253 | moving the later records down over the deleted one and zero-filling the tail gives the area of the list without that variable, its order kept |
| UserVarArea.RemoveValid | env/uservars.c:250 | removing a variable frees exactly its record size |
| UserVarArea.RemoveList | env/uservars.c:246-248 | the records before and after the removed one are moved unchanged |
| UserVarArea.LookupSpec | env/uservars.c:158-174 | the lookup view finds a variable with the key exactly when one exists |
| UserVarArea.LookupRemove | env/uservars.c:235-253 | removing a variable from a list with distinct keys forgets its key and nothing else |
| UserVarArea.LookupAppend | env/uservars.c:185-206 | appending a variable whose key is new adds that key and nothing else |
| UserVarArea.LookupUpdate | env/uservars.c:208-220 | replacing a variable by one with the same key changes only what that key looks up |
| UserVarArea.UniqueKeysRemove | env/uservars.c:235-253 | deletion keeps keys distinct |
| UserVarArea.UniqueKeysAppend | env/uservars.c:185-206 | appending a new key keeps keys distinct |
| UserVarArea.UniqueKeysUpdate | env/uservars.c:208-220 | replacing under the same key keeps keys distinct |
| UserVars.FindUservar | env/uservars.c:158-174 | the byte-level search returns the offset of the first variable whose key equals the requested one (NUL included, so exactly), and nothing when there is none |
| UserVars.UserFree | env/uservars.c:255-279 | free space is the area size minus every record size; an empty area reports the whole area |
| UserVars.NextUservar | env/uservars.c:176-183 | the next record starts right after the current one |
| UserVars.Alloc | env/uservars.c:185-206 | allocation succeeds exactly when the record and one terminating zero byte fit, returns the end of the records, and otherwise fails with ENOMEM |
| UserVars.GetUservar | env/uservars.c:96-123 | getting an absent key gives -EINVAL; otherwise the first matching variable's type and its data truncated to `maxlen` |
| UserVars.Store | env/uservars.c:149-155 | without a place the result is -errno and the area is unchanged; with one the serialised record lies at that place and the result is 0 |
| UserVars.SetUservar | env/uservars.c:125-156 | with the corrected space test of the resize (see Findings): the area keeps its size; the result is 0 or -ENOMEM; a DELETED type always gives 0, and for an absent key leaves the area as it was |
| UserVars.DelUservar | env/uservars.c:235-253 | deletion keeps the area size and every byte before the deleted record |
| UserVars.EmptyKeyBreaksArea | env/uservars.c:125-156 | setting an empty key keeps the area well formed exactly when nothing is written: with the DELETED bit or when the record does not fit |
| UserVars.EmptyKeyRecord | env/uservars.c:142-155 | a record with an empty key stored after the records ends the list at its NUL and leaves non-zero bytes after it, so the area is no longer well formed |
| UserVars.DelUservarArea | env/uservars.c:235-253 | deletion moves later records down unchanged and in order and zero-fills the freed tail: the area of the list without the variable |
| UserVars.DelUservarSpec | env/uservars.c:235-253 | deletion keeps the area well formed, removes exactly that variable, and increases free space by exactly its record size |
| UserVars.ReallocSpec | env/uservars.c:208-233 | with the corrected space test of the resize (see Findings): a record of unchanged size stays in place; otherwise the variable is deleted first and the new place is the end of the rest, granted exactly when the record fits with a spare zero byte, else ENOMEM |
| UserVars.SerializeIsEncode | env/uservars.c:131-132 | the record written for a new variable has size data + 8 + 4 + key + 1 and is its encoding |
| UserVars.StoreAppend | env/uservars.c:143-155 | storing at the end of the records appends the variable to the list |
| UserVars.StoreReplace | env/uservars.c:216-220 | storing a same-size record in place replaces that variable |
| UserVars.SetDeleteSpec | env/uservars.c:134-139 | setting a present key with the DELETED type bit removes it and returns 0 |
| UserVars.SetSameSizeSpec | env/uservars.c:216-220 | a same-size rewrite stays in place and replaces the variable |
| UserVars.SetResizeSpec | env/uservars.c:222-233 | with the corrected space test of the resize (see Findings): a resized variable moves to the end when it fits; otherwise the result is -ENOMEM and the old variable is gone |
| UserVars.SetNewSpec | env/uservars.c:142-151 | an absent key with the DELETED bit is a no-op returning 0; otherwise the record is appended when it fits with a spare byte, and else -ENOMEM with the area unchanged |
| UserVars.SetUservarSpec | env/uservars.c:125-156 | with the corrected space test of the resize (see Findings): the byte-level set does to the list of variables what the reference `SetVars` says and keeps the area well formed |
| UserVars.GetLookup | env/uservars.c:96-123 | the byte-level get reads the lookup view of the list |
| UserVars.SetVarsLookup | env/uservars.c:125-156 | with the corrected space test of the resize (see Findings): on distinct keys, set changes at most what its key looks up: the new variable on success without DELETED, nothing otherwise |
| UserVars.GetAfterSet | env/uservars.c:96-156 | with the corrected space test of the resize (see Findings): after a set, getting that key returns the stored type and data truncated to `maxlen` when the set succeeded without DELETED and -EINVAL otherwise; every other key reads as before |
| UserVars.ReallocAsWritten | env/uservars.c:208-233 | the resize exactly as written, with the space test `spaceleft < new_rsize - 1` |
| UserVars.ReallocAsWrittenSpace | env/uservars.c:225-230 | as written, the resize accepts a record up to one byte larger than the free space, where the corrected test demands a spare byte |
| UserVars.ReallocOverflowExample | env/uservars.c:227 | a 30-byte area holding "A" and "B": resizing "A" to 17 bytes is placed at offset 14 and would end at byte 31; the corrected test refuses |
| UserVars.Realloc | env/uservars.c:208-233 | corrected (see Findings): the corrected resize keeps the area size |
| EnvRecord.PayloadIgnoresCrc | env/env_api_fat.c:56-57 | the bytes the checksum covers (the packed record up to, not including, `crc32`) do not depend on the `crc32` field |
| EnvRecord.WithCrc | env/env_api_fat.c:56-57 | storing the checksum of the covered bytes makes the record's checksum match and changes no other field |
| EnvRecord.ZeroedPayload | env/env_api_fat.c:55 | after the `memset` every covered byte is zero |
| EnvRecord.ClearEnvdata | env/env_api_fat.c:53-58 | a cleared record is all zero bytes with the checksum of those zero bytes, so it always passes the checksum test |
| EnvRecord.ValidateEnvdata | env/env_api_fat.c:60-78 | a record is accepted exactly when its checksum matches and its user variables are valid; an accepted record is kept, a rejected one is cleared |
| EnvRecord.ValidateKeepsCrc | env/env_api_fat.c:60-78 | whatever is read, validation leaves a record whose checksum matches, of the same size |
| EnvRecord.ReadEnv | env/env_api_fat.c:99-124 | a failed read clears the record and reports failure; otherwise both strings are NUL-terminated in their last unit and then validated; a success keeps the first 254 units of both strings and the user variables as read |
| EnvRecord.Widen | env/env_api.c:51 | the `(wchar_t)` cast of a signed `char`: ASCII bytes keep their value, only NUL becomes NUL, and narrowing gives the byte back |
| EnvRecord.Str16To8 | env/env_api.c:29-42 | a null buffer or source gives null; otherwise the units before the first NUL, each narrowed to its low byte, followed by a NUL |
| EnvRecord.Str8To16 | env/env_api.c:44-57 | the bytes before the first NUL, each widened, then a NUL; the units after that NUL keep their old values |
| EnvRecord.StringRoundTrip | env/env_api.c:29-57 | round trip: a string written with `str8to16` reads back with `str16to8` as the same bytes and a NUL |
| EnvRecord.ImageRoundTrip | include/envdata.h:36-45 | round trip: a record laid out as the packed `BG_ENVDATA` bytes and read back is the record |
| EnvRecord.FromImageFields | include/envdata.h:36-45 | each field read from the packed bytes writes back exactly the bytes it was read from |
| EnvRecord.FromImageRoundTrip | include/envdata.h:36-45 | round trip: packed bytes read as a record and laid out again are the same bytes |
| EnvRecord.Str8To16In | env/env_api.c:44-57 | the unbounded copy into a string field writes the text's units and its NUL from the field's start, over whatever fields follow, and changes no other byte of the record |
| EnvRecord.Str8To16InCases | env/env_api.c:44-57 | text that fits with its NUL changes its field as the bounded `Str8To16` does; longer text leaves the field without a NUL in its last unit |
| EnvRecord.Str8To16InFits | env/env_api.c:44-57 | text that fits with its NUL changes its own field only |
| EnvRecord.Str8To16InLastUnit | env/env_api.c:44-57 | text of 255 bytes or more puts its 255th byte, not a NUL, in the field's last unit |
| EnvRecord.Str8To16InRunsOn | env/env_api.c:44-57 | text of exactly 255 bytes fills its field and its NUL lands on the next field: `kernelparams` becomes empty, or `in_progress` and `ustate` become 0 |
| EnvRecord.AsciiWiden | env/env_api.c:51 | for ASCII text, widening keeps every value |
| EnvApiFat.Str2Enum | env/env_api_fat.c:25-46 | a key is built-in exactly when it is one of the six names (`kernelfile`, `kernelparams`, `watchdog_timeout_sec`, `revision`, `ustate`, `in_progress`), and a built-in key's name is the key |
| EnvApiFat.Str2EnumNames | env/env_api_fat.c:25-46 | every built-in name maps back to its key; the empty string is no key |
| EnvApiFat.OpenByIndex | env/env_api_fat.c:202-216 | a handle exists exactly for an index below the number of records, and it refers to that record and that partition |
| EnvApiFat.BgenvWrite | env/env_api_fat.c:246-266 | a null handle or a null partition fails; otherwise the result is whether writing the partition succeeds |
| EnvApiFat.OldestFrom | env/env_api_fat.c:223-228 | the minimum loop, started from any state its invariant allows, ends on the first record with the smallest revision |
| EnvApiFat.LatestFrom | env/env_api_fat.c:237-242 | the maximum loop ends on the first record with the greatest revision |
| EnvApiFat.Oldest | env/env_api_fat.c:218-230 | `bgenv_open_oldest` picks a record with the smallest revision and no earlier record with the same revision |
| EnvApiFat.Latest | env/env_api_fat.c:232-244 | `bgenv_open_latest` picks a record with the greatest revision and no earlier record with the same revision |
| EnvApiFat.ChoiceUnique | env/env_api_fat.c:218-244 | the choice is determined: at most one index is the oldest and at most one the latest |
| EnvApiFat.AllEqualChoosesFirst | env/env_api_fat.c:218-244 | when every revision is equal, both the oldest and the latest are record 0 |
| EnvApiFat.SetNumber | env/env_api_fat.c:417-444 | storing a non-negative `int` in a numeric field keeps it modulo the field's width (32, 16 or 8 bits), and exactly when it fits |
| EnvApiFat.UservarSize | env/env_api_fat.c:331-339 | the size `bgenv_get` reports without a buffer is the data length of the variable with that key, and there is none exactly when no variable has the key |
| EnvApiFat.BgenvGet | env/env_api_fat.c:287-373 | a missing key or a zero `maxlen` is -EINVAL, a null handle -EPERM; a built-in key without a buffer reports the text length with its NUL, with a buffer copies the text and sets its type; a user key without a buffer reports its size or -ENOENT, with one gets the data cut to `maxlen` or -EINVAL |
| EnvApiFat.ConvertToLong | env/env_api_fat.c:375-390 | the converted value is the `strtol` value, -ERANGE when it saturated, and -EINVAL when no digit was read |
| EnvApiFat.SetBuiltin | env/env_api_fat.c:411-449 | the value is the C string at `data`, up to its NUL; a kernel string always succeeds: text that fits with its NUL changes only its field, as `Str8To16` describes, and longer text leaves the record unterminated; a numeric field either fails with -EINVAL and the record unchanged or is set; the user variables never change |
| EnvApiFat.BgenvSet | env/env_api_fat.c:392-449 | a missing key or data or a zero length is -EINVAL with nothing changed, a null handle -EPERM; a built-in key behaves as `SetBuiltin` on the C string at `data`, whatever `datalen` is; any other key, the empty one included, as `bgenv_set_uservar` on the first `datalen` bytes |
| EnvApiFat.BuiltinIgnoresDatalen | env/env_api_fat.c:411-444 | for a built-in key any two non-zero lengths set the same, the value being the C string at `data`, so "vmlinuz" with length 3 stores "vmlinuz" |
| EnvApiFat.SetNumberDecimal | env/env_api_fat.c:412-444 | setting a numeric field from the decimal text of `n` stores `n` cut to a C `int` when that is non-negative and otherwise fails with -EINVAL |
| EnvApiFat.SetGetNumber | env/env_api_fat.c:412-444 | round trip: a value the field can hold is stored as is, and `bgenv_get` then produces the same decimal text |
| EnvApiFat.SetRevisionWraps | env/env_api_fat.c:412-417 | a revision of 2^32 wraps to 0, the value meaning a failed update, and one of 2^31 turns negative and is rejected |
| EnvApiFat.SetNumberSigns | env/env_api_fat.c:375-444 | "-0" sets 0, a negative number and text without digits are rejected with the record unchanged |
| EnvApiFat.SetNegativeDecimal | env/env_api_fat.c:412-444 | minus followed by the decimal text of `n` sets 0 when `n` is 0 and is rejected otherwise |
| EnvApiFat.SetNoDigits | env/env_api_fat.c:386-444 | text that does not start a number is rejected and the record stays as it was |
| EnvApiFat.SetGetString | env/env_api_fat.c:419-424 | round trip: a kernel path or argument string set with `bgenv_set` succeeds and is read back by `bgenv_get` as the same C string |
| EnvApiFat.CreateNew | env/env_api_fat.c:452-486 | the oldest record becomes the new one with the latest revision plus one (in 32 bits) and `in_progress` set, every other record unchanged; when it is not the latest it is first zeroed and given the default watchdog timeout, otherwise it keeps its fields |
| EnvApiFat.CreateNewIsLatest | env/env_api_fat.c:452-486 | unless the revision wraps, the new record is the latest afterwards and its revision exceeds every earlier one |
| EnvApi.Current | env/env_api.c:108-131 | the record `bgenv_get` and `bgenv_set` work on is there exactly when a record is open, and it is one they can work on |
| EnvApi.ZeroedSound | env/env_api_fat.c:470-475 | a zeroed record with the default watchdog timeout is one get and set can work on |
| EnvApi.EbgEnvCreateNew | env/env_api.c:64-95 | a failed init is EIO; when the latest record is already in progress it is opened unchanged; otherwise the oldest record becomes a copy of the latest with the next revision (in 32 bits) and `in_progress` set, and is opened |
| EnvApi.CreateNewTwice | env/env_api.c:64-95 | unless the revision wraps, the new record is the latest afterwards, so a second call opens it again and changes nothing |
| EnvApi.EbgEnvOpenCurrent | env/env_api.c:97-106 | a failed init is EIO; otherwise the latest record is opened |
| EnvApi.EbgEnvGet | env/env_api.c:108-118 | get reads the open record with `bgenv_get`, and is -EPERM when none is open |
| EnvApi.EbgEnvSetEx | env/env_api.c:127-131 | the caller's buffer and `datalen` go to `bgenv_set` unchanged; set changes the open record as `bgenv_set` does and no other record; with none open it is -EPERM and nothing changes; the context stays one get and set can work on exactly when the set does not break the open record |
| EnvApi.EbgEnvSet | env/env_api.c:120-125 | a string value is set with its NUL, `datalen` being its length plus one, and the default string type, and the context stays usable exactly when that set does not break the open record |
| EnvApi.SetKeepsSound | env/env_api_fat.c:392-450 | for any key, `bgenv_set` keeps the record's size, and keeps its strings terminated and its user area well formed exactly when it neither copies kernel text of 255 bytes or more nor stores a user variable with an empty key |
| EnvApi.ValidPut | env/env_api.c:127-131 | replacing one record of the context keeps it usable exactly when the new record is sound and its user area has the size the context needs |
| EnvApi.Str8To16Terminated | env/env_api.c:44-57 | a string that fits leaves the field's last unit NUL |
| EnvApi.EbgEnvUserFree | env/env_api.c:133-142 | with no record open the free space is 0, otherwise the user area's size minus the space its variables use |
| EnvApi.AnyFailedFrom | env/env_api.c:150-167 | the scan finds a failed record (revision 0 and state FAILED) exactly when one exists from that index on |
| EnvApi.EbgEnvGetGlobalState | env/env_api.c:144-179 | the global state is FAILED exactly when some record is failed or the latest is in state FAILED; with no failed record it is the latest record's state |
| EnvApi.ResetFrom | env/env_api.c:197-214 | the reset loop changes only the state and checksum of records not in state OK, setting OK with a matching checksum; it ends with 0 exactly when every such write succeeds, and then every record is OK |
| EnvApi.EbgEnvSetGlobalState | env/env_api.c:181-215 | a state above FAILED is -EINVAL with nothing changed; INSTALLED, TESTING or FAILED is set in the open record only (-EPERM when none is open); a successful OK leaves every record in state OK |
| EnvApi.SetUstate | env/env_api.c:189-191 | setting a one-digit state through its text stores that state in the open record, -EPERM when none is open |
| EnvApi.ResetSound | env/env_api.c:203-206 | resetting the state keeps user areas and string termination |
| EnvApi.SetGlobalStateOk | env/env_api.c:144-215 | after a successful set to OK the global state reads OK |
| EnvApi.SetGlobalStateGet | env/env_api.c:144-195 | round trip: setting INSTALLED, TESTING or FAILED in the latest record, with no record failed, is what the global state reads next |
| EnvApi.StateOfLatest | env/env_api.c:169-178 | the state stored in the latest record, with no record failed, is the global state |
| EnvApi.EbgEnvClose | env/env_api.c:217-241 | with no record open the result is EIO; otherwise the open record gets its checksum, the result is 0 exactly when writing it succeeds and EIO otherwise, and no record is open afterwards |
| EnvApi.CloseReadsBack | env/env_api.c:217-241 | round trip: the record `ebg_env_close` writes is read back by `read_env` unchanged and valid, when its user variables pass validation |
| EnvApi.EbgEnvRegisterGcVar | env/env_api.c:243-264 | a null key is EINVAL; otherwise a copy of the key joins the end of the registry |
| EnvApi.DeleteKeys | env/env_api.c:277-287 | deleting the registered keys keeps the user area well formed and its size |
| EnvApi.DeleteKey | env/env_api.c:279-282 | deleting the variable a key finds, with distinct keys, forgets that key and nothing else |
| EnvApi.DeleteKeysSpec | env/env_api.c:277-287 | after the loop no registered key names a variable and every other key looks up what it did before |
| EnvApi.EbgEnvFinalizeUpdate | env/env_api.c:266-292 | corrected (see Findings: the registry is emptied, where the C code leaves it pointing at freed items); with no record open the result is EIO; otherwise the registered variables are deleted, the registry emptied, and the record marked INSTALLED and not in progress |
| EnvApi.FinalizeForgetsGarbage | env/env_api.c:266-292 | after finalising, a registered key is gone from the open record and every other key is as it was |
| EnvApi.FinalizeAgainChangesNothing | env/env_api.c:266-292 | corrected (see Findings): a second finalize after a successful one deletes nothing more and returns 0 with the context unchanged |
| EnvApi.Live | env/env_api.c:243-264 | a context whose registry items are all allocated lists exactly the registered keys |
| EnvApi.WalkMeetsFreed | env/env_api.c:251-253 | the walk along the registry from an item reaches a freed item exactly when one lies at or after it |
| EnvApi.EbgEnvRegisterGcVarAsWritten | env/env_api.c:243-264 | as written, over a registry whose items may be freed: a null key is EINVAL; the walk to the end faults exactly when some item is freed; otherwise status and keys are those of the corrected register and a fresh item with the key is appended |
| EnvApi.EbgEnvFinalizeUpdateAsWritten | env/env_api.c:266-292 | as written: EIO with no record open; the walk faults exactly when some item is already freed; otherwise 0, the record stays valid, and every item is freed while `gc_registry` still lists every key |
| EnvApi.FinalizeAsWrittenAgrees | env/env_api.c:266-292 | on a registry of live items the as-written finalize gives the corrected status, records and open record, but with keys registered it leaves a different context whose registry is not empty |
| EnvApi.FinalizeThenRegisterFaults | env/env_api.c:243-292 | as written: after a finalize with keys registered, the next register walks into a freed item |
| EnvApi.FinalizeTwiceFaults | env/env_api.c:266-292 | as written: a second finalize after one with keys registered walks into a freed item, where the corrected second finalize returns 0 with nothing changed |
| FatVars.SaveCurrentConfig | env/fatvars.c:22-82 | saving is refused, with the records unchanged, unless enumeration succeeds, finds exactly the expected number of partitions and the file opens; otherwise the current record gets its checksum, no other record changes, and the status is success exactly when writing and closing both succeed |
| FatVars.ReadSlot | env/fatvars.c:123-167 | one read step puts the slot's record in place and touches no other; it marks the record invalid exactly when the read failed or the checksum does not match, and degrades the status exactly when the file did not open, did not read, failed its checksum or did not close |
| FatVars.ReadFromAt | env/fatvars.c:122-168 | the read loop puts each slot's record in its place, marks it invalid exactly when its read or checksum failed, and leaves the records past the slots alone |
| FatVars.ReadFromDegraded | env/fatvars.c:122-168 | the read loop leaves the status clean exactly when it was clean and no slot is bad |
| FatVars.Eligible | env/fatvars.c:174-176 | an invalid record competes with revision 0, so it never wins against a positive revision; a valid one with its own revision |
| FatVars.SelectFrom | env/fatvars.c:174-189 | from any state the loop invariant allows, the selection ends on the first record with the greatest revision and the runner-up among the others |
| FatVars.Select | env/fatvars.c:172-189 | the latest record is the first with the greatest eligible revision and the pre-latest the first greatest among the rest |
| FatVars.SelectUnique | env/fatvars.c:172-189 | the latest record is determined: two records satisfying the definition are the same |
| FatVars.ParamsOf | env/fatvars.c:215-218 | the loader parameters are the record's kernel path and arguments up to their NUL and its watchdog timeout |
| FatVars.Transition | env/fatvars.c:191-213 | a latest record in progress is skipped for the runner-up; one in TESTING is marked FAILED with revision 0, saved, and the runner-up booted; one INSTALLED is marked TESTING, saved and booted; any other is booted unchanged; no other record changes |
| FatVars.LoadConfig | env/fatvars.c:84-228 | a failed enumeration or too many partitions is a configuration error with no parameters; otherwise the parameters are those of the record booted, and the status is success exactly when every expected partition was found and read cleanly, and partially corrupted otherwise |
| FatVars.ReadAll | env/fatvars.c:121-168 | every slot's record is read into its place and marked invalid exactly when its read or checksum failed; records past the slots stay zero and valid; the status is clean exactly when all partitions were found and no slot is bad |
| FatVars.InvalidNotChosen | env/fatvars.c:174-192 | a record that failed to read or failed its checksum, or was never read, is not booted when some valid record has a positive revision |
| FatVars.ReadClean | env/fatvars.c:121-168 | reading records whose checksums all match keeps them all, marks none invalid and degrades nothing |
| FatVars.BootClean | env/fatvars.c:84-228 | a boot from records whose checksums all match succeeds and applies the transition to the latest record |
| FatVars.UpdateKeepsCrc | env/fatvars.c:64-68 | replacing one record by one whose checksum matches keeps every checksum matching |
| FatVars.UpdateKeepsEligible | env/fatvars.c:198-213 | a change that keeps the revision keeps the choice of latest record |
| FatVars.UpdateTriedOnce | env/fatvars.c:191-213 | an installed update gets one try: the first boot marks it TESTING, saves and boots it; the next boot from the saved records marks it FAILED with revision 0 and boots the runner-up |
| ConfigPartitions.DevPath | env/env_config_partitions.c:47-55 | the device path is the device path followed by "p" and the partition number for mmcblk, loop and nvme devices and by the number alone otherwise, whenever it fits the 4096-byte buffer |
| ConfigPartitions.PartPaths | env/env_config_partitions.c:38-56 | the candidates of a device are at most its partitions, one per FAT partition |
| ConfigPartitions.ProbeFrom | env/env_config_partitions.c:32-79 | the loop fills the slots with the partitions holding an environment file, in the order found, and stops early exactly when there are more than the expected number |
| ConfigPartitions.ProbeConfigPartitions | env/env_config_partitions.c:20-87 | a null array fails; otherwise the probe succeeds exactly when the number of partitions holding an environment file is the expected number, and the slots hold them in order |
| ConfigPartitions.FoundPrefix | env/env_config_partitions.c:62-76 | one more candidate adds itself to the found list exactly when it holds an environment file |
| ConfigPartitions.FoundMonotone | env/env_config_partitions.c:62-76 | what is found in a prefix of the candidates begins what is found in all of them |
| EnvTools.Ustate2Str | tools/bg_envtools.c:22-30 | a state up to UNKNOWN is named by its entry in the table, and any larger value as UNKNOWN |
| EnvTools.Str2UstateFrom | tools/bg_envtools.c:39-44 | the loop returns the first state below UNKNOWN whose name begins the text, compared without case, and UNKNOWN when none does |
| EnvTools.Str2Ustate | tools/bg_envtools.c:32-45 | a null string is UNKNOWN; otherwise the result is the first state whose name begins the text without regard to case, no earlier name matches, and UNKNOWN means none matched |
| EnvTools.UstateRoundTrip | tools/bg_envtools.c:22-45 | round trip: the name of every state, UNKNOWN included, parses back as that state |
| EnvTools.Str2UstateTesting | tools/bg_envtools.c:39-44 | names are compared without case: "testing" is TESTING |
| EnvTools.Str2UstateOkay | tools/bg_envtools.c:40 | only the name's length is compared, so "OKAY" is OK |
| EnvTools.Str2UstateShort | tools/bg_envtools.c:39-44 | "fail" is shorter than FAILED and begins no other name, so it is UNKNOWN |
| EnvTools.ParseInt | tools/bg_envtools.c:47-62 | the text is accepted exactly when `strtol` reads digits up to the end without saturating and the value fits an `int`, giving that value; anything else is -1 with EINVAL |
| EnvTools.ParseIntDecimal | tools/bg_envtools.c:47-62 | the decimal text of any `int`, with or without a minus sign, is accepted as that number |
| EnvTools.ParseIntRejects | tools/bg_envtools.c:54-57 | a character after the number, or a number past `int` range, is rejected |
| EnvTools.ParseDecimalThen | tools/bg_envtools.c:53 | a non-digit after decimal text stops `strtol` there with that value |
| EnvTools.DigitSpanUpTo | tools/bg_envtools.c:53 | a run of digits ended by a non-digit is the whole digit span `strtol` reads |
| EnvTools.ParseCommonOpt | tools/bg_envtools.c:64-137 | an unknown key is ARGP_ERR_UNKNOWN with nothing changed; -p succeeds exactly when the text is a valid `int` naming an existing record, which it selects, and otherwise is 1 with nothing changed; -f sets the path, with the environment file name appended for a directory in compatibility mode |
| EnvTools.PartitionOption | tools/bg_envtools.c:103-120 | -p accepts exactly the decimal numbers of existing records |
| PrintEnv.Enable | tools/bg_printenv.c:55-68 | switching a field on sets that field and no other |
| PrintEnv.FieldOf | tools/bg_printenv.c:55-72 | the `strcmp` chain finds the field whose name the token is, and nothing exactly when no field has that name |
| PrintEnv.Split | tools/bg_printenv.c:53 | `strsep` on commas yields at least one token and none contains a comma |
| PrintEnv.SplitJoin | tools/bg_printenv.c:53 | round trip: the tokens joined with commas are the input |
| PrintEnv.ParseTokens | tools/bg_printenv.c:53-74 | the token loop succeeds exactly when every token is empty or a field name, and then it switches on exactly the named fields in addition to those already on |
| PrintEnv.NamesDistinct | tools/bg_printenv.c:55-68 | no two fields share a name |
| PrintEnv.ParseOutputFields | tools/bg_printenv.c:49-75 | the list is accepted exactly when each token is empty or a field name, and then exactly the listed fields are switched on |
| PrintEnv.AllNamesAllFields | tools/bg_printenv.c:47-75 | listing every name, in any order and with empty tokens between, gives all seven fields |
| PrintEnv.ParsePrintenvOpt | tools/bg_printenv.c:272-297 | -c selects the latest record, -r raw output, -o the listed fields with its status; a positional argument ends the program with the usage status 64 and changes nothing; any other key goes to the common options without compatibility mode |
| PrintEnv.PositionalArgumentIsUsageError | tools/bg_printenv.c:287-291 | a positional argument after options that all parse cleanly makes `bg_printenv` exit with status 64, whatever follows it |
| PrintEnv.ParseAll | tools/bg_printenv.c:312 | parsing no options leaves the arguments as they are |
| PrintEnv.Sources | tools/bg_printenv.c:322-325 | the count of -c, -f and -p is at most three and zero exactly when none was given |
| PrintEnv.BgPrintenv | tools/bg_printenv.c:300-373 | a parse failure is its status; more than one of -c, -f and -p is 1; raw mode without exactly one of them is 1; otherwise the file, the latest record, the selected record or, with none, every record is printed with the chosen fields |
| PrintEnv.DefaultPrintsAll | tools/bg_printenv.c:308-369 | without options every record is printed with every field, not raw |
| PrintEnv.OutputUntouched | tools/bg_printenv.c:308-310 | options without -o keep the default fields |
| PrintEnv.CurrentAndPartition | tools/bg_printenv.c:326-329 | `-c -p 0` is refused with 1 |
| LegacyEnv.OldWithCrc | tools/bg_utils.c:363-364 | storing the checksum of every byte but the checksum field makes it match and keeps every other field |
| LegacyEnv.OldStr16To8 | tools/bg_utils.c:35-48 | a null buffer or source gives null; otherwise the units before the first NUL narrowed to bytes, then a NUL |
| LegacyEnv.OldStr8To16 | tools/bg_utils.c:50-63 | a null buffer or source gives null; otherwise the bytes before the first NUL widened, then a NUL, with no bound on the length |
| LegacyEnv.OldStr8To16In | tools/bg_utils.c:50-63 | the unbounded copy into an old record's string field writes the text's units and NUL from the field's start and no other byte; text that fits changes its field only, longer text leaves it without a NUL |
| LegacyEnv.OldStr8To16InRunsOn | tools/bg_utils.c:50-63 | text of exactly 255 bytes fills its field and its NUL empties `kernelparams`, or clears `testing` and `boot_once` |
| LegacyEnv.OldStringRoundTrip | tools/bg_utils.c:35-63 | round trip: converting text to 16 bits and back gives the text and its NUL |
| LegacyEnv.OldDevPath | tools/bg_utils.c:234-240 | only `/dev/mmcblk` devices put "p" before the partition number, whenever the path fits the 4096-byte buffer |
| LegacyEnv.OldPartPaths | tools/bg_utils.c:227-263 | a device gives at most one candidate per partition, only FAT16 ones |
| LegacyEnv.OldProbe | tools/bg_utils.c:209-272 | a null array fails; otherwise the probe succeeds exactly when the number of FAT16 partitions holding an environment file is the number of records, which then fill the slots in order |
| LegacyEnv.Fat32Ignored | tools/bg_utils.c:229-233 | a FAT32 partition is never a candidate in the old probe |
| LegacyEnv.OldInit | tools/bg_utils.c:350-373 | init succeeds exactly for the FAT type when probing succeeds; each record is then what was read, or its previous content where the read failed, and a checksum mismatch is only reported, not acted on |
| LegacyEnv.GetByIndex | tools/bg_utils.c:375-394 | a handle exists exactly for the FAT type, an index below the number of records and a successful allocation, and it refers to that record |
| LegacyEnv.MinFrom | tools/bg_utils.c:403-408 | the minimum loop ends on the first record with the smallest revision |
| LegacyEnv.MaxFrom | tools/bg_utils.c:421-426 | the maximum loop ends on the first record with the greatest revision |
| LegacyEnv.Revisions | tools/bg_utils.c:404-422 | the revisions the loops compare are the records' revisions, in order |
| LegacyEnv.OldestIndex | tools/bg_utils.c:396-412 | the oldest is the first record with the smallest revision |
| LegacyEnv.LatestIndex | tools/bg_utils.c:414-430 | the latest is the first record with the greatest revision |
| LegacyEnv.FirstExtremaUnique | tools/bg_utils.c:396-430 | the first minimum and the first maximum are each determined by the revisions |
| LegacyEnv.GetOldest | tools/bg_utils.c:396-412 | a handle exists exactly for the FAT type, some record and a successful allocation, and it refers to the first record with the smallest revision |
| LegacyEnv.GetLatest | tools/bg_utils.c:414-430 | a handle exists exactly for the FAT type, some record and a successful allocation, and it refers to the first record with the greatest revision |
| LegacyEnv.EqualRevisionsPickFirst | tools/bg_utils.c:396-430 | with equal revisions both searches pick record 0 |
| LegacyEnv.OldWrite | tools/bg_utils.c:432-453 | writing succeeds exactly for a FAT handle with a partition whose write succeeds |
| LegacyEnv.OldRead | tools/bg_utils.c:455-461 | a null handle reads null; otherwise the handle's own record |
| LegacyEnv.OldClose | tools/bg_utils.c:463-470 | closing fails only for a null handle |
| LegacyEnv.HandleReadsItsRecord | tools/bg_utils.c:375-461 | a handle from `bgenv_get_by_index` reads its own record and writes to its own partition |
| LegacySetenv.FillUnits | tools/bg_setenv.c:246-247 | `n` units, each of the given value |
| LegacySetenv.MarkUnits | tools/bg_setenv.c:246-247 | a string field of the marked record has every unit 0xEAEA |
| LegacySetenv.Marked | tools/bg_setenv.c:246-247 | after the `memset` with the marker byte, every field of the temporary record is made of 0xEA bytes |
| LegacySetenv.MergeAsWritten | tools/bg_setenv.c:186-210 | as written, each field is copied from the temporary record unless the low byte of its first unit is the marker, and the checksum field is left to be recomputed |
| LegacySetenv.Merge | tools/bg_setenv.c:181-213 | reference definition of the intent: every field an option gave is copied and every other field keeps the target's value |
| LegacySetenv.UpdateAsWritten | tools/bg_setenv.c:181-213 | as written, the merge with the checksum recomputed over the result, so it matches |
| LegacySetenv.Update | tools/bg_setenv.c:181-213 | the intended merge, with the checksum recomputed over the result |
| LegacySetenv.UpdateAgrees | tools/bg_setenv.c:181-213 | when no given value has the marker as its first byte, the byte test does exactly what is intended |
| LegacySetenv.MergeAgrees | tools/bg_setenv.c:186-210 | the same agreement for the field copies alone |
| LegacySetenv.NoOptionsNoChange | tools/bg_setenv.c:181-247 | without options the target keeps every field and only its checksum is recomputed |
| LegacySetenv.RevisionLowByteLost | tools/bg_setenv.c:198-201 | as written, a revision whose low byte is 0xEA is taken for the marker and not stored, where the intent stores it |
| LegacySetenv.Field | tools/bg_setenv.c:75-76 | the field a `-k` or `-a` text makes holds the widened text up to its NUL |
| LegacySetenv.ParseOpt | tools/bg_setenv.c:59-179 | corrected (see Findings: the length test of -k/-a leaves room for the NUL); each option's effect: -k/-a succeed exactly when the text fits with its NUL and set that string; -p accepts only a converted 0 or 1; -t only 0 or 1; -r stores the number modulo 2^32; -w refuses 0 and stores modulo 2^16; -c clears and -b sets both flags; -u is refused after -p; an unknown key is ARGP_ERR_UNKNOWN; a failure changes nothing |
| LegacySetenv.StoreStringAsWritten | tools/bg_setenv.c:67-88 | as written, -k and -a accept text up to 255 bytes, one more than the field holds with its NUL, and a refused text leaves the temporary record unchanged |
| LegacySetenv.ArgsOverflow | tools/bg_setenv.c:78-88 | as written, a 255-byte `-a` text is accepted, the stored arguments have no NUL, and the spilled NUL sets `testing` and `boot_once` to 0 in the target; the corrected check refuses the text |
| LegacySetenv.StoreAgrees | tools/bg_setenv.c:67-77 | for every text that fits, -k as written and as corrected store the same |
| LegacySetenv.ParseAll | tools/bg_setenv.c:250-252 | parsing no options leaves the arguments as they are |
| LegacySetenv.PartitionThenUpdate | tools/bg_setenv.c:147-156 | `-p 1 -u` is refused with 1 whatever follows |
| LegacySetenv.SetenvMain | tools/bg_setenv.c:228-383 | built on the corrected ParseOpt and Update (see Findings); `bg_printenv` given any option is a usage error (64) with nothing written; in `bg_setenv` a parse failure is its status, an unknown key becoming the usage error, and nothing is written; `bg_printenv` never writes; a record is written only by `bg_setenv`, only to an existing partition, and the result is 0 exactly when that write succeeds |
| LegacySetenv.AutoUpdate | tools/bg_setenv.c:281-341 | with the corrected ParseOpt and Update (see Findings): with -u the oldest record is overwritten with the latest, revision one higher in 32 bits, and every field no option gave keeps the latest record's value |
| LegacySetenv.ManualUpdate | tools/bg_setenv.c:325-341 | with the corrected ParseOpt and Update (see Findings): without -u the chosen partition, or else the latest, is updated in place with the options; a partition that does not exist fails with 1 |
| LegacySetenv.ArgpStatus | tools/bg_setenv.c:250-252 | a status other than ARGP_ERR_UNKNOWN is returned as it is; ARGP_ERR_UNKNOWN becomes the usage error 64 |
| LegacyEbgenv.Str2Enum | swupdate-adapter/ebgenv.c:72-94 | a known field's name is exactly the key: the comparison includes the NUL, so no prefix or extension matches |
| LegacyEbgenv.Str2EnumNames | swupdate-adapter/ebgenv.c:72-94 | every one of the six names reads back as its field |
| LegacyEbgenv.Init | tools/bg_utils.c:350-373 | when probing succeeds the records in memory are reloaded from disk, and otherwise nothing changes |
| LegacyEbgenv.NewRecord | swupdate-adapter/ebgenv.c:130-136 | the new record is all zero except the revision, `testing` set and a 30-second watchdog timeout |
| LegacyEbgenv.CreateNew | swupdate-adapter/ebgenv.c:101-140 | the result is 0 exactly when probing succeeds and there is a record, and EIO otherwise; the first call in a process turns the oldest record in memory into a new one with the latest revision plus one (in 32 bits) and opens it; later calls open the latest; the disk is not touched |
| LegacyEbgenv.OpenCurrent | swupdate-adapter/ebgenv.c:142-155 | the latest record is opened when probing succeeds and there is a record, and EIO otherwise |
| LegacyEbgenv.CreateNewOnce | swupdate-adapter/ebgenv.c:121-136 | unless the revision wraps, the new record has the latest revision plus one, `testing` set and `boot_once` clear |
| LegacyEbgenv.Get | swupdate-adapter/ebgenv.c:157-248 | a null or unknown key gives null with EINVAL, then nothing open gives null with EPERM; a null result always comes with a non-zero `errno` |
| LegacyEbgenv.StrtolInt | swupdate-adapter/ebgenv.c:268-269 | `strtol` into an `int` gives a value in `int` range and an `errno` of 0 or ERANGE |
| LegacyEbgenv.Store | swupdate-adapter/ebgenv.c:277-312 | a number is stored in its field modulo the field's width, and only that field changes |
| LegacyEbgenv.Put | swupdate-adapter/ebgenv.c:277-312 | replacing the open record keeps the adapter state consistent |
| LegacyEbgenv.Set | swupdate-adapter/ebgenv.c:250-325 | corrected set: a null or unknown key or value is EINVAL and nothing open EPERM; a number past `long` range is ERANGE and text without digits EINVAL; any failure changes nothing; a success changes only the open record |
| LegacyEbgenv.SetAgrees | swupdate-adapter/ebgenv.c:250-325 | for strings, and for text `strtol` reads without overflow, set as written and as corrected agree |
| LegacyEbgenv.SetAsWritten | swupdate-adapter/ebgenv.c:250-325 | as written: a null or unknown key or value is EINVAL and nothing open EPERM, with nothing changed; otherwise only the open record can change |
| LegacyEbgenv.TestingNoDigits | swupdate-adapter/ebgenv.c:309-320 | as written, `set("testing", "abc")` returns EINVAL but has already cleared `testing`; as corrected it changes nothing |
| LegacyEbgenv.RevisionOverflow | swupdate-adapter/ebgenv.c:267-278 | as written, a revision past `long` range is stored as 0xFFFFFFFF and succeeds; as corrected it is refused with ERANGE |
| LegacyEbgenv.OverflowText | swupdate-adapter/ebgenv.c:268-272 | decimal text past `long` range saturates at LONG_MAX with ERANGE, which the cast to `int` turns into -1, so the test against LONG_MAX cannot match |
| CLib.ParseLeadingZeros | swupdate-adapter/ebgenv.c:268-276 | `strtol` reads any number of "0" digits in front of a digit string as the same value with the same range flag, ending after the zeros and the digits |
| CLib.LeadingZerosValue | swupdate-adapter/ebgenv.c:268-269 | zeros in front of a digit string leave its decimal value unchanged |
| LegacyEbgenv.SetLeadingZeros | swupdate-adapter/ebgenv.c:266-319 | setting the revision, watchdog timeout, boot-once or testing field to a digit string with leading zeros gives exactly the reply and stored record that the digits alone give |
| LegacyEbgenv.SetZeroZeroThirteen | swupdate-adapter/ebgenv.c:267-278 | example: "0013" sets revision 13, one instance of `SetLeadingZeros` with the value spelled out |
| LegacyEbgenv.SetGetString | swupdate-adapter/ebgenv.c:279-284 | round trip: a kernel path or argument string that fits is set and read back as the same text |
| LegacyEbgenv.StoreNumber | swupdate-adapter/ebgenv.c:267-320 | a value the field can hold is stored as is |
| LegacyEbgenv.GetNumber | swupdate-adapter/ebgenv.c:200-241 | a numeric field is read as its decimal text |
| LegacyEbgenv.SetNumber | swupdate-adapter/ebgenv.c:267-320 | text `strtol` reads without overflow is stored, cut to an `int` and narrowed to the field |
| LegacyEbgenv.SetGetNumber | swupdate-adapter/ebgenv.c:200-320 | round trip: a number in the field's range set in decimal is read back as the same text |
| LegacyEbgenv.SetThenGet | swupdate-adapter/ebgenv.c:200-320 | round trip: any text `strtol` reads wholly as a number in the field's range is read back as that number's decimal text |
| LegacyEbgenv.SuccessfulFrom | swupdate-adapter/ebgenv.c:330-345 | the loop finds no failed record (revision 0 with both flags set) exactly when there is none from that index on |
| LegacyEbgenv.IsUpdateSuccessful | swupdate-adapter/ebgenv.c:327-347 | the update counts as successful exactly when no loaded record marks a failed update |
| LegacyEbgenv.ClearFrom | swupdate-adapter/ebgenv.c:351-369 | the loop clears both flags of each failed record in memory and on disk and leaves the others; it ends with 0 exactly when every such write succeeds, and with EIO otherwise |
| LegacyEbgenv.ClearErrorState | swupdate-adapter/ebgenv.c:349-371 | the result is 0 exactly when every failed record is written back, and then exactly the failed records have both flags cleared |
| LegacyEbgenv.ClearThenSuccessful | swupdate-adapter/ebgenv.c:327-371 | after the error state is cleared the update counts as successful |
| LegacyEbgenv.ConfirmUpdate | swupdate-adapter/ebgenv.c:373-381 | confirming clears `testing` and `boot_once` of the open record only, and is EPERM when nothing is open |
| LegacyEbgenv.ConfirmSteps | swupdate-adapter/ebgenv.c:375-380 | setting "0" clears each flag in turn, or is EPERM when nothing is open |
| LegacyEbgenv.OnLatest | swupdate-adapter/ebgenv.c:388-392 | a state query on no records is false with EIO; otherwise it reads the latest record |
| LegacyEbgenv.IsOkay | swupdate-adapter/ebgenv.c:383-398 | okay exactly when the latest record is not being tested |
| LegacyEbgenv.IsInstalled | swupdate-adapter/ebgenv.c:400-415 | installed exactly when the latest record is being tested and has not booted once |
| LegacyEbgenv.IsTesting | swupdate-adapter/ebgenv.c:417-432 | testing exactly when the latest record is being tested and has booted once |
| LegacyEbgenv.StatesExclusive | swupdate-adapter/ebgenv.c:383-432 | at most one of okay, installed and testing holds |
| LegacyEbgenv.NewRecordInstalled | swupdate-adapter/ebgenv.c:400-415 | a freshly created record, once it is the latest, is installed and neither okay nor testing |
| LegacyEbgenv.Close | swupdate-adapter/ebgenv.c:434-458 | nothing open is EIO; otherwise the open record gets its checksum and is written; only a successful write closes it, and a failed one is EIO with the disk unchanged |
| LegacyEbgenv.ClosedRefuses | swupdate-adapter/ebgenv.c:434-458 | after a successful close, get is EPERM until the adapter is opened again |
| LegacyEbgenv.ConfirmThenClose | swupdate-adapter/ebgenv.c:373-458 | confirming and then closing puts the open record on its partition with both flags cleared |
| Fat.GetLe16 | tools/linux_util.h:27-35 | the 16-bit value read is below 2^16 with the first byte as its low byte and the second as its high byte |
| Fat.GetLe32 | tools/linux_util.h:37-45 | the 32-bit value read is below 2^32 with the four bytes as its bytes, least significant first |
| Fat.GetLeRoundTrip | tools/linux_util.h:27-45 | round trip: reading back the little-endian bytes of a value gives the value |
| Fat.BitAnd | tools/linux_util.h:58 | `a & b` is at most each operand |
| Fat.BitAndSelf | tools/linux_util.h:58 | a number and itself share every bit |
| Fat.PowerOfTwoAgrees | tools/linux_util.h:47-59 | the bit test `n != 0 && (n & (n - 1)) == 0` holds exactly for the powers of two, and not for zero |
| Fat.ValidMediaValues | tools/fat.c:64-68 | the valid media descriptors are exactly 0xF0 and 0xF8 to 0xFF |
| Fat.ParamBlock | tools/fat.c:77-94 | each field of the parameter block has the width of its C type |
| Fat.ReadBpb | tools/fat.c:70-147 | the block is the one read from the boot sector, and the result is 0 exactly when it passes every check (reserved sectors, FAT count, media, sector size a power of two from 512 to 4096, sectors per cluster a power of two, a FAT length) and -EINVAL otherwise |
| Fat.NoDivisionByZero | tools/fat.c:158-162 | a block that passes the checks has a sector size of at least 512 and at least one sector per cluster, as the comment after the check asserts |
| Fat.DataStart | tools/fat.c:168-182 | the data area starts after the reserved sectors and the FATs |
| Fat.TotalSectors | tools/fat.c:174-177 | the sector count is the 16-bit field, or the 32-bit one when that is 0 |
| Fat.ClustersAsWritten | tools/fat.c:183-184 | as written, the cluster count is below 2^32, and wherever the data area fits the volume it is the sectors after the data start divided by the cluster size |
| Fat.DetermineFatBitsAsWritten | tools/fat.c:152-187 | as written, 0 exactly for a block that fails the checks, 32 exactly when it passes with only the 32-bit FAT length set, otherwise 12 or 16 |
| Fat.DetermineFatBits | tools/fat.c:152-187 | corrected: a nonzero answer only for a block that passes the checks, and for such a block the classification by FAT length and cluster count, with a volume smaller than its own metadata refused |
| Fat.DetermineAgrees | tools/fat.c:152-187 | wherever the data area fits the volume, the code as written and the corrected version agree |
| Fat.EmptyVolumeIsFat16 | tools/fat.c:179-185 | as written, a boot sector with no sectors passes the checks, the subtraction wraps and it is reported as FAT16; the corrected version refuses it |
| Fat.Fat12Vector | tools/fat.c:152-187 | a FAT12 boot sector is classified as 12 |
| Fat.Fat16Vector | tools/fat.c:152-187 | a FAT16 boot sector is classified as 16 |
| Fat.Fat32Vector | tools/fat.c:97-166 | a FAT32 boot sector is classified as 32, and an all-zero sector as 0 |
| EbgPart.GuidToStr | tools/ebgpart.c:43-50 | the text of a GUID is 36 characters: dashes exactly at positions 8, 13, 18 and 23 and an upper-case hex digit everywhere else |
| EbgPart.GuidPair | tools/ebgpart.c:45-48 | the k-th printed digit pair is byte g[3], g[2], g[1], g[0], g[5], g[4], g[7], g[6], g[8] .. g[15] in turn, high nibble first |
| EbgPart.GuidRoundTrip | tools/ebgpart.c:43-50 | round trip: reading the printed text back gives the 16 GUID bytes |
| EbgPart.GuidTextInjective | tools/ebgpart.c:80-82 | two GUIDs print the same text only when they are equal, so comparing texts compares GUIDs |
| EbgPart.FatGuidBytes | tools/ebgpart.h:58-59 | a type GUID passes the text comparison exactly when it is the basic-data or the EFI-system partition GUID |
| EbgPart.TypeToNameTable | tools/ebgpart.c:52-75 | a listed MBR type code gets its listed name and every other code gets "not supported" |
| EbgPart.ExtendedByName | tools/ebgpart.c:67-69 | the codes the scanners follow as extended (0x05, 0x0F) are exactly those named "extended" |
| EbgPart.ReadAt | tools/ebgpart.c:96-106 | a seek and read succeeds exactly when the offset is not negative and the bytes lie inside the device, and then yields those bytes |
| EbgPart.ToOff64 | tools/ebgpart.c:95 | a 64-bit unsigned value stored as off64_t is the signed value congruent to it modulo 2^64 |
| EbgPart.FatIdType | tools/ebgpart.c:123-129 | the id "FAT12   " names fat12, "FAT16   " names fat16, and anything else names fat32 |
| EbgPart.CheckGptFatEntry | tools/ebgpart.c:77-137 | an entry is reported "not supported" exactly when its type GUID is neither basic-data nor EFI-system |
| EbgPart.CheckGptFatEntryIds | tools/ebgpart.c:94-136 | a FAT entry is named by the id at 0x36 when that says FAT12 or FAT16, otherwise by the id at 0x52 alone; the check fails exactly when an id it needs cannot be read |
| EbgPart.UnusedEntryHalves | tools/ebgpart.c:160-163 | both 64-bit halves of the type GUID are zero exactly when all 16 bytes are zero |
| EbgPart.GptEntries | tools/ebgpart.c:154-163 | the loop looks at no more than num entries, each of entry size, and stops early only at an entry that is unreadable or unused |
| EbgPart.GptEntriesAt | tools/ebgpart.c:146-163 | the j-th entry looked at is the present entry at table position i + j |
| EbgPart.Link | tools/ebgpart.c:190-191 | linking at the list head starts the list; after the last node it appends; a detached list_end hides the node from the device |
| EbgPart.GptListChecked | tools/ebgpart.c:154-192 | corrected, the device's list holds exactly the checked entries in order, and an earlier list is kept only when no entry passes |
| EbgPart.GptListAgrees | tools/ebgpart.c:154-192 | when no entry's check fails, the loop as written and the corrected loop give the same list |
| EbgPart.GptListAsWritten | tools/ebgpart.c:154-192 | as written: when no entry fails its check the loop gives the corrected list, and when the last entry fails the device's list is empty |
| EbgPart.DetachedStaysHidden | tools/ebgpart.c:184-191 | as written, once list_end points into a freed node, no later entry reaches the device's list |
| EbgPart.FailureAfterLinkEmptiesList | tools/ebgpart.c:180-188 | as written, a failing entry after a linked one leaves the device with an empty list |
| EbgPart.FailedEntryDropsPartitions | tools/ebgpart.c:180-191 | counterexample: FAT16, unreadable, FAT32 entries give no partitions as written but partitions 1 and 3 corrected |
| EbgPart.ReadGptEntries | tools/ebgpart.c:139-193 | corrected (see Findings): each entry is read at its own place in the table at LB_SIZE * table_LBA, and the checked entries, numbered from 1 in table order, replace the list; a failed seek or no checked entry leaves it alone |
| EbgPart.AfterRead | tools/ebgpart.c:101-105 | where a read of `n` bytes leaves the file position: past the bytes when they all exist, at the end of the device when only some do, unmoved beyond the end |
| EbgPart.CheckGptFatEntryAt | tools/ebgpart.c:77-137 | as written, with the file position: the result is that of the position-free check, and a passing check puts the position back where it was, while a failed id read leaves it after that read |
| EbgPart.GptOutcomesAsWritten | tools/ebgpart.c:154-192 | as written: each entry is read where the previous check left the position, and the scan stops at a failed read or an unused entry, never producing more outcomes than entries |
| EbgPart.GptOutcomesAsWrittenAgree | tools/ebgpart.c:154-192 | when every entry passes its check, reading from the stale position gives the same outcomes as reading each entry at its place |
| EbgPart.GptOutcomesAsWrittenPrefix | tools/ebgpart.c:96-155 | up to and including the first failed check, the as-written outcomes are those of the corrected read |
| EbgPart.StaleIdReadEndsScan | tools/ebgpart.c:96-155 | as written: a FAT entry whose id lies beyond the end of the device fails, the next entry is then read at the end of the device and fails, so the scan stops with one outcome and no partition, where the corrected read goes on to the next entry |
| EbgPart.ReadGptEntriesAsWritten | tools/ebgpart.c:139-193 | as written, with the file position a failed check leaves: a failed last outcome leaves the device with no partitions; with a failed seek or every entry checked it agrees with the corrected read |
| EbgPart.ScanLogical | tools/ebgpart.c:195-254 | the scan keeps the list up to the node it links after and only adds logical partitions behind it |
| EbgPart.LogicalEntries | tools/ebgpart.c:223-248 | the loop over a boot record's entries keeps the list up to its anchor node and adds only logical partitions behind it |
| EbgPart.GptHeader | tools/ebgpart.c:287-302 | the GPT header read at LB_SIZE * start_LBA, computed in 32 bits, has the header's size |
| EbgPart.FirstGpt | tools/ebgpart.c:279-315 | the scan stops at the first protective (0xEE) entry, if any |
| EbgPart.Primary | tools/ebgpart.c:277-353 | the MBR loop succeeds exactly when some entry is in use and no GPT header it needed failed to read |
| EbgPart.CheckPartitionTable | tools/ebgpart.c:256-354 | the check succeeds exactly when the MBR is readable, is signed 0xAA55, has an entry in use and points at no unreadable GPT header |
| EbgPart.PrimaryAsWritten | tools/ebgpart.c:277-353 | as written: unless the loop dereferences the null `list_end`, it succeeds exactly when some entry is in use and no GPT header it needed failed to read |
| EbgPart.CheckPartitionTableAsWritten | tools/ebgpart.c:256-354 | as written: unless it dereferences the null `list_end`, the check succeeds exactly when the corrected one does |
| EbgPart.PrimariesInOrder | tools/ebgpart.c:279-343 | with primary partitions only, the used entries are appended in slot order, numbered slot + 1 |
| EbgPart.PrimariesAgree | tools/ebgpart.c:279-343 | with primary partitions only, the loop as written and the corrected one agree |
| EbgPart.PrimaryDevice | tools/ebgpart.c:256-354 | a signed MBR with primary partitions only lists them in slot order, as written and corrected alike |
| EbgPart.ExtendedWithoutLogicals | tools/ebgpart.c:332-339 | counterexample: an extended partition with no logical partition makes the while loop read through a null next as written; corrected it is listed |
| EbgPart.LtpLogicals | tools/ebgpart.c:195-248 | the logical partition behind the first extended boot record is found and numbered 5 |
| EbgPart.PrimaryAfterLogicals | tools/ebgpart.c:329-339 | counterexample: a primary partition after an extended one overwrites the last logical partition's place as written; corrected it follows it |
| EbgPart.TlSecondRecord | tools/ebgpart.c:202-231 | the second extended record's partition is numbered 6 and its offset counts from the extended partition's start |
| EbgPart.TlFirstRecord | tools/ebgpart.c:195-248 | the first record's partition is numbered 5 and the chain to the next record is followed |
| EbgPart.LogicalNumbering | tools/ebgpart.c:195-254 | logical partitions are numbered from 5, one more per boot record followed, as written and corrected alike |
| Utils.StrnCmpFromZero | utils.c:264 | comparing up to n characters gives 0 exactly when the strings agree on those positions, the terminating NUL counting as a character |
| Utils.StrnCmpPrefix | utils.c:264 | comparing n characters of a volume label with the label part of the path gives 0 exactly when that part is a prefix of the label |
| Utils.ModeOfPrefix | utils.c:229-237 | DOS label mode exactly when the path starts "L:", custom label mode exactly when it starts "C:" |
| Utils.ColonFromFirst | utils.c:240-245 | the search finds the first ':' from its start position, and none when there is none |
| Utils.PrefixLenColon | utils.c:239-246 | a positive prefix length is the length of a non-empty label closed by a ':' with no ':' inside it; a zero length in a label mode means an empty label or no ':' at all |
| Utils.ScanVolumes | utils.c:248-269 | the corrected scan returns a volume of the list, no earlier than where it starts |
| Utils.ScanVolumesFirst | utils.c:248-269 | the corrected scan picks the first volume whose label starts with the path's label and finds none when no volume has it |
| Utils.ScanVolumesAgree | utils.c:248-269 | when every volume has the label the mode asks for, the scan as written and the corrected scan agree |
| Utils.ScanVolumesAsWritten | utils.c:248-269 | as written: the scan returns a volume of the list no earlier than where it starts, and reports reading a null label only for a volume without one |
| Utils.FileDevicePathFromConfigAsWritten | utils.c:222-296 | as written: a load from the boot device uses the whole path, and a null label is read only from a volume that lacks it |
| Utils.MissingCustomLabel | utils.c:256-264 | counterexample: path "C:A:k" with a volume lacking a custom label hands a NULL label to StrnCmp as written; corrected the kernel is loaded from the boot device |
| Utils.FileDevicePathFromConfig | utils.c:222-296 | never reads a missing label, and a path loaded from the boot device is the whole payload path |
| Utils.FileDevicePathFromConfigVolume | utils.c:229-295 | a volume is used only for a label-mode path with a non-empty label closed by ':', it carries that label, no earlier volume does, and the file is the rest of the path after the label |
| Utils.LastSlashIsLast | utils.c:312-318 | the reference search finds the last '/' at index 1 or later, and none when there is none |
| Utils.GetBootMediumPath | utils.c:298-321 | the result is a prefix of the input cut at its last '/' at index 1 or later, or the whole input when there is no such '/' |
| Fdt.WordAt | kernel-stub/fdt.c:22-26 | a word is read exactly when its four bytes lie inside the blob, and it is below 2^32 |
| Fdt.StringAt | kernel-stub/fdt.c:106-107 | the string at an offset is the blob's bytes from there up to, not including, the first NUL |
| Fdt.ScanProps | kernel-stub/fdt.c:102-117 | a found value lies after its token, length and name words; a token other than PROP or NOP ends the scan with nothing |
| Fdt.ScanPropsFinds | kernel-stub/fdt.c:104-109 | what the scan finds is the value of a property whose name is "compatible" |
| Fdt.CompatibleOffset | kernel-stub/fdt.c:83-118 | nothing unless the magic is 0xd00dfeed and the structure block opens with the root node's BEGIN_NODE and empty name; otherwise the property scan right after it |
| Fdt.Compatible | kernel-stub/fdt.c:83-118 | a compatible string is found exactly when the lookup finds an offset, and it holds no NUL |
| Fdt.FirmwareCompatible | kernel-stub/fdt.c:120-136 | no firmware tree gives no string; a firmware tree without a compatible string is fatal with INVALID_PARAMETER; otherwise the tree's compatible string |
| Fdt.MatchFdt | kernel-stub/fdt.c:138-153 | a missing firmware string is fatal with NOT_FOUND, an invalid built-in tree with INVALID_PARAMETER, and otherwise the trees match exactly when their compatible strings are equal |
| Fdt.FirstCompatibleIsFirst | kernel-stub/fdt.c:102-109 | reference: the index it gives is that of a property named "compatible" with none earlier, and it gives none only when no property is so named |
| Fdt.ScanFoundIsFound | kernel-stub/fdt.c:102-117 | stepping over the items one at a time, a "compatible" one ending the walk after its three words, lands on the value of the first "compatible" property after all the encodings before it |
| Fdt.ScanItems | kernel-stub/fdt.c:102-117 | over a blob holding the token, length and name words of a run of items, followed by a token other than PROP or NOP, the scan finds what stepping over the items one at a time finds |
| Fdt.ScanNop | kernel-stub/fdt.c:112-113 | a NOP token is skipped |
| Fdt.ScanProp | kernel-stub/fdt.c:104-111 | a PROP named "compatible" yields the offset after its three words; any other PROP is skipped with its value rounded up to whole words |
| Fdt.ScanEncoded | kernel-stub/fdt.c:102-117 | scanning the encoding of a list of properties and NOPs, followed by any other token, finds exactly the value of the first property named "compatible", and nothing when none is |
| Fdt.RootCompatible | kernel-stub/fdt.c:83-118 | for a blob with a valid header whose root node starts with encoded properties, the lookup returns the value of the first one named "compatible" |
| StubMain.PeHeader | kernel-stub/main.c:21-75 | the PE header lies at the image base plus the 32-bit little-endian PEOffset at byte 60 of the DOS header, which must lie inside the image |
| StubMain.SectionAt | kernel-stub/main.c:46-51 | a section header is read exactly when its 40 bytes lie inside the image: the 8 name bytes, then VirtualSize and VirtualAddress |
| StubMain.Sections | kernel-stub/main.c:120-122 | count consecutive headers are read exactly when they all lie inside the image, and there are count of them |
| StubMain.SectionsAt | kernel-stub/main.c:120-122 | entry i of the table is the header 40 * i bytes after its start |
| StubMain.SectionTable | kernel-stub/main.c:77-81 | the table starts SizeOfOptionalHeader bytes after the optional header (PE offset + 24) and holds NumberOfSections entries |
| StubMain.KindOf | kernel-stub/main.c:123-136 | ".cmdline", ".kernel" and ".initrd" are matched on all 8 name bytes, and any name starting ".dtb-" is a device tree |
| StubMain.LastWhere | kernel-stub/main.c:120-137 | reference: the last section of the table with the property, none after it, and none at all when no section has it |
| StubMain.StepSpec | kernel-stub/main.c:123-136 | one loop step fails exactly when its section is a device tree that makes match_fdt exit, with match_fdt's status, and otherwise updates the layout as a one-section table would |
| StubMain.ScanSectionsFails | kernel-stub/main.c:120-137 | the section loop fails exactly when some ".dtb-" section makes match_fdt exit, with NOT_FOUND when the firmware has no tree and INVALID_PARAMETER otherwise |
| StubMain.ScanSectionsLayout | kernel-stub/main.c:120-137 | a completed loop keeps the last section of each kind and the last matching device tree |
| StubMain.KernelEntry | kernel-stub/main.c:178-181 | the entry point is the kernel section's base plus the AddressOfEntryPoint of the kernel's own PE header |
| StubMain.Launch | kernel-stub/main.c:139-181 | a missing ".kernel" section is fatal with NOT_FOUND; a launched kernel's image base is the stub's base plus the kernel section's VirtualAddress |
| StubMain.Boot | kernel-stub/main.c:105-181 | an invalid firmware tree ends the stub with INVALID_PARAMETER; otherwise the sections of a readable table are scanned and the kernel launched |
| StubMain.BootFatal | kernel-stub/main.c:129-136 | a ".dtb-" section that makes match_fdt exit ends the stub with match_fdt's status |
| StubMain.BootNoKernel | kernel-stub/main.c:139-141 | without a ".kernel" section the stub exits with NOT_FOUND |
| StubMain.BootRuns | kernel-stub/main.c:120-181 | a launched kernel is the last ".kernel" section entered at its base plus its own AddressOfEntryPoint, with the last ".cmdline" and ".initrd" sections and the last matching built-in tree, falling back to the firmware's |
| StubInitrd.LoadFile | kernel-stub/initrd.c:64-87 | a null this, file path or size pointer gives INVALID_PARAMETER and changes nothing; a boot policy gives UNSUPPORTED; a null or too small buffer gives BUFFER_TOO_SMALL with the size set to the initrd's; success copies exactly the initrd into the front of the buffer, leaves the rest alone and sets the size |
| StubInitrd.SizeThenLoad | kernel-stub/initrd.c:78-86 | round trip of the protocol: asking without a buffer yields the size, and a buffer of that size then receives exactly the initrd |
| Smbios.StringSetEnd | drivers/utils/smbios.c:32-35 | the string walk stops at the first double NUL from its start, and finds none when there is none |
| Smbios.NextStruct | drivers/utils/smbios.c:31-36 | the next structure starts after the formatted area of Length bytes and the string set closed by two NULs |
| Smbios.FindFrom | drivers/utils/smbios.c:27-40 | a found structure has the requested type and lies at or after the start; with no structures left to examine nothing is found |
| Smbios.FindStruct | drivers/utils/smbios.c:18-41 | a found structure has the requested type |
| Smbios.FirstOfType | drivers/utils/smbios.c:27-30 | reference: the first of the first n structures of the type, none earlier, and none at all when none has it |
| Smbios.StringBytesShape | drivers/utils/smbios.c:32-35 | strings with their NULs start with a non-NUL byte, end with a NUL and hold no double NUL |
| Smbios.StringSetEnds | drivers/utils/smbios.c:32-36 | the walk finds the double NUL that closes an encoded string set |
| Smbios.NextEncoded | drivers/utils/smbios.c:31-36 | the walk steps from an encoded structure exactly to the byte after it |
| Smbios.FindHit | drivers/utils/smbios.c:28-30 | the walk stops at the first structure when it has the requested type |
| Smbios.ChainAt | drivers/utils/smbios.c:31-36 | encoded structures lying one after another in the table are reached one after the other by the walk |
| Smbios.FindChain | drivers/utils/smbios.c:27-40 | over the first n structures of a chain the walk returns the first of the requested type, or none |
| Smbios.FindEncoded | drivers/utils/smbios.c:18-41 | on a table of encoded structures, examining at most n of them finds the first one of the requested type, or reports none |
| Simatic.StationIdFrom | simatic.c:27-42 | an entry among the first three that is not binary gives 0; a fourth entry not binary or not of the entry's size gives 0; a station id read is a 32-bit value |
| Simatic.SimaticStationId | simatic.c:45-63 | 0 without an SMBIOS table or without structure 129; otherwise the station id of the first structure 129 |
| Simatic.StationEntry | include/simatic.h:24-35 | the station entry is binary (type 0xff) and has the size of the packed entry, 9 bytes |
| Simatic.PassEntry | simatic.c:30-35 | a binary entry is passed over by its own length |
| Simatic.ReadStationEntry | simatic.c:37-40 | a fourth entry that is the station entry yields its station id |
| Simatic.ReadEntries | simatic.c:27-42 | three binary entries followed by the station entry yield the station id |
| Simatic.EncodedStationId | simatic.c:22-43 | structure 129 with three binary entries after its header and then the station entry yields that station id |
| Wdat.EntryCount | drivers/watchdog/wdat.c:158-181 | the entry count is the table length less the 36-byte header divided by the entry size; a length shorter than the header wraps to a huge count |
| Wdat.RootEntry | drivers/watchdog/wdat.c:157-184 | a root-table entry is read exactly when its 4 (RSDT) or 8 (XSDT) bytes lie in memory |
| Wdat.ScanRoot | drivers/watchdog/wdat.c:159-190 | a located table carries the "WDAT" signature, and the loop otherwise fails with UNSUPPORTED |
| Wdat.ScanRootSkips | drivers/watchdog/wdat.c:162-165 | an entry not pointing at "WDAT" is passed over |
| Wdat.ScanRootFinds | drivers/watchdog/wdat.c:159-166 | the loop returns the first entry that points at a WDAT table |
| Wdat.ScanRootMisses | drivers/watchdog/wdat.c:159-167 | when no entry points at a WDAT table the loop reports UNSUPPORTED |
| Wdat.ParseRoot | drivers/watchdog/wdat.c:147-191 | a root table with the wrong signature gives INCOMPATIBLE_VERSION; otherwise its entries after the header are scanned, and a located table carries the "WDAT" signature |
| Wdat.ParseRsdp | drivers/watchdog/wdat.c:193-213 | an RSDP revision above 2 gives INCOMPATIBLE_VERSION; revision 2 walks the XSDT at its 64-bit address at byte 24, lower revisions the RSDT at its 32-bit address at byte 16, so they need only the first 20 bytes of the structure |
| Wdat.LocateRsdp | drivers/watchdog/wdat.c:215-234 | without an ACPI 1.0 or 2.0 configuration table the result is UNSUPPORTED |
| Wdat.DecodeEntry | drivers/watchdog/wdat.c:94-101 | an action entry is decoded exactly when its 24 bytes lie in memory, with the action and instruction bytes first |
| Wdat.DecodeEncodedEntry | drivers/watchdog/wdat.c:72-101 | round trip: decoding the bytes of an encoded entry gives the entry back |
| Wdat.DecodeEntries | drivers/watchdog/wdat.c:380-383 | the entries following the table are decoded exactly when all of them lie in memory, and there are as many as asked for |
| Wdat.DecodeTable | drivers/watchdog/wdat.c:121-136 | a decoded table carries the flags byte at offset 60, the timer period at offset 48 and as many entries as its count at offset 64 |
| Wdat.PortOf | drivers/watchdog/wdat.c:246-271 | space id 1 is port I/O, addressed by the low 16 bits of the address as the `unsigned short` port of `inb`/`outb` takes it; every other id is memory at the whole address |
| Wdat.WidthMask | drivers/watchdog/wdat.c:247-270 | access width 3 reaches all 32 bits |
| Wdat.ReadReg | drivers/watchdog/wdat.c:236-277 | an access width outside 1..3 gives UNSUPPORTED; otherwise the value read holds no bits beyond the access width |
| Wdat.WriteReg | drivers/watchdog/wdat.c:279-314 | an access width outside 1..3 gives UNSUPPORTED; otherwise only the addressed register changes, and only within the access width |
| Wdat.ReadValue | drivers/watchdog/wdat.c:316-332 | fails exactly on an invalid width; a match means the expected value has no bits outside the mask |
| Wdat.ReadCountdown | drivers/watchdog/wdat.c:334-350 | fails exactly on an invalid width; the countdown read has no bits outside the mask |
| Wdat.WriteValue | drivers/watchdog/wdat.c:352-368 | fails exactly on an invalid width, and no other register changes |
| Wdat.PreservingWriteSetsField | drivers/watchdog/wdat.c:357-367 | a preserving write puts value & mask at the bit offset, as far as the access width reaches |
| Wdat.PreservingWriteKeepsRest | drivers/watchdog/wdat.c:359-366 | a preserving write keeps every register bit outside mask shifted to the bit offset |
| Wdat.PlainWriteSetsField | drivers/watchdog/wdat.c:357-367 | a plain write puts value & mask at the bit offset, as far as the access width reaches |
| Wdat.PlainWriteClearsRest | drivers/watchdog/wdat.c:357-367 | a plain write clears every bit of the access width outside the field |
| Wdat.Instruction | drivers/watchdog/wdat.c:390-391 | the instruction code and the preserve bit 0x80 together make up the instruction byte |
| Wdat.Perform | drivers/watchdog/wdat.c:389-417 | an unknown instruction gives UNSUPPORTED; a known one fails exactly on an invalid width; reads change no register; a failure changes nothing; no register other than the entry's changes |
| Wdat.RunNoMatch | drivers/watchdog/wdat.c:375-419 | without an entry for the action nothing runs and the status stays UNSUPPORTED |
| Wdat.RunSuccess | drivers/watchdog/wdat.c:370-420 | a successful run had an entry for the action, and every entry of the action carries a known instruction and a valid width |
| Wdat.RunFrame | drivers/watchdog/wdat.c:383-418 | a register that no entry of the action addresses keeps its value |
| Wdat.Countdown | drivers/watchdog/wdat.c:467-470 | the countdown, computed in 64 bits, is handed over as a 32-bit parameter |
| Wdat.CountdownPeriods | drivers/watchdog/wdat.c:466-467 | without wrap-around the countdown is the number of whole timer periods in the timeout |
| Wdat.Init | drivers/watchdog/wdat.c:422-491 | a second probe gives UNSUPPORTED; a failed table search returns its status; a table whose header flag byte lacks the enabled bit gives UNSUPPORTED before any action entry is decoded; success needs a first probe, a located table and the enabled flag |
| Wdat.Program | drivers/watchdog/wdat.c:447-491 | a zero timer period never succeeds |
| Wdat.ProgramWithoutReboot | drivers/watchdog/wdat.c:453-464 | a table without SET_REBOOT entries goes on to the period check, and a zero period gives INVALID_PARAMETER |
| Wdat.ActionRan | drivers/watchdog/wdat.c:375-419 | an action that succeeds has at least one entry |
| Wdat.ArmSuccess | drivers/watchdog/wdat.c:469-491 | arming succeeds only when SET_COUNTDOWN, RESET and SET_RUNNING_STATE all have entries |
| Wdat.ProgramSuccess | drivers/watchdog/wdat.c:453-491 | a successful programming had a non-zero timer period and entries for SET_COUNTDOWN, RESET and SET_RUNNING_STATE |
| Wdat.InitSuccess | drivers/watchdog/wdat.c:422-491 | a successful probe was the first, found an enabled table with a non-zero timer period and entries for SET_COUNTDOWN, RESET and SET_RUNNING_STATE |
| Eiois200.Inb | drivers/watchdog/eiois200_wdt.c:127 | an inb is one read of its port and consumes one answer of the device |
| Eiois200.SentAppend | drivers/watchdog/eiois200_wdt.c:219-230 | the bytes written to a port by two runs of accesses are those of the first followed by those of the second |
| Eiois200.ReadIndex | drivers/watchdog/eiois200_wdt.c:121-128 | a configuration read selects the register on the index port, then reads the data port |
| Eiois200.Find | drivers/watchdog/eiois200_wdt.c:140-167 | the chip is used exactly when (id1 << 8) \| id2 is 0x9610 or 0x9620; the probe first unlocks with two 0x87 writes and locks again with 0xaa when the chip is refused |
| Eiois200.Enable | drivers/watchdog/eiois200_wdt.c:169-177 | the control register is read and written back with the enable bit set |
| Eiois200.ReadPmcPorts | drivers/watchdog/eiois200_wdt.c:179-196 | the PMC data and command ports are the 16-bit bases read high byte first |
| Eiois200.WaitIobf | drivers/watchdog/eiois200_wdt.c:198-217 | the wait ends in success or DEVICE_ERROR and writes nothing |
| Eiois200.WaitReady | drivers/watchdog/eiois200_wdt.c:202-211 | the wait succeeds exactly when one of the polls it has left sees the flag: IBF clear for input, OBF set for output |
| Eiois200.WaitGivesUp | drivers/watchdog/eiois200_wdt.c:202-216 | a wait that gives up with DEVICE_ERROR polled the status port 25 times, each poll followed by a 200 microsecond stall |
| Eiois200.PollsAt | drivers/watchdog/eiois200_wdt.c:203-213 | each poll reads the status port and then stalls 200 microseconds |
| Eiois200.PmcOutbSends | drivers/watchdog/eiois200_wdt.c:219-230 | a PMC write puts its byte on its port only after the input buffer drained, and writes nothing else |
| Eiois200.SendSends | drivers/watchdog/eiois200_wdt.c:289-303 | consecutive PMC writes put a prefix of their bytes, in order, on their port alone, and all of them when every write succeeds |
| Eiois200.Receive | drivers/watchdog/eiois200_wdt.c:232-243 | reading the payload writes nothing and keeps its length |
| Eiois200.Clear | drivers/watchdog/eiois200_wdt.c:260-276 | clearing the mailbox cannot fail and writes nothing |
| Eiois200.CmdExec | drivers/watchdog/eiois200_wdt.c:278-322 | a command ends in success or DEVICE_ERROR, keeps the payload's length, and leaves the payload of a write command unchanged |
| Eiois200.CmdExecSends | drivers/watchdog/eiois200_wdt.c:278-322 | a command writes to each port a prefix of what it means to write (the command byte to the command port; control code, device id, size and, for a write, the payload to the data port), and all of it when it succeeds |
| Eiois200.ClampTimeout | drivers/watchdog/eiois200_wdt.c:341-344 | the reset timeout is clamped to [1000, 32767000] milliseconds and kept when inside |
| Eiois200.TimeoutPayload | drivers/watchdog/eiois200_wdt.c:346-349 | the four payload bytes, least significant first, decode to the clamped timeout |
| Eiois200.Millis | drivers/watchdog/eiois200_wdt.c:452 | timeout * 1000 handed over as 32 bits: below 2^32 and exact when it fits |
| Eiois200.Program | drivers/watchdog/eiois200_wdt.c:438-456 | the result is success, DEVICE_ERROR or UNSUPPORTED, and success means the status was read and has both bit 0 and bit 7 set |
| Eiois200.ProgramSends | drivers/watchdog/eiois200_wdt.c:336-360 | a successful start sent exactly the commands read, write, write, and as data the status read header, the timeout header with the clamped timeout's four bytes, and the control header with the start flag |
| Eiois200.Probe | drivers/watchdog/eiois200_wdt.c:420-461 | success needs a chip id of 0x9610 or 0x9620; every way out locks the controller the probe unlocked |
| Eiois200.Init | drivers/watchdog/eiois200_wdt.c:373-461 | a second probe gives UNSUPPORTED; a failed SMBIOS lookup returns its error; success needs the board "Advantech Co Ltd" / "SOM-6872" and a known chip id |
| Itco.ChipsetFrom | drivers/watchdog/itco.c:161-168 | the loop from entry i finds the first entry with the device id, none before it, and nothing exactly when no later entry has the id |
| Itco.ChipsetIndex | drivers/watchdog/itco.c:108-170 | supported exactly when some table entry has the device id; the index is the first such entry, and its version is 2, 3, 5 or 6 |
| Itco.TimeoutTicks | drivers/watchdog/itco.c:172-175 | version 3 counts in seconds; the others count seconds * 10 / 6, rounded down, when the product does not wrap |
| Itco.PmBase | drivers/watchdog/itco.c:177-195 | 0 for a version without a PM base register and when the configuration read fails; otherwise the value read masked to its address bits |
| Itco.EffectiveTimeout | drivers/watchdog/itco.c:290-299 | the timeout is halved (rounded down) unless the PM base is unknown or both TCO_EN and GBL_SMI_EN are set |
| Itco.TcoBase | drivers/watchdog/itco.c:197-208 | versions 5 and 6 use their fixed base (0x460, 0x400); versions 2 and 3 use PM base + 0x60, and 0 exactly when the PM base is unknown |
| Itco.TimerWord | drivers/watchdog/itco.c:306-310 | the low 10 bits hold the ticks modulo 1024, bits 0xfc00 are kept as read, and the value fits the 16-bit register |
| Itco.ClearCnt | drivers/watchdog/itco.c:210-217 | a read-modify-write of TCO1_CNT clears the given bits and keeps the others |
| Itco.NoRebootMem | drivers/watchdog/itco.c:219-239 | fails with the configuration read's status exactly when the PMC base cannot be read; otherwise the no-reboot bits at the masked base plus pmc_reg are clear |
| Itco.NoRebootApl | drivers/watchdog/itco.c:241-271 | the no-reboot bits of the PMC register are cleared; a hidden P2SB bridge is hidden again afterwards and a visible one is left visible |
| Itco.AplRegisterAddress | drivers/watchdog/itco.c:243-263 | the Apollo Lake register offset 0x1008 of device 13 function 1 is the address of offset 8 of function 2 |
| Itco.ClearNoReboot | drivers/watchdog/itco.c:315-332 | versions 5 and 6 always succeed, versions 2 and 3 succeed exactly when the PMC base can be read, any other version is UNSUPPORTED; only version 6 touches the I/O ports |
| Itco.Start | drivers/watchdog/itco.c:290-339 | a zero TCO base gives UNSUPPORTED and changes nothing; for a known version with a TCO base the start succeeds, except that versions 2 and 3 pass on a failed configuration read |
| Itco.Init | drivers/watchdog/itco.c:273-286 | only an Intel device with a PCI handle and a listed device id is probed; everything else is UNSUPPORTED and changes nothing |
| Itco.OutwEffect | drivers/watchdog/itco.c:310-313 | a 16-bit write changes only its port, which then reads back as the low 16 bits written |
| Itco.SetTimerEffect | drivers/watchdog/itco.c:306-313 | the timer register gets the timer word, the reload register gets 1, and no other port changes |
| Itco.StartShape | drivers/watchdog/itco.c:306-339 | a successful start is the timer write and reload, then the version's no-reboot clear, then the halt clear |
| Itco.NoRebootIo | drivers/watchdog/itco.c:316-329 | version 6 clears the no-reboot bit in TCO1_CNT; the other versions leave the I/O ports alone |
| Itco.ClearCntFrame | drivers/watchdog/itco.c:210-217 | a read-modify-write of TCO1_CNT leaves every other port alone |
| Itco.ArmAll | drivers/watchdog/itco.c:306-337 | over any TCO base and tick count, the timer, reload and control writes leave the timer word, reload 1, a clear halt bit (and no-reboot bit on version 6), and nothing else changed |
| Itco.StartArms | drivers/watchdog/itco.c:290-339 | a started watchdog holds the ticks in the timer field above the kept upper bits, was reloaded, has its halt bit clear and on version 6 its no-reboot bit clear; no other I/O port changed |
| Ipc4x7e.MmcfgAddress | drivers/watchdog/ipc4x7e_wdt.c:47-52 | a configuration address lies at least offset bytes above the 0xf0000000 base |
| Ipc4x7e.MmcfgLocates | drivers/watchdog/ipc4x7e_wdt.c:47-52 | within the field widths (device below 32, function below 8, offset below 4096) the address decodes back to the bus, device, function and offset it was built from |
| Ipc4x7e.Sbreg | drivers/watchdog/ipc4x7e_wdt.c:66-68 | the sideband base is a 64-bit value aligned to 16 MiB whose high half is hi and whose bits 24-31 are those of lo |
| Ipc4x7e.SbregRba | drivers/watchdog/ipc4x7e_wdt.c:54-75 | the base is built from the two BAR halves; a hidden bridge (id reads 0xffff) ends hidden again, a visible bridge leaves memory untouched, and nothing but the hide register changes |
| Ipc4x7e.PadAddress | drivers/watchdog/ipc4x7e_wdt.c:97-98 | the pad register of GPP_A_23 lies 0xaf << 16 + 0x4b8 above the sideband base, computed in 64 bits |
| Ipc4x7e.Scaler | drivers/watchdog/ipc4x7e_wdt.c:101-117 | the scaler is at most 7 and is the first band (2, 4, 6, 8, 16, 32, 48 seconds, then the rest) that holds the timeout |
| Ipc4x7e.ScalerMonotone | drivers/watchdog/ipc4x7e_wdt.c:101-117 | a longer timeout never gets a smaller scaler |
| Ipc4x7e.ProgramValue | drivers/watchdog/ipc4x7e_wdt.c:101-124 | the first write holds the scaler in bits 3-5 and MACRO_MOD, TRIGGERED exactly when it was read set, and not ENABLE |
| Ipc4x7e.Init | drivers/watchdog/ipc4x7e_wdt.c:77-138 | succeeds exactly for an Intel Sunrise Point-H LPC bridge with a PCI handle on an IPC427E or IPC477E, else UNSUPPORTED with nothing touched; it reads the enable register, writes it, writes it again with ENABLE added, and reads the trigger register |
| Ipc4x7e.InitProgram | drivers/watchdog/ipc4x7e_wdt.c:101-124 | the first write programs the timeout's scaler and MACRO_MOD, and writes TRIGGERED back exactly when it was read set |
| Ipc4x7e.InitPad | drivers/watchdog/ipc4x7e_wdt.c:97-99 | SAFE_EN_N is driven low: the pad register's TX-state bit is cleared and its other bits kept |
| Ipc4x7e.InitFrame | drivers/watchdog/ipc4x7e_wdt.c:54-99 | apart from the pad register and the bridge's hide register, memory is left as it was |
| IpcBx21a.EffectiveTimeout | drivers/watchdog/ipcbx21a.c:51-55 | the timeout programmed lies in [1, 1024]; it is the one asked for exactly when that lies in the range, and 60 otherwise |
| IpcBx21a.StartOfMiddle | drivers/watchdog/ipcbx21a.c:67-71 | the start bits 13-15 lie inside bits 10-23 of the register |
| IpcBx21a.TimeoutValue | drivers/watchdog/ipcbx21a.c:57-64 | the first write holds timeout − 1 in bits 0-9 and ones in status bits 24 and 25, and keeps bits 10-23 and 26-31 as read |
| IpcBx21a.StartValue | drivers/watchdog/ipcbx21a.c:66-71 | the second write sets bits 13, 14 and 15 and keeps all other bits as read |
| IpcBx21a.Init | drivers/watchdog/ipcbx21a.c:39-74 | succeeds exactly for the BX-21A station id, else UNSUPPORTED with no port touched; it reads, writes, reads and writes the control register 0x1854 |
| IpcBx21a.InitWrites | drivers/watchdog/ipcbx21a.c:57-71 | the first write programs the effective timeout and clears both status bits but leaves the start bits as read; the second write sets all three start bits |
| AmdFch.Outb | drivers/watchdog/amdfch_wdt.c:106-120 | a port write that fails returns its error and changes nothing; otherwise it succeeds and leaves memory alone |
| AmdFch.InData | drivers/watchdog/amdfch_wdt.c:122-138 | a data-port read yields the selected power-management register, and 0 when the read fails |
| AmdFch.Readl | drivers/watchdog/amdfch_wdt.c:87-104 | a memory read yields the register, and 0 when the read fails |
| AmdFch.Writel | drivers/watchdog/amdfch_wdt.c:70-85 | a memory write that fails returns its error and changes nothing; otherwise it stores the value at the address alone |
| AmdFch.TimerEnableValue | drivers/watchdog/amdfch_wdt.c:140-149 | the enable register is written with bit 7 set and bits 0-6 as read |
| AmdFch.ResolutionValue | drivers/watchdog/amdfch_wdt.c:151-163 | the configuration register is written with the frequency code in bits 0-1 and the other bits as read |
| AmdFch.ActionRebootValue | drivers/watchdog/amdfch_wdt.c:165-173 | the control register is written with bit 2 clear and the other bits as read |
| AmdFch.CountValue | drivers/watchdog/amdfch_wdt.c:175-185 | the timeout, taken as 32 bits, is clamped to [1, 0xFFFF] and kept when inside |
| AmdFch.StartValue | drivers/watchdog/amdfch_wdt.c:187-195 | the control register is written with bit 0 set and the other bits as read |
| AmdFch.PingValue | drivers/watchdog/amdfch_wdt.c:197-205 | the control register is written with bit 7 set and the other bits as read |
| AmdFch.Apply | drivers/watchdog/amdfch_wdt.c:140-205 | a step succeeds or returns the failing access's error |
| AmdFch.Run | drivers/watchdog/amdfch_wdt.c:241-277 | a run of steps succeeds or returns the failing access's error |
| AmdFch.RunAppend | drivers/watchdog/amdfch_wdt.c:241-277 | running two lists of steps is running the first and, only if it succeeded, the second from where it left the hardware |
| AmdFch.StopsAtFailure | drivers/watchdog/amdfch_wdt.c:241-277 | a failing step ends init with its status and nothing after it happens |
| AmdFch.Init | drivers/watchdog/amdfch_wdt.c:207-278 | only an AMD 0x1022 / 0x790B device with a PCI handle and a readable revision 0x59 or 0x61 is probed, everything else is UNSUPPORTED and changes nothing; a probed device succeeds or returns the failing access's error |
| AmdFch.ControlStepMem | drivers/watchdog/amdfch_wdt.c:165-205 | a successful control step leaves the control register as read with its own bit change, and nothing else in memory changed |
| AmdFch.InitArms | drivers/watchdog/amdfch_wdt.c:253-277 | after a successful init the count register holds the clamped timeout and the trigger bit is set; when control reads work, the control register is the one read with reset action, start and trigger applied |
| AmdFch.InitRuns | drivers/watchdog/amdfch_wdt.c:241-277 | a successful init ran the six steps enable, resolution, action, time, start, ping in this order, each succeeding |
| AmdFch.PmStepPm | drivers/watchdog/amdfch_wdt.c:140-163 | with working index and data ports, a successful enable or resolution step leaves its register with its own bit change |
| AmdFch.InitPm | drivers/watchdog/amdfch_wdt.c:241-251 | after a successful init with working index and data ports, the watchdog timer is enabled and runs at one-second resolution, the other bits as they were |
| AmdFch.ControlStepsPm | drivers/watchdog/amdfch_wdt.c:253-277 | steps on the watchdog registers keep the power-management registers |

## Left out

- File, disk, port and firmware I/O are left out. Reads of environment files, partitions, the disk and the EFI file system become parameters or byte sequences. Writes become returned values or traces.
- CRC32 (zlib `crc32`, `CalculateCrc32`, `bgenv_crc32`) and `bgenv_validate_uservars` are function-typed parameters, because their definitions are not part of this model.
- `ENV_NUM_CONFIG_PARTS`, `ENV_MEM_USERVARS` and `CONFIG_PARTITION_COUNT` are parameters, because the headers that define them are not part of this model. `MAX_FAT12` is the constant `Fat.MAX_FAT12` = 0xFF4, the largest cluster count of a FAT12 volume as the Linux header `msdos_fs.h` defines it; that header is not part of this model.
- `dump_env`, `dump_uservars`, `dump_envs`, verbose and error messages are left out: they are only output formatting.
- `efi_main` and `probe_watchdogs` in main.c are not modelled. They are orchestration over boot services and function-pointer tables.
- The kernel stub's `replace_fdt`, `clone_fdt`, initrd install/uninstall and `OpenProtocol` failure paths are not modelled. They are firmware protocol calls whose results the model takes as given.
- The watchdog drivers `ipmi_wdt.c`, `i6300esb.c`, `atom-quark.c`, `hpwdt.c` and `w83627hf_wdt.c` are not part of this model.
- `get_volumes`, `get_volume_label`, `close_volumes` and `IsOnBootMedium` are left out. The volumes and their labels are a parameter of `Utils.FileDevicePathFromConfig`.
- malloc and asprintf failures are not modelled: every allocation succeeds. The same goes for the pointer garbage collector of the swupdate adapter (`ebg_gc_addpointer`, `ebg_gc_cleanup`), which is memory management only.
- `LegacyEbgenv.Close`: when the write fails, the C code has already freed the handle it keeps as current, so the current handle dangles. The model keeps the record open instead.
- `UserVars.SetUservar`: the record size is a 32-bit sum in the C code. The model requires inputs for which neither that sum nor the `+ 1` of the space test wraps.
- `EnvApiFat.BgenvSet`: requires `|key| + 13 + datalen < 2^32 - 1` for a user variable, because the record size in `bgenv_set_uservar` (env/uservars.c:131-132) is a `uint32_t` sum. Nothing is promised about keys and values so large that this sum or the `+ 1` of the space test wraps. It also requires the buffer to hold at least `datalen` bytes, which the `memcpy` of a user variable reads; a built-in value may run past them to its NUL.
- `EnvApi.SetKeepsSound`: carries the same 32-bit record-size requires as `EnvApiFat.BgenvSet`, and so do `EnvApi.SetBreaks`, `EnvApi.EbgEnvSetEx` and `EnvApi.EbgEnvSet`. Sets whose record size wraps are not covered.
- `EnvRecord.Str8To16In`: the copy stops at the end of the record image. The C `str8to16` into a 255-unit field keeps writing past the end of `BG_ENVDATA` when the text reaches the end of the record. The model promises nothing about memory beyond the record. The same holds for `LegacyEnv.OldStr8To16In`.
- `LegacySetenv.ParseOpt`: for `-p`, `errno` is taken as 0 before `strtol`. tools/bg_setenv.c:90-92 never resets `errno`, so a value left by an earlier library call makes the C reject `-p 0`. The model accepts it.
- `UserVars.SetUservar` accepts an empty key, as the C code does. `UserVars.EmptyKeyBreaksArea` states that storing one leaves the area no longer well formed. The lemmas about get-after-set are stated for non-empty keys only.
- `UserVars.SetUservar` uses the corrected space test of the resize. The C test at env/uservars.c:227 accepts a record one byte larger than the free space (see Findings). `UserVars.ReallocSpec`, `UserVars.SetResizeSpec`, `UserVars.SetUservarSpec`, `UserVars.GetAfterSet` and the set operations built on them describe the corrected behaviour; `UserVars.ReallocAsWritten` is the resize as written.
- `EnvApi.EbgEnvSetEx` requires a C-string key and a record size that fits 32 bits, as `UserVars.SetUservar` does. A set that breaks the open record (`EnvApi.SetBreaks`) is modelled, but the context it leaves is only stated to be no longer valid. Later calls on such a context are not modelled: the C code would read an unterminated string or a user list that ends early.
- `EnvApi.EbgEnvSet`: the same restrictions as `EnvApi.EbgEnvSetEx` apply.
- `EbgPart.CheckPartitionTable`: a chain of extended boot records is followed for at most `fuel` links. A chain longer than the fuel is cut short, where the C code follows it until it ends.
- `EbgPart.ScanLogical`: the same fuel bound applies.
- `EbgPart.LogicalEntries`: the same fuel bound applies.
- Register reads of the watchdog drivers are parameters. This covers:
  - `Itco`: the PCI configuration space and the I/O and memory registers, as maps;
  - `Ipc4x7e`: a flat memory map;
  - `IpcBx21a`: the two reads of the control register;
  - `Eiois200`: a sequence of port answers.
  Hardware side effects of a write, such as status bits that clear when written with one, are not modelled.
- `IpcBx21a.Init`: the BX-21A station id is a parameter, because `SIMATIC_IPCBX_21A` is not defined in include/simatic.h.
- `Eiois200.Init`: the answers of `LibGetSmbiosString` are parameters, because that library is not part of this model.
- `Eiois200.Init`: `probed_before` is a parameter. The C code sets it on the first call, whatever the outcome, so every later call returns EFI_UNSUPPORTED. The model does not return the updated flag; a caller passes true after the first call.
- `AmdFch.InitArms` and `AmdFch.InitPm` assume a failing access reports an error status, i.e. that `fault` is not `EFI_SUCCESS`. Failures are modelled per access kind: a failed read yields 0 and a failed write changes nothing.
- `Wdat.Init`: `probed_before` is a parameter, as for `Eiois200.Init`, and the updated flag is not returned.
- `Wdat.Init`: `run_action` only fails with `EFI_UNSUPPORTED` in this model. So the branch of `init` that rejects any other `SET_REBOOT` error is kept but cannot be reached.
- `Wdat.WriteReg` and `Wdat.ReadReg`: reading back a written field is not stated as a single round-trip lemma. It is stated as the two halves `Wdat.PreservingWriteSetsField` and `Wdat.PreservingWriteKeepsRest`.
- `LegacyEbgenv.Init`: every record is taken as read successfully. `bgenv_init` ignores the result of `read_env`, and a failed read keeps the record's previous content; `LegacyEnv.OldInit` models that per record, but the adapter's `Init` does not.
- `LegacyEnv.OldProbe`: the old `probe_config_partitions` stores into `cfgpart[count]` before it checks the count against the array size. The model stops at the array size.
- Interrupts, timers and concurrency in the firmware drivers are not modelled.
- Floating point is not modelled; none of the modelled code uses it.

## Findings

| source | as written | input that shows it | evidently intended | confidence | as-written member | corrected member |
|---|---|---|---|---|---|---|
| env/uservars.c:227 | the resize refuses a record only when `spaceleft < new_rsize - 1`, so a record one byte larger than the free space is accepted and leaves no room for the terminating zero byte | a 30-byte area holding variables "A" and "B"; resizing "A" to a 17-byte record places it at offset 14, ending at byte 31 | refuse the resize unless the record fits with one spare zero byte, as the append path demands | not executed | UserVars.ReallocOverflowExample | UserVars.ReallocSpec |
| tools/bg_setenv.c:198-201 | `update_environment` tests only the low byte of the 32-bit revision against the 0xEA ignore marker | `-r 234` (0xEA) or any revision whose low byte is 0xEA: the revision is not stored | store every value an option gave; skip only fields no option touched | not executed | LegacySetenv.RevisionLowByteLost | LegacySetenv.Update |
| tools/bg_setenv.c:67-88 | `-k` and `-a` accept a text of 255 bytes, but the field holds 255 units including the NUL, so the NUL lands on the next field | `-a` with 255 characters: the arguments have no NUL, and `testing` and `boot_once` become 0 | refuse a text that does not fit with its NUL | not executed | LegacySetenv.ArgsOverflow | LegacySetenv.ParseOpt |
| swupdate-adapter/ebgenv.c:309-320 | `set("testing", …)` stores the converted value before it checks the conversion | `set("testing", "abc")` returns EINVAL, yet `testing` is now 0 | a refused value changes nothing | not executed | LegacyEbgenv.TestingNoDigits | LegacyEbgenv.Set |
| swupdate-adapter/ebgenv.c:253-278 | `val` is an `int`, so the `LONG_MAX` that `strtol` returns on overflow is truncated to -1 before the ERANGE test compares it with `LONG_MAX` | `set("revision", "99999999999999999999")` succeeds and stores 0xFFFFFFFF | report ERANGE and change nothing | not executed | LegacyEbgenv.RevisionOverflow | LegacyEbgenv.Set |
| tools/fat.c:179-185 | `total_sectors - data_start` is computed on 64-bit `unsigned long` and wraps when the volume is smaller than its own metadata; the quotient cut to 32 bits stays far above the FAT12 limit | a valid boot sector whose 16-bit and 32-bit sector counts are both 0 is reported as FAT16 | refuse a volume with fewer sectors than its reserved, FAT and root-directory sectors | not executed | Fat.EmptyVolumeIsFat16 | Fat.DetermineFatBits |
| tools/ebgpart.c:180-191 | when a GPT entry fails its check, `dev->part_list` is set to NULL because the local `partition` is never assigned, dropping every partition found so far | entries FAT16, unreadable, FAT32: no partitions are listed | skip the failed entry and keep the others | not executed | EbgPart.FailedEntryDropsPartitions | EbgPart.GptListChecked |
| tools/ebgpart.c:96-127 | `check_GPT_FAT_entry` saves the file position but returns without restoring it when a seek or id read fails, so the caller reads the next table entry at the wrong place | a FAT entry whose id lies past the end of the device, followed by a FAT16 entry: the next entry read fails at the end of the device and the scan stops | restore the saved position on every return | not executed | EbgPart.StaleIdReadEndsScan | EbgPart.ReadGptEntries |
| tools/ebgpart.c:332-339 | after scanning logical volumes, the loop dereferences `*list_end`, which is NULL when no logical partition was added | an MBR with an extended partition whose boot record lists no logical partition | list the extended partition and go on with the next MBR entry | not executed | EbgPart.ExtendedWithoutLogicals | EbgPart.CheckPartitionTable |
| tools/ebgpart.c:329-339 | the loop leaves `list_end` pointing at the link to the last logical partition instead of past it, so the next primary partition overwrites that link | an MBR with an extended partition holding one logical partition, then a FAT primary partition: the logical partition disappears from the list | append the primary partition after the logical ones | not executed | EbgPart.PrimaryAfterLogicals | EbgPart.Primary |
| utils.c:256-264 | in custom-label mode the volume's custom label is passed to `StrnCmp` even when the volume has none (NULL) | payload path "C:A:k" with a volume lacking a custom label | treat a volume without the label as not matching | not executed | Utils.MissingCustomLabel | Utils.FileDevicePathFromConfigVolume |
| env/env_api.c:266-292 | `ebg_env_finalize_update` frees every registry item but never resets `gc_registry`, which keeps pointing at the first freed item | register a key, finalize the update, then register another key or finalize again: the walk starts at freed memory | empty the registry after freeing it | not executed | EnvApi.FinalizeThenRegisterFaults | EnvApi.FinalizeAgainChangesNothing |
