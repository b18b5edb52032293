# detect-drives, modelled in Dafny

`detect-drives` lists a machine's drives by running a system command and
parsing its text output:

- **Unix.** `mount` and `df` are run together. Every `mount` line is read by
  position, named after the last segment of its mount path, and joined to
  the first `df` row with the same file system and path. Lines that leave a
  property undefined are dropped.
- **Windows.** `wmic logicaldisk get …` is run. Every data row is read by
  position into a drive record.
- **Linux (lsblk).** `detectAllLinuxDrives` refuses Windows and macOS
  before running anything.
- **USB drives.** `detectUsbDrives` keeps the drives flagged as USB.

This project models that layer as pure functions over strings and sequences
and proves what each step promises. Command outputs (an error, stdout,
stderr) and the platform name are inputs.

Files, one module each:

- `wrappers.dfy`: `Option` (JavaScript `undefined` is `None`) and `Result`.
- `js_text.dfy`: the JavaScript string operations the parsers use.
  - `split` with a string separator, and `join`, with their round trips.
  - `split(/c+/).filter(Boolean)`, proved equal to the maximal runs of
    non-separator characters, in order and without loss.
  - `trim`, `trimStart` and `trimEnd`.
- `js_number.dfy`: `parseInt` without a radix. It skips leading whitespace,
  reads a sign, accepts a `0x` prefix and reads the longest digit run. NaN
  is `None`.
- `drives.dfy`: the `df` record and the two shapes of drive record.
- `unix_parser.dfy`: `parseDfDetails`, the mount-line map, the `df` join and
  the completeness filter, plus a worked example.
- `windows_parser.dfy`: the wmic row mapper. The column separator is a
  parameter, so it can be instantiated both as written and as intended.
- `detect.dfy`: `execCommand`, the error messages, `detectDrivesOnUnix`,
  `detectDrivesOnWindows`, the platform guard of `detectAllLinuxDrives`,
  `detectDrives` and `detectUsbDrives`.

Where what the code does differs from what it evidently intends, the model
follows the code:

- **`df` path.** The path of a `df` row is its sixth token alone. A path
  containing spaces is cut at the first space.
- **Unmatched mount lines.** A mount line with at least five tokens and no
  matching `df` row is kept. Spreading an undefined match adds no
  properties, so the line survives with only the mount properties. There
  is no inner join.
- **wmic split.** The wmic rows are split with `/s+/`, which means runs of
  the letter `s`, not whitespace (see Findings). `Detect.DetectDrivesOnWindows`
  and everything built on it split as written; `Detect.DetectDrivesOnWindowsCorrected`
  is the same entry point with the whitespace split.
- **Column positions.** Even split on whitespace, wmic columns are read by
  position. A description that is not exactly three words shifts every
  later column (`RemovableDiskRowShifts`).

## Model

| member | source | states |
|---|---|---|
| JsText.TokensAreSplitRunsFiltered | src/index.ts:165 | the tokenizer equals JavaScript's split on separator runs with the empty strings filtered out |
| JsText.Tokens | src/index.ts:165 | every token is non-empty and contains no separator |
| JsText.TokensKeepEveryNonSep | src/index.ts:165 | the tokens, concatenated, are exactly the non-separator characters of the line, in order |
| JsText.TokensOfJoin | src/index.ts:165 | separator-free words joined by one separator tokenise back to the same words |
| JsText.TokensAppendSep | src/index.ts:189 | a separator character splits the tokens of its two sides apart |
| JsText.SplitOn | src/index.ts:155 | `split(sep)` gives at least one piece, and joining the pieces with sep gives the text back |
| JsText.SplitOnJoin | src/index.ts:155 | splitting the join of separator-free pieces gives the pieces back |
| JsText.Filter | src/index.ts:204-206 | `filter` keeps only elements of the input that satisfy the predicate, and every element that does |
| JsText.FilterKeepsCopies | src/index.ts:269 | `filter` keeps every copy of a kept element: each count is the input's count for satisfying elements and zero otherwise |
| JsText.FilterIsSubsequence | src/index.ts:269 | `filter` keeps an order-preserving subsequence |
| JsText.Trim | src/index.ts:220 | `trim` gives text no longer than its input that neither starts nor ends with whitespace |
| JsText.TrimIsInfix | src/index.ts:220 | `trim` removes exactly a whitespace prefix and a whitespace suffix, and the result neither starts nor ends with whitespace |
| JsText.TrimIdempotent | src/index.ts:220 | trimming twice is trimming once |
| JsText.TrimPadded | src/index.ts:220 | `trim` of text padded with whitespace gives the text back |
| JsNumber.ParseInt | src/index.ts:243 | blank text parses to NaN; text starting with a non-zero digit parses to a number |
| JsNumber.ParseIntOfDecimal | src/index.ts:243 | `parseInt` reads back every decimal numeral, including one followed by text that does not continue the number |
| JsNumber.ParseIntSkipsWhitespace | src/index.ts:243 | leading whitespace does not change the value of `parseInt` |
| JsNumber.ParseIntNaN | src/index.ts:243 | text starting with anything but whitespace, a sign or a digit parses to NaN |
| UnixParser.Lines | src/index.ts:155 | `split("\n")` gives lines without a line feed which, joined with line feeds, give the text back |
| UnixParser.ParseDfLine | src/index.ts:158-172 | a `df` record has a path exactly when the line has six tokens, and then every field is defined |
| UnixParser.DfLineColumns | src/index.ts:158-165 | the record's fields are the line's first six columns in order, a missing column giving undefined |
| UnixParser.ParseDfDetails | src/index.ts:153-175 | one record per line after the first, in order, and every record with a path is complete |
| UnixParser.DfDetailsOfRows | src/index.ts:154-157 | output made of a header line and rows gives exactly one record per row |
| UnixParser.FindDfIndex | src/index.ts:190-192 | the index found is a match and no earlier index matches; no index is found only when nothing matches |
| UnixParser.FindDf | src/index.ts:190-192 | the record found is a `df` record with the mount line's file system and path; none is found exactly when no record matches |
| UnixParser.FindDfIsFirst | src/index.ts:190-192 | the record found is the first match in `df` order |
| UnixParser.MountName | src/index.ts:193-198 | the name is never empty and holds no `/`; a missing path gives "Local Disk" |
| UnixParser.MountNameIsLastSegment | src/index.ts:193-198 | the name is the segment after the last `/` of the path, or "Local Disk" when that segment is empty |
| UnixParser.ParseMountLine | src/index.ts:186-203 | the attached `df` record comes from the list and has the drive's file system and path, so the spread changes neither; isUsb holds exactly when the type is "fuseblk" |
| UnixParser.MountLineColumns | src/index.ts:189-201 | file system, path and type are columns 0, 2 and 4; the name, the USB flag and the `df` match follow from them |
| UnixParser.MountLineIgnoresConnectors | src/index.ts:189 | replacing columns 1 and 3 ("on" and "type") changes nothing |
| UnixParser.DefinedIffMountColumns | src/index.ts:204-206 | against well-shaped `df` records (those `parseDfDetails` returns), a drive has no undefined property exactly when its line has at least five tokens, matched or not |
| UnixParser.UnixDrives | src/index.ts:186-206 | every drive returned is a Unix drive with no undefined property, and it is USB exactly when mounted as "fuseblk" |
| UnixParser.FilterMapMountLines | src/index.ts:186-206 | filtering the parsed records equals parsing the lines with at least five tokens |
| UnixParser.UnixDrivesKeepMountLines | src/index.ts:186-206 | the drives are the mount lines with at least five tokens, in order, each parsed against the `df` records |
| UnixParser.UnixDrivesOfTwoLines | src/index.ts:186-206 | two complete lines ended by a newline give two drives; the empty last line is dropped |
| UnixParser.ExampleDfDetails | src/index.ts:153-175 | a header and one row give that row's record, plus an all-undefined record for the empty last line |
| UnixParser.ExampleNames | src/index.ts:193-198 | "/mnt/data" is named "data" and "/proc" is named "proc" |
| UnixParser.ExampleUsage | src/index.ts:190-192 | the mounted volume matches its `df` row, and `/proc` matches none |
| UnixParser.ExampleUnixDrives | src/index.ts:177-206 | a volume listed by `df` is joined to its usage; `/proc`, which `df` does not list, is kept without usage |
| WindowsParser.Show | src/index.ts:237 | a template literal prints a missing value as "undefined" |
| WindowsParser.IsRemovable | src/index.ts:243 | an undefined or blank drive type parses to NaN, so it is never removable |
| WindowsParser.WmicRows | src/index.ts:219-222 | no data row holds a CRLF, and blank output has no rows |
| WindowsParser.ParseWmicRow | src/index.ts:224-244 | path, drive type and size are defined exactly when the row has at least 1, 5 and 8 columns; USB exactly when the drive type parses to 2; "Local Disk" as the name when there are at most eight columns |
| WindowsParser.WmicRowColumns | src/index.ts:224-244 | for any separator, each property is read from its column position and the name is columns 8 onward joined by spaces |
| WindowsParser.WindowsDrivesWith | src/index.ts:219-245 | one drive per data row, none dropped: drive k is data row k parsed with the given separator, USB exactly when its drive type parses to 2 |
| WindowsParser.WindowsDrivesAsWritten | src/index.ts:219-245 | drive k is data row k split on runs of the letter s, as written |
| WindowsParser.WindowsDrives | src/index.ts:219-245 | drive k is data row k split on runs of whitespace, as evidently intended |
| WindowsParser.WmicRowsOf | src/index.ts:219-222 | padded output with a header and CRLF-separated rows gives exactly the data rows |
| WindowsParser.DescriptionWords | src/index.ts:237 | split on whitespace, the description holds exactly the second to fourth words of the row |
| WindowsParser.NameWords | src/index.ts:242 | split on whitespace, the name holds exactly the ninth and later words of the row |
| WindowsParser.IsRemovableDecimal | src/index.ts:243 | a numeric drive type flags USB exactly when it is 2 |
| WindowsParser.FixedDiskRowLetterS | src/index.ts:234 | the s of "Disk" is the only s in a fixed disk's row |
| WindowsParser.FixedDiskRowAsWritten | src/index.ts:234 | as written, that row gives a wrong path and an undefined drive type, file system and size |
| WindowsParser.FixedDiskRowCorrected | src/index.ts:224-244 | split on whitespace, the same row gives every property from its own column |
| WindowsParser.RemovableDiskRowShifts | src/index.ts:224-243 | a two-word description shifts the columns: the file system is read as the drive type and a removable disk is not flagged USB |
| Detect.ExecCommand | src/index.ts:141-151 | rejects exactly when there is an error or stderr text, preferring the error; otherwise resolves with stdout |
| Detect.FallbackMessage | src/index.ts:139 | the fallback message is 40 characters longer than the platform name and names the platform |
| Detect.ErrorMessage | src/index.ts:209-211 | the rejection message is the error's own message when non-empty; the fallback message when that message is empty or the failure is stderr text |
| Detect.DetectDrivesOnUnix | src/index.ts:177-212 | succeeds exactly when both commands succeed, with the parsed drives; otherwise fails with the failing command's message, mount's failure taking precedence |
| Detect.DetectDrivesOnWindows | src/index.ts:214-249 | succeeds exactly when wmic succeeds, drive k being data row k split as written; otherwise fails with wmic's failure message |
| Detect.DetectDrivesOnWindowsCorrected | src/index.ts:214-249 | with the whitespace split: succeeds exactly when wmic succeeds, drive k being data row k split on whitespace; fails exactly as `detectDrivesOnWindows` does |
| Detect.DetectAllLinuxDrives | src/index.ts:251-262 | "win32" and "darwin" fail with the fallback message whatever lsblk would report; other platforms get lsblk's output, or the message of lsblk's failure |
| Detect.DetectDrives | src/index.ts:264-265 | the Windows path exactly on "win32", the Unix path otherwise |
| Detect.UsbOnly | src/index.ts:269 | keeps only USB drives, and every copy of every USB drive |
| Detect.DetectUsbDrives | src/index.ts:267-270 | fails exactly when `detectDrives` fails, with the same message; otherwise returns its USB drives, each as many times as `detectDrives` lists it |
| Detect.UsbDrivesKeepOrder | src/index.ts:267-270 | the USB drives are an order-preserving subsequence of the detected drives |
| Detect.UsbDrivesByPlatform | src/index.ts:264-270 | a USB drive is a Windows drive of drive type 2 on "win32", and otherwise a Unix drive mounted as "fuseblk" |
| Detect.DetectDrivesRunsOnlyItsCommands | src/index.ts:264-265 | the Windows result does not depend on `mount` and `df`, and the Unix result does not depend on `wmic` |

## Left out

- Running the commands (`child_process.exec`) and the concurrency of `Promise.all`. Each command is replaced by what it reported.
- Detect.DetectDrivesOnUnix: when both `mount` and `df` fail, the source rejects with whichever fails first. That depends on timing, so the model reports `mount`'s failure.
- `os.platform()` is a parameter. `errMsg` is computed once at load time in the source, and that platform is the one passed in.
- Detect.DetectAllLinuxDrives: returns lsblk's raw stdout. The source returns the `blockdevices` of `JSON.parse` of it. A JSON decoder, the `Drive`/`Child` interfaces and the exception `JSON.parse` throws on bad input are not part of this model. The lsblk column list is a constant with no logic.
- Object property order and the spread operator are not modelled as such. A Unix drive holds its matched `df` record in `usage`. Because the match has the same file system and path, the spread overrides nothing.
- JsNumber.ParseInt: values are unbounded integers. The source's doubles lose precision above 2^53, and `parseInt` with an explicit radix is never called.
- Exceptions other than the command failures, and the `Error` objects themselves, are modelled only by the text of their message.

## Findings

| source | as written | input that shows it | evidently intended | confidence | as-written member | corrected member |
|---|---|---|---|---|---|---|
| src/index.ts:234 | `detail.split(/s+/)` splits a wmic row on runs of the letter `s` | the row `C: Local Fixed Disk 3 NTFS 100 200 Data` splits into two columns at the s of "Disk", so the path is the whole start of the row and the drive type, file system and size are undefined | `split(/\s+/)`, splitting on runs of whitespace | not executed | WindowsParser.FixedDiskRowAsWritten | WindowsParser.FixedDiskRowCorrected |

`WindowsParser.WindowsDrivesAsWritten` is the row mapper as written; it is
the one `Detect.DetectDrivesOnWindows`, and hence `detectDrives` and
`detectUsbDrives`, use. `WindowsParser.WindowsDrives` is the corrected
mapper, used by `Detect.DetectDrivesOnWindowsCorrected`.
