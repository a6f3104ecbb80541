# keepalived legacy state-dump parser and per-group state files

This project models the VyOS `vyos.keepalived` helpers that read keepalived's
plain-text state dump and keep a group's last VRRP state across reloads, and
proves properties of that model in Dafny.

- `parse_keepalived_data` walks the dump's lines once. It keeps one scratch cell,
  the current group name. A `VRRP Instance = <name>` header opens a group with an
  empty record. The `State`, `Last transition`, `Interface` and `Virtual Router ID`
  lines set one field of the current group's record. The line that opens the
  interface listing (`------< Interfaces`) ends the scan.
- `get_old_state` and `save_state` read and write `<group>.state` in the state
  directory.

Files and modules:

| file | module | contents |
|---|---|---|
| `wrappers.dfy` | `Wrappers` | `Option` and `Result` |
| `text.dfy` | `Text` | Python's `str.isspace` set, `lstrip`/`rstrip`/`strip`, ASCII case folding, digit runs |
| `dump_syntax.dfy` | `DumpSyntax` | The keyword prefix tests (`^\s*KW`, case-insensitive). The full patterns `KW\s+=\s+(.*)$` and `Last transition\s+=\s+(\d+)\s`. The tagging of one line (`Lex`) as header, field line, marker or other. |
| `dump_parser.dfy` | `DumpParser` | Parser state, `Step` (one pass of the `if`/`elif` chain), `Run` (the scan), `Parse`, and the loop itself as a method |
| `parser_properties.dfy` | `ParserProperties` | Marker cut-off, orphan field lines, header reset, field writes, result keys, error lines, case-insensitivity |
| `dump_rendering.dfy` | `DumpRendering` | An independent writer of the dump format, and the round trip parse-after-render |
| `state_persistence.dfy` | `StatePersistence` | The state directory as a map from file name to contents, text-mode reading, and `get_old_state`/`save_state` |
| `examples_checked.dfy` | `WorkedExamples` | Concrete dumps and their results |

How the model follows the code:

- **Malformed keyword lines.** A keyword line can pass its prefix test but not the
  full pattern: `State=MASTER`, `Statesomething`, `Last transition = abc`, or a
  header in any position. The source then calls `.groups()` on `None` and raises.
  The model returns `Failure(MalformedLine(keyword))`: `parse_keepalived_data`
  raises when a keyword line's prefix test passes but its full pattern does not
  match.
- **Only a header can raise anywhere.** A field line's prefix test is joined with
  `and group_name`. So a malformed field line raises only inside a group with a
  non-empty name. Elsewhere it is skipped.
- **`(.*)$`.** After `\s+=\s+`, the value pattern matches exactly when the text
  left after the whitespace run has no newline, except possibly as its last
  character. The value is that text, stripped. `readlines()` keeps each line's
  newline, and this rule absorbs it.
- **`(\d+)\s`.** The last-transition value is the longest digit run after
  `\s+=\s+`. It must be non-empty and followed by a whitespace character. A final
  line `Last transition = 123` without a newline or a trailing date therefore
  raises.
- **Empty group names.** A header whose name strips to `""` still creates the
  entry `""`. Python treats `""` as false, so the field lines after it are
  skipped.
- **State files are read in text mode.** `get_old_state` opens the file with
  mode `'r'`. Python's universal newlines then turn each `\r\n`, and each lone
  `\r`, into `\n` before `strip()` runs. The model reads through `ReadText`, so a
  saved `A\rB` reads back as `A\nB`.
- **Characters.** Whitespace is the set `str.isspace` accepts, which is also what
  `\s` matches in a `str` pattern. Digits and case folding are ASCII.

## Model

| member | source | states |
|---|---|---|
| DumpParser.ParseKeepalivedData | python/vyos/keepalived.py:88-132 | The `for` loop, with `break` at the marker and an early return on a malformed line, computes exactly the recursive scan `Parse`. |
| DumpParser.Parse | python/vyos/keepalived.py:88-132 | The parse fails only on a keyword line of the input whose full pattern does not match, and it reports that line's keyword. A dump without such a line always returns a map. |
| DumpParser.Step | python/vyos/keepalived.py:104-130 | One pass of the `if`/`elif` chain. It halts exactly on a marker line. It fails exactly on a malformed header, or on a malformed field line inside a non-empty group. Otherwise the current group keeps a record and no group is ever removed. |
| DumpParser.Run | python/vyos/keepalived.py:104-132 | The scan keeps the current group's record present and never removes a group. A scan that did not stop early met no marker line. |
| DumpSyntax.ClassifyIffKeyword | python/vyos/keepalived.py:105-130 | A line takes a keyword's branch exactly when it passes that keyword's prefix test, after leading whitespace and ignoring ASCII case. |
| DumpSyntax.KeywordsExclusive | python/vyos/keepalived.py:105-126 | No line passes two of the six prefix tests, so the order of the `elif` chain never decides. |
| DumpSyntax.AssignedValue | python/vyos/keepalived.py:105-124 | The value pattern only accepts lines that pass the prefix test. What it returns is stripped and holds no newline. |
| DumpSyntax.AssignedValueIff | python/vyos/keepalived.py:105-124 | The value pattern yields `v` exactly when the line is leading whitespace, the keyword in any ASCII case, `\s+=\s+`, and a rest with no inner newline that strips to `v`. |
| DumpSyntax.AssignedValueShape | python/vyos/keepalived.py:107 | `<ws><keyword><ws>=<ws><value><trailing ws>`, with a one-line stripped value, yields that value, in whatever case the keyword is spelled. The value may be empty. |
| DumpSyntax.TransitionValue | python/vyos/keepalived.py:114-116 | An accepted last-transition value is a non-empty run of decimal digits. In the line it is followed by a whitespace character. |
| DumpSyntax.TransitionValueIff | python/vyos/keepalived.py:114-116 | The last-transition pattern yields `d` exactly when `d` is a non-empty digit run standing right after `Last transition\s+=\s+` and followed by a whitespace character. |
| DumpSyntax.TransitionValueShape | python/vyos/keepalived.py:116 | The digits followed by any whitespace character are taken, and whatever comes after them is discarded. |
| DumpSyntax.LexHeader | python/vyos/keepalived.py:105-109 | A line is tagged as a header exactly when it passes the `VRRP Instance` prefix test, and it carries the extracted name. |
| DumpSyntax.LexField | python/vyos/keepalived.py:110-125 | A line is tagged as a field line exactly when it passes that field's prefix test, and it carries the extracted value. |
| DumpSyntax.LexMarker | python/vyos/keepalived.py:126-130 | A line is tagged as the marker exactly when it passes the `------< Interfaces` prefix test. |
| ParserProperties.MarkerEndsInput | python/vyos/keepalived.py:126-130 | `parse(prefix + [marker] + suffix) == parse(prefix)` for every prefix and suffix. |
| ParserProperties.NoHeaderNoGroups | python/vyos/keepalived.py:104-132 | Without a `VRRP Instance` line the result is the empty map, never an error. |
| ParserProperties.OtherLineDropped | python/vyos/keepalived.py:104-130 | A line that passes none of the six prefix tests, such as `Priority = 100`, takes no branch: deleting it anywhere leaves the result, or the error, unchanged. |
| ParserProperties.OtherLineTagged | python/vyos/keepalived.py:104-126 | A line that passes none of the six prefix tests gets the `Other` tag. |
| ParserProperties.OtherTagDropped | python/vyos/keepalived.py:104-130 | An `Other` tag, wherever it stands in the tagged dump and whatever the state, can be deleted without changing the scan. |
| ParserProperties.OrphanFieldLineDropped | python/vyos/keepalived.py:110-125 | A field line anywhere before the first `VRRP Instance` line, well-formed or not, can be deleted without changing the result. |
| ParserProperties.LeadingFieldLinesDropped | python/vyos/keepalived.py:110-125 | A block of field lines at the very start of the input can be deleted without changing the result. |
| ParserProperties.EmptyNameFieldLineDropped | python/vyos/keepalived.py:105-125 | A field line after a header whose name strips to `""`, with no other header line between them, can be deleted without changing the result. |
| ParserProperties.EmptyNameSilencesFields | python/vyos/keepalived.py:105-125 | Field tags directly after a header tag named `""` can be deleted without changing the scan. The entry `""` is still created. |
| ParserProperties.HeaderStep | python/vyos/keepalived.py:105-109 | A header makes its name current and gives it an empty record. Every other group keeps its record. |
| ParserProperties.HeaderResetsRecord | python/vyos/keepalived.py:105-109 | A well-formed header line, as text, has exactly that effect on any state. |
| ParserProperties.HeaderForgetsPast | python/vyos/keepalived.py:105-109 | From a header on, the scan does not depend on which group was current before it. It does not depend on what that name's record held either. |
| ParserProperties.FieldStep | python/vyos/keepalived.py:110-125 | Inside a group, a field line sets that one field of the current record and overwrites any earlier value. Every other field and every other group is unchanged. |
| ParserProperties.FieldLineWritesOneKey | python/vyos/keepalived.py:110-125 | A well-formed field line, as text, has exactly that effect inside a group. |
| ParserProperties.MalformedHeaderRejected | python/vyos/keepalived.py:105-107 | A line that passes the `VRRP Instance` prefix test but not the full pattern is an error in any state. |
| ParserProperties.MalformedFieldRejected | python/vyos/keepalived.py:110-124 | Inside a group, a field line that passes its prefix test but not its full pattern is an error. |
| ParserProperties.RejectedLineFailsParse | python/vyos/keepalived.py:104-124 | A line that the scan rejects ends the whole parse with its error, whatever follows. |
| ParserProperties.ResultKeysAreHeaderNames | python/vyos/keepalived.py:105-130 | On success, the result's keys are exactly the stripped names of the header lines before the first marker line. |
| ParserProperties.ParsedValuesWellFormed | python/vyos/keepalived.py:105-125 | Every name and value in a result is stripped and one line long. Every last-transition value is non-empty and all digits. |
| ParserProperties.KeywordCaseIrrelevant | python/vyos/keepalived.py:105-124 | A keyword spelled in any ASCII case tags the line exactly as the source's spelling would. |
| DumpRendering.FieldLineReadBack | python/vyos/keepalived.py:110-125 | A written `<field> = <value>` line is read back as that field and value. This includes the empty value for the three `(.*)` fields. |
| DumpRendering.HeaderLineReadBack | python/vyos/keepalived.py:105-109 | A written `VRRP Instance = <name>` line is read back as that name. |
| DumpRendering.GroupDumpRun | python/vyos/keepalived.py:105-125 | A group's section opens the group and leaves exactly the written record under its name, whatever the name held before. |
| DumpRendering.RenderThenParse | python/vyos/keepalived.py:88-132 | Parsing a written dump returns the written groups. A later group with a repeated name replaces the earlier one. |
| DumpRendering.RenderWithInterfacesThenParse | python/vyos/keepalived.py:126-130 | The interface listing after the groups, and anything after it, leaves that result unchanged. |
| DumpRendering.ToGroupsLastWins | python/vyos/keepalived.py:109 | A group whose name no later header repeats keeps its written record. |
| StatePersistence.StateFileName | python/vyos/keepalived.py:62 | A group's state file is its name followed by `.state`. |
| StatePersistence.StateFileNameInjective | python/vyos/keepalived.py:62 | Different groups use different state files. |
| Text.IsSpace | python/vyos/keepalived.py:105 | The characters `\s` matches in a `str` pattern, which are also the ones `str.isspace()` and `strip()` treat as whitespace. It is a definition, with no contract of its own. |
| Text.Strip | python/vyos/keepalived.py:65 | `str.strip()` leaves no whitespace at either end and never lengthens its input. |
| Text.StripRemovesOnlySpace | python/vyos/keepalived.py:65 | What `strip()` keeps is a contiguous part of the input with only whitespace on either side of it. |
| Text.StripPadded | python/vyos/keepalived.py:65 | Whitespace around a string without surrounding whitespace is exactly what `strip()` removes. |
| StatePersistence.ReadText | python/vyos/keepalived.py:64-65 | A text-mode read contains no carriage return and is never longer than the file. A file without carriage returns reads unchanged. |
| StatePersistence.ReadTextCrLf | python/vyos/keepalived.py:64-65 | Text before the first carriage return reads unchanged, and that `\r\n` reads as one `\n`. |
| StatePersistence.ReadTextCr | python/vyos/keepalived.py:64-65 | Text before the first carriage return reads unchanged, and that `\r`, with no `\n` after it, reads as `\n`. |
| StatePersistence.GetOldState | python/vyos/keepalived.py:61-68 | None exactly when the group's file is missing. Otherwise the file's text-mode reading, stripped: no whitespace at either end and no carriage return. |
| StatePersistence.SaveState | python/vyos/keepalived.py:70-76 | The group's file holds exactly the given state afterwards, and no other file changes. |
| StatePersistence.SaveThenGet | python/vyos/keepalived.py:61-76 | A saved state reads back as its text-mode reading, stripped. |
| StatePersistence.SaveStrippedThenGet | python/vyos/keepalived.py:61-76 | A state with no surrounding whitespace and no carriage return reads back exactly as saved. |
| StatePersistence.CarriageReturnReadsAsNewline | python/vyos/keepalived.py:61-76 | A saved `A\rB` reads back as `A\nB`. |
| StatePersistence.SaveLeavesOthers | python/vyos/keepalived.py:61-76 | Saving one group's state leaves what every other group reads unchanged. |
| StatePersistence.SaveReadStateIsStable | python/vyos/keepalived.py:61-76 | Saving what was just read back changes what no group reads, this group or any other. |
| StatePersistence.ReplayThenGet | python/vyos/keepalived.py:61-76 | After any series of saves into an empty directory, a group that was never saved reads None. Otherwise it reads the stripped text-mode reading of its latest save. |
| WorkedExamples.OneGroupExample | python/vyos/keepalived.py:105-117 | A header, a state and a dated last transition give `{"VI_1": {state: "MASTER", last_transition: "1532043820"}}`. |
| WorkedExamples.OrphanStateExample | python/vyos/keepalived.py:110-113 | `["State = MASTER"]` gives the empty map. |
| WorkedExamples.MarkerExample | python/vyos/keepalived.py:126-130 | A header after `------< Interfaces` is never read. |
| WorkedExamples.LowerCaseHeaderExample | python/vyos/keepalived.py:105-109 | `vrrp instance = VI_1` opens the group `VI_1`. |
| WorkedExamples.MalformedStateExample | python/vyos/keepalived.py:110-112 | `State=MASTER` inside a group is an error. |
| WorkedExamples.SavedStateExample | python/vyos/keepalived.py:61-76 | Saving `MASTER` for `VI_1` reads back `MASTER`. `VI_2` reads as absent. |

## Left out

- Signalling the daemon and checking that it runs (`keepalived_running`, `force_state_data_dump`, `force_stats_dump`, `force_json_dump`, lines 31-44): process and signal calls.
- Reading the dump, statistics and JSON files (`get_json_data`, `get_statistics`, `get_state_data`, `read_state_data`, lines 46-55 and 83-86): plain file I/O. `Parse` takes the list of lines `readlines()` would return.
- Creating the state directory (lines 71-72), and file-system failures: the state directory is an abstract map that always exists.
- `os.path.join` semantics for group names that are absolute paths or contain `/` (lines 62 and 74). The file is keyed by `<group>.state` inside the state directory.
- The order of keys in the returned dictionaries: results are Dafny maps, which have no insertion order.
- The field keys are the `Field` constructors. The source's dictionary keys `"state"`, `"last_transition"`, `"interface"` and `"vrid"` are named in a comment on that type.
- Unicode beyond `str.isspace`: `\d`, case folding under `re.IGNORECASE` and the digit test cover ASCII only.
- The encoding of state files: a file's contents are taken as already-decoded text, and decoding errors are not modelled.
- StatePersistence.SaveStrippedThenGet: promises an exact read-back only for states without a carriage return, because a text-mode read turns `\r` into `\n` (`CarriageReturnReadsAsNewline`).
- The kind of Python exception raised for a malformed line (`AttributeError` on `None`): the model returns an error value that names the keyword.
- `src/op_mode/vrrp.py` (the command-line front end and its table and JSON output) is not part of this model.
