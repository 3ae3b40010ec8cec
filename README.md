# os-diff, modelled in Dafny

os-diff compares the configuration files of an OpenStack deployment with
the configuration of the same services after adoption into OpenShift. This
project models its core:

- the **file comparators** of `pkg/godiff`: the line-by-line diff, the YAML
  and JSON map diffs, the INI section and key diff, the INI clean-up
  (`CleanIniSections`), and the `CompareFileNames` object that picks a
  comparator and accumulates a report;
- the **helpers** of `pkg/common`: slice utilities, type detection, the
  shell tokenizer, the ssh command completion and the ssh config generator;
- the **service configuration loaders** of `pkg/servicecfg`: Cinder,
  Glance and EDPM, plus the key/value loader, `stat` interpretation and pod
  name helpers;
- the **collection bookkeeping** of `pkg/collectcfg/fetch.go`: filtering
  and routing of services, the host list, the clean-up guard, the tree
  creation commands, the podman container table and its merge into the
  service table.

Each Go source file has one Dafny module:

| module | file | source |
|---|---|---|
| `GodiffRaw` | `godiff_raw.dfy` | `pkg/godiff/utils.go` `CompareRawData` |
| `GodiffMaps` | `godiff_maps.dfy` | `pkg/godiff/utils.go` `CompareYAML`, `CompareJSON` |
| `GodiffIni` | `godiff_ini.dfy` | `pkg/godiff/utils.go` `CompareIni`; the INI loop of `pkg/godiff/compare.go` |
| `GodiffClean` | `godiff_clean.dfy` | `pkg/godiff/utils.go` `CleanIniSections` |
| `GodiffCompare` | `godiff_compare.dfy` | `pkg/godiff/compare.go` |
| `CommonUtils` | `common_utils.dfy` | `pkg/common/utils.go` |
| `SshConfig` | `ssh_config.dfy` | `pkg/common/ssh_config.go` |
| `ServicecfgUtils` | `servicecfg_utils.dfy` | `pkg/servicecfg/utils.go` |
| `Edpm`, `Cinder`, `Glance` | `edpm.dfy`, `cinder.dfy`, `glance.dfy` | `pkg/servicecfg/*.go` |
| `CollectCfg` | `collectcfg.dfy` | `pkg/collectcfg/fetch.go` |
| `GoStrings`, `Results` | `gostrings.dfy`, `results.dfy` | the Go `strings` functions used, and result/panic values |

Conventions:

- A Go function that returns `(value, error)` returns a `Result`. `Ok` is
  success and `Err(msg)` is the returned error. `Panic(reason)` is a
  run-time panic: a nil dereference, an index out of range, or an explicit
  `panic(err)`. A panic is modelled as an outcome, not as a precondition.
- Go map iteration order is unspecified. Methods that range over a map pick
  keys with `:|` and return the order they used as a ghost out-parameter.
  Their contracts hold for that order, and the lemmas hold for every order.
- Parsers (`yaml.Unmarshal`, `json.Unmarshal`, `ini.Load`) are not
  modelled. Their outcome is an input: a parsed document or an error.
- File reads and command executions are inputs, or functions from the
  command line to its outcome.
- Code is stateful where the source is: `CompareFileNames`, the ssh config
  file, and the package-level service table of `fetch.go` (class
  `Fetcher`) are classes whose methods update their fields.

Where the code and the repository's tests or documentation disagree, the
model follows the code:

- `pkg/godiff/utils_test.go:111-115` expects markers `@ line: 2` with
  1-based numbers. `CompareRawData` writes `@@ line: 1`, the 0-based
  index.
- `pkg/godiff/utils_test.go:87-89` expects three entries, with `+key4` and
  `-key3`. `CompareJSON` reports keys only in the origin with `+` and keys
  only in the destination with `-`, and gives two entries for that input.
- `DetectType` (`pkg/common/utils.go:218-229`) tries YAML before JSON.
  Every JSON document is also YAML, so the `json` case is reached only by
  text that is JSON but not YAML (`GodiffCompare.JsonBeforeYaml`).
- `IsIni` and `isIni` do not skip leading whitespace, and they panic on
  empty data.

## Model

| member | source | states |
|---|---|---|
| GodiffRaw.FindLine | pkg/godiff/utils.go:307-314 | the inner scan finds a line exactly when it is one of the other file's non-comment, non-empty lines |
| GodiffRaw.LeftPass | pkg/godiff/utils.go:303-326 | the first pass keeps every `@@ line` marker immediately followed by an entry |
| GodiffRaw.RightPass | pkg/godiff/utils.go:329-356 | the second pass, including its truncating re-append, keeps every marker followed by an entry |
| GodiffRaw.LeftLoop | pkg/godiff/utils.go:303-326 | the first loop builds the first-pass report and sets `diffFound` iff some eligible line of the first file is missing from the second |
| GodiffRaw.RightLoop | pkg/godiff/utils.go:329-356 | the second loop builds the second-pass report and sets `diffFound` iff some eligible line of the second file is missing from the first |
| GodiffRaw.RawLineDiff | pkg/godiff/utils.go:300-362 | both passes plus the header prepended only when a difference was found; markers stay followed by entries |
| GodiffRaw.CompareRawData | pkg/godiff/utils.go:293-363 | the raw comparison splits both texts on newlines and produces the line-diff report of the two line lists |
| GodiffRaw.LeftPassQuiet | pkg/godiff/utils.go:315-324 | when every eligible line of the first file occurs in the second, the first pass adds nothing |
| GodiffRaw.RightPassQuiet | pkg/godiff/utils.go:341-354 | when every eligible line of the second file occurs in the first, the second pass changes nothing |
| GodiffRaw.DiffFoundIffSetsDiffer | pkg/godiff/utils.go:300-356 | a difference is found exactly when the sets of non-comment, non-empty lines of the two files differ (order and repetition are ignored) |
| GodiffRaw.RawDiffEmptyIff | pkg/godiff/utils.go:357-362 | the report is empty iff the eligible line sets are equal, and a non-empty report starts with the `Source file path` header |
| GodiffRaw.LeftPassJustified | pkg/godiff/utils.go:315-322 | every entry the first pass adds is a marker or `+line` for a line present only in the first file |
| GodiffRaw.RightPassJustified | pkg/godiff/utils.go:341-352 | every entry the second pass leaves is an earlier entry, a marker or `-line` for a line present only in the second file |
| GodiffRaw.RawDiffJustified | pkg/godiff/utils.go:293-363 | every report entry except the leading header is a marker, a `+` line only in the first file, or a `-` line only in the second |
| GodiffRaw.HeaderNotJustified | pkg/godiff/utils.go:357-361 | the header is never mistaken for a marker or a line entry |
| GodiffRaw.LeftPassComplete | pkg/godiff/utils.go:315-322 | every line of the first file missing from the second gets its `@@ line: i` marker and its `+line` entry |
| GodiffRaw.TruncationExample | pkg/godiff/utils.go:348-351 | for `a,b` against `c` the re-append at an existing marker drops the earlier `+b` entry |
| GodiffMaps.LeftEntriesEmptyIff | pkg/godiff/utils.go:91-105 | the first YAML loop reports nothing iff every key of the first map is in the second with an equal value |
| GodiffMaps.RightEntriesEmptyIff | pkg/godiff/utils.go:107-113 | the second YAML loop reports nothing iff every key of the second map is in the first |
| GodiffMaps.LeftEntriesExact | pkg/godiff/utils.go:91-105 | each first-loop entry comes from one key; a key only in the first map yields `+k: v`, a changed key yields the `+k/-k` pair |
| GodiffMaps.MapDiffEmptyIff | pkg/godiff/utils.go:89-114 | for any iteration orders, the two loops together report nothing iff the maps are equal |
| GodiffMaps.YamlLeftLoop | pkg/godiff/utils.go:91-105 | the loop visits every key of the first map once and appends that key's entries in visiting order |
| GodiffMaps.YamlRightLoop | pkg/godiff/utils.go:107-113 | the loop visits every key of the second map once and appends a `-k: v` entry for each key missing from the first |
| GodiffMaps.YamlDiff | pkg/godiff/utils.go:87-115 | the report is empty iff the maps are equal, and otherwise is the two loops' entries for some iteration order |
| GodiffMaps.CompareYAML | pkg/godiff/utils.go:75-116 | an unparsable origin or destination gives its `Error unmarshalling` error; two parsed maps give a report that is empty iff they are equal, and when they differ it is the first loop's entries over an enumeration of the origin's keys followed by the second loop's entries over an enumeration of the destination's keys |
| GodiffMaps.TypeName | pkg/godiff/utils.go:119-121 | the `%T` name separates null, arrays and objects from each other and from scalars |
| GodiffMaps.KeysOnlyInExact | pkg/godiff/utils.go:129-144 | the key loop reports exactly `sign+k` for each key absent from the other object, without repeats, and nothing iff no key is absent |
| GodiffMaps.ObjectKeysLoop | pkg/godiff/utils.go:129-144 | the loop visits every key once and appends the report for the keys the other object lacks |
| GodiffMaps.CompareJSON | pkg/godiff/utils.go:118-161 | different types give the type-mismatch error, arrays of different length the length error, objects the `+key`/`-key` lists and everything else an empty report |
| GodiffMaps.JsonObjectEntries | pkg/godiff/utils.go:127-144 | for objects, the report holds exactly `+k` for keys only in the origin and `-k` for keys only in the destination, and is empty iff the key sets agree |
| GodiffClean.TrimLines | pkg/godiff/utils.go:381-382 | trimming keeps one line per input line |
| GodiffClean.HeaderRoundTrip | pkg/godiff/utils.go:384-385 | `[s]` is recognised as a header and names section `s` |
| GodiffClean.FoldAppend | pkg/godiff/utils.go:381-396 | the line scan over `a + b` is the scan over `b` resumed from the state after `a` |
| GodiffClean.SectionsWellFormed | pkg/godiff/utils.go:376-396 | every collected section name and line is non-empty, trimmed, newline-free, and every line holds `=` |
| GodiffClean.SectionsOfEmpty | pkg/godiff/utils.go:376-396 | empty text collects no sections |
| GodiffClean.CleanOfEmpty | pkg/godiff/utils.go:376-408 | cleaning empty text yields empty text |
| GodiffClean.RenderSections | pkg/godiff/utils.go:397-407 | the builder loop writes `[s]`, the section's lines and a blank line for each section once, in some iteration order |
| GodiffClean.CollectSections | pkg/godiff/utils.go:377-396 | the scan loop builds the section map the line fold defines |
| GodiffClean.CollectLines | pkg/godiff/utils.go:378-396 | the line loop leaves exactly the section map that folding the trimmed lines builds |
| GodiffClean.CleanIniSections | pkg/godiff/utils.go:376-408 | the cleaned text is the rendering of the collected sections in an iteration order of that map |
| GodiffClean.TerminatedIsJoin | pkg/godiff/utils.go:400-404 | writing each line followed by a newline equals joining the lines plus a final empty one with newlines |
| GodiffClean.RenderIsTerminated | pkg/godiff/utils.go:397-407 | the rendered text is the rendered line list, each line newline-terminated |
| GodiffClean.FoldKeyLines | pkg/godiff/utils.go:388-395 | key lines under a current section are appended to it and leave the current section unchanged |
| GodiffClean.FoldBlock | pkg/godiff/utils.go:381-396 | re-reading one rendered block adds exactly that section and its lines |
| GodiffClean.FoldRenderLines | pkg/godiff/utils.go:376-408 | re-reading the rendered lines of a well-formed map restores the rendered sections |
| GodiffClean.LinesOfRender | pkg/godiff/utils.go:377-382 | splitting and trimming rendered text gives back the rendered lines plus a final empty one |
| GodiffClean.CleanIdempotent | pkg/godiff/utils.go:376-408 | cleaning is idempotent: re-collecting cleaned text gives back the same section map, for any iteration order |
| GodiffIni.GetSection | pkg/godiff/utils.go:185 | a section lookup fails exactly when no section has that name, and otherwise returns a section of that name |
| GodiffIni.GetKey | pkg/godiff/utils.go:208 | a key lookup fails exactly when the section has no key of that name, and otherwise returns a key of that name |
| GodiffIni.GetSectionIn | pkg/godiff/utils.go:185 | a section found by name is one of the document's sections |
| GodiffIni.FindKeyIn | pkg/godiff/utils.go:208 | a key found by name is one of the section's keys |
| GodiffIni.Tag | pkg/godiff/utils.go:196-200 | with `sectionFound` set the message is the bare body; otherwise it is the `[name]` line followed by the body, which differs from the body |
| GodiffIni.AddOnce | pkg/godiff/utils.go:202-206 | a message is appended only if not already reported, and `diffFound` is set exactly when it is appended (or already was) |
| GodiffIni.LeftKeys | pkg/godiff/utils.go:194-245 | the key loop only appends and keeps the report duplicate-free and relevant; it returns `sectionFound` set exactly when some key was missing or differed, and every such key's exact message (`-k=v`, or `-k=v1` then `+k=v2`, with `[name]` in front for the first one of the section) is in the report |
| GodiffIni.RightKeys | pkg/godiff/utils.go:247-264 | the reverse key loop only appends, and the exact `+k=v` message (with `[name]` in front when no earlier key of the section was reported) of every second-file key the first section lacks is in the report |
| GodiffIni.LeftSection | pkg/godiff/utils.go:183-265 | one first-file section: only appends; a missing counterpart has its `-[name]` message in the report, and every differing key of either side has its exact message there |
| GodiffIni.RightOnlySection | pkg/godiff/utils.go:266-283 | a second-file section absent from the first file has its `-[name]` message and a `-k=v` message for each of its keys in the report |
| GodiffIni.LeftSections | pkg/godiff/utils.go:183-265 | the first loop keeps the report duplicate-free and justified, and every first-file section has all of its messages in the report |
| GodiffIni.RightSections | pkg/godiff/utils.go:266-284 | the second loop only appends, keeps the report duplicate-free and justified, and every second-file section missing from the first file has all of its messages in the report |
| GodiffIni.CandidateShowsDifference | pkg/godiff/utils.go:183-284 | every message the comparison can emit witnesses a real difference between the two documents |
| GodiffIni.CandidateNotHeader | pkg/godiff/utils.go:285-289 | no comparison message can be confused with the `Source file path` header |
| GodiffIni.IniDiff | pkg/godiff/utils.go:179-290 | the report is duplicate-free, empty iff the documents do not differ, led by the header when non-empty, each further entry is a message the comparison defines, and every such message is in the report |
| GodiffIni.CompareIni | pkg/godiff/utils.go:163-291 | load errors of the origin and destination give their (differently spelt) errors; two loaded documents give a duplicate-free report, empty iff they do not differ, led by the header, holding exactly the messages the comparison defines |
| GodiffIni.FilesAddOnce | pkg/godiff/compare.go:226-230 | a message is appended to the object's report only if not already there |
| GodiffIni.FilesSection | pkg/godiff/compare.go:217-272 | one section present in both files: only appends, and every differing key of either side has its exact message (`-k=v`, `+k=v1` then `-k=v2`, or `-k=v` for a key only on the right, `[name]` in front for the first) in the report |
| GodiffIni.FilesLeftKeys | pkg/godiff/compare.go:217-255 | the loop over first-file keys only appends and keeps the report invariant; it returns `sectionFound` set exactly when some key differed, and every differing key's exact message is in the report |
| GodiffIni.FilesRightKeys | pkg/godiff/compare.go:257-272 | the loop over second-file keys only appends and keeps the report invariant, and every key missing from the first section has its exact `-k=v` message in the report |
| GodiffIni.FilesSections | pkg/godiff/compare.go:205-273 | the loop never errors. It panics exactly when the first first-file section missing from the second finds its `-[name]` entry already in the report (`FilesPanics`: the entry is in the starting report or spelled by a key message of an earlier section), because the `break` is then skipped and the nil section is dereferenced. Otherwise every message of every section it reached, including the `-[name]` of the section at which it stopped, is in the report |
| GodiffIni.InReportAtBreak | pkg/godiff/compare.go:207-214 | at the first missing section, the `stringInSlice` test finds `-[name]` exactly when the starting report holds it or a key message of an earlier section spells it |
| GodiffIni.FilesPanicsAt | pkg/godiff/compare.go:205-214 | only the first missing section can be where the loop panics, so `FilesPanics` is the `stringInSlice` result there |
| GodiffIni.MissingSectionNotKeyMsg | pkg/godiff/compare.go:209-227 | when no key name starts with `[`, no key message (`[name]` in front, `+k=v`, or `-k=v`) equals a `-[S]` entry |
| GodiffIni.PanicNeedsEntryInReport | pkg/godiff/compare.go:205-214 | when no key name starts with `[`, the loop panics exactly when the first missing section's `-[name]` is in the starting report, so an empty starting report never panics |
| GodiffIni.FilesCandidateShowsDifference | pkg/godiff/compare.go:205-273 | every message the method version can emit witnesses a differing section |
| GodiffIni.IniFilesDiff | pkg/godiff/compare.go:188-280 | load errors give their errors. With both loaded, it panics exactly when `FilesPanics` holds; otherwise the `-[name]` of the first missing section is appended and the loop stops. On a normal return the report is unchanged or the header, the old report and new defined messages, every message of the reached sections is in it, and with an empty starting report it is empty iff no section differs |
| GodiffIni.LeftKey | pkg/godiff/utils.go:194-245 | one first-file key: a key missing on the right or with another value there gets its exact message, and `sectionFound` becomes set exactly when some key so far differed |
| GodiffIni.RightKey | pkg/godiff/utils.go:248-262 | one second-file key: a key the first section lacks gets its exact `+k=v` message, and `sectionFound` tracks whether an earlier key of the section was reported |
| GodiffIni.CompleteCovers | pkg/godiff/utils.go:183-284 | once both loops have reported every section, every message the comparison defines is in the report |
| GodiffIni.SectionMsg | pkg/godiff/utils.go:183-265 | a differing first-file section has a message of the first loop |
| GodiffIni.DifferenceHasCandidate | pkg/godiff/utils.go:183-284 | whenever the documents differ, the comparison defines some message (the converse of `CandidateShowsDifference`) |
| GodiffIni.FilesLeftKey | pkg/godiff/compare.go:217-255 | one first-file key: a key missing on the right or with another value there gets its exact message |
| GodiffIni.FilesRightKey | pkg/godiff/compare.go:257-272 | one second-file key: a key the first section lacks gets its exact `-k=v` message |
| GodiffIni.FilesCovers | pkg/godiff/compare.go:205-273 | when the loop stops at the first section missing on the right (or at the end), every message of the reached sections is in the report |
| GodiffIni.FilesDifferenceHasCandidate | pkg/godiff/compare.go:205-273 | when some first-file section differs, the method version defines some message: that section's or an earlier missing section's |
| GodiffCompare.FilesCandidateNotMarker | pkg/godiff/compare.go:222-264 | no INI message looks like a line-diff `@@` marker |
| GodiffCompare.IniReportKeepsMarkersFollowed | pkg/godiff/compare.go:274-278 | prepending the header and appending INI messages keeps line-diff markers followed by entries |
| GodiffCompare.LeftEntriesNotMarkers | pkg/godiff/compare.go:161-175 | YAML `+` entries are never markers |
| GodiffCompare.RightEntriesNotMarkers | pkg/godiff/compare.go:177-183 | YAML `-` entries are never markers |
| GodiffCompare.BothIni | pkg/godiff/compare.go:296 | the double `isIni` test panics on an empty origin, or on an empty destination after an origin starting with `[`, and otherwise is true iff both start with `[` |
| GodiffCompare.Dispatch | pkg/godiff/compare.go:296-317 | the four branches are chosen in the order INI, JSON, YAML, raw, each exactly under its condition, with the `isIni` panics |
| GodiffCompare.JsonBeforeYaml | pkg/godiff/compare.go:307-310 | a pair that parses both as JSON and as YAML is compared as JSON, whereas `DetectType` calls each side YAML |
| GodiffCompare.PaintNewlines | pkg/godiff/compare.go:352-358 | colouring never adds or removes a newline |
| GodiffCompare.PaintAllAt | pkg/godiff/compare.go:351-359 | painted line `i` is report line `i` painted: one per report line, in order |
| GodiffCompare.ColorizeAllAt | pkg/godiff/compare.go:351-359 | printed string `i` is report line `i` painted and terminated: one per report line, in order |
| GodiffCompare.ColorizeLines | pkg/godiff/compare.go:349-359 | the printing loop yields one coloured, newline-terminated string per report line, in order |
| GodiffCompare.JoinColorized | pkg/godiff/compare.go:351-360 | the printed text is the painted lines joined with newlines plus a final newline |
| GodiffCompare.PrintedLines | pkg/godiff/compare.go:350-360 | splitting the printed text on newlines gives back the painted lines plus a final empty one |
| GodiffCompare.CompareFileNames.constructor | pkg/godiff/compare.go:37-41 | a comparison object starts with its two paths and an empty report |
| GodiffCompare.CompareFileNames.Compare | pkg/godiff/compare.go:59-129 | the object's report becomes the line-diff of the split contents, continuing from its previous report |
| GodiffCompare.CompareFileNames.CompareJsonFiles | pkg/godiff/compare.go:131-144 | succeeds iff both sides parse, with the `Error unmarshalling` errors; the report is not touched because the recursive result is discarded |
| GodiffCompare.CompareFileNames.CompareYamlFiles | pkg/godiff/compare.go:146-186 | parse errors leave the report unchanged; equal maps add nothing; different maps append the two loops' entries |
| GodiffCompare.CompareFileNames.CompareIniFiles | pkg/godiff/compare.go:188-280 | load errors and a panic leave the report unchanged. It panics exactly when the first missing section's `-[name]` is already in the old report or spelled by an earlier key message (`FilesPanics`). Otherwise the report is unchanged or gains the header and only relevant, duplicate-free messages, and every message of the reached sections is in it (`IniFilesReport`) |
| GodiffCompare.CompareFileNames.CompareFiles | pkg/godiff/compare.go:282-327 | read errors give `Failed to open file`; the detected kind decides which comparison runs (YAML pairs get the raw diff, a failed INI load falls back to it). For a loaded INI pair the report is what `CompareIniFiles` leaves (`IniFilesReport`), and the call panics exactly when the type test panics or `FilesPanics` holds for the INI pair. A non-empty report is written to `<origin>.diff` |
| GodiffCompare.CompareFileNames.CompareContents | pkg/godiff/compare.go:343-347 | never an error. A panic leaves the report unchanged and happens exactly when empty contents reach the `[` test, or the INI pair reaches a missing section whose `-[name]` is already in the report (`FilesPanics`). Non-INI content gets the line diff; a loaded INI pair leaves exactly what `CompareIniFiles` leaves (`IniFilesReport`) |
| GodiffCompare.CompareFileNames.DiffFiles | pkg/godiff/compare.go:329-362 | read errors give `Failed to open file`. INI pairs use the INI comparison, leaving the report `CompareIniFiles` leaves (`IniFilesReport`), others the raw one. It panics exactly when the `[` test panics or `FilesPanics` holds for a loaded INI pair. Then the report is re-split on newlines and printed with `+` lines green and `-` lines red |
| CommonUtils.StringInSlice | pkg/common/utils.go:114-121 | the scan answers true exactly when the string is an element of the list (the private copy at pkg/godiff/utils.go:31-38 is the same) |
| CommonUtils.SliceIndex | pkg/common/utils.go:131-138 | the result is the index of the first occurrence of the element, or -1 exactly when it does not occur |
| CommonUtils.TestEqualSlice | pkg/common/utils.go:100-112 | the comparison answers true exactly when the two slices are equal |
| CommonUtils.ToLowerSlice | pkg/common/utils.go:123-129 | the result has one lower-cased string per input string, in order |
| CommonUtils.TitleAll | pkg/common/utils.go:190-192 | one title-cased part per underscore-separated part, in order |
| CommonUtils.SnakeToCamel | pkg/common/utils.go:187-194 | the loop concatenates the title-cased underscore-separated parts |
| CommonUtils.JoinLengthAndCount | pkg/common/utils.go:188 | joining separator-free parts with a one-character separator adds exactly one separator between consecutive parts |
| CommonUtils.ConcatTitled | pkg/common/utils.go:189-193 | concatenating the title-cased parts keeps their total length and contains no underscore |
| CommonUtils.CamelCaseDropsUnderscores | pkg/common/utils.go:187-194 | the camel-case name has no underscore and is shorter than its input by exactly the number of underscores |
| CommonUtils.IsIni | pkg/common/utils.go:196-201 | empty data panics (index out of range); otherwise the answer is whether the first byte is `[` |
| CommonUtils.DetectType | pkg/common/utils.go:218-229 | empty data panics; otherwise the type is `ini` iff the text starts with `[`, else `yaml` iff it parses as YAML, else `json` iff it parses as JSON, else `raw` |
| CommonUtils.FormatShellCommand | pkg/common/utils.go:231-269 | the character loop produces the tokens of the quote-aware lexer |
| CommonUtils.RunInvariant | pkg/common/utils.go:237-263 | after any prefix the lexer's quote state is determined by the prefix, no token is empty, and the tokens plus the pending one spell the prefix without its unquoted blanks |
| CommonUtils.TokensSpellInput | pkg/common/utils.go:231-269 | no token is empty, and concatenating the tokens gives back the input minus the blanks outside quotes |
| CommonUtils.UnterminatedQuoteExample | pkg/common/utils.go:245-267 | an unterminated quote keeps the rest of the input, blanks included, in one token |
| CommonUtils.BuildFullSshCmd | pkg/common/utils.go:271-307 | after collapsing whitespace, the command never panics; a full command starts with the collapsed command; a non-empty director host is the one returned; an error with an empty host can only be the too-many-arguments one |
| CommonUtils.CompleteSshCmd | pkg/common/utils.go:273-306 | the `@` and `-F` cases of the host completion, with the same guarantees |
| CommonUtils.ConfigHostIsSuffix | pkg/common/utils.go:277-282 | the host named after `-F file` is the tail of the command |
| CommonUtils.FullCmdEndsWithHost | pkg/common/utils.go:273-306 | every successful full command ends with the director host it returns |
| CommonUtils.SshCmdEndingInAtExample | pkg/common/utils.go:293-294 | a command ending in `@` gets the host appended directly |
| CommonUtils.SshCmdWrongHostExample | pkg/common/utils.go:301-303 | a `user@foo` command with a different director host is refused with the mismatch error |
| SshConfig.Indented | pkg/common/ssh_config.go:235-237 | one indented line per additional line |
| SshConfig.IndentedAt | pkg/common/ssh_config.go:235-237 | additional line `i` is written as `  line\n` |
| SshConfig.LabelCounts | pkg/common/ssh_config.go:225-234 | the settings block has one `StrictHostKeyChecking` line plus whatever the known-hosts line adds, and a `UserKnownHostsFile` line only if the known-hosts line carries that label |
| SshConfig.KnownHostsMislabelled | pkg/common/ssh_config.go:230-234 | as written, a host with a known-hosts file gets two `StrictHostKeyChecking` lines and no `UserKnownHostsFile` line |
| SshConfig.KnownHostsLabelled | pkg/common/ssh_config.go:225-234 | with the corrected label, every stanza has exactly one line of each label |
| SshConfig.StanzasAgree | pkg/common/ssh_config.go:230-234 | for hosts without a known-hosts file the written and the corrected stanza are identical |
| SshConfig.StanzaShape | pkg/common/ssh_config.go:211-239 | a stanza starts with `Host name`, ends with a blank line and has six fixed lines plus the optional identity and port lines and the additional lines |
| SshConfig.RenderSnoc | pkg/common/ssh_config.go:211-239 | writing one more host appends exactly its stanza |
| SshConfig.ConfigFile.constructor | pkg/common/ssh_config.go:81-86 | a freshly created configuration file is empty |
| SshConfig.ConfigFile.WriteString | pkg/common/ssh_config.go:212 | a write appends its string to the file |
| SshConfig.ConfigFile.WriteIndented | pkg/common/ssh_config.go:235-237 | the loop appends each additional line, indented |
| SshConfig.ConfigFile.WriteHostConfig | pkg/common/ssh_config.go:211-239 | the file gains exactly the host's stanza as the source writes it (a known-hosts file under the `StrictHostKeyChecking` label); for a host without one that is the corrected stanza |
| SshConfig.EtcHost | pkg/common/ssh_config.go:91-106 | a comment, blank or one-field line is skipped; otherwise the host name is the second field and the alias is the third field when there are exactly three, else the second |
| SshConfig.EtcHostsStep | pkg/common/ssh_config.go:91-107 | each line adds its host, if any, after the hosts of the earlier lines |
| SshConfig.FromEtcHosts | pkg/common/ssh_config.go:72-110 | a read error is returned; otherwise the file holds the stanzas of the hosts of the lines, in line order |
| SshConfig.SecondField | pkg/common/ssh_config.go:188 | the value taken after `=` holds no `=` |
| SshConfig.ApplyParamsOthers | pkg/common/ssh_config.go:186-196 | parameters that are not key settings are kept as additional lines in order, and name, host name and the check fields are untouched |
| SshConfig.SettingAfter | pkg/common/ssh_config.go:187-192 | a parameter with a key prefix sets that key to the text after the first `=` and leaves the other keys alone |
| SshConfig.UnsetSettingKept | pkg/common/ssh_config.go:186-196 | a key no parameter mentions keeps its previous value |
| SshConfig.LastSettingWins | pkg/common/ssh_config.go:186-196 | when a key is given several times, the last occurrence wins |
| SshConfig.IniHost | pkg/common/ssh_config.go:166-173 | a blank, comment or `[group]` line yields no host |
| SshConfig.IniHostFacts | pkg/common/ssh_config.go:176-196 | a host line names the host by its first word, uses it as host name and keeps the non-key parameters as additional lines |
| SshConfig.SetParameters | pkg/common/ssh_config.go:186-196 | the parameter loop applies the parameters in order |
| SshConfig.IniHostsStep | pkg/common/ssh_config.go:165-202 | each line adds its host, if any, after the hosts of the earlier lines |
| SshConfig.ReadIniHost | pkg/common/ssh_config.go:166-196 | reading one line gives the host that line defines, if any |
| SshConfig.FromIni | pkg/common/ssh_config.go:151-209 | an open error is returned; otherwise the file holds the stanzas of the hosts of the lines, in line order, the last host included |
| SshConfig.WriteIniHosts | pkg/common/ssh_config.go:165-202 | the line loop writes the stanzas of the hosts the lines define, in line order, the last pending host included |
| SshConfig.YamlHosts | pkg/common/ssh_config.go:136-147 | one host per visited (group, host) pair, with `ansible_ssh_host` as host name when set and the inventory name otherwise |
| SshConfig.WriteGroup | pkg/common/ssh_config.go:137-146 | the inner loop writes one stanza per host of the group and records that the group is covered |
| SshConfig.FromYaml | pkg/common/ssh_config.go:112-149 | read and parse errors are returned; otherwise every (group, host) pair of the inventory is written exactly once, in some iteration order |
| SshConfig.RenderAgrees | pkg/common/ssh_config.go:211-239 | for hosts without a known-hosts file the written output equals the corrected one |
| SshConfig.EtcHostsNoKnownHosts | pkg/common/ssh_config.go:100-105 | the `/etc/hosts` builder never sets a known-hosts file |
| SshConfig.IniHostsNoKnownHosts | pkg/common/ssh_config.go:183-196 | the INI builder never sets a known-hosts file |
| SshConfig.YamlHostsNoKnownHosts | pkg/common/ssh_config.go:139-144 | the YAML builder never sets a known-hosts file |
| SshConfig.BuildSshConfigFile | pkg/common/ssh_config.go:63-70 | YAML input takes precedence over `/etc/hosts`, which takes precedence over INI, each producing its builder's output or error |
| ServicecfgUtils.SplitTwo | pkg/servicecfg/utils.go:134-137 | splitting into at most two parts gives two parts exactly when the separator occurs, and then cuts at its first occurrence |
| ServicecfgUtils.ParseLine | pkg/servicecfg/utils.go:134-142 | a line sets a key exactly when it contains `=` or `:` |
| ServicecfgUtils.KeyHasNoSeparator | pkg/servicecfg/utils.go:134-139 | the key is cut at the first `=`, or at the first `:` when there is no `=`, so it holds no such separator |
| ServicecfgUtils.Entries | pkg/servicecfg/utils.go:132-143 | one parsed entry per line |
| ServicecfgUtils.EntriesAt | pkg/servicecfg/utils.go:132-143 | entry `i` is the parse of line `i` |
| ServicecfgUtils.FillKeys | pkg/servicecfg/utils.go:141 | a key is in the map exactly when some entry sets it |
| ServicecfgUtils.FillLastWins | pkg/servicecfg/utils.go:141 | a key's value is the one given by the last entry that sets it |
| ServicecfgUtils.LoadMapKeys | pkg/servicecfg/utils.go:122-149 | the loaded map holds exactly the keys some line sets |
| ServicecfgUtils.LoadMapLastWins | pkg/servicecfg/utils.go:122-149 | for repeated keys the last line wins |
| ServicecfgUtils.LoadMapStep | pkg/servicecfg/utils.go:132-143 | each line updates the map built from the earlier lines by its own entry, if any |
| ServicecfgUtils.LoadFilesIntoMap | pkg/servicecfg/utils.go:122-149 | an open error is returned; otherwise the scanner loop builds the map of the file's lines |
| ServicecfgUtils.StatDir | pkg/servicecfg/utils.go:99-112 | a failed command returns its error; output contained in `regular file` means not a directory, else output contained in `directory` means a directory, else `Unable to stat` |
| ServicecfgUtils.StatKinds | pkg/servicecfg/utils.go:106-111 | `regular file` and empty output are not directories, `directory` is, and any other kind is an error |
| ServicecfgUtils.PodFullName | pkg/servicecfg/utils.go:76-84 | a failed command returns its error; empty output panics; otherwise the last byte is dropped |
| ServicecfgUtils.PodFullNameStripsNewline | pkg/servicecfg/utils.go:83 | output `name\n` yields `name` |
| ServicecfgUtils.KeptStep | pkg/servicecfg/cinder.go:80-91 | each configuration is appended exactly when it starts with `[` |
| ServicecfgUtils.KeptAppend | pkg/servicecfg/cinder.go:80-91 | selecting from two lists one after the other equals selecting from their concatenation |
| ServicecfgUtils.KeptEmptyIff | pkg/servicecfg/cinder.go:80-91 | the gathered text is empty iff no configuration starts with `[` |
| ServicecfgUtils.KeptStartsBracketed | pkg/servicecfg/cinder.go:80-91 | the gathered text is empty or starts with `[` |
| ServicecfgUtils.KeptContains | pkg/servicecfg/cinder.go:80-91 | every configuration starting with `[` occurs in the gathered text |
| Edpm.SplitHasTwoIff | pkg/servicecfg/edpm.go:165-167 | splitting an item on `=` yields a second part iff the item has `=` (else `parts[1]` panics) |
| Edpm.SrcPairShape | pkg/servicecfg/edpm.go:165-167 | the key is the trimmed text before the first `=`, the value is the text up to the next `=` with quotes trimmed |
| Edpm.SrcMapEntries | pkg/servicecfg/edpm.go:163-169 | a key takes the value of its last item |
| Edpm.SrcMapKeys | pkg/servicecfg/edpm.go:163-169 | the source map holds exactly the keys of the items |
| Edpm.EmptySourcePanics | pkg/servicecfg/edpm.go:163-167 | an empty (or unreadable) source file makes the parse panic |
| Edpm.PairsStep | pkg/servicecfg/edpm.go:164-169 | each item with `=` adds its pair after those of the earlier items |
| Edpm.ParseSource | pkg/servicecfg/edpm.go:160-169 | the parse loop builds the source map, or panics at the first item without `=` |
| Edpm.MappingEntriesEmptyIff | pkg/servicecfg/edpm.go:184-193 | the comparison adds nothing iff every mapped source key agrees with its EDPM field |
| Edpm.MappingEntriesPaired | pkg/servicecfg/edpm.go:187-192 | entries come in pairs, a `-` source line followed by a `+` EDPM line |
| Edpm.MappingEntriesStep | pkg/servicecfg/edpm.go:185-193 | each mapping key appends its own pair, if any, after the earlier keys' |
| Edpm.CompareMapping | pkg/servicecfg/edpm.go:185-193 | the loop visits every mapping key once and appends that key's entries in visiting order |
| Edpm.DiffEdpmCrdFromFile | pkg/servicecfg/edpm.go:150-197 | it panics exactly when the source does not parse or the EDPM file cannot be loaded; the report starts with its header and compares the mapping only for `ovs_external_ids` |
| Edpm.LoadOpenStackDataPlaneNodeSetConfig | pkg/servicecfg/edpm.go:132-148 | a read or parse error panics; otherwise the result is always empty, because nothing is written to the builder |
| Cinder.Configs | pkg/servicecfg/cinder.go:80-91 | the four configurations examined, in order |
| Cinder.Gather | pkg/servicecfg/cinder.go:80-91 | the builder receives exactly the configurations that start with `[`, in order |
| Cinder.LoadCinderOpenShiftConfig | pkg/servicecfg/cinder.go:64-94 | a read or parse error panics with its message; otherwise the result is the cleaned gathered text |
| Cinder.NoneBracketedGivesEmpty | pkg/servicecfg/cinder.go:80-93 | with no configuration starting with `[` the result is empty |
| Cinder.GatheredText | pkg/servicecfg/cinder.go:80-91 | the gathered text is empty or starts with `[`, and contains every selected configuration |
| Glance.LoadGlanceOpenShiftConfig | pkg/servicecfg/glance.go:74-93 | a read or parse error panics with its message; otherwise the result is the cleaned custom configuration when it starts with `[` |
| Glance.GlanceSelection | pkg/servicecfg/glance.go:88-92 | the configuration is kept iff it starts with `[`, and otherwise the result is empty |
| CollectCfg.FilterSet | pkg/collectcfg/fetch.go:58-61 | the filter set holds exactly the filter names |
| CollectCfg.Route | pkg/collectcfg/fetch.go:64-69 | a service is pulled from its hosts exactly when TripleO is used and its podman name or id is unset; otherwise it is pulled from its container through `sshCmd undercloud` |
| CollectCfg.Names | pkg/collectcfg/fetch.go:62-71 | one service name per planned pull |
| CollectCfg.PlanStep | pkg/collectcfg/fetch.go:62-71 | each service visited adds its route after the earlier ones' exactly when it passes the filter |
| CollectCfg.PlanRoutesOnce | pkg/collectcfg/fetch.go:56-73 | every service passing the filter is pulled exactly once, no other service is pulled, and each by its route |
| CollectCfg.AddNewFacts | pkg/collectcfg/fetch.go:215-219 | adding hosts keeps the earlier list as a prefix, never repeats a host and loses none |
| CollectCfg.AddNewAppend | pkg/collectcfg/fetch.go:214-220 | adding two host lists one after the other equals adding their concatenation |
| CollectCfg.AllHostsMembers | pkg/collectcfg/fetch.go:214-220 | a host is listed exactly when some visited service names it |
| CollectCfg.AddHosts | pkg/collectcfg/fetch.go:215-219 | the inner loop appends each host not yet listed |
| CollectCfg.CleanUp | pkg/collectcfg/fetch.go:224-231 | an empty or `/` path is refused with the clean-up error and runs nothing; any other path runs `sshCmd rm -rf path` |
| CollectCfg.CleanUpNeverRemovesRoot | pkg/collectcfg/fetch.go:225-228 | no removal command is ever built for `/` or the empty path |
| CollectCfg.HostTreeCommands | pkg/collectcfg/fetch.go:245-250 | one `mkdir -p` command per configured path of a host |
| CollectCfg.HostsTreeCount | pkg/collectcfg/fetch.go:242-251 | a service with hosts gets one command per host and path |
| CollectCfg.ServiceTreeCount | pkg/collectcfg/fetch.go:241-260 | a service without hosts gets one command per path (on the undercloud, empty host segment) |
| CollectCfg.RunAll | pkg/collectcfg/fetch.go:246-263 | a run that does not fail returns empty output and no error |
| CollectCfg.RunAllFirstFailure | pkg/collectcfg/fetch.go:246-263 | the run fails iff some command fails, and then returns the output and error of the first failing command |
| CollectCfg.RunAllAppend | pkg/collectcfg/fetch.go:239-263 | running two command lists in a row stops at the first one's failure, else continues with the second |
| CollectCfg.NamePairsMembers | pkg/collectcfg/fetch.go:327-334 | a container contributes exactly its names that pass the filter |
| CollectCfg.NamePairsLongIds | pkg/collectcfg/fetch.go:327-334 | a container's entries are safe from the `ID[:12]` panic iff it has no kept name or its id has at least 12 characters |
| CollectCfg.ListedAppend | pkg/collectcfg/fetch.go:326-335 | the kept names of two container lists are those of each, in order |
| CollectCfg.ListedLongIds | pkg/collectcfg/fetch.go:326-335 | no panic iff every container with a kept name has an id of at least 12 characters |
| CollectCfg.ListedMembers | pkg/collectcfg/fetch.go:326-335 | a name is listed exactly when it passes the filter and some container carries it |
| CollectCfg.FillInfoAppend | pkg/collectcfg/fetch.go:326-335 | filling from two lists is filling from the first then overriding with the second |
| CollectCfg.FillInfoKeys | pkg/collectcfg/fetch.go:329-332 | the table's keys are exactly the listed names |
| CollectCfg.FillInfoOne | pkg/collectcfg/fetch.go:329-332 | every name of one container maps to its short id and image |
| CollectCfg.PodmanInfoKeys | pkg/collectcfg/fetch.go:313-337 | the table holds exactly the names that pass the filter and belong to some container |
| CollectCfg.PodmanInfoPanics | pkg/collectcfg/fetch.go:330 | building the table panics iff some container with a kept name has an id shorter than 12 characters |
| CollectCfg.PodmanInfoLastWins | pkg/collectcfg/fetch.go:326-335 | a name carried by several containers maps to the last one's first 12 id characters and image |
| CollectCfg.AddContainer | pkg/collectcfg/fetch.go:327-334 | the names loop adds the container's entries, or panics on a short id |
| CollectCfg.NamePairsStep | pkg/collectcfg/fetch.go:327-334 | each name adds its entry when it passes the filter |
| CollectCfg.ShortIdFound | pkg/collectcfg/fetch.go:328-330 | a kept name on a container with a short id makes the table panic |
| CollectCfg.FillInfoSnoc | pkg/collectcfg/fetch.go:329-332 | one more kept name overrides that name's entry with the container's short id and image |
| CollectCfg.NamePairsAppend | pkg/collectcfg/fetch.go:327-334 | the entries of two name lists are those of each, in order |
| CollectCfg.BuildPodmanInfo | pkg/collectcfg/fetch.go:313-337 | a decode error is returned; otherwise the loops build the filtered name table, or panic on a short id |
| CollectCfg.MergedEntries | pkg/collectcfg/fetch.go:352-362 | the merged services are the loaded ones plus one per podman name; each podman name gets its id, image and name and keeps every other field |
| CollectCfg.MergedIdempotent | pkg/collectcfg/fetch.go:352-362 | merging the same podman table twice changes nothing more |
| CollectCfg.MergeStep | pkg/collectcfg/fetch.go:353-360 | each visited name updates only its own service entry |
| CollectCfg.Fetcher.constructor | pkg/collectcfg/fetch.go:33 | the fetcher holds the loaded service table |
| CollectCfg.Fetcher.PullConfigs | pkg/collectcfg/fetch.go:56-73 | the loop visits every service once and issues the planned pulls in visiting order |
| CollectCfg.Fetcher.GetListHosts | pkg/collectcfg/fetch.go:211-222 | the list starts with the undercloud, has no repeats and holds exactly the undercloud and the services' hosts |
| CollectCfg.Fetcher.CreateServicesTrees | pkg/collectcfg/fetch.go:233-264 | the loops run the tree commands of the selected services in visiting order, stopping at the first failure |
| CollectCfg.Fetcher.MergePodmanInfo | pkg/collectcfg/fetch.go:352-362 | the service table becomes the merge of the old table and the podman table |
| CollectCfg.Fetcher.SetTripleODataEnv | pkg/collectcfg/fetch.go:339-369 | a listing error is returned unchanged; a short id panics; a load error is returned after the table was replaced; otherwise the table is merged and the dump result returned |
| CollectCfg.CreateServiceTree | pkg/collectcfg/fetch.go:266-271 | one `sshCmd mkdir -p configDir/service/host/dir(path)` command is run |
| CollectCfg.CreateHostTrees | pkg/collectcfg/fetch.go:245-250 | the path loop runs one command per path, stopping at the first failure |
| CollectCfg.CreateServiceTrees | pkg/collectcfg/fetch.go:241-260 | one service: per host through `sshCmd host`, or on the undercloud with an empty host segment |
| CollectCfg.HostsTreeAppend | pkg/collectcfg/fetch.go:242-251 | the commands for two host lists are those of each, in order |
| CollectCfg.TreeCommandsAppend | pkg/collectcfg/fetch.go:239-262 | the commands for two service lists are those of each, in order |

## Left out

- Third-party parsers (go-ini, yaml.v3, encoding/json) are not modelled. Parsed documents are inputs.
  - An INI document is a list of named sections. Each section is a list of named keys. Lookup is by name.
  - go-ini's `DEFAULT` section, its key normalisation and its handling of duplicate keys are not modelled.
- `isYaml`, `isJson`, `IsYaml` and `IsJson` are predicate parameters.
- `%v` formatting of YAML keys and values is a set of function parameters (`showK`, `showV`, `showS`).
- GodiffMaps.CompareJSON: the recursive calls are not modelled. Their results and errors are discarded, and they have no other effect.
- Strings are sequences of characters, not bytes. `strings.ToLower` and `strings.Title` follow ASCII rules only.
- `bufio.Scanner` is modelled as a split on `\n`. It does not drop a `\r` before the newline, and its 64 KiB token limit and read error are not modelled.
- File I/O is not modelled. Reads and parse results are `Result` inputs.
  - `writeReport` becomes the `DiffFile` value `CompareFiles` returns. Its write error is only printed, so it is not modelled.
  - `os.Create` and the ignored `WriteString` errors in `ssh_config.go` are not modelled. The ssh config file is a sequence of written strings.
  - The stray `/tmp/test.yaml` writes are not modelled.
  - `LoadServiceConfigFile` and `dumpConfigFile` enter as the loaded table and their error values.
- Process execution is not modelled:
  - `ExecCmd`, `ExecCmdSimple`, `ExecComplexCmd`, `TestOCConnection`, `TestSshConnection` and `GetConfigFromRemote`;
  - `GetConfigFromPod`, `GetConfigFromPodman`, `GetOCConfigMap` and `GenerateOpenShiftConfig`;
  - `GetPodmanIds`, `GetPodmanId`, `GetPodId` and the `Pull*` functions of `fetch.go`.

  Command outcomes are inputs: the output of `stat` or `oc`, and an `exec` function from command line to outcome. The pull functions are represented by the `Pull` routing they receive.
- `FetchConfigFromEnv` and `SyncConfigDir` only sequence process execution (`rsync` per host from `GetListHosts`), so they are left out.
- `path.Dir` in `getDir` is a function parameter `dir`.
- `LoadServiceConfig` (panics on a read error), `CompareIniConfig` (a call into `CompareIni`) and `LoadOSDiffConfig` are not part of this model.
- CollectCfg.ShortIdPanic: the panic message for `ID[:12]` leaves out the actual length that Go reports.
- Edpm.DiffEdpmCrdFromFile: `snakeToCamel`, `getNestedFieldValue` and `ConvertToString` are folded into one parameter `field` from the mapped snake-case name to the stringified EDPM value. The configuration mapping is an input, and the printing by `godiff.PrintReport` is not modelled.
- CollectCfg.Fetcher.SetTripleODataEnv: a decode error of the podman listing is ignored, as in the code, so the merge is empty. Inserting into a nil `Services` map, which would panic in Go, is modelled as inserting into an empty map.
- Edpm.LoadOpenStackDataPlaneNodeSetConfig: `cleanIniSections` (lower case), called at `pkg/servicecfg/edpm.go:147`, is not part of this model. `GodiffClean.CleanIniSections` stands in for it; the builder it receives never has text written to it, so the argument is always empty.
- GodiffCompare.CompareFileNames.DiffFiles: no `Valid()` is promised afterwards. Re-cutting the report at line breaks can leave two marker lines next to each other (a file path holding a line break followed by `@@ line: `). The source makes no further comparison on the report after `DiffFiles`.
- Logging (`logrus`), `fmt.Println` output and the `verbose` switch are not modelled.
- `pkg/godiff/processing.go`, `pkg/ansible/runner.go`, `pkg/servicecfg/service.go`, `pkg/common/config.go` and `cmd/*` are not part of this model.
- Test expectations in `pkg/godiff/compare_test.go` and `pkg/common/config_test.go` use names that the package sources do not define. The model follows the sources.

## Findings

| source | as written | input that shows it | evidently intended | confidence | as-written member | corrected member |
|---|---|---|---|---|---|---|
| pkg/common/ssh_config.go:230-234 | a non-empty `UserKnownHostsFile` is written as `  StrictHostKeyChecking <file>` | a host with `UserKnownHostsFile = "/home/u/known_hosts"` gets two `StrictHostKeyChecking` lines and no `UserKnownHostsFile` line | `  UserKnownHostsFile <file>` | not executed; latent, since none of the three builders sets the field (`SshConfig.EtcHostsNoKnownHosts`, `IniHostsNoKnownHosts`, `YamlHostsNoKnownHosts`) | SshConfig.KnownHostsMislabelled (over `StanzaLinesAsWritten`) | SshConfig.KnownHostsLabelled (over `StanzaLines`, which the builders' contracts use; `ConfigFile.WriteHostConfig` writes `StanzaLinesAsWritten` and agrees with `StanzaLines` for every host without a known-hosts file) |
