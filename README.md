# corset: a verified model of the SCP statement packer

corset reads AWS Service Control Policy (SCP) documents. It collects every
statement of their `Statement` arrays. It then repacks the statements, largest
first, into at most five documents (`MaxFiles`). A statement joins a document
only while a running counter stays within the 5120-character SCP limit. The
counter adds a fixed overhead, the statement sizes and the commas between them.
The documents are then written out:
- `internal/core` writes them over or beside the inputs and removes the inputs
  outside single-file mode.
- The legacy `Processor` that `main.go` runs writes `_corset` files. It removes
  an input only for a single input run with `--delete`.

This project models that core in Dafny:

- `config.dfy` (`Config`): the constants of `internal/config/config.go`. The
  base-size constants are proved to be the skeleton documents' lengths minus
  their `[]`.
- `types.dfy` (`Types`): the records of `internal/core/types.go`.
  - The command line arrives as a `UserInput` value.
  - The file system is a map from path to bytes. `ReadFile`, `WriteFile` and
    `RemoveFile` are the three operations the core performs on it.
  - The JSON library is a `Json` value of four uninterpreted functions
    (Unmarshal, Marshal of one statement, Marshal and MarshalIndent of a
    document).
- `pack_spec.dfy` (`PackSpec`): First-Fit-Decreasing as functions.
  - `FirstFit`, `Place`, `PlaceAll`, `DropEmpty` and `FirstFitDecreasing`
    specify the packing.
  - The lemmas prove what the packing promises:
    - every statement lands in exactly one group;
    - every group's counter stays within the limit, and there are at most
      `MaxFiles` groups;
    - failure happens exactly when some statement fits in no group;
    - a statement larger than an empty document can hold always makes the
      packing fail;
    - groups keep the sorted order.
- `pack.dfy` (`Pack`): `packPolicies` and `packAllStatements` of
  `internal/core/pack.go` as imperative methods.
  - They work on arrays, with the same in-place sort, counters and loops.
  - Each is proved to compute `FirstFitDecreasing` of the order the sort
    leaves.
- `pack_scenarios.dfy` (`PackScenarios`): the concrete packings that
  `internal/core/pack_test.go` expects, derived from the specification.
- `extract.dfy` (`Extract`): `internal/core/extract.go`. Statements are taken
  file after file, in document order, each sized by the length of its minified
  JSON. An unreadable or undecodable file contributes nothing.
- `paths.dfy` (`Paths`): the pieces of `path/filepath`, `strings` and `fmt` that
  the naming code relies on.
  - `Ext`, `Base`, `TrimSuffix` and decimal formatting are modelled exactly.
  - `Join` and `Dir` are parameters.
- `outputs.dfy` (`Outputs`): `internal/core/outputs.go`, covering:
  - naming of the output files and assembly of each document;
  - writing the documents, then deleting the inputs outside single-file mode.
- `process.dfy` (`Process`): the pipeline `ProcessFiles` of
  `internal/core/process.go`.
- `policies.dfy` (`Legacy`): the `Processor` of `internal/core/policies.go`.
  This is the code path `main.go` runs.
  - It keeps its own copy of the packer, which returns nil for an empty
    result.
  - It names its outputs `<name>_corset.json` or `<name>_corsetN.json`, and
    `corsetN.json` for several inputs.
  - Its `ProcessFiles` asks for confirmation before deleting, but ignores a
    refusal.

Where the tests and the code disagree, the model follows the code:

- `internal/core/replace_test.go:23-45` expects `corset1.json` for a single
  input file that is not a directory. `generateOutputFilename` returns the
  input path itself for file 1 (outputs.go:50-55).
- The comment in `internal/core/pack_test.go:277-279` puts the two 1000s
  together in file 1. First-Fit-Decreasing puts 2000, 2000 and 1000 in file 1
  and the last 1000 in file 2 (`PackScenarios.FourStatementsTwoGroups`).

## Model

| member | source | states |
|---|---|---|
| Config.BaseSizesMatchSkeletons | internal/config/config.go:16-29 | each overhead constant is its skeleton's length minus 2, and the two characters removed are the skeleton's "[]" |
| Config.MinifiedSkeletonEmbedsVersion | internal/config/config.go:17 | the minified skeleton carries SCPVersion as its Version value |
| Config.IndentedSkeletonEmbedsVersion | internal/config/config.go:20-23 | the indented skeleton carries SCPVersion as its Version value |
| Config.Overhead | internal/config/config.go:16-29 | the overhead is the chosen skeleton's length minus its "[]": the indented skeleton when whitespace is kept, the minified one otherwise |
| Config.FileLimits | internal/config/config.go:5-11 | default file count equals the maximum (5), the limit is 5120, and both overheads lie below the limit |
| Types.WriteFile | internal/core/outputs.go:76 | after a write the path holds exactly the data and every other path is unchanged |
| Types.RemoveFile | internal/core/outputs.go:108 | after a removal the path is gone and every other path is unchanged |
| PackSpec.FirstFit | internal/core/pack.go:38-51 | the index found is the lowest from `from` on whose group has room, and no earlier group has room |
| PackSpec.Place | internal/core/pack.go:34-55 | placement fails exactly when no group has room for the statement |
| PackSpec.Initial | internal/core/pack.go:25-31 | maxFiles groups, all empty |
| PackSpec.LoadAppend | internal/core/pack.go:40-47 | the counter update (size plus a comma for a non-empty group) keeps each counter equal to `Load` of its group: overhead, sizes and commas |
| PackSpec.PlaceIsFirstFit | internal/core/pack.go:38-51 | a statement goes into the lowest-index group with room at that moment |
| PackSpec.PlaceAllGrows | internal/core/pack.go:34-56 | placing never removes, reorders or adds groups: each group only grows at its end |
| PackSpec.FlattenAddTo | internal/core/pack.go:46 | appending to one group adds exactly that statement to the items of all groups |
| PackSpec.FlattenDropEmpty | internal/core/pack.go:58-64 | filtering out empty groups loses no statement |
| PackSpec.PlaceKeepsItems | internal/core/pack.go:38-51 | one placement adds exactly the placed statement |
| PackSpec.PlaceAllKeepsItems | internal/core/pack.go:34-56 | the groups end up holding the starting items plus exactly the placed statements, as multisets |
| PackSpec.Completeness | internal/core/pack.go:19-72 | on success every input statement is in exactly one group, with none lost or duplicated |
| PackSpec.PlaceAllWithinLimit | internal/core/pack.go:45 | placement keeps every group's counter within MaxPolicySize |
| PackSpec.DropEmptyKeeps | internal/core/pack.go:58-64 | the filter returns only non-empty groups that were present, and never more of them |
| PackSpec.Capacity | internal/core/pack.go:19-72 | on success each group's counter (overhead + sizes + commas) is at most 5120 |
| PackSpec.GroupBound | internal/core/pack.go:19-72 | on success at most maxFiles groups come back, none of them empty |
| PackSpec.DropEmptyConcat | internal/core/pack.go:58-64 | the filter works group by group, so relative order is kept |
| PackSpec.DropEmptyKeepsAll | internal/core/pack.go:58-64 | with no empty group the filter returns every group in its order |
| PackSpec.DropEmptyKeepsFirst | internal/core/pack.go:58-64 | a non-empty first group stays first |
| PackSpec.OversizedFails | internal/core/pack.go:53-55 | a statement too large for an empty group makes placement fail, wherever it sits |
| PackSpec.Oversized | internal/core/pack.go:53-55 | such a statement in the sorted input makes the packing return nil |
| PackSpec.OversizedInAnyOrder | internal/core/pack.go:19-55 | a statement too large for an empty document makes the packing fail for every permutation of the input |
| PackSpec.PlaceAllAppend | internal/core/pack.go:34-56 | placing a + b is placing a, then b into the result, and a failure in a is final |
| PackSpec.FailsIffStuck | internal/core/pack.go:34-56 | placement fails exactly when some statement finds no room among the groups its predecessors built |
| PackSpec.FailureIffNoFit | internal/core/pack.go:19-72 | nil comes back exactly when some statement, in sorted order, fits in none of the maxFiles groups |
| PackSpec.DropEmptyInitial | internal/core/pack.go:58-69 | filtering maxFiles empty groups leaves none |
| PackSpec.EmptyInput | internal/core/pack.go:66-69 | empty input gives an empty, non-nil packing |
| PackSpec.AboveStep | internal/core/pack.go:46 | appending the next (no larger) sorted statement keeps every group non-increasing and above the rest |
| PackSpec.PlaceAllKeepsOrder | internal/core/pack.go:34-56 | with sorted input every group stays in non-increasing size order |
| PackSpec.SortedGroups | internal/core/pack.go:19-72 | groups are non-increasing, and the first group opens with a largest statement |
| PackScenarios.DropTrailingEmpty | internal/core/pack.go:58-64 | non-empty groups followed by empty ones filter down to the non-empty groups |
| PackScenarios.ThreeStatementsTwoGroups | internal/core/pack_test.go:45-57 | sizes 3000, 3000, 2000 at overhead 37 give two groups: [3000, 2000] and [3000] |
| PackScenarios.NearLimitThreeGroups | internal/core/pack_test.go:143-153 | sizes 5000, 5000, 100 at overhead 50 with three files give three singleton groups |
| PackScenarios.ThreeShareFirstGroup | internal/core/pack_test.go:258-279 | sizes 2000, 2000, 1000 at overhead 100 share the first group (5102 characters) |
| PackScenarios.FourStatementsTwoGroups | internal/core/pack_test.go:258-305 | sizes 2000, 2000, 1000, 1000 at overhead 100 give [2000, 2000, 1000] and [1000] |
| PackScenarios.TooLargeStatement | internal/core/pack_test.go:133-141 | a 6000-character statement at overhead 50 gives nil for any file count |
| Pack.SwapAdjacent | internal/core/pack.go:21-23 | the exchange of two neighbouring statements keeps the multiset |
| Pack.SinkItem | internal/core/pack.go:21-23 | inserting one statement extends the sorted prefix and keeps the multiset |
| Pack.SortBySizeDesc | internal/core/pack.go:21-23 | the array ends in non-increasing size order, as a permutation of what it held |
| Pack.PlaceStatement | internal/core/pack.go:35-55 | the inner loop appends to exactly the group `Place` chooses, keeps the counters equal to the group loads, and reports failure exactly when `Place` fails, leaving groups and counters untouched |
| Pack.NonEmptyFiles | internal/core/pack.go:58-64 | the final loop returns exactly `DropEmpty` of the groups |
| Pack.NewFiles | internal/core/pack.go:25-31 | maxFiles empty groups whose counters start at the overhead |
| Pack.PackPolicies | internal/core/pack.go:19-72 | sorts the caller's slice in place into a non-increasing permutation and returns `FirstFitDecreasing` of that order (nil on failure, empty non-nil for no input) |
| Pack.PackAllStatements | internal/core/pack.go:10-16 | as PackPolicies, with overhead `Config.Overhead`: the skeleton's length minus its "[]", indented with Whitespace, minified otherwise |
| Pack.PackAllStatementsWithinLimit | internal/core/pack.go:10-16 | corrected packAllStatements: as PackAllStatements, with the whole skeleton, brackets included, as the overhead |
| Extract.Measure | internal/core/extract.go:24-31 | one statement per entry, in order, with that entry as content and the length of its minified JSON as size |
| Extract.ExtractIndividualPolicies | internal/core/extract.go:17-34 | returns exactly the file's statements: none for an unreadable file or invalid JSON, `Measure` of its entries otherwise |
| Extract.ExtractAllStatements | internal/core/extract.go:8-15 | returns the files' statements concatenated file after file |
| Extract.UnreadableOrInvalidContributesNothing | internal/core/extract.go:18-21 | a missing file or invalid JSON contributes no statement, and no error is raised |
| Extract.OneStatementPerEntry | internal/core/extract.go:20-31 | a decoded document gives exactly one sized statement per Statement entry, in order |
| Extract.AllStatementsLength | internal/core/extract.go:8-15 | the concatenation has as many statements as all files have entries |
| Extract.AllStatementsPrefix | internal/core/extract.go:8-15 | the statements of the first k files open the concatenation |
| Extract.AllStatementsOrder | internal/core/extract.go:8-15 | a file's statements sit, in order, right after those of the files before it |
| Extract.MeasurePositive | internal/core/extract.go:24-31 | entries with non-empty encodings give positive sizes |
| Extract.MeasureEncoded | internal/core/extract.go:24-31 | every measured statement's size is the length of its own content's encoding |
| Extract.SizesAreEncodedLengths | internal/core/extract.go:8-34 | every extracted statement's size is the length of the minified encoding of its content |
| Extract.SizesArePositive | internal/core/extract.go:8-34 | every extracted statement has positive size when no encoding is empty |
| Paths.Ext | internal/core/outputs.go:57-58 | the extension is a suffix of the path, either "" or a dot followed by no dot or slash; "" means every dot is followed by a slash |
| Paths.ExtOfAppended | internal/core/outputs.go:57-59 | appending an extension to any stem makes it the path's extension |
| Paths.NoExtOfAppended | internal/core/outputs.go:57-59 | appending text without dots or slashes to an extensionless path keeps it extensionless |
| Paths.TrimTrailingSlashes | internal/core/outputs.go:63 | removes exactly the trailing slashes |
| Paths.LastElement | internal/core/outputs.go:63 | the slash-free suffix that follows the last slash |
| Paths.Base | internal/core/outputs.go:63 | the base name is never empty and is "/" or contains no slash |
| Paths.TrimSuffix | internal/core/policies.go:173 | removes the suffix exactly when it is present, and otherwise returns the input |
| Paths.DigitChar | internal/core/outputs.go:59 | a decimal digit character |
| Paths.NatDigits | internal/core/outputs.go:59 | a non-empty string of digits without a leading zero |
| Paths.Decimal | internal/core/outputs.go:59 | a non-empty string with no dot or slash |
| Paths.NatDigitsRoundTrip | internal/core/outputs.go:59 | reading back the digits of n gives n |
| Paths.DecimalRoundTrip | internal/core/outputs.go:59 | reading back the %d formatting of any integer gives it back |
| Paths.DecimalInjective | internal/core/outputs.go:59 | different numbers format differently |
| Outputs.Contents | internal/core/outputs.go:81-88 | the document's statement array holds each group member's content, in order |
| Outputs.Removed | internal/core/outputs.go:106-110 | every input is gone and every other path is unchanged |
| Outputs.Reports | internal/core/outputs.go:36-46 | entry i reports the name of file i+1, the length of group i's document and group i's statement count |
| Outputs.WriteJSON | internal/core/outputs.go:80-96 | the bytes are the SCPVersion document of the group's contents, indented exactly when Whitespace is set |
| Outputs.WriteOutputFile | internal/core/outputs.go:74-78 | writes that document under the name and returns its length |
| Outputs.OrchestrateOutputFiles | internal/core/outputs.go:35-47 | writes group i as file number i+1, in order, and returns one report per group |
| Outputs.ReplaceInputFiles | internal/core/outputs.go:106-110 | removes every input file and nothing else |
| Outputs.BuildOutput | internal/core/outputs.go:13-33 | output goes to the target directory or next to the first input; inputs are removed except in single-file mode |
| Outputs.InfixDistinct | internal/core/outputs.go:59 | different infixes between the same affixes give different names |
| Outputs.NumberedDistinct | internal/core/outputs.go:59 | different numbers give different "stem-N.ext" names |
| Outputs.SingleFileNaming | internal/core/outputs.go:50-59 | for a single input, file 1 is the input itself; file N keeps the extension and carries "-N" before it |
| Outputs.DirectoryNaming | internal/core/outputs.go:61-68 | in directory mode, file N is the target's base name, with "-N" for N > 1 and ".json", joined to the output directory |
| Outputs.FallbackNaming | internal/core/outputs.go:70-71 | several non-directory inputs give corsetN.json in the output directory |
| Outputs.OutputNamesDistinct | internal/core/outputs.go:49-72 | different file numbers never give the same name (given that Join separates leaf names) |
| Outputs.WrittenFrame | internal/core/outputs.go:35-47 | writing never removes a file and leaves every non-output path alone |
| Outputs.WrittenHolds | internal/core/outputs.go:35-47 | with distinct names, output file n holds exactly group n-1's document |
| Outputs.SingleFileKeepsFiles | internal/core/outputs.go:23-26 | in single-file mode, no file is removed and output file n holds group n-1's document |
| Outputs.OtherModesRemoveInputs | internal/core/outputs.go:27-31 | otherwise every input is gone afterwards, even one just written to, and every other path is as after the writes |
| Outputs.EncodedSumOfContents | internal/core/outputs.go:86-88 | for statements sized by their encodings, the encodings of a group's contents add up to its size sum |
| Outputs.MinifiedDocumentLength | internal/core/outputs.go:94 | given json.Marshal's layout, a minified document is exactly 2 characters longer than its group's counter |
| Outputs.MinifiedOverflow | internal/config/config.go:25-26 | as written: a statement with a 5083-character encoding passes the placement test (37 + 5083 = 5120) and is packed alone, yet its document is 5122 characters, over the limit |
| Outputs.FullOverheadDocumentsFit | internal/core/pack.go:45 | corrected: with the whole skeleton as overhead, every group of a successful packing is written as a minified document of at most 5120 characters |
| Process.ExtractAndPack | internal/core/process.go:9-15 | extracts all statements, sorts them into a non-increasing permutation, and packs that order |
| Process.ProcessFiles | internal/core/process.go:8-17 | no statements: nothing changes; otherwise the disk is buildOutput's for the packing; an oversized statement outside single-file mode removes every input while writing nothing |
| Process.ProcessFilesChecked | internal/core/process.go:8-17 | corrected ProcessFiles: it packs with the whole skeleton as overhead, so every minified document it writes is within 5120 characters; an infeasible packing leaves the disk unchanged |
| Legacy.Strip | internal/core/policies.go:197-205 | drops the original filename of each statement, keeping content, size and order |
| Legacy.Tag | internal/core/policies.go:81-90 | one statement per entry, sized by its minified JSON and tagged with its file |
| Legacy.LegacyEmptyIsFailure | internal/core/policies.go:143-151 | for empty input the legacy packer returns nil, where pack.go returns an empty non-nil slice |
| Legacy.LegacyAgreesOnNonEmpty | internal/core/policies.go:104-152 | on non-empty input both packers return the same result |
| Legacy.LegacyFailure | internal/core/policies.go:104-152 | the legacy packer returns nil exactly for empty input or an infeasible packing |
| Legacy.LegacyPackingSound | internal/core/policies.go:104-152 | on success, between 1 and maxFiles non-empty groups within the limit hold every statement exactly once |
| Legacy.StripTag | internal/core/policies.go:75-93 | without the filenames, the legacy per-file statements are those of extract.go |
| Legacy.StripAppend | internal/core/policies.go:48-51 | stripping distributes over concatenation |
| Legacy.LegacyExtractionAgrees | internal/core/policies.go:45-51 | without the filenames, the legacy collection equals extractAllStatements |
| Legacy.LegacyOrigins | internal/core/policies.go:45-51 | every collected statement names one of the input files |
| Legacy.SingleInputAvoidsOriginal | internal/core/policies.go:170-190 | no output name equals the original file |
| Legacy.SingleInputNamesDistinct | internal/core/policies.go:183-189 | with several groups, the numbered names differ and end in ".json" |
| Legacy.MultipleMatchesFallback | internal/core/policies.go:157-158 | for several inputs the legacy names are those of outputs.go's fallback |
| Legacy.LegacyWrittenFrame | internal/core/policies.go:154-195 | writing never removes a file and leaves every non-output path alone |
| Legacy.LegacyWrittenHolds | internal/core/policies.go:154-195 | with distinct names, output file n holds exactly group n-1's document |
| Legacy.SingleInputOutcome | internal/core/policies.go:170-195 | for one input, file n holds group n-1, the original is never overwritten, and it is removed exactly when Delete is set |
| Legacy.Processor.constructor | internal/core/policies.go:30-32 | the processor keeps the user input it was given |
| Legacy.Processor.CalculateBaseSize | internal/core/policies.go:96-101 | the legacy overhead, computed from the skeleton lengths, equals `Config.Overhead` (46 with Whitespace, 37 without) |
| Legacy.Processor.ExtractIndividualPolicies | internal/core/policies.go:75-93 | the file's entries, sized and tagged with the filename; none for an unreadable file or invalid JSON |
| Legacy.Processor.CollectStatements | internal/core/policies.go:45-51 | all files' tagged statements, file after file |
| Legacy.Processor.PackPolicies | internal/core/policies.go:104-152 | sorts in place into a non-increasing permutation and returns the legacy packing of that order |
| Legacy.Processor.WriteOutputFile | internal/core/policies.go:197-218 | writes the "2012-10-17" document of the stripped statements and returns its length |
| Legacy.Processor.GenerateMultipleFiles | internal/core/policies.go:154-168 | writes group i to corset(i+1).json in the output directory and deletes nothing |
| Legacy.Processor.GenerateSingleFile | internal/core/policies.go:170-195 | one group goes to <name>_corset.json and several to <name>_corsetN.json; with Delete the original is removed in every case |
| Legacy.Processor.ProcessFiles | internal/core/policies.go:34-73 | no statements: nothing changes; otherwise the disk is the output for the packing; a refused prompt still deletes a single input; a failed packing with Delete removes the input while writing nothing |
| Legacy.Processor.ProcessFilesChecked | internal/core/policies.go:34-73 | corrected ProcessFiles: a refused prompt and a failed packing leave the disk unchanged, and the whole skeleton is charged as overhead |

## Left out

- The JSON library (Unmarshal, Marshal, MarshalIndent) is left uninterpreted. The model does not prove that the indented encoding is what `MarshalIndent(policy, "", "  ")` produces, nor that a statement's minified length counts its characters.
- How long a document json.Marshal writes is stated as a law, `Outputs.MinifiedLayout`, and is not derived from an encoder. The law says the document is the minified skeleton, with the statements' own encodings, comma-separated, between its brackets. The document lemmas take it as a requires clause.
- No bound on the length of indented documents is proved. MarshalIndent re-indents every statement it writes, and neither copy of the packer counts that.
- `filepath.Join`, `filepath.Dir` and the path cleaning they do are parameters. Naming lemmas that need Join to separate different leaf names say so in a requires clause.
- `Paths.Ext` and `Paths.Base` follow the slash-separated (Unix) rules. Windows volume names and backslashes are not modelled.
- Console output is not modelled. This covers `reportResults` (outputs.go:98-104), the prints in policies.go and the "No policy statements found" message.
- The answer at the confirmation prompt (policies.go:36-43) is a parameter of `Legacy.Processor.ProcessFiles`. Reading it from standard input is not modelled.
- Errors that os.WriteFile and os.Remove return are ignored by the source. The model's writes and removals always succeed.
- `Pack.SortBySizeDesc` promises only a non-increasing permutation. sort.Slice is not stable and its exact order of equal sizes is not modelled. The ghost `sorted` out-parameters of the process methods give the order that results.
- `Pack.PackPolicies`, `Pack.PackAllStatements` and `Legacy.Processor.PackPolicies` require MaxFiles ≥ 0, because Go's make panics on a negative length.
- internal/core/files.go (finding JSON files in a directory), internal/inputs/inputs.go (flag parsing and the directory check) and main.go are not part of this model. Their results arrive as the `files` sequence and the `UserInput` value.
- internal/core/constants.go and internal/core/test_common.go are not part of this model.
- `Extract.DocumentEntries` treats an unreadable file as contributing nothing. It does not model Unmarshal of the empty byte slice that ReadFile returns with its error.
- Integers are unbounded. Go's int here is 64 bits, and no size in practice comes near that bound.

## Findings

| source | as written | input that shows it | evidently intended | confidence | as-written member | corrected member |
|---|---|---|---|---|---|---|
| internal/core/process.go:15-16 | the nil packing is passed to buildOutput unchecked, and outside single-file mode replaceInputFiles then deletes every input with nothing written | a directory holding one file with a 6000-character statement | an infeasible packing is reported and every file is left as it was | not executed | Process.ProcessFiles | Process.ProcessFilesChecked |
| internal/core/policies.go:62-71 | generateSingleFile receives the nil packing, takes its "several files" branch with zero groups, and with Delete set removes the original | one input file with a 6000-character statement, run with --delete | a failed packing leaves the original in place | not executed | Legacy.Processor.ProcessFiles | Legacy.Processor.ProcessFilesChecked |
| internal/config/config.go:25-26 | the overhead is the skeleton's length minus its "[]", but json.Marshal (outputs.go:94) still writes the brackets, so a minified document is 2 characters longer than the counter that pack.go:45 and policies.go:130 bound by 5120 | one statement whose minified encoding is 5083 characters: 37 + 5083 = 5120 passes the test, and the document written is 5122 characters | the counter counts the brackets, so that no document exceeds the 5120-character SCP limit | not executed | Outputs.MinifiedOverflow | Outputs.FullOverheadDocumentsFit |
| internal/core/policies.go:36-43 | a refusal at the prompt prints "Operation cancelled." and processing continues | one input file, run with --delete, answering "n" | the refusal stops the run before any file changes | not executed | Legacy.Processor.ProcessFiles | Legacy.Processor.ProcessFilesChecked |
