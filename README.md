# Snapshot testing and review: a Dafny model

This project models `rs_verify_tests`, a snapshot-testing crate and its review tool.

- **The library.** A test serialises its result to pretty-printed JSON. It then compares the result with the test's
  accepted baseline `<dir>/<name>.accepted.json`.
  - The library calls this `assert_snapshot` in `verify-tests`, and `verify` in the root crate.
  - The first run creates the baseline empty.
  - A mismatch writes the trimmed result to `<dir>/<name>.received.json` and then panics.
- **`verify-review`.** This binary reconciles the two kinds of file. It has three modes:
  - It finds every `*.received.json` and pairs it with its accepted sibling. It hashes both trimmed texts.
  - The default mode deletes received files that already match. It then lets the user pick one pending test at a time and run
    `vimdiff` on the pair. A test is marked reviewed, and its received file deleted, when:
    - the accepted file now matches what was received; or
    - the user confirms the change.
  - `--clean` deletes every received file.
  - `--accept` moves every received file over its accepted file.

How the model is organised:

- **The filesystem** is a class (`Fs.FileSystem`) holding a map from paths to texts and a set of directories. Each
  `std::fs` call the crates make is a method, and each method is proved against a pure function on a `Disk` value.
  That function returns `Ok(disk)` or `Fault(disk)`, where `Fault` stands for the failed call whose `expect` panics.
- **The decision logic** is pure functions and lemmas:
  - snapshot comparison is in `Snapshot`;
  - discovery, hashing, classification, the session state machine and the bulk modes are in `Review`.
- **Each Rust function** is an imperative method, and its `ensures` ties it to those functions:
  - `VerifyTestsLib` and `RootLib` cover the two libraries;
  - `ReviewTool` covers the binary.
- **Inputs the code cannot see.** The model does not implement these; they are parameters instead:
  - the JSON serialisation (a string);
  - `sha256::digest` (a total function `digest`);
  - the editor's effect (`EditorRun`);
  - the user's answers to the picker and the confirmation prompts (a sequence of `Round`s).

Behaviours of the code that the model keeps as written:

- **The received file holds the trimmed result.** The serialisation is trimmed before it is written as the received
  file (verify-tests/src/lib.rs:37-38, 54).
- **A mismatch does not return `false`.** It panics through `assert!` after the received file is written
  (verify-tests/src/lib.rs:56). `Returned(false)` is therefore unreachable, which `Snapshot.Check` states.
- **A received file without an accepted sibling is not skipped.** It makes discovery panic, because the sibling is
  hashed (read with `expect`) before `accepted.exists()` is tested (verify-review/src/main.rs:153-160). The
  `exists()` test therefore always holds when it is reached (`Review.OrphanAbortsDiscovery`).
- **The base name is not just the name with its suffix stripped.** `replace` removes every occurrence of
  `.received.json` (verify-review/src/main.rs:152), so `t.received.json.received.json` pairs with `t.accepted.json`
  (`Review.BaseNameRemovesEveryMarker`). One base name can therefore have two received files
  (`Review.MarkerTwiceSharesSibling`). `--accept` then leaves the accepted file holding the text of the later of them
  (`Review.AcceptAllInstallsReceived`, `Review.AutoAcceptInstallsEveryReceived`).

## Model

| member | source | states |
|---|---|---|
| Text.TrimStartSpec | verify-tests/src/lib.rs:37-38 | trimming the start yields a suffix of the input, everything removed is Unicode white space, and the result is empty or starts with a non-white-space character |
| Text.TrimEndSpec | verify-tests/src/lib.rs:37-38 | trimming the end yields a prefix of the input, everything removed is white space, and the result is empty or ends with a non-white-space character |
| Text.TrimSpec | verify-tests/src/lib.rs:48-49 | the trimmed text has no white space at either end and is no longer than the input |
| Text.WhitespacePrefixGrows | verify-tests/src/lib.rs:37-38 | a white-space character followed by a white-space run is a white-space run, the step by which trimming the start drops its prefix |
| Text.TrimStartSkips | verify-tests/src/lib.rs:48-49 | a white-space prefix is skipped by trimming the start |
| Text.TrimStartAppend | verify-tests/src/lib.rs:48-49 | trimming the start of `s + b` trims `s` and keeps `b` when `s` is not all white space |
| Text.TrimEndSkips | verify-tests/src/lib.rs:48-49 | a white-space suffix is skipped by trimming the end |
| Text.TrimIgnoresSurroundingWhitespace | verify-tests/src/lib.rs:48-49 | white space added at either end of a text does not change its trimmed form, so it never affects a comparison |
| Text.TrimmedIsFixed | verify-tests/src/lib.rs:37-38 | a text with no white space at either end is its own trim |
| Text.TrimIdempotent | verify-tests/src/lib.rs:37-38 | trimming twice is trimming once |
| Text.RemoveAll | verify-review/src/main.rs:152 | removing every occurrence of a marker never lengthens a name |
| Text.NoOccurrenceInTail | verify-review/src/main.rs:152 | when the marker does not start inside `b`, dropping the first character of `b + marker + c` leaves a text in which it still does not start before the marker |
| Text.RemoveAllAfterPlainPrefix | verify-review/src/main.rs:152 | when the marker does not start inside `b`, removing every marker from `b + marker + c` keeps `b` and continues in `c` |
| Fs.FileSystem.Exists | verify-tests/src/lib.rs:41 | reports whether a file or a directory is at the path |
| Fs.FileSystem.DirExists | verify-tests/src/lib.rs:17 | reports whether anything is at the directory's path |
| Fs.FileSystem.ReadToString | verify-tests/src/lib.rs:45 | yields the file's text, or fails when no file is at the path |
| Fs.FileSystem.Write | verify-tests/src/lib.rs:42 | creates or truncates the file when its parent directory exists and no directory is at the path, and otherwise fails and changes nothing |
| Fs.FileSystem.RemoveFile | verify-review/src/main.rs:56 | removes exactly that file, or fails and changes nothing when there is none |
| Fs.FileSystem.Rename | verify-review/src/main.rs:66 | moves the text to the target (replacing a file there) and removes the source, or fails and changes nothing |
| Fs.FileSystem.CreateDirAll | verify-tests/src/lib.rs:18 | adds the directory and all its ancestors, or fails and changes nothing when a file stands at one of those paths |
| Fs.FileSystem.Edit | verify-review/src/main.rs:196-200 | the editor leaves the accepted path holding its new text, or removes it |
| Snapshot.SuffixedNamesDiffer | verify-tests/src/lib.rs:40-53 | an accepted and a received file name never coincide |
| Snapshot.Compare | verify-tests/src/lib.rs:49-57 | true exactly when the trimmed texts are equal; otherwise the received file is written with the trimmed result and the call panics, or the write fails |
| Snapshot.Check | verify-tests/src/lib.rs:37-57 | `false` is never returned; `true` exactly when the baseline is available and the trimmed texts agree; a mismatch panic exactly when they differ and the received file can be written |
| Snapshot.CheckEffect | verify-tests/src/lib.rs:40-57 | the disk each verdict leaves: a match leaves the baseline in place; a mismatch also writes the trimmed result as the received file; a failed I/O leaves the disk unchanged or only an empty accepted file created; an existing accepted file is never changed |
| Snapshot.CheckFrame | verify-tests/src/lib.rs:37-57 | no directory changes and no file outside the test's accepted and received files changes |
| Snapshot.Create | verify-tests/src/lib.rs:14-24 | files are untouched; the call fails exactly when nothing is at the path and a file blocks one of its prefixes; on success the directory and all its ancestors exist, and the directories are the old ones plus exactly the path's prefixes, or unchanged when something was already at the path |
| Snapshot.FirstRunMismatches | verify-tests/src/lib.rs:40-57 | the first run with a non-blank result panics and leaves an empty accepted file and the trimmed result as the received file |
| Snapshot.CheckIdempotent | verify-tests/src/lib.rs:37-57 | after a match, the same call matches again and changes nothing |
| VerifyTestsLib.VerifyTest.constructor | verify-tests/src/lib.rs:21-23 | the store keeps the directory it was given |
| VerifyTestsLib.VerifyTest.AssertSnapshot | verify-tests/src/lib.rs:33-58 | the verdict and the new filesystem are those of `Snapshot.Check` on the old filesystem |
| VerifyTestsLib.New | verify-tests/src/lib.rs:14-24 | the filesystem changes as `Snapshot.Create` says, and a store for the path is returned exactly when that succeeds |
| RootLib.VerifyTest.constructor | src/lib.rs:21-23 | the store keeps the directory it was given |
| RootLib.VerifyTest.Verify | src/lib.rs:33-62 | the verdict and the new filesystem are those of `Snapshot.Check` on the old filesystem |
| RootLib.New | src/lib.rs:14-24 | the filesystem changes as `Snapshot.Create` says, and a store for the path is returned exactly when that succeeds |
| Review.HashIgnoresSurroundingWhitespace | verify-review/src/main.rs:178-183 | two files whose texts differ only in white space at either end hash equal |
| Review.BaseNameOfPlainName | verify-review/src/main.rs:152 | `<b>.received.json` has base name `b` when the marker does not occur earlier in the name |
| Review.BaseNameRemovesEveryMarker | verify-review/src/main.rs:152 | `t.received.json.received.json` has base name `t`: every marker is removed |
| Review.MarkerTwiceSharesSibling | verify-review/src/main.rs:152-155 | `t.received.json` and `t.received.json.received.json` pair with the same accepted file |
| Review.RecordForDescribes | verify-review/src/main.rs:147-171 | the closure yields a record exactly when the received file and its sibling can be read, and then the record names that received file, its sibling, the hashes of both trimmed texts and whether they are equal |
| Review.AllSome | verify-review/src/main.rs:147-174 | collecting succeeds exactly when every element is present, and then keeps every element in order |
| Review.Discover | verify-review/src/main.rs:145-175 | discovery succeeds exactly when the closure succeeds on every path, and then yields one record per path, in order |
| Review.DiscoverAborts | verify-review/src/main.rs:145-175 | one path the closure panics on makes discovery panic |
| Review.DiscoverCollects | verify-review/src/main.rs:145-175 | when the closure yields a record for every path, discovery is exactly those records |
| Review.DiscoverSnoc | verify-review/src/main.rs:145-175 | one more path appends its record to what discovery found, or makes discovery panic |
| Review.OrphanAbortsDiscovery | verify-review/src/main.rs:150-160 | a received file without an accepted sibling makes discovery panic rather than being skipped |
| Review.DiscoverSucceeds | verify-review/src/main.rs:145-175 | discovery succeeds exactly when every received file and its accepted sibling can be read |
| Review.DiscoveryDescribesEveryEntry | verify-review/src/main.rs:145-175 | discovery succeeds exactly when every received file and its sibling can be read, and each record describes its pair |
| Review.DiscoveredPairs | verify-review/src/main.rs:150-171 | each record found pairs its globbed path with that path's accepted sibling, and both are on disk |
| Review.DiscoveredReceivedPaths | verify-review/src/main.rs:145-175 | the received files of the records found are exactly the globbed paths |
| Review.ReceivedIsNeverAccepted | verify-review/src/main.rs:146-155 | no path is both a received and an accepted file |
| Review.DiscoveredAreReviewable | verify-review/src/main.rs:145-175 | the records found name existing files in one directory, with distinct received files |
| Review.Classify | verify-review/src/main.rs:204-210 | `Match` exactly when the accepted file now hashes as the received one did; `NoMatch` exactly when it differs from both the received and its own old hash; `NoChanges` exactly when it is unchanged but differs from the received |
| Review.MatchTakesPrecedence | verify-review/src/main.rs:204-205 | when both files were already equal, leaving them unchanged is a `Match` |
| Review.EditedAgreesOutside | verify-review/src/main.rs:196-200 | the editor changes no directory and no file but the accepted one, and removes it exactly when it leaves no text |
| Review.ReviewOnce | verify-review/src/main.rs:192-211 | only the accepted file can change and no directory changes; the review classifies exactly when both files can be read, the editor exits and the accepted file is still there; an editor error changes nothing; a panic while hashing the two files changes nothing; once the editor exits the disk is exactly what the editor left; `Match` exactly when the new accepted file hashes as the received file did, `NoChanges` exactly when it differs from that but hashes as the old accepted file did |
| Review.Selected | verify-review/src/main.rs:91 | the picked record is one of the pending records |
| Review.Without | verify-review/src/main.rs:104 | the pending list keeps every record except the reviewed one and gets shorter when that record was present |
| Review.WithoutKeepsOrder | verify-review/src/main.rs:104 | dropping a record from a concatenation drops it from each part, and a single record is kept exactly when it is not the one dropped, so the order of the rest is kept |
| Review.Step | verify-review/src/main.rs:90-139 | a cancelled picker stops the session; a match or a confirmed change removes the record and its received file; a declined or dismissed confirmation keeps the list and the editor's changes; an editor error stops with nothing changed; a panic stops; the pending list never grows |
| Review.Session | verify-review/src/main.rs:90-139 | the session ends with every test reviewed exactly when nothing is pending, and the pending list only loses records |
| Review.SessionUnfolds | verify-review/src/main.rs:90-139 | the session from one round on is one pass followed by the session from the next round on |
| Review.Unmatched | verify-review/src/main.rs:88 | the records kept are exactly those that did not already match |
| Review.UnmatchedKeepsOrder | verify-review/src/main.rs:88 | filtering a concatenation filters each part, and a single record is kept exactly when it did not already match, so the order of the rest is kept |
| Review.StepChanges | verify-review/src/main.rs:90-139 | one pass writes no file but an accepted one, and deletes only received or accepted files of the list |
| Review.SessionChanges | verify-review/src/main.rs:90-139 | over the whole session the same holds: no directory changes, only accepted files are rewritten, and only received or accepted files vanish |
| Review.ReviewKeepsReceived | verify-review/src/main.rs:192-211 | a review keeps every pending record's received file on disk |
| Review.StepKeepsWorklistOk | verify-review/src/main.rs:90-139 | a pass keeps every pending record's received file on disk and keeps received files distinct |
| Review.SessionResolvesExactly | verify-review/src/main.rs:90-139 | however the session ends, a record is still pending exactly when its received file is still on disk |
| Review.PreStepDeletesMatching | verify-review/src/main.rs:80-85 | the pre-step deletes exactly the received files of the already matching records |
| Review.AfterPreStep | verify-review/src/main.rs:80-88 | after the pre-step the remaining records form a sound list and only matching received files are gone |
| Review.ReviewSessionOutcome | verify-review/src/main.rs:72-139 | on a successful discovery: nothing to review exactly when no record was found; every matching received file is gone; every other record is pending exactly when its received file remains; nothing else changes but accepted files |
| Review.RemoveAllReceivedDeletesThem | verify-review/src/main.rs:52-58 | the clean loop deletes exactly the records' received files when they are distinct and present |
| Review.AcceptOne | verify-review/src/main.rs:65-66 | one pass of the accept loop moves the received text onto the accepted path, removes the received file, and keeps the disk well formed |
| Review.ReviewableSeparates | verify-review/src/main.rs:146-155 | in a list of discovered records no received file is also an accepted file |
| Review.TouchedUnfolds | verify-review/src/main.rs:61-67 | the paths the loop touches are the first record's two files and those the rest touches |
| Review.FirstTouchedOnce | verify-review/src/main.rs:61-67 | the first record's received file is touched by no later record, nor is its accepted file when no later record shares it; a record last for its accepted file stays last in the rest |
| Review.AcceptFirst | verify-review/src/main.rs:61-67 | the accept loop is its first pass followed by the loop over the rest, and after that pass the disk is well formed and the rest of the records are still reviewable with unchanged received files |
| Review.RestAfterInstall | verify-review/src/main.rs:61-67 | moving the first record's received file leaves the rest of the list sound, with every accepted file present and every received file unchanged |
| Review.AcceptAllInstallsReceived | verify-review/src/main.rs:61-68 | on discovered records the accept loop cannot fail; no received file is left, every accepted file exists and holds the received text of the last record naming it, and nothing else changes |
| Review.CleanDeletesEveryReceived | verify-review/src/main.rs:52-58 | `clean` succeeds exactly when every received file has a readable sibling, and then deletes exactly the globbed received files; otherwise it leaves the disk as it was |
| Review.AutoAcceptInstallsEveryReceived | verify-review/src/main.rs:61-68 | when every received file has a readable sibling, `auto_accept` succeeds, no received file is left, every sibling exists and holds the text of the last received file paired with it, and directories are unchanged |
| Review.DispatchModes | verify-review/src/main.rs:40-49 | `--clean` wins over `--accept` and deletes the received files or changes nothing; `--accept` alone runs `auto_accept`; neither runs the review session |
| ReviewTool.HashFileOf | verify-review/src/main.rs:178-183 | the hash of the trimmed text, or a panic when the file cannot be read |
| ReviewTool.RecordOf | verify-review/src/main.rs:147-171 | the record, or the panic, that `Review.RecordFor` describes for one globbed path |
| ReviewTool.FindReviewableTests | verify-review/src/main.rs:145-175 | the records, or the panic, that `Review.Discover` describes |
| ReviewTool.ReviewTest | verify-review/src/main.rs:192-211 | the outcome and the new filesystem are those of `Review.ReviewOnce` |
| ReviewTool.RemoveMatchingReceived | verify-review/src/main.rs:80-85 | the filesystem changes as the pre-step describes, failing where it fails |
| ReviewTool.Pass | verify-review/src/main.rs:91-133 | the filesystem and the stop or the new pending list are those of one `Review.Step` |
| ReviewTool.ReviewLoop | verify-review/src/main.rs:90-139 | the end of the loop and the new filesystem are those of `Review.Session` |
| ReviewTool.ReadAndReviewTests | verify-review/src/main.rs:72-139 | the end of the session and the new filesystem are those of `Review.ReadAndReview` |
| ReviewTool.RemoveEveryReceived | verify-review/src/main.rs:54-57 | the filesystem changes as `Review.RemoveAllReceived` describes, failing where it fails |
| ReviewTool.Clean | verify-review/src/main.rs:52-58 | the filesystem changes as `Review.CleanSpec` describes, and success is reported exactly when it succeeds |
| ReviewTool.AcceptEvery | verify-review/src/main.rs:63-67 | the filesystem changes as `Review.AcceptAll` describes, failing where it fails |
| ReviewTool.AutoAccept | verify-review/src/main.rs:61-68 | the filesystem changes as `Review.AutoAcceptSpec` describes, and success is reported exactly when it succeeds |
| ReviewTool.Run | verify-review/src/main.rs:40-49 | the outcome and the new filesystem are those of `Review.Dispatch`, whose modes `Review.DispatchModes` describes |

## Left out

- Serialisation of test results with `serde_json::to_string_pretty` is a `string` parameter. Serialisation itself is not modelled.
- `sha256::digest` is a parameter `digest: string -> Hash`. No property of SHA-256 is assumed; in particular, equal hashes are not taken to mean equal texts.
- The glob `**/*.received.json` and its directory walk are not modelled. Their result is a sequence of paths, and `Review.GlobResult` states what they guarantee: distinct paths, each name ending in the marker. An unreadable glob entry is dropped by `filter_map(Result::ok)` and is not modelled.
- Running `vimdiff` is an `EditorRun`: the accepted file's text after the editor exits, or a spawn/wait error.
- Review.ReviewOnce: assumes the editor leaves the received file alone; `vimdiff` can also edit or delete it. The model then differs from the code in three ways. A record kept after a declined or dismissed confirmation is hashed again at its next review (verify-review/src/main.rs:194), so an edit to its received file can turn a later `NoChanges` into a `Match` that deletes the file without asking. A received file the editor deleted makes the later `remove_file(...).expect` panic (verify-review/src/main.rs:105, 115, 129). An edited received file stays on disk after the session.
- Review.ReviewKeepsReceived: holds only because the editor is taken to leave every received file unchanged, as under Review.ReviewOnce.
- Review.StepKeepsWorklistOk: holds only because the editor is taken to leave every received file unchanged, as under Review.ReviewOnce.
- Review.SessionChanges: holds only because the editor is taken to leave every received file unchanged, as under Review.ReviewOnce.
- Review.SessionResolvesExactly: holds only because the editor is taken to leave every received file unchanged, as under Review.ReviewOnce.
- Review.ReviewSessionOutcome: holds only because the editor is taken to leave every received file unchanged, as under Review.ReviewOnce.
- Prompt rendering and the `Display` of records are not modelled, and neither are `println!` and the `clap` parser. The command line is `Review.Cli`.
- Review.Selected: the picker's choice is an index read modulo the number of pending records. The user's input is a finite sequence of rounds. When the rounds run out, the session ends as `ScriptExhausted`, which stands for a user who goes on.
- Paths are a directory (a sequence of components) and a name. Path-string parsing, `with_file_name`, and a `fname` containing separators are not modelled.
- Non-UTF-8 content (`read_to_string` failing on bytes) is not modelled, and neither are permission errors. A read fails only when no file is at the path.
- Panics (`expect`, `assert!`) are modelled as a result (`IoPanic`, `MismatchPanic`, `Panicked`, `Fault`). Unwinding is not modelled.
