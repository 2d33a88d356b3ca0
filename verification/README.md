# ZapTrace release and evidence gates in Dafny

ZapTrace ships with a set of continuous-integration gates: they redact and bound logs, check the
hash-locked container manifests and the build provenance derived from them, decide whether a commit
may be released, write reports atomically, score benchmark submissions and compare netlists. This
project models the deterministic logic of those gates and proves what they promise, for all inputs
and over whole runs.

Files, by component:

- `Utf8`, `BoundedText`, `Redaction`: UTF-8 with the "ignore" decoder, the redacting, truncating log
  text, and what a replacement keeps.
- `Sequences`, `Wrappers`: equations between sequences, and the option and result types.
- `Text`, `Manifest`, `Requirements`, `ManifestRendering`, `PinLanguage`: the Python string operations,
  continuation folding, hash options, exact pins, the manifest parser and its rendering, and the
  language of accepted lines over spelled-out alphabets.
- `Provenance`, `BuildRules`: build provenance and image verification, over an arbitrary digest function
  and JSON encoder, and exactly when a build is refused and what its record says.
- `Versions`, `SemVer`, `CommitGraph`, `Release`: the version grammar and its mapping to Semantic
  Versioning 2.0.0, commit graphs with merge bases, and the version audit on a repository that evolves
  step by step.
- `AtomicWrite`, `Publication`: two file-system protocols in which any step may fail.
- `StableSort`, `TextOrder`, `Submissions`, `Scoring`, `Leaderboard`: the PCB-bench pipeline.
- `PinParity`: the pin, pad and net crosscheck as multiset algebra.
- `Polling`: capped exponential backoff on a virtual clock.
- `Glb`: the binary frame of section 4.4 of the glTF 2.0 specification.
- `ScanPolicy`, `Coverage`: two policies with dated exceptions.

`dafny verify dfyconfig.toml` checks the whole project.

Lemmas named `...Exactly` state what a function of the model means without that function: over literal
alphabets and byte tables, chains, positions and counts, or the first and last element with a property.
The results about runs and round trips rest on functions that are pinned down in this way.

## Where a property needs a condition

Some natural statements are false of the code. Each is proved as an equivalence with the condition
under which the code meets it:

- The error text fits its limit if and only if the limit exceeds the 28 characters of its marker; at
  or below that, Python's slice keeps too much (`BoundedText.ErrorKeepsLongestSuffix`). The log stays
  within its limit and trailer if and only if the limit is not negative.
- A secret is hidden in every log, whatever the other secrets, if and only if neither the trailer's word
  nor the part of `[REDACTED]` that fits the limit contains it: all of it, except for limits from 0 to 9
  (`BoundedText.LogSafeExactly`). The error text can show all of it at every limit
  (`BoundedText.ErrorSafeExactly`).
- Rendering and parsing a manifest is a round trip if and only if no marker word is itself a hash
  option; `ManifestRendering.SpoiledMarker` is a valid requirement for which it is not.
- An image report on recorded provenance and readable inputs raises an attribute error if and only if
  an optional manifest is presented that was recorded as absent (`Provenance.RaisesExactly`;
  `Provenance.UnrecordedManifestRaises` is such an input).
- The all-zero commit verifies if and only if the record itself claims it, sealed and with status
  "pass"; no build writes such a record, but one can be written down (`Provenance.UnboundPassesExactly`,
  `Provenance.SealedClaimPasses`).
- A mean above the common minimum score needs a grader that passed, or a minimum that is not positive
  (`Scoring.MeanReaches`).
- Equal canonical forms fix the failed count of a task if and only if no grader is judged by an error
  limit and no minimum score separates two scores that round alike
  (`Scoring.CanonicalFixesFailedExactly`): the form holds neither the error counts nor the digits that
  rounding drops. `Scoring.CanonicalLeavesFailuresOpen` is a pair that differs.
- The rows of a leaderboard are independent of the order of the reports if and only if the best reports
  of each key are one report and no two rows compare equal (`Leaderboard.OrderIrrelevantExactly`).
- The closed form of the backoff holds if and only if the first sleep is not above the cap
  (`Polling.SleepClosedForm`).
- A review tree that was there before the KiCad oracle ran is gone afterwards if and only if both paths
  resolve and all its files can be removed, although the exit status is 1 (`Publication.Workspace.Run`).
- The coverage audit raises, instead of failing, if and only if some module has numbers that no result
  row may hold, such as a percentage above 100 (`Coverage.AuditCriticalCoverage`).

## Model

| member | source | states |
|---|---|---|
| Utf8.DecodeIgnoreInvertsEncode | scripts/ci_compose_smoke.py:50-54 | Decoding whole encoded text with "ignore" gives the text back |
| Utf8.CutPrefix | scripts/ci_compose_smoke.py:53 | Cutting bytes at any point and decoding with "ignore" keeps the longest whole-character prefix that fits |
| Utf8.CutSuffix | scripts/ci_compose_smoke.py:67 | Dropping any number of leading bytes and decoding keeps the longest whole-character suffix that fits |
| Utf8.EncodeExactly | scripts/ci_compose_smoke.py:50 | The bytes of every character are those of the table in section 3 of RFC 3629 |
| Utf8.DecodeStrictExactly | scripts/ci_container_reproducibility.py:108-112 | Strict decoding gives a text if and only if the bytes are its encoding |
| BoundedText.BoundedLog | scripts/ci_compose_smoke.py:44-54 | The loop and the cut compute the specification that the lemmas below are about |
| BoundedText.BoundedError | scripts/ci_compose_smoke.py:57-68 | The same for the text that keeps the end |
| BoundedText.RedactAll | scripts/ci_compose_smoke.py:46-49 | The redaction loop is the left-to-right composition of replacements, empty secrets skipped |
| Redaction.ReplaceExactly | scripts/ci_compose_smoke.py:47-49 | A result is the replacement if and only if text and result are the same pieces, joined by the secret in the text, each time its leftmost remaining occurrence, and by "[REDACTED]" in the result; the last piece holds no secret |
| Redaction.ReplaceGlue | scripts/ci_compose_smoke.py:47-49 | Pieces joined by a secret that is always the leftmost remaining occurrence come back joined by the mark, for every mark |
| Redaction.RedactExactly | scripts/ci_compose_smoke.py:46-49 | Redaction is this exchange for one non-empty secret after the other |
| Redaction.LogExactly | scripts/ci_compose_smoke.py:44-54 | The log is the exchanged text itself when it fits, and otherwise its longest whole-character prefix and the trailer |
| Redaction.ErrorExactly | scripts/ci_compose_smoke.py:57-68 | The error text is the exchanged text itself when it fits, and otherwise the marker and its longest whole-character suffix |
| BoundedText.ReplaceAddsNothing | scripts/ci_compose_smoke.py:47-49 | A plain word found after a replacement was in the text before and is not the replaced secret |
| BoundedText.RedactAddsNothing | scripts/ci_compose_smoke.py:46-49 | A plain word found after all replacements was in the text and is none of the secrets: later replacements never recreate one |
| BoundedText.ShortRedact | scripts/ci_compose_smoke.py:46-53 | Whatever the secrets, the first ten characters of the redacted text show a listed plain secret only inside the start of a replacement |
| BoundedText.LogHidesSecret | scripts/ci_compose_smoke.py:44-54 | For every text, list of secrets and limit, the log holds no listed plain secret |
| BoundedText.ErrorHidesSecret | scripts/ci_compose_smoke.py:57-68 | The same for the error text, with its marker in front |
| BoundedText.LogSafeExactly | scripts/ci_compose_smoke.py:44-54 | For every limit, a plain secret is hidden in the log of every text and every list of secrets that holds it if and only if neither the visible part of the replacement nor the trailer's word contains it |
| BoundedText.ErrorSafeExactly | scripts/ci_compose_smoke.py:57-68 | For every limit, a plain secret is hidden in the error text of every text and every list of secrets that holds it if and only if no marker word contains it |
| BoundedText.LogKeepsLongestPrefix | scripts/ci_compose_smoke.py:50-54 | For every limit, a truncated log is the longest whole-character prefix in front of the byte cut, plus the trailer; it stays within limit plus 16 bytes if and only if the limit is not negative |
| BoundedText.ErrorKeepsLongestSuffix | scripts/ci_compose_smoke.py:63-68 | A truncated error is the marker and the longest suffix in the remaining bytes; it fits the limit if and only if the limit exceeds 28 |
| Manifest.LogicalLines | scripts/ci_container_reproducibility.py:167-182 | The loop computes the fold of the lines, with its error for a dangling continuation |
| Manifest.FoldIgnoresSkippedLine | scripts/ci_container_reproducibility.py:170-173 | Inserting a line that is blank or starts with "#" after its white space anywhere, even inside a continuation, changes neither the lines nor the error |
| Manifest.FoldJoins | scripts/ci_container_reproducibility.py:167-182 | Lines that end in a backslash and the line that completes them give one line, their trimmed parts joined by single blanks |
| Manifest.FoldDangles | scripts/ci_container_reproducibility.py:181-182 | Continued lines with nothing behind them are an error if and only if one of them has text before its backslash |
| Manifest.FoldedLinesAreLogical | scripts/ci_container_reproducibility.py:167-182 | Every folded line is trimmed, complete, on one line and not a comment |
| Manifest.FoldIsIdempotent | scripts/ci_container_reproducibility.py:167-182 | Folding the joined output again is the identity |
| Manifest.RemoveHashesFilters | scripts/ci_container_reproducibility.py:211-212 | Substituting the hash expression away and splitting equals filtering the tokens; the found hashes are those of the filtered tokens |
| Text.StripExactly | scripts/ci_container_reproducibility.py:170 | Stripping leaves the part between the white space, named character by character, at both ends |
| Text.SpaceExactly | scripts/ci_container_reproducibility.py:170 | White space is what str.strip removes, character by character |
| Text.LineBreakExactly | scripts/ci_container_reproducibility.py:169 | Line breaks are what str.splitlines splits at, character by character |
| Text.SplitExactly | scripts/ci_container_reproducibility.py:211-212 | The tokens and some white space between each two of them are the text |
| Text.SplitLinesExactly | scripts/ci_container_reproducibility.py:169 | The lines, each with its own line break, CR LF as one, are the text |
| Requirements.ParsePinInvertsShow | scripts/ci_container_reproducibility.py:185-200 | The normal form of every valid pin parses back to that pin |
| Requirements.ParsePinIsValid | scripts/ci_container_reproducibility.py:185-200 | Whatever is accepted is a package, a version and possibly a trimmed non-empty marker |
| Requirements.NormalizeIsIdempotent | scripts/ci_container_reproducibility.py:185-200 | Normalizing a normalized requirement changes nothing |
| Requirements.NormalFormsExactly | scripts/ci_container_reproducibility.py:185-200 | A text is its own normal form if and only if it is the normal form of a valid pin |
| Requirements.ParseHashedManifest | scripts/ci_container_reproducibility.py:203-222 | The parser loop computes the specification, including which error comes first |
| Requirements.AcceptedManifest | scripts/ci_container_reproducibility.py:203-222 | An accepted manifest is a non-empty list of distinct exact pins in normal form, and each line carried a SHA-256 hash |
| Requirements.ManifestExactly | scripts/ci_container_reproducibility.py:203-222 | A manifest gives these requirements if and only if its lines fold, each of them gives its requirement in order, and they are some and distinct |
| PinLanguage.PackageExactly | scripts/ci_container_reproducibility.py:28 | A package name is a letter or digit with letters, digits and "-_." behind it, and possibly extras in brackets, all from written-out alphabets |
| PinLanguage.VersionExactly | scripts/ci_container_reproducibility.py:29 | A version is a letter or digit with letters, digits and ".+!_-" behind it, from written-out alphabets |
| PinLanguage.PinnedLineExactly | scripts/ci_container_reproducibility.py:185-216 | A name, "==", a version and one SHA-256 option give that pin if and only if name, version and hash are spelled over those alphabets |
| PinLanguage.PinExactly | scripts/ci_container_reproducibility.py:185-200 | Any text, split at its first semicolon, is accepted as a pin if and only if the part in front, trimmed, spells name, "==" and version over those alphabets and a marker that is there is not blank |
| PinLanguage.PinErrorsExactly | scripts/ci_container_reproducibility.py:185-200 | A direct URL, a missing pin and an empty marker are reported if and only if they are there, in this order |
| PinLanguage.LineExactly | scripts/ci_container_reproducibility.py:206-216 | Any line that names no place gives the normal form of its parts that are no options if one part is an option, and its own error if none is |
| PinLanguage.OtherExactly | scripts/ci_container_reproducibility.py:211-212 | A part of a line is left out if and only if it is an option |
| PinLanguage.LocalExactly | scripts/ci_container_reproducibility.py:208-210 | Editable, relative and file requirements are refused in small and capital letters, and no others as such |
| ManifestRendering.FoldRendered | scripts/ci_container_reproducibility.py:167-182 | A rendered manifest folds to one full line per requirement, in order |
| ManifestRendering.ParseRenderedLine | scripts/ci_container_reproducibility.py:207-216 | A rendered line parses to its pin if and only if no marker word is a hash option |
| ManifestRendering.ParseInvertsRender | scripts/ci_container_reproducibility.py:203-222 | Rendering any distinct locked requirements and parsing returns their normal forms in order, under exactly that condition |
| ManifestRendering.SpoiledMarker | scripts/ci_container_reproducibility.py:211-213 | A valid requirement outside the condition, which the parser does not return |
| Provenance.EvidenceIsValid | scripts/ci_container_reproducibility.py:463-469 | A record sealed with its own digest passes the digest check |
| Provenance.PassesExactly | scripts/ci_container_reproducibility.py:472-534 | A report on a built record passes if and only if the inputs are readable, the commit is the same and not all zero, and base and every presented digest agree |
| Provenance.RecordPassesExactly | scripts/ci_container_reproducibility.py:472-534 | Any JSON value passes if and only if it is an object that claims "pass", is sealed by its digest and agrees with readable inputs |
| Provenance.BuiltStatusExactly | scripts/ci_container_reproducibility.py:437-460 | A built record names its commit, and claims "pass" if and only if that commit is not all zero |
| Provenance.UnboundPassesExactly | scripts/ci_container_reproducibility.py:472-534 | The all-zero commit verifies if and only if a record that no build wrote agrees with the inputs |
| Provenance.SealedClaimPasses | scripts/ci_container_reproducibility.py:494-500 | A five-field record sealed with its own digest verifies, for every commit |
| Provenance.BuildThenVerifyPasses | scripts/ci_container_reproducibility.py:365-534 | Building with a non-zero commit and verifying with the same inputs passes |
| BuildRules.RequireExactly | scripts/ci_container_reproducibility.py:327-345 | Commits, digests and prefixed digests are the hex texts of the right length, trimmed and in lower case; each other text gives its own error |
| BuildRules.BuildsExactly | scripts/ci_container_reproducibility.py:365-460 | A build is accepted if and only if its identity is well formed, the manifest is readable and has the expected digest, the builder and Alpine manifests, if any, are readable and have theirs, and wheel, tools and environment are well formed |
| BuildRules.MismatchErrors | scripts/ci_container_reproducibility.py:385-421 | A wrong digest of the manifest, of the builder manifest or of the Alpine manifest gives its own error when everything before it is in order |
| BuildRules.RequiredErrors | scripts/ci_container_reproducibility.py:391-418 | An expected digest without a builder manifest, and a manifest without an expected digest, give their own errors |
| BuildRules.RecordExactly | scripts/ci_container_reproducibility.py:404-460 | Every field of an accepted record: commit, base, status, digests and sizes of manifests and wheel, tools, environment and counts |
| BuildRules.ApkPinExactly | scripts/ci_container_reproducibility.py:30 | An Alpine pin is a name, "=" and a version over written-out alphabets |
| BuildRules.SealExactly | scripts/ci_container_reproducibility.py:463-469 | A record is sealed if and only if it prints 64 hex digits that are the digest of the record without them |
| BuildRules.NestedExactly | scripts/ci_container_reproducibility.py:501-518 | A nested digest is that of the object under its key, a default without the key, and an attribute error for a value that is no object |
| BuildRules.ReportExactly | scripts/ci_container_reproducibility.py:472-534 | Each check of the image report compares its own field with its own input, and the report passes if and only if no check is false |
| Provenance.RaisesExactly | scripts/ci_container_reproducibility.py:501-518 | On readable inputs the report on a built record raises if and only if an optional manifest is presented that was recorded as absent; otherwise it returns |
| Provenance.UnrecordedManifestRaises | scripts/ci_container_reproducibility.py:508-510 | A built record without builder dependencies, and the manifest presented as them: the report raises an attribute error |
| Provenance.SameDigestSameRecord | scripts/ci_container_reproducibility.py:463-469 | Without a collision, two records that carry one valid digest are equal |
| Provenance.PassingReportBindsBuild | scripts/ci_container_reproducibility.py:472-534 | Without a collision, a passing report that names the digest of a build saw that very record, commit, base and manifest bytes |
| Provenance.RenderedManifestVerifies | scripts/ci_container_reproducibility.py:203-534 | The whole chain: distinct pins, rendered and encoded as the manifest, build a record that verifies, for every digest function, toolchain and optional manifests |
| Provenance.ExampleIsRendered | scripts/ci_container_reproducibility.py:365-388 | Inputs that meet the premises of the chain exist for every digest function |
| Versions.ParseInvertsShow | zaptrace/versioning.py:44-68 | Every version's text parses back to it |
| Versions.ParsedIsShown | zaptrace/versioning.py:44-68 | Every accepted text is the text of the version it parses to |
| Versions.FinalIsBase | zaptrace/versioning.py:38-41 | A final version is its own base version |
| Versions.CargoIsInjective | zaptrace/versioning.py:71-78 | The Cargo version determines the Python version |
| SemVer.DecimalExactly | zaptrace/versioning.py:11-16 | Each number has exactly one decimal text, digits without a leading zero that read as the number |
| SemVer.PythonSpelling | zaptrace/versioning.py:11-68 | The grammar accepts exactly the texts N.N.N, N.N.N.devN and N.N.NrcN and gives the numbers they show |
| SemVer.RustSpelling | zaptrace/versioning.py:71-78 | The mapping to Cargo gives exactly N.N.N, N.N.N-dev.N and N.N.N-rc.N with the same numbers |
| SemVer.CargoRead | zaptrace/versioning.py:71-78 | A reader that splits at dots and compares numeric identifiers as numbers finds the numbers and the stage in every Cargo version |
| SemVer.PrecedencePreserved | zaptrace/versioning.py:71-78 | One version is before another, development before candidate before final, if and only if their Cargo versions are in the precedence of section 11 of Semantic Versioning 2.0.0 |
| CommitGraph.MergeBaseTheorem | scripts/ci_version_consistency.py:226-237 | In an acyclic graph the source is a best common ancestor of itself and main if and only if it is an ancestor of main, and then it is the only one |
| CommitGraph.MergeBaseDecidesAncestry | scripts/ci_version_consistency.py:226-237 | Comparing whatever merge base git reports with the source decides ancestry |
| CommitGraph.NoAnswerExactly | scripts/ci_version_consistency.py:226-229 | Git reports no merge base if and only if the two histories have no common ancestor |
| CommitGraph.AcyclicExactly | scripts/ci_version_consistency.py:212-238 | A finite graph has no cycle if and only if its commits can be ranked above their parents |
| CommitGraph.CommitKeepsAcyclic | scripts/ci_version_consistency.py:212-238 | A new commit keeps the graph acyclic and all earlier ancestry |
| Release.AuditVersionConsistency | scripts/ci_version_consistency.py:461-566 | Refuses versions outside the grammar; reports exactly the broken rules and passes if and only if the meaning of its context holds; a passing published audit names the version's own tag, its object, its commit and its signature check |
| Release.PassesExactly | scripts/ci_version_consistency.py:241-566 | For a version text N.N.N with .devN or rcN or nothing behind it, the audit passes if and only if every surface shows it, the Rust ones as N.N.N-dev.N or N.N.N-rc.N, and the rules of the context hold over ref names put together from the parts |
| Release.CodesExactly | scripts/ci_version_consistency.py:241-429 | Each of the nineteen codes is reported if and only if its own rule is broken, over the same spellings |
| Release.RefusedExactly | scripts/ci_version_consistency.py:473-476 | A project version is refused if and only if it is no text of that form |
| Release.LabelsExactly | scripts/ci_version_consistency.py:184-191 | The distribution label follows from context and stage, and only releases are published |
| Release.CodesPersist | scripts/ci_version_consistency.py:241-309 | Along every run a reported code stays reported, except for a missing tag, a missing main and a source outside main |
| Release.CodesAppear | scripts/ci_version_consistency.py:241-429 | Along every run a code only appears because its line was tagged, because the missing tag that hid it was created, or because the missing main was created without the source |
| Release.CurableExactly | scripts/ci_version_consistency.py:212-309 | Under every policy and for every version, some run lifts a code if and only if it is a missing tag, a missing main or a source outside main |
| Release.StepKeeps | scripts/ci_version_consistency.py:212-309 | Every step keeps the repository well formed, every tag in place and main's old commit an ancestor of main |
| Release.RunKeeps | scripts/ci_version_consistency.py:212-309 | The same between any two states of a run |
| Release.OneCommitPerRelease | scripts/ci_version_consistency.py:241-309 | All passing release audits of one version in a run name one commit |
| Release.ReleasedLineIsClosed | scripts/ci_version_consistency.py:355-429 | After a final version passed its release audit, no development or preparation audit on that line passes |
| Release.ReleaseStaysValid | scripts/ci_version_consistency.py:212-309 | A release audit that passed keeps passing as main advances, whichever merge base is reported, and its commit stays an ancestor of main |
| Release.LifecycleRuns | scripts/ci_version_consistency.py:212-309 | Commit, advance main and tag is a run from the empty repository, for every policy and version |
| Release.LifecycleCompletes | scripts/ci_version_consistency.py:386-566 | Every release candidate and final version passes its preparation audit before the tag and its release audit after it, in that run |
| AtomicWrite.OpenValidatedParent | scripts/ci_human_reference_scorecard.py:140-150 | Succeeds if and only if no open fails and every part is a real directory; leaves one descriptor of the directory the parts lead to on success and none on failure |
| AtomicWrite.WalkExactly | scripts/ci_human_reference_scorecard.py:140-150 | The parts lead to a directory if and only if there is a chain of real directories from the root to it in which each one is the entry of the one before under the next part |
| AtomicWrite.StageTemporary | scripts/ci_human_reference_scorecard.py:179-187 | Creates the temporary only where no entry exists, writes and closes it; gives every state on the way |
| AtomicWrite.PublishOrRemove | scripts/ci_human_reference_scorecard.py:188-195 | Renames a completely staged temporary over the destination, and removes it if that is not done |
| AtomicWrite.ReplaceThroughDirectory | scripts/ci_human_reference_scorecard.py:177-195 | Everything between opening and closing the parent: success condition, final state and safety of every state |
| AtomicWrite.WriteTextSafely | scripts/ci_human_reference_scorecard.py:174-197 | Under any failure no descriptor and no temporary stays, other names and files are untouched, and in every state the destination is old or complete; success if and only if nothing failed, and then the new file is at the end of the chain of directories that the parts name; without such a chain nothing changes |
| AtomicWrite.StagedIsSafe | scripts/ci_human_reference_scorecard.py:182-187 | Any contents of the temporary leave the destination as it was |
| AtomicWrite.TemporaryLeaves | scripts/ci_human_reference_scorecard.py:188-195 | Removing the temporary restores every name, renaming it leaves one new file at the destination |
| Publication.Workspace.RunReportFamilies | scripts/ci_kicad_jobset_oracle.py:763-780 | The tree is published as a whole if and only if the target was absent and no step failed; nothing stays staged |
| Publication.Workspace.RemoveReview | scripts/ci_kicad_jobset_oracle.py:833-834 | Removal leaves exactly the files that cannot be removed, and nothing if there are none; every state on the way only lacks more files |
| Publication.Workspace.Run | scripts/ci_kicad_jobset_oracle.py:813-838 | Exit 0 if and only if nothing failed and no tree was there, and then tree and report are complete; after a failure the tree is what could not be removed and the report is untouched or cut short; besides removals the target only ever changes by the complete tree appearing at once |
| Publication.RemovalIsFinal | scripts/ci_kicad_jobset_oracle.py:833-834 | While a tree is removed the target holds its old files only, and once it is gone it stays gone |
| Publication.RemovedExactly | scripts/ci_kicad_jobset_oracle.py:833-834 | Removal leaves exactly the files that resist, with their contents; nothing if and only if none does, and everything if and only if every file of a non-empty tree does |
| Publication.CompleteExactly | scripts/ci_kicad_jobset_oracle.py:763-780 | The complete tree holds the index and every file of every family, and of two families with one path the last one wins |
| StableSort.SortSorts | pcb_bench/leaderboard.py:159-162 | The sort orders by any total preorder |
| StableSort.SortKeepsElements | pcb_bench/leaderboard.py:159-162 | The sort is a permutation |
| StableSort.SortIsStable | pcb_bench/leaderboard.py:159-162 | Elements that compare equal keep their order |
| StableSort.SortedIsUnique | pcb_bench/leaderboard.py:159-162 | Without ties the sorted order depends on the elements alone |
| TextOrder.TextLeExactly | pcb_bench/leaderboard.py:159-162 | One text is not after another if and only if it is a prefix of it or has the smaller character at the first difference |
| Submissions.FromDictInvertsToDict | pcb_bench/schema.py:141-190 | A submission survives the dictionary round trip |
| Submissions.FromDictDefaults | pcb_bench/schema.py:141-164 | Which value each missing key is read as; only a missing grader id is an error |
| Submissions.FromDictKeeps | pcb_bench/schema.py:142-154 | A key that is there is kept, whatever the others are |
| Submissions.CanonicalHolds | pcb_bench/schema.py:192-211 | The canonical form holds task, tool and, in order of grader id, the id, status, rounded score and output hash of each piece of evidence |
| Submissions.LookupIsLastEntry | pcb_bench/runner.py:88 | The evidence a lookup finds is the last entry with that grader id |
| Submissions.SortKeepsLookup | pcb_bench/schema.py:192-211 | Sorting by grader id keeps the entries of every id in order, so the last one wins before and after |
| Submissions.CanonicalFixesStatus | pcb_bench/schema.py:192-211 | Equal canonical forms give every grader the same status, even with repeated ids |
| Submissions.CanonicalExactly | pcb_bench/schema.py:192-211 | Two submissions have one canonical form if and only if task and tool agree and every grader id has the same entries in the same order |
| Submissions.CanonicalIgnoresOrder | pcb_bench/schema.py:192-211 | With one piece of evidence per grader, the canonical form does not depend on the order of the evidence |
| Submissions.SignedSubmission.Sign | pcb_bench/schema.py:213-216 | Stores the hash of the canonical form and changes nothing else; the stored hash matches afterwards |
| Scoring.ScoreSubmission | pcb_bench/runner.py:70-138 | Passed, failed and skipped add up to the number of graders, each counts its verdicts, every grader has its row, the mean is that of the passing scores, and the hash is the stored one or that of the canonical form |
| Scoring.VerdictExactly | pcb_bench/runner.py:28-115 | The verdict of each grader by its last piece of evidence: skipped, failed by status or by its threshold, or passed with its score |
| Scoring.RowExactly | pcb_bench/runner.py:88-115 | What each row says of its grader |
| Scoring.CountsExactly | pcb_bench/runner.py:94-115 | The counts are the numbers of graders with that verdict |
| Scoring.MeanExactly | pcb_bench/runner.py:117 | The mean times the number of passing scores is their sum |
| Scoring.MeanBounds | pcb_bench/runner.py:117 | The mean lies between any bounds of the passing scores |
| Scoring.MeanReaches | pcb_bench/runner.py:28-67 | With every passing grader held to at least t, the mean reaches t if and only if a grader passed or t is not positive |
| Scoring.LooserNeverFailsMore | pcb_bench/runner.py:28-67 | Lowering minimum scores or raising error limits never raises the failed count |
| Scoring.WithholdingNeverFailsMore | pcb_bench/runner.py:94-115 | Withholding all evidence for a grader never raises the failed count |
| Scoring.CanonicalFixesSkipped | pcb_bench/runner.py:87-115 | Submissions with equal canonical forms have the same skipped count on every task |
| Scoring.CanonicalFixesFailedExactly | pcb_bench/runner.py:48-65 | Equal canonical forms have equal failed counts on a task if and only if no grader is judged by an error limit and no minimum score separates scores that round alike |
| Scoring.CanonicalLeavesFailuresOpen | pcb_bench/runner.py:57-61 | Two submissions with one canonical form, one with a failure and one without |
| Leaderboard.FilterReports | pcb_bench/leaderboard.py:142-149 | Keeps the readable reports of the requested task in order |
| Leaderboard.KeepBest | pcb_bench/leaderboard.py:151-156 | The dictionary holds the keys in order of first occurrence, each with its best report |
| Leaderboard.GenerateLeaderboard | pcb_bench/leaderboard.py:118-186 | The rows are the ranking of the filtered reports, ranked from 1, under the requested or the first row's task |
| Leaderboard.BoardExactly | pcb_bench/leaderboard.py:142-180 | Over the files: ranks from 1, fewer failures and then higher means and then names first, one row per task, tool and version among the readable reports of the task, and each row its first report of the highest mean |
| Leaderboard.OrderExactly | pcb_bench/leaderboard.py:158-162 | A row is not behind another if and only if it has fewer failures, or as many and a higher mean, or those alike and a name that is not after |
| Leaderboard.BoardTaskExactly | pcb_bench/leaderboard.py:164 | The board names the requested task, or that of its first row, or "unknown" |
| Leaderboard.BestIsFirstBest | pcb_bench/leaderboard.py:151-156 | The report kept for a key is the first one of the highest mean |
| Leaderboard.RankingIsExact | pcb_bench/leaderboard.py:151-162 | Exactly one row per key of the reports, each row the first best report of its key, all rows in order |
| Leaderboard.TiesKeepFirstOrder | pcb_bench/leaderboard.py:158-162 | Tied rows stand in the order of their keys' first reports |
| Leaderboard.NoTiesIgnoresOrder | pcb_bench/leaderboard.py:151-162 | Without ties among the best reports of a key and among rows, the rows are the same for every permutation of the reports |
| Leaderboard.OrderIrrelevantExactly | pcb_bench/leaderboard.py:151-162 | Every permutation of the reports gives the same rows if and only if there are no ties among the best reports of a key or among rows |
| PinParity.CheckGeometry | scripts/ai_native_pilot_pin_parity.py:32-41 | Reports exactly the components without pads or with repeated pad ids |
| PinParity.CountPads | scripts/ai_native_pilot_pin_parity.py:70-81 | Counts one triple per mapped pad that exists and reports exactly those that do not |
| PinParity.CheckNode | scripts/ai_native_pilot_pin_parity.py:45-81 | Counts the image of the node and reports exactly what is wrong with it |
| PinParity.ExpectedTriples | scripts/ai_native_pilot_pin_parity.py:43-81 | The expected counter is the image of the logical netlist under the pin-to-pad relation |
| PinParity.CountNative | scripts/ai_native_pilot_pin_parity.py:83-92 | Counts every native node; fails if and only if a net or a node has no name |
| PinParity.Crosscheck | scripts/ai_native_pilot_pin_parity.py:29-116 | Clean if and only if the geometry and every node are sound and the native netlist is the image; the two differences are disjoint and balance, and matched plus either difference is the total |
| PinParity.NodeImageIsRelation | scripts/ai_native_pilot_pin_parity.py:45-81 | The image counts a triple once if the node's component, the first with that id or else with that designator, maps the pin to that pad or is a resistor or capacitor whose pad it is, and the pad exists; and not otherwise |
| PinParity.GetExactly | zaptrace/core/models.py:862-867 | A lookup finds the first component with that id, and without one the first with that designator |
| PinParity.PadsOfExactly | scripts/ai_native_pilot_pin_parity.py:50-69 | The pads of a pin are those mapped to it, or in a resistor or capacitor without a map the pin itself; every other part needs a map |
| PinParity.NodeReportsExactly | scripts/ai_native_pilot_pin_parity.py:45-81 | Each reason of a node: no such component, a part that needs a pin map and has none, a pin that nothing is mapped to, a mapped pad that does not exist |
| PinParity.GeometryExactly | scripts/ai_native_pilot_pin_parity.py:32-41 | Geometry is sound if and only if there are pads and no two of them share an id |
| PinParity.NodesImageCounts | scripts/ai_native_pilot_pin_parity.py:43-81 | The image of a net counts the nodes that connect the triple |
| PinParity.ImageCounts | scripts/ai_native_pilot_pin_parity.py:43-81 | The image of the netlist adds up these counts net by net |
| PinParity.NativeCounts | scripts/ai_native_pilot_pin_parity.py:83-92 | The native counter counts the nodes of the nets of that name |
| PinParity.MultisetsBalance | scripts/ai_native_pilot_pin_parity.py:94-95 | The two counter differences are the only disjoint multisets that balance the netlists |
| PinParity.NoPadOnTwoNets | scripts/ai_native_pilot_pin_parity.py:43-95 | If each logical pin is on one net, no physical pad is on two nets of a native netlist that equals the image |
| Polling.Poll | scripts/ci_docs_status_sync.py:614-676 | A pass reports the least matching attempt begun in time and its document, a failure the first attempt begun too late or all attempts; gives every sleep, the finishing time, the history of every fetch and the last error |
| Polling.VerifyFreshness | scripts/ci_docs_status_sync.py:600-676 | The same for the schedule of the settings; a limit below one means no attempt |
| Polling.SleepClosedForm | scripts/ci_docs_status_sync.py:665-667 | Every sleep is the capped power if and only if the first sleep is not above the cap |
| Polling.CappedIsPower | scripts/ci_docs_status_sync.py:665-667 | The capped value is the minimum of the cap and the initial backoff times the power of the multiplier |
| Polling.PassesExactly | scripts/ci_docs_status_sync.py:620-652 | The call passes if and only if some attempt within the limit gives a document of the expected revision and begins within the timeout |
| Polling.ReportExactly | scripts/ci_docs_status_sync.py:620-676 | A pass reports the first answer that matches; a failure found none and stopped past the timeout or after the last attempt |
| Polling.TimeAddsUp | scripts/ci_docs_status_sync.py:620-676 | The time of a call is the sum of its fetches and of the sleeps it reports |
| Polling.SleepsExactly | scripts/ci_docs_status_sync.py:665-667 | Every sleep after the first is the one before times the multiplier, cut off at the cap |
| Polling.HistoryExactly | scripts/ci_docs_status_sync.py:626-663 | The history holds exactly the entries that tell what an attempt gave and when it began |
| Polling.HistoryInOrder | scripts/ci_docs_status_sync.py:626-663 | The history is in the order of the attempts, and within one attempt what was seen is before what failed |
| Polling.ErrorExactly | scripts/ci_docs_status_sync.py:626-663 | The last error tells what the last attempt gave |
| Polling.ReturnsInTime | scripts/ci_docs_status_sync.py:620-676 | With fetches of at most F the call returns by timeout plus F plus the largest backoff, which is the first sleep when that is above the cap |
| Glb.ReadInvertsWrite | scripts/ci_kicad_jobset_oracle.py:353 | Reading a written little-endian word gives the number |
| Glb.WriteInvertsRead | scripts/ci_kicad_jobset_oracle.py:353 | Writing a read word gives the bytes |
| Glb.WordExactly | scripts/ci_kicad_jobset_oracle.py:353 | A word is the sum of its bytes times 1, 256, 65536 and 16777216 |
| Glb.HeaderExactly | scripts/ci_kicad_jobset_oracle.py:351-358 | The bytes of the header: the magic text, version 2, the two lengths and the chunk type |
| Glb.FrameExactly | scripts/ci_kicad_jobset_oracle.py:319-369 | What a frame is, byte by byte, and which bytes may pad it |
| Glb.FrameIsRead | scripts/ci_kicad_jobset_oracle.py:319-369 | Every frame with legal padding is read up to its JSON text |
| Glb.AcceptedIsFrame | scripts/ci_kicad_jobset_oracle.py:319-369 | Every accepted byte string is the frame rebuilt from its own first chunk |
| Glb.AcceptedExactly | scripts/ci_kicad_jobset_oracle.py:319-358 | A byte string is read as a payload if and only if it is a frame around that JSON object |
| Glb.ErrorsExactly | scripts/ci_kicad_jobset_oracle.py:319-358 | Each error up to the JSON text is given if and only if its own cause is there and none before it |
| Glb.DecodedExactly | scripts/ci_kicad_jobset_oracle.py:325-331 | In a frame the decoder decides between the payload and the two JSON errors |
| Glb.ValidatedExactly | scripts/ci_kicad_jobset_oracle.py:334-369 | A byte string is validated with a report if and only if it is a frame around a JSON object whose array counts, size, version and digests the report gives |
| Glb.ShapeExactly | scripts/ci_kicad_jobset_oracle.py:334-350 | The six counts are the lengths of the arrays of those names, and zero for others |
| ScanPolicy.IndexExceptions | scripts/ci_container_scan_policy.py:69-83 | Every item is indexed, with its texts, or gives one error; the errors are exactly the malformed positions with their faults and the repeated keys |
| ScanPolicy.IndexExactly | scripts/ci_container_scan_policy.py:69-83 | The index holds the first exception of each advisory and package |
| ScanPolicy.FieldExactly | scripts/ci_container_scan_policy.py:54-58 | A field is its text between the white space at both ends, and missing when that is empty |
| ScanPolicy.NormalizedExactly | scripts/ci_container_scan_policy.py:51-66 | An exception is accepted if and only if it is an object whose five required texts are not blank and whose expiry is a date; it then holds the trimmed texts |
| ScanPolicy.FaultNamesFields | scripts/ci_container_scan_policy.py:54-61 | A fault about missing fields lists exactly the required fields without a text |
| ScanPolicy.MissingExactly | scripts/ci_container_scan_policy.py:59-61 | The missing fields are listed one by one in the order in which they are required |
| ScanPolicy.MissingOne | scripts/ci_container_scan_policy.py:59 | A field is listed if and only if it has no text |
| ScanPolicy.ApplyPolicy | scripts/ci_container_scan_policy.py:184-213 | Every finding gets its exception, status and decision, and the counters count them |
| ScanPolicy.JudgedExactly | scripts/ci_container_scan_policy.py:157-205 | Exception, status, decision and reason of a finding, each if and only if its own condition on the exception list, the severity, the mode and the date holds |
| ScanPolicy.CountsExactly | scripts/ci_container_scan_policy.py:191-204 | The two counters are the numbers of blocked findings and of accepted exceptions |
| ScanPolicy.OrderExactly | scripts/ci_container_scan_policy.py:154 | Findings are in the order of the first of severity, advisory and package in which they differ |
| ScanPolicy.Evaluate | scripts/ci_container_scan_policy.py:216-265 | Passes if and only if the exception list is sound and nothing blocks; the report lists every finding once, in order, with its decision and the counts |
| ScanPolicy.ScanPassesExactly | scripts/ci_container_scan_policy.py:157-265 | Passes if and only if the list is sound, nothing is critical, and in an enforced release every high finding has an exception in force |
| ScanPolicy.LaterIsStricter | scripts/ci_container_scan_policy.py:157-181 | What blocks on one date blocks on every later one, so a failing verdict never turns into a pass |
| ScanPolicy.ReleaseIsStricter | scripts/ci_container_scan_policy.py:164-181 | A pull request blocks exactly the critical findings, and a release blocks those and possibly more |
| Coverage.ActiveExclusions | scripts/ci_critical_runtime_coverage.py:241-253 | Collects the exclusions in force and reports exactly the expired ones |
| Coverage.CheckSources | scripts/ci_critical_runtime_coverage.py:255-275 | Collects the pragma lines of the modules and reports exactly the missing sources and the lines not allowed |
| Coverage.StaleViolations | scripts/ci_critical_runtime_coverage.py:277-284 | One violation per allowed line that is not in the source |
| Coverage.AuditSourceExclusions | scripts/ci_critical_runtime_coverage.py:235-285 | Reports exactly the expired, missing, unapproved and stale entries |
| Coverage.ExclusionsHoldExactly | scripts/ci_critical_runtime_coverage.py:235-285 | There is no exclusion violation if and only if all sources exist, nothing expired and the pragma lines are exactly the allowed ones |
| Coverage.ConfigurationExactly | scripts/ci_critical_runtime_coverage.py:174-210 | Exactly the modules that an omit pattern hides and the two global exclusion settings are reported |
| Coverage.CheckModule | scripts/ci_critical_runtime_coverage.py:327-390 | Reports exactly an expired exception, missing or unreadable coverage, and coverage below the floor in force; the result row tells which, and exists if and only if its numbers make sense |
| Coverage.AuditCriticalCoverage | scripts/ci_critical_runtime_coverage.py:309-398 | Raises if and only if some module has numbers no row may hold; otherwise reports exactly the broken rules, describes every module, and passes if and only if its meaning holds |
| Coverage.AuditHoldsExactly | scripts/ci_critical_runtime_coverage.py:309-398 | Nothing is reported if and only if nothing is hidden, the exclusions are exact and every module reaches its floor with no expired exception |
| Coverage.AuditExactly | scripts/ci_critical_runtime_coverage.py:174-398 | The audit passes if and only if no omit pattern or global setting hides code, the pragmas are exactly the listed lines and none has expired, and each module has a summary that reaches the floor of its first exception, not expired, or else its own |
| Coverage.ViolationsExactly | scripts/ci_critical_runtime_coverage.py:174-398 | Each violation is reported if and only if its own rule is broken |
| Coverage.NumbersExactly | scripts/ci_critical_runtime_coverage.py:296-306 | Numbers are read from a summary with statements; a percentage left out times the statements is a hundred times the covered lines |
| Coverage.ExceptionExactly | scripts/ci_critical_runtime_coverage.py:213-233 | The exception of a path is the first one listed |
| Coverage.ObservedExactly | scripts/ci_critical_runtime_coverage.py:255-268 | A line is observed if and only if a listed module has a pragma there |
| Coverage.FloorExactly | scripts/ci_critical_runtime_coverage.py:213-233 | The floor in force is that of the exception until it expires, and the module's own otherwise |
| Coverage.RowExactly | scripts/ci_critical_runtime_coverage.py:327-390 | What each field of a result row says |
| Coverage.RaisesExactly | scripts/ci_critical_runtime_coverage.py:327-390 | The audit raises if and only if a summary has covered lines or a rounded percentage outside the range of a row |
| Coverage.LaterIsStricter | scripts/ci_critical_runtime_coverage.py:213-398 | A pass on a later date is a pass on every earlier one, even where an exception raises a floor |

## Left out

- Subprocesses, git, Docker, HTTP and KiCad: their answers are parameters or nondeterministic faults.
- Argument parsing, printing, Markdown and the JSON text of reports; the wording of messages and of the non-claims lists.
- Path confinement and symbolic-link resolution before a file is opened; the branch of the atomic writer for other systems than POSIX.
- Failures of closing a descriptor, of wrapping it in a file object and of removing the temporary; other processes that change the same directories.
- Exceptions that the KiCad oracle's entry point does not handle, its mode without a review directory, and directories that resist removal when all their files are gone.
- Lone surrogates in texts; decimal digits outside ASCII in version numbers.
- Floating-point rounding: numbers are reals, and rounding to six digits is an arbitrary function.
- Dictionary values of a wrong type in submissions and reports.
- SHA-256 and the canonical JSON encoder are arbitrary functions; collision freedom is required only of the inputs at hand.
- The record digest has no key, so what a passing report implies is stated relative to the digest that the build recorded.
- Ref names are grouped by namespace, and the audit takes the source commit trimmed and in lower case.
- Release.AuditVersionConsistency: the surface and message of a violation are not modelled, only its code; whether git verified a signature is an input.
- Scoring.ScoreSubmission: the detail text of each grader and the time of the report are not modelled.
- Polling.Poll: computing between a fetch and a sleep takes no time, sleeps last exactly as long as asked, and elapsed times are not rounded.
- Polling.VerifyFreshness: the same simplifications as for the loop it calls.
- Glb.ValidatedExactly: the constant label on byte determinism is not modelled, and decoding JSON is a parameter.
- ScanPolicy.Evaluate: reading findings out of the scanner's JSON, and the image and bill-of-materials digests copied into the report, are not modelled.
- Coverage.AuditCriticalCoverage: pattern matching and the pragma lines of each source are inputs; the digests, owners and rationales copied into the audit are not modelled.
- The lock report, which runs an external resolver; the corpus and fixture gates, which wrap other ZapTrace subsystems; documentation scanning, which matches patterns over repository files; the gates that only filter or compare one dictionary.
