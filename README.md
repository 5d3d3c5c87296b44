# APKLeaks result aggregation, in Dafny

This project models the part of APKLeaks that assembles the leak report. APKLeaks decompiles an Android package with jadx and searches the decompiled sources with named regular-expression rules. The modelled code is in the `APKLeaks` class of `apkleaks/apkleaks.py`:

- `extract(name, matches)` writes one rule's findings to the output file. It records them in the structured report `out_json` and raises the `scanned` flag. Matches of the rule `LinkFinder` go through a false-positive filter (a regular expression) and a quote strip before they are written.
- `scanning()` checks that a package name is known and resets the report. It then issues one `extract` per pattern: one for each element of a list-valued rule, in list order, and one for a scalar rule. Rules are taken in the rule file's order.
- The decision at the end of `cleanup()`: after a finding, the file receives the serialised report (JSON mode only) and is closed. Otherwise the file is closed and deleted, with at most five attempts.
- The argument list handed to jadx by `decompile()`: `[jadx, file, "-d", tempdir]` followed by `re.split(r"\\s|=", disarg)`.

Modules:

- `Wrappers`: the `Option` type.
- `LinkFinder`: the filter and the strip. There is an executable predicate `IsNoise` and a declarative reading `MatchesNoisePattern` of the regular expression, and they are proved equivalent.
- `JadxArgs`: `re.split` on backslash-`s` or `=`, the argument list, and the round trips between splitting and joining. The pieces, glued back with the separators that cut them (each backslash-`s` or `=`), rebuild the input; separator-free pieces glued with any such separators split back into exactly those pieces.
- `Report`: functions stating what one `extract` call and a whole scanning pass write and record. It also holds the lemmas about them: order, the exact set of recorded rules, the LinkFinder quirk, and that JSON mode writes nothing before the final document.
- `ApkLeaks`: the class `APKLeaks`. Its fields are `out_json`, `scanned` and the output file. The output file is a `seq<string>` of the arguments of its `write` calls. `Extract` and `Scanning` are proved to change that state exactly as the `Report` functions say. `Cleanup` states its outcome through the serialiser `dump` and the retry outcome `SettledAfter`. `Run` is a client that shows what a whole scan leaves in the file.

External collaborators are parameters of the model:

- The tree searcher `util.finder` is a function `(pattern, dir) -> matches`.
- `json.dumps` is a function `OutJson -> string`.
- The outcome of each `os.remove` attempt is a function from the attempt number to `Removed`, `PermissionDenied` or `OtherError`.

Points where the code behaves in a way one might not expect, which the model follows:

- The scanner has no bounded worker pool and no completion barrier. The scan threads are never joined, so the model runs the `extract` calls one after the other in dispatch order.
- The report records the raw, unfiltered matches (`apkleaks/apkleaks.py:131`), not the filtered ones. `scanned` becomes true when a LinkFinder batch is non-empty even if the filter drops all of it (`Report.AllNoiseStillRecorded`).
- Results are neither sorted nor deduplicated. There is one result per pattern with a match, not one per rule, so a list-valued rule can appear several times (`Report.AggregateExactly`).
- The filter does not require a quote first. It accepts any first character except a newline, then needs a slash somewhere later, not necessarily directly after the prefix.

## Model

| member | source | states |
|---|---|---|
| `ApkLeaks.APKLeaks.constructor` | apkleaks/apkleaks.py:27-40 | the report starts empty, `scanned` false, the output file open and empty |
| `ApkLeaks.APKLeaks.Extract` | apkleaks/apkleaks.py:117-132 | with no match nothing changes; otherwise the file gains the header, the emitted secrets and a blank line, the results gain one entry with the raw matches, and `scanned` becomes true; the invariant that every result is non-empty is kept |
| `ApkLeaks.APKLeaks.WriteSecrets` | apkleaks/apkleaks.py:122-129 | the secret loop writes one `- <secret>` line per emitted secret, in the order of the matches |
| `ApkLeaks.APKLeaks.WriteSecret` | apkleaks/apkleaks.py:123-129 | a dropped LinkFinder match writes nothing, a kept one is written stripped, any other rule's match is written as it is |
| `ApkLeaks.APKLeaks.ScanOne` | apkleaks/apkleaks.py:150-155 | one more search and `extract` extends the results and the writes by exactly that batch's contribution |
| `ApkLeaks.APKLeaks.ScanList` | apkleaks/apkleaks.py:143-149 | a list-valued rule issues one search and `extract` per pattern, in list order |
| `ApkLeaks.APKLeaks.Scanning` | apkleaks/apkleaks.py:134-155 | without a package nothing changes and the run stops; otherwise the report holds the package and exactly the results of every rule's calls in rule-file order, the file holds all their writes, and `scanned` tells whether any call matched |
| `ApkLeaks.APKLeaks.Cleanup` | apkleaks/apkleaks.py:202-214 | after a finding the file gets the serialised report (the empty string in text mode) and stays, and that report holds the package and only results with at least one match; otherwise nothing is written and the file is gone exactly when a removal attempt succeeded |
| `ApkLeaks.RemoveOutput` | apkleaks/apkleaks.py:208-213 | removal is tried at most five times, every attempt before the last was refused with a permission error, and it stops early only on success or another error |
| `ApkLeaks.SettledUnique` | apkleaks/apkleaks.py:208-213 | the retry loop's attempt count and last outcome are determined by the attempts' outcomes |
| `ApkLeaks.Run` | apkleaks/apkleaks.py:198-214 | after a full scan the report is kept exactly when some pattern matched; the file then holds every `extract` write followed by the report, and with no match nothing was written and the file is discarded |
| `LinkFinder.IsNoiseIsRegex` | apkleaks/apkleaks.py:124 | the executable filter drops a match exactly when the regular expression matches it (both directions) |
| `LinkFinder.SlashAheadIsRegex` | apkleaks/apkleaks.py:124 | the slash scan succeeds exactly when `.*\/.+` matches from that index without crossing a newline |
| `LinkFinder.Strip` | apkleaks/apkleaks.py:126 | `secret[1:-1]` is what remains after removing the first and last characters, and is empty for a string shorter than two |
| `LinkFinder.StripUnwraps` | apkleaks/apkleaks.py:126 | stripping undoes wrapping a string in two delimiters such as quotes |
| `LinkFinder.ContentTypeDropped` | apkleaks/apkleaks.py:123-125 | a quoted content type such as `'application/json; charset=utf-8'` is dropped |
| `LinkFinder.EndpointKept` | apkleaks/apkleaks.py:123-125 | a quoted URL such as `'https://api.example.com/v1/login'` is kept |
| `LinkFinder.EndpointUnquoted` | apkleaks/apkleaks.py:126 | the kept URL is written without its quotes |
| `JadxArgs.Args` | apkleaks/apkleaks.py:93-97 | the list always starts `[jadx, file, "-d", tempdir]`; with no extra string it has nothing more; with one it gains at least one piece, no piece contains a separator, and the pieces glued back with the separators of the extra string rebuild it |
| `JadxArgs.Split` | apkleaks/apkleaks.py:95 | `re.split` always yields at least one piece |
| `JadxArgs.SplitFirstIsPrefix` | apkleaks/apkleaks.py:95 | the first piece is a prefix of the input |
| `JadxArgs.Separators` | apkleaks/apkleaks.py:95 | the separators that cut the input, one fewer than the pieces, each a backslash-`s` or `=` |
| `JadxArgs.SplitRebuilds` | apkleaks/apkleaks.py:95 | the pieces glued with the separators between them give back the input, so every cut is at a backslash-`s` or `=` |
| `JadxArgs.SplitJoinWith` | apkleaks/apkleaks.py:95 | separator-free pieces glued with any backslash-`s` and `=` separators split back into exactly those pieces, so every backslash-`s` and `=` cuts |
| `JadxArgs.BackslashSSplits` | apkleaks/apkleaks.py:95 | a literal backslash-`s` cuts like `=`: `-j\s4=x` gives `-j`, `4`, `x` |
| `JadxArgs.SeparatorsAllEquals` | apkleaks/apkleaks.py:95 | a string without backslash-`s` is cut only at `=` |
| `JadxArgs.SplitPiecesClean` | apkleaks/apkleaks.py:95 | no piece contains backslash-`s` or `=` |
| `JadxArgs.SplitJoin` | apkleaks/apkleaks.py:95 | pieces free of separators, joined with `=`, split back into exactly those pieces, empty ones included |
| `JadxArgs.JoinSplit` | apkleaks/apkleaks.py:95 | a string without backslash-`s` is recovered by joining its pieces with `=` |
| `JadxArgs.ArgsOfJoinedWords` | apkleaks/apkleaks.py:93-97 | an `=`-joined extra string reaches jadx as the prefix followed by exactly its words |
| `JadxArgs.WhitespaceNotSplit` | apkleaks/apkleaks.py:95 | whitespace does not separate: `-j 4` stays one argument |
| `Report.EmitOne` | apkleaks/apkleaks.py:123-129 | a LinkFinder match contributes nothing exactly when the filter drops it and otherwise its stripped form; any other rule's match contributes itself |
| `Report.Emitted` | apkleaks/apkleaks.py:122-129 | no more secrets are written than there are matches |
| `Report.SecretLines` | apkleaks/apkleaks.py:127-129 | one write per emitted secret |
| `Report.ExtractResults` | apkleaks/apkleaks.py:118-131 | one result entry exactly when the raw list is non-empty, holding the rule name and the raw matches |
| `Report.ExtractWritesLayout` | apkleaks/apkleaks.py:118-130 | nothing is written without a match; otherwise `[name]`, one `- <secret>` line per emitted secret in order, and a blank line, each the empty string in JSON mode |
| `Report.EmittedAppend` | apkleaks/apkleaks.py:122-129 | the secrets of two lists of matches are those of each, in order |
| `Report.EmittedVerbatim` | apkleaks/apkleaks.py:122-129 | rules other than LinkFinder emit every match verbatim and in order |
| `Report.EmittedLinkFinder` | apkleaks/apkleaks.py:122-129 | LinkFinder emits exactly the stripped forms of the kept matches: each emitted secret comes from a kept match, and each kept match is emitted |
| `Report.AllNoiseStillRecorded` | apkleaks/apkleaks.py:118-132 | a LinkFinder batch the filter drops entirely writes only its header and blank line, yet is recorded with its raw matches |
| `Report.Expand` | apkleaks/apkleaks.py:142-155 | a scalar rule issues exactly one call and a list rule one per pattern, all under the rule's name |
| `Report.ScalarIsSingletonList` | apkleaks/apkleaks.py:142-155 | a scalar rule issues the same calls as a one-element list |
| `Report.Flatten` | apkleaks/apkleaks.py:142-155 | a rule set issues exactly as many calls as it has patterns |
| `Report.FlattenAppend` | apkleaks/apkleaks.py:142-155 | the calls of two rule sets in sequence are the calls of each, in order |
| `Report.BatchesOf` | apkleaks/apkleaks.py:146-152 | one `extract` batch per call |
| `Report.Aggregate` | apkleaks/apkleaks.py:131 | at most one result per batch, and every result holds at least one match |
| `Report.AggregateAppend` | apkleaks/apkleaks.py:131 | results are only appended, in dispatch order, and never reordered |
| `Report.AggregateExactly` | apkleaks/apkleaks.py:117-132 | the results are exactly the batches with a raw match, both directions |
| `Report.AggregateNonEmpty` | apkleaks/apkleaks.py:131-132 | the report is non-empty exactly when some batch had a raw match |
| `Report.NoMatchNoWrites` | apkleaks/apkleaks.py:118 | without any match nothing is written to the output file |
| `Report.JsonModeWritesNothing` | apkleaks/apkleaks.py:121-130 | in JSON mode the text of every `extract` write is empty |
| `Report.ExtractStep` | apkleaks/apkleaks.py:117-132 | one more `extract` adds that batch's result, writes and `scanned` condition to those of the earlier batches |

## Left out

- Threading (`apkleaks/apkleaks.py:146-147, 152-153`). Each `extract` runs in an unjoined thread. The model runs them one after the other in dispatch order, so it has no interleaving of writes and no race between `cleanup` and scans still in flight.
- `util.finder`, `util.writeln` and the colours. They live in modules that are not part of this model. `finder` is a function parameter, and console output has no effect.
- The jadx subprocess and the writes of its stderr into the output file (`apkleaks/apkleaks.py:99-115`). This is process I/O. Only the argument list is modelled.
- `apk_info` and the package parser. This is a foreign library; the package name is an `Option<string>`.
- `dependencies` and `integrity`. They are network and terminal I/O.
- Temporary directory and file creation, `copy_decompiled_files`, `rmtree` and `time.sleep`. They are filesystem I/O and a clock. Only the removal attempts and the branch taken are modelled.
- `json.load` of the rule file and `json.dumps`. The rule set is a sequence of `(name, Scalar | List)` in the file's key order, and the serialiser is a function parameter. A rule value that is neither a string nor a list is not modelled.
- `ApkLeaks.APKLeaks.Cleanup`: an `os.remove` error other than a permission error propagates out of `cleanup`. The model reports it as the last outcome, `OtherError`, and does not model the exception.
- `ApkLeaks.APKLeaks.Scanning`: `sys.exit` on a missing package is modelled as the result `false` with nothing changed.
- `ApkLeaks.APKLeaks.Extract`: it requires that `out_json` already holds a results list. Otherwise the source raises `KeyError`; `scanning` always sets the list up first.
- Text-mode output is opened for appending, so an existing file's earlier content is kept. The model starts from an empty file.
- `self.json is False` is read as a boolean flag. A non-boolean truthy or falsy value is not modelled.
