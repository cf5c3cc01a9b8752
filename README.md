# Function index of `generate_function_wiki.py`, in Dafny

This project models the text pipeline of `scripts/generate_function_wiki.py`, which builds
the function reference and the function update pages of the wiki. The pipeline works as
follows:

- It lists the source files of the repository. Files in skipped directories are dropped, and
  so are files whose suffix is not `.swift`, `.py`, `.sh`, `.bash` or `.zsh`. Each path is
  emitted once.
- It scans each file line by line for function declarations and records one
  `FunctionEntry(path, line, signature, language)` per declaration line.
  - In Swift and Python, a declaration may continue over up to 8 lines.
  - `clean_signature` collapses whitespace, cuts at `{` and drops one trailing `:`.
- It sorts all entries by `(path, line, signature)`.
- It reads the rows of `git diff --unified=0` and collects, per file, the cleaned
  signatures of added and removed declarations. Each list is deduplicated in
  first-occurrence order.
- It reads the rows of `git status --porcelain` and groups the entries of untracked source
  files by file.
- It tallies the entries per language and per file for the coverage section.

The modules follow the program:

- `Text`: the `str` operations used (`split`, `strip`, `" ".join`, prefixes and suffixes).
- `Signature`: `clean_signature`.
- `Distinct`: `dedupe`.
- `Paths`: `INCLUDE_EXTS`, `SKIP_DIR_NAMES`, `should_skip`, the pathlib suffix rule and the
  emit-once filter.
- `Entries`: what each parser must produce.
- `Parsers`: the three parsers and `parse_file`, written as loops.
- `Collect`: the sort in `collect_functions`.
- `Changes`: `find_changes_in_worktree`.
- `Report`: `untracked_function_files` and the counts of `write_reference`.

Each imperative routine is a `method` proved equal to a specification function. The
properties are proved about those functions.

The four declaration regexes are not interpreted. `Entries.Matchers` holds them as four
arbitrary predicates on strings, so every result holds whatever the patterns accept.
The diff header pattern `^\+\+\+ b/(.+)$` is modelled exactly: a row that starts with
`+++ b/` and has at least one more character. Rows come from `splitlines` and hold no line
break.

## Model

| member | source | states |
|---|---|---|
| Text.Strip | scripts/generate_function_wiki.py:106 | `str.strip()`: the result has no whitespace at either end, is a prefix of the input when the input does not start with whitespace, and is the input itself when it has no whitespace |
| Text.StripSlice | scripts/generate_function_wiki.py:106 | `str.strip()` returns the slice `s[a..b]` such that everything before `a` and from `b` on is whitespace |
| Text.Normalize | scripts/generate_function_wiki.py:89 | `" ".join(s.split())` has no leading, trailing or doubled whitespace |
| Text.NormalizeWords | scripts/generate_function_wiki.py:89 | normalising keeps the words of the input, in order |
| Text.NormalizeUnique | scripts/generate_function_wiki.py:89 | any tidy text with the same words as the input is its normalisation, so tidiness and the words pin the result |
| Text.NormalizeTidy | scripts/generate_function_wiki.py:89 | normalising text that is already normalised returns it unchanged |
| Signature.CleanSignature | scripts/generate_function_wiki.py:88-94 | the cleaned signature has no `{` and no stray whitespace, and it is a prefix of the normalised input |
| Signature.CleanSignatureCuts | scripts/generate_function_wiki.py:88-94 | take the normalised text before the first `{` (all of it when there is none). Cleaning removes from it only one trailing `:`, with at most one space on each side of that colon, or else at most one trailing space; when no colon is removed, the result does not end in `:` |
| Signature.CleanSignatureDetermined | scripts/generate_function_wiki.py:88-94 | any tidy text that the normalised text before the first `{` reduces to by such a cut is the cleaned signature, so the cut pins its value |
| Signature.CleanSignatureIdempotence | scripts/generate_function_wiki.py:92-93 | cleaning twice gives the same result exactly when the first result does not end in `:` |
| Signature.CleanSignatureOfWord | scripts/generate_function_wiki.py:92-93 | a signature without whitespace or `{` loses exactly one trailing `:`, if it has one, and is otherwise unchanged |
| Signature.DoubleColonNotIdempotent | scripts/generate_function_wiki.py:92-93 | on a word ending in `::`, one cleaning removes one colon and a second cleaning removes the other, so `clean_signature` is not idempotent |
| Distinct.Dedup | scripts/generate_function_wiki.py:261-269 | the deduplicated list has no repeats and holds exactly the values of the input |
| Distinct.DedupFirstOccurrenceOrder | scripts/generate_function_wiki.py:261-269 | the values come out in the order of their first occurrence in the input |
| Distinct.Dedupe | scripts/generate_function_wiki.py:261-269 | the `seen`/`result` loop computes `Dedup`: no repeats, every input value present, first-occurrence order |
| Paths.ShouldSkip | scripts/generate_function_wiki.py:52-56 | a path is skipped exactly when one of its components is in `SKIP_DIR_NAMES` |
| Paths.NameSuffix | scripts/generate_function_wiki.py:69 | pathlib's suffix is empty, or it starts at the last `.` of the name, that dot is neither first nor last, and no other dot follows it |
| Paths.EligibleMembers | scripts/generate_function_wiki.py:67-69 | a candidate passes the filter exactly when it is not skipped and its suffix is indexed |
| Paths.EmitStep | scripts/generate_function_wiki.py:69-71 | one more candidate is emitted exactly when it qualifies and has not been emitted before |
| Paths.EmitSourceFiles | scripts/generate_function_wiki.py:59-85 | the emit-once loop yields the qualifying candidates, each once, at first appearance: no repeats, and a path is emitted exactly when it is a candidate that qualifies |
| Entries.PythonSignatureLinesExactly | scripts/generate_function_wiki.py:148-160 | the lines gathered for a Python declaration are exactly the list described by `PythonShape`: 1 to 8 consecutive stripped lines; no blank or `#` continuation; only the last may end in `:`; gathering stopped at 8 lines, end of file, a `:`, or a blank or comment line |
| Entries.SwiftSignatureLinesExactly | scripts/generate_function_wiki.py:105-124 | the lines gathered for a Swift declaration are exactly the list described by `SwiftShape`: 1 to 8 consecutive stripped lines; no blank or `//` continuation; only the last may hold `{` or close the header with `)`, `throws` or `rethrows`; gathering stopped for one of those reasons |
| Entries.EntriesSound | scripts/generate_function_wiki.py:97-193 | every entry comes from a declaration line. Its line is that line's index plus 1, and its signature is the one built for that line |
| Entries.EntriesComplete | scripts/generate_function_wiki.py:97-193 | every declaration line yields an entry with its line number and signature |
| Entries.EntriesOrdered | scripts/generate_function_wiki.py:97-193 | entry lines lie between 1 and the number of lines and strictly increase |
| Entries.FileEntriesOnePerDeclaration | scripts/generate_function_wiki.py:97-193 | a file's entries are exactly one per declaration line, numbered from 1, in strictly increasing line order |
| Parsers.GatherPythonSignature | scripts/generate_function_wiki.py:149-160 | the continuation loop returns the lines `PythonSignatureLinesExactly` characterises |
| Parsers.GatherSwiftSignature | scripts/generate_function_wiki.py:106-124 | the continuation loop, peek included, returns the lines `SwiftSignatureLinesExactly` characterises |
| Parsers.PythonEntryAt | scripts/generate_function_wiki.py:146-170 | a matching line yields one entry with line `i + 1` and the cleaned joined signature; any other line yields none |
| Parsers.SwiftEntryAt | scripts/generate_function_wiki.py:103-134 | a matching line yields one entry with line `i + 1` and the cleaned joined signature; any other line yields none |
| Parsers.ParsePython | scripts/generate_function_wiki.py:140-173 | `parse_python` returns exactly the file's entries as `FileEntries` describes them |
| Parsers.ParseSwift | scripts/generate_function_wiki.py:97-137 | `parse_swift` returns exactly the file's entries as `FileEntries` describes them |
| Parsers.ParseShell | scripts/generate_function_wiki.py:176-193 | `parse_shell` returns exactly the file's entries as `FileEntries` describes them |
| Parsers.ParseFile | scripts/generate_function_wiki.py:196-201 | `.swift` files get the Swift parser, `.py` files the Python parser and all others the shell parser |
| Collect.Insert | scripts/generate_function_wiki.py:211 | inserting into a sorted list keeps it sorted by `(path, line, signature)` and adds exactly the one entry |
| Collect.SortByKey | scripts/generate_function_wiki.py:211 | the result is sorted by `(path, line, signature)` with Python's string order, and is a permutation of the input |
| Collect.AllEntriesFromFiles | scripts/generate_function_wiki.py:204-210 | every collected entry belongs to a listed file with the same path and is one of that file's entries |
| Collect.CollectFunctions | scripts/generate_function_wiki.py:204-211 | the result is the sorted permutation of the entries of every readable file; unreadable files contribute nothing |
| Changes.FileAtExactly | scripts/generate_function_wiki.py:229-233 | a row is charged to file `f` exactly when the last section header before it names `f`. A section header is either `+++ b/f` or `+++ /dev/null` directly after `--- a/f` |
| Changes.NoFileBeforeFirstHeader | scripts/generate_function_wiki.py:235-236 | before the first section header no file is current, under either tracking |
| Changes.TrackersAgreeWithoutDeletion | scripts/generate_function_wiki.py:229-233 | when no `+++ /dev/null` row has been seen, the corrected tracking and the source's tracking agree |
| Changes.NothingBeforeFirstHeader | scripts/generate_function_wiki.py:235-236 | rows before the first section header (`+++ b/<path>` or `+++ /dev/null`) record no change, under either tracking |
| Changes.NoHeaderFileBeforeFirstFileHeader | scripts/generate_function_wiki.py:229-236 | as written, no file is current before the first `+++ b/<path>` row, even when `+++ /dev/null` rows come earlier |
| Changes.NothingBeforeFirstFileHeaderAsWritten | scripts/generate_function_wiki.py:229-236 | as written, every row up to and including the first `+++ b/<path>` row records no change |
| Changes.DeletedFileChargedToPrevious | scripts/generate_function_wiki.py:229-258 | as written, a declaration removed together with its deleted file is recorded as removed from the file of the previous section. With the correction it is recorded for the deleted file |
| Changes.DeletedFileInRemovedDictionary | scripts/generate_function_wiki.py:229-271 | on the same diff, the source's `removed` dictionary lists the declaration under `a.py`, and the corrected one lists it under `b.py` |
| Changes.AsWrittenAgreesWithoutDeletion | scripts/generate_function_wiki.py:214-271 | on a diff with no `+++ /dev/null` row, the corrected dictionaries equal the ones the source returns |
| Changes.ChangeAtExactly | scripts/generate_function_wiki.py:238-258 | a row records a change exactly when all of these hold: it lies in the section of a file with an indexed suffix; it starts with `+` (added) or `-` (removed) but not `+++` or `---`; the text after the marker is a declaration for that file. The change holds the cleaned, stripped text |
| Changes.CollectedMeaning | scripts/generate_function_wiki.py:251-258 | only files with a change get a list, and a signature is listed for a file and side exactly when some row records it |
| Changes.WorktreeChangesMeaning | scripts/generate_function_wiki.py:260-271 | each returned list is non-empty and has no repeats. It holds exactly the signatures some row records for that file and side. Of any two signatures in it, the earlier one is recorded by a row that comes before every row recording the later one |
| Changes.ListIsDedupOfRecorded | scripts/generate_function_wiki.py:251-271 | each returned list is the signatures the rows record for that file and side, in row order, deduplicated by first occurrence |
| Changes.DedupeValues | scripts/generate_function_wiki.py:271 | every list of the dictionary is replaced by its deduplicated version, and the keys are unchanged |
| Changes.ClassifyRow | scripts/generate_function_wiki.py:235-258 | the checks on a non-header row compute `Classify` |
| Changes.DiffRow | scripts/generate_function_wiki.py:228-258 | one pass of the loop: the tracked file moves to the next row's section, and the row's change, if any, is appended on its side |
| Changes.FindChangesInWorktree | scripts/generate_function_wiki.py:214-271 | a failed `git diff` gives two empty dictionaries. Otherwise the loop and the final deduplication give the added and removed dictionaries `WorktreeChanges` describes |
| Report.EntriesAtMembers | scripts/generate_function_wiki.py:294-296 | a file's list holds exactly the entries whose path is that file |
| Report.GroupedMeaning | scripts/generate_function_wiki.py:293-297 | the grouping has a list exactly for the selected files that hold an entry, and the list is that file's entries in index order |
| Report.UntrackedFunctionFiles | scripts/generate_function_wiki.py:274-297 | a failed `git status` gives an empty result. Otherwise the untracked set is built from the `?? ` rows with an indexed suffix, and the entries are grouped by file for those paths |
| Report.UntrackedFunctionFilesMeaning | scripts/generate_function_wiki.py:285-297 | a file is listed exactly when it holds an entry and some `?? ` row names it with an indexed suffix, and it is listed with all its entries in order |
| Report.CoverageCounts | scripts/generate_function_wiki.py:303-307 | the tally loop computes `ByLang` and `ByFile` |
| Report.ByLangMeaning | scripts/generate_function_wiki.py:306 | a language is counted exactly when some entry uses it, and its count is the number of such entries |
| Report.CountsAddUpToTotal | scripts/generate_function_wiki.py:320-322 | the Swift, Python and Shell counts add up to the total number of entries |
| Report.ByFileMeaning | scripts/generate_function_wiki.py:307 | a file is listed exactly when some entry lies in it, with its entries in index order, and there are never more files than entries |

## Left out

- Running `git diff` and `git status` is not modelled. Their output is an input
  (`Option<seq<string>>`), and `None` stands for the exception path that returns empty
  results.
- Walking the filesystem is not modelled: the globs, `rglob`, `is_file`, `exists` and
  `relative_to`. `Paths.EmitSourceFiles` takes the candidate paths in the order the globs
  produce them.
- Reading files is not modelled either. A file arrives as its lines, and an unreadable file
  (the `except Exception: continue` in `collect_functions`) is `None`.
- The `sorted(...)` of paths in `collect_functions` is not modelled. The entries are
  sorted by their full key afterwards, so the order in which files are read does not show
  in the result.
- Sort stability is not claimed. It does not matter for the result: entries with equal
  keys share path and line, so they come from the same line of the same file and are
  equal.
- The declaration regexes (`SWIFT_PATTERN`, `PYTHON_PATTERN`, `SHELL_PATTERN_A`,
  `SHELL_PATTERN_B`) are uninterpreted predicates. The properties hold for any patterns.
- Markdown rendering in `write_reference` and `write_updates` is not modelled. That covers
  the headings, sorting files and languages for display, the `(path, signature)` lookup
  that adds line numbers to added signatures, timestamps and writing the pages. Only the
  counts and groupings those pages print are modelled.
- Paths are relative strings split on `/`. Absolute paths and Windows separators are not
  modelled.
- `scripts/convert_omniparser_to_coreml.py` is not part of this model. It only parses
  arguments and calls into a foreign model-export library.
- Changes.FindChangesInWorktree: it uses the corrected tracking of "## Findings". After a
  `+++ /dev/null` row it charges rows to the file the `--- a/` row just before names; the
  source keeps the previous file. The source's own result is `WorktreeChangesAsWritten`. The
  two agree on every diff that deletes no file (`Changes.AsWrittenAgreesWithoutDeletion`).
- Languages are the datatype `Swift | Python | Shell` rather than the strings `"Swift"`,
  `"Python"` and `"Shell"`.

## Findings

| source | as written | input that shows it | evidently intended | confidence | as-written member | corrected member |
|---|---|---|---|---|---|---|
| scripts/generate_function_wiki.py:229-233 | `current_file` changes only on a `+++ b/<file>` header. The `+++ /dev/null` header of a file deleted in the worktree leaves it unchanged | diff rows `+++ b/a.py`, `--- a/b.py`, `+++ /dev/null`, `-def g():`. `def g()` is reported as removed from `a.py`, which still has it | the removed declarations of a deleted file are listed under that file, as the "Removed Signatures" section lists every other removal under its own file | medium, not executed | Changes.ChangeAtAsWritten and Changes.WorktreeChangesAsWritten (shown by Changes.DeletedFileChargedToPrevious and Changes.DeletedFileInRemovedDictionary) | Changes.ChangeAt (proved by Changes.FileAtExactly and Changes.ChangeAtExactly; used by Changes.FindChangesInWorktree) |

With the correction, a `+++ /dev/null` row opens the section of the deleted file. Git writes
the `--- a/<path>` row naming that file directly before it, and the removed declarations are
charged to that path. Every other row is handled as the source handles it.
`Changes.TrackersAgreeWithoutDeletion` proves that the two trackings agree until a deleted
file appears, and `Changes.AsWrittenAgreesWithoutDeletion` lifts that to the returned
dictionaries.
