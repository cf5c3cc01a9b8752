/** `find_changes_in_worktree`: the declarations added and removed per file in the
    output of `git diff --unified=0`, read row by row, each file's list deduplicated in
    first-occurrence order. The diff arrives as its rows, or `None` when git failed. */
module Changes {
  import opened Text
  import opened Signature
  import opened Distinct
  import opened Paths
  import opened Entries
  import opened Wrappers

  /** A row `DIFF_FILE_PATTERN` matches: `+++ b/` and at least one more character
      (rows never hold a line break, so `.+` takes the whole rest). */
  predicate IsFileHeader(raw: string) {
    StartsWith(raw, "+++ b/") && |raw| > 6
  }

  /** The new-side header git writes for a file deleted in the worktree. */
  const DevNullHeader: string := "+++ /dev/null"

  /** The file named by the last `+++ b/` header among the first `j` rows: the value
      `current_file` holds in the source when it reaches row `j`. */
  function HeaderFileAt(rows: seq<string>, j: nat): Option<string>
    requires j <= |rows|
  {
    if j == 0 then None
    else if IsFileHeader(rows[j - 1]) then Some(rows[j - 1][6..])
    else HeaderFileAt(rows, j - 1)
  }

  /** A row naming the old side of a file (`--- a/<path>`), which git writes just
      before `+++ /dev/null` when the file is deleted. */
  predicate IsOldFileHeader(raw: string) {
    StartsWith(raw, "--- a/") && |raw| > 6
  }

  /** A row that starts a file section: `+++ b/<path>`, or `+++ /dev/null` for a
      deleted file. */
  predicate IsSectionHeader(raw: string) {
    IsFileHeader(raw) || raw == DevNullHeader
  }

  /** The file of the section header at row `h`: the new path of a `+++ b/` header; for
      `+++ /dev/null`, the deleted file the `--- a/` row just before it names, if any. */
  function SectionFile(rows: seq<string>, h: nat): Option<string>
    requires h < |rows|
  {
    if IsFileHeader(rows[h]) then Some(rows[h][6..])
    else if h > 0 && IsOldFileHeader(rows[h - 1]) then Some(rows[h - 1][6..])
    else None
  }

  /** The file whose section row `j` lies in: like `HeaderFileAt`, except that the rows
      after `+++ /dev/null` belong to the deleted file. */
  function FileAt(rows: seq<string>, j: nat): Option<string>
    requires j <= |rows|
  {
    if j == 0 then None
    else if IsSectionHeader(rows[j - 1]) then SectionFile(rows, j - 1)
    else FileAt(rows, j - 1)
  }

  /** Row `h` opens the file section that holds row `j`: it is a section header and no
      other section header comes between. */
  predicate OpensSection(rows: seq<string>, h: nat, j: nat)
    requires j <= |rows|
  {
    && h < j
    && IsSectionHeader(rows[h])
    && forall i :: h < i < j ==> !IsSectionHeader(rows[i])
  }

  /** Row `j` is in the section of file `f` exactly when a section header for `f` opens
      a section that still holds it. */
  lemma {:induction false} FileAtExactly(rows: seq<string>, j: nat, f: string)
    requires j <= |rows|
    ensures FileAt(rows, j) == Some(f) <==> exists h: nat :: OpensSection(rows, h, j) && SectionFile(rows, h) == Some(f)
  {
    if j > 0 {
      var r := rows[j - 1];
      if IsSectionHeader(r) {
        if FileAt(rows, j) == Some(f) {
          assert OpensSection(rows, j - 1, j);
        }
        forall h: nat | OpensSection(rows, h, j) && SectionFile(rows, h) == Some(f)
          ensures FileAt(rows, j) == Some(f)
        {
        }
      } else {
        FileAtExactly(rows, j - 1, f);
        if FileAt(rows, j) == Some(f) {
          var h: nat :| OpensSection(rows, h, j - 1) && SectionFile(rows, h) == Some(f);
          assert OpensSection(rows, h, j);
        }
        forall h: nat | OpensSection(rows, h, j) && SectionFile(rows, h) == Some(f)
          ensures FileAt(rows, j) == Some(f)
        {
          assert OpensSection(rows, h, j - 1);
        }
      }
    }
  }

  /** Rows before the first section header lie in no file section. */
  lemma {:induction false} NoFileBeforeFirstHeader(rows: seq<string>, j: nat)
    requires j <= |rows|
    requires forall i :: 0 <= i < j ==> !IsSectionHeader(rows[i])
    ensures FileAt(rows, j) == None && HeaderFileAt(rows, j) == None
  {
    if j > 0 {
      NoFileBeforeFirstHeader(rows, j - 1);
    }
  }

  /** Without a deleted file among the first `j` rows, both trackers agree. */
  lemma {:induction false} TrackersAgreeWithoutDeletion(rows: seq<string>, j: nat)
    requires j <= |rows|
    requires forall i :: 0 <= i < j ==> rows[i] != DevNullHeader
    ensures FileAt(rows, j) == HeaderFileAt(rows, j)
  {
    if j > 0 {
      TrackersAgreeWithoutDeletion(rows, j - 1);
    }
  }

  /** `is_func_signature(text, path)`: the Swift pattern for paths ending in `.swift`,
      the Python pattern for `.py`, otherwise either shell pattern on the stripped text. */
  predicate IsFuncSignature(m: Matchers, text: string, path: string) {
    if EndsWith(path, ".swift") then m.swift(text)
    else if EndsWith(path, ".py") then m.python(text)
    else m.shellA(Strip(text)) || m.shellB(Strip(text))
  }

  datatype Side = Added | Removed

  /** A cleaned signature added to or removed from a file. */
  datatype Change = Change(side: Side, file: string, signature: string)

  /** What one non-header row contributes, given the file whose section it is in:
      nothing outside a file, in a file whose suffix is not indexed, on `+++`, `---`
      and `@@` rows, or when the text after the marker is not a declaration. */
  function Classify(m: Matchers, file: Option<string>, raw: string): Option<Change> {
    if file.None? then None
    else if Suffix(file.value) !in IncludeExts then None
    else if StartsWith(raw, "+++") || StartsWith(raw, "---") || StartsWith(raw, "@@") then None
    else if StartsWith(raw, "+") then
      if IsFuncSignature(m, raw[1..], file.value)
      then Some(Change(Added, file.value, CleanSignature(Strip(raw[1..]))))
      else None
    else if StartsWith(raw, "-") then
      if IsFuncSignature(m, raw[1..], file.value)
      then Some(Change(Removed, file.value, CleanSignature(Strip(raw[1..]))))
      else None
    else None
  }

  /** The change row `j` records, files tracked as the source tracks them. */
  function ChangeAtAsWritten(m: Matchers, rows: seq<string>, j: nat): Option<Change>
    requires j < |rows|
  {
    if IsFileHeader(rows[j]) then None else Classify(m, HeaderFileAt(rows, j), rows[j])
  }

  /** The change row `j` records, charged to the file whose section holds it. */
  function ChangeAt(m: Matchers, rows: seq<string>, j: nat): Option<Change>
    requires j < |rows|
  {
    if IsFileHeader(rows[j]) then None else Classify(m, FileAt(rows, j), rows[j])
  }

  /** When a file is deleted in the worktree, the rows that remove its declarations
      follow `--- a/<path>` and `+++ /dev/null`; as written they are charged to the file
      of the section before, which never lost them, and corrected to the deleted file. */
  lemma DeletedFileChargedToPrevious(m: Matchers, line: string)
    requires m.python(line) && line != [] && line[0] != '-'
    ensures var rows := ["+++ b/a.py", "--- a/b.py", DevNullHeader, "-" + line];
      && ChangeAtAsWritten(m, rows, 3) == Some(Change(Removed, "a.py", CleanSignature(Strip(line))))
      && ChangeAt(m, rows, 3) == Some(Change(Removed, "b.py", CleanSignature(Strip(line))))
  {
    var rows := ["+++ b/a.py", "--- a/b.py", DevNullHeader, "-" + line];
    TrackersAfterDeletion(rows);
    RemovedPythonRow(m, "a.py", "-" + line, line);
    RemovedPythonRow(m, "b.py", "-" + line, line);
  }

  /** The two trackers after a `+++ b/a.py` section and the headers of a deleted `b.py`. */
  lemma TrackersAfterDeletion(rows: seq<string>)
    requires |rows| == 4 && rows[0] == "+++ b/a.py" && rows[1] == "--- a/b.py" && rows[2] == DevNullHeader
    requires rows[3] != [] && rows[3][0] == '-'
    ensures !IsFileHeader(rows[3]) && HeaderFileAt(rows, 3) == Some("a.py") && FileAt(rows, 3) == Some("b.py")
  {
    assert IsFileHeader(rows[0]) && rows[0][6..] == "a.py";
    NotPrefixAt(rows[1], "+++ b/", 0);
    NotPrefixAt(rows[2], "+++ b/", 4);
    NotPrefixAt(rows[3], "+++ b/", 0);
    assert rows[3] != DevNullHeader;
    assert IsOldFileHeader(rows[1]) && rows[1][6..] == "b.py";
    assert SectionFile(rows, 2) == Some("b.py");
    assert HeaderFileAt(rows, 1) == Some("a.py");
    assert HeaderFileAt(rows, 2) == Some("a.py");
  }

  /** A row removing a Python declaration counts for a Python file. */
  lemma RemovedPythonRow(m: Matchers, file: string, raw: string, line: string)
    requires file == "a.py" || file == "b.py"
    requires raw == "-" + line && m.python(line) && line != [] && line[0] != '-'
    ensures Classify(m, Some(file), raw) == Some(Change(Removed, file, CleanSignature(Strip(line))))
  {
    SuffixOfPy(file);
    assert raw[1..] == line && raw[1] == line[0];
    NotPrefixAt(raw, "---", 1);
    assert IsFuncSignature(m, line, file) by {
      assert EndsWith(file, ".py") && !EndsWith(file, ".swift");
    }
    ClassifyRemoved(m, file, raw);
  }

  /** A `-` row that is not `---` and holds a declaration, in an indexed file, records
      its removal. */
  lemma ClassifyRemoved(m: Matchers, file: string, raw: string)
    requires raw != [] && raw[0] == '-' && !StartsWith(raw, "---")
    requires Suffix(file) in IncludeExts && IsFuncSignature(m, raw[1..], file)
    ensures Classify(m, Some(file), raw) == Some(Change(Removed, file, CleanSignature(Strip(raw[1..]))))
  {
    NotPrefixAt(raw, "+++", 0);
    NotPrefixAt(raw, "@@", 0);
    NotPrefixAt(raw, "+", 0);
    assert StartsWith(raw, "-");
  }

  lemma NotPrefixAt(s: string, p: string, i: nat)
    requires i < |s| && i < |p| && s[i] != p[i]
    ensures !StartsWith(s, p)
  {
  }

  lemma SuffixOfPy(file: string)
    requires file == "a.py" || file == "b.py"
    ensures Suffix(file) == ".py"
  {
    if file == "a.py" {
      assert SplitOn("a.py", '/') == ["a.py"];
      assert Parts("a.py") == ["a.py"];
      assert LastIndexOf("a.py", '.') == 1;
    } else {
      assert SplitOn("b.py", '/') == ["b.py"];
      assert Parts("b.py") == ["b.py"];
      assert LastIndexOf("b.py", '.') == 1;
    }
  }

  /** Rows before the first section header record nothing. */
  lemma NothingBeforeFirstHeader(m: Matchers, rows: seq<string>, j: nat)
    requires j < |rows|
    requires forall i :: 0 <= i <= j ==> !IsSectionHeader(rows[i])
    ensures ChangeAt(m, rows, j) == None && ChangeAtAsWritten(m, rows, j) == None
  {
    NoFileBeforeFirstHeader(rows, j);
  }

  /** As written, only a `+++ b/<path>` row sets the current file, so before the first
      such row no file is current, whatever `+++ /dev/null` rows come earlier. */
  lemma {:induction false} NoHeaderFileBeforeFirstFileHeader(rows: seq<string>, j: nat)
    requires j <= |rows|
    requires forall i :: 0 <= i < j ==> !IsFileHeader(rows[i])
    ensures HeaderFileAt(rows, j) == None
  {
    if j > 0 {
      NoHeaderFileBeforeFirstFileHeader(rows, j - 1);
    }
  }

  /** As written, rows up to and including the first `+++ b/<path>` row record nothing. */
  lemma NothingBeforeFirstFileHeaderAsWritten(m: Matchers, rows: seq<string>, j: nat)
    requires j < |rows|
    requires forall i :: 0 <= i < j ==> !IsFileHeader(rows[i])
    ensures ChangeAtAsWritten(m, rows, j) == None
  {
    NoHeaderFileBeforeFirstFileHeader(rows, j);
  }

  /** An independent reading of a row that records a change: it sits in the section of
      an indexed file, carries the side's marker and not the marker tripled, and the
      text after the marker is a declaration, recorded cleaned. */
  predicate RecordsChange(m: Matchers, rows: seq<string>, j: nat, c: Change)
    requires j < |rows|
  {
    var raw := rows[j];
    var mark := if c.side == Added then '+' else '-';
    && FileAt(rows, j) == Some(c.file)
    && Suffix(c.file) in IncludeExts
    && raw != [] && raw[0] == mark
    && !StartsWith(raw, [mark, mark, mark])
    && IsFuncSignature(m, raw[1..], c.file)
    && c.signature == CleanSignature(Strip(raw[1..]))
  }

  lemma ChangeAtExactly(m: Matchers, rows: seq<string>, j: nat, c: Change)
    requires j < |rows|
    ensures ChangeAt(m, rows, j) == Some(c) <==> RecordsChange(m, rows, j, c)
  {
    var raw := rows[j];
    if raw != [] {
      assert StartsWith(raw, "+") <==> raw[0] == '+';
      assert StartsWith(raw, "-") <==> raw[0] == '-';
      assert StartsWith(raw, "@@") ==> raw[0] == '@';
      assert StartsWith(raw, "+++") ==> raw[0] == '+';
      assert StartsWith(raw, "---") ==> raw[0] == '-';
      assert IsFileHeader(raw) ==> StartsWith(raw, "+++");
    }
  }

  /** `lists[key].append(v)` on a `defaultdict(list)`. */
  function Append(lists: map<string, seq<string>>, key: string, v: string): map<string, seq<string>> {
    lists[key := (if key in lists then lists[key] else []) + [v]]
  }

  /** What every row records, row by row. */
  function RowChanges(m: Matchers, rows: seq<string>): (cs: seq<Option<Change>>)
    ensures |cs| == |rows|
    ensures forall j :: 0 <= j < |rows| ==> cs[j] == ChangeAt(m, rows, j)
  {
    seq(|rows|, j requires 0 <= j < |rows| => ChangeAt(m, rows, j))
  }

  /** The `added` (or `removed`) dictionary once the first `k` recorded changes `cs`
      are appended. */
  function Collected(cs: seq<Option<Change>>, side: Side, k: nat): map<string, seq<string>>
    requires k <= |cs|
  {
    if k == 0 then map[] else Record(Collected(cs, side, k - 1), cs[k - 1], side)
  }

  /** The `added` (or `removed`) dictionary after a row that records `change`: the
      signature is appended to its file's list when the change is on that side. */
  function Record(lists: map<string, seq<string>>, change: Option<Change>, side: Side): map<string, seq<string>> {
    if change.Some? && change.value.side == side
    then Append(lists, change.value.file, change.value.signature)
    else lists
  }

  /** Only files with at least one change get a list, and a signature is listed for a
      file exactly when some change records it for that file on that side. */
  lemma {:induction false} CollectedMeaning(cs: seq<Option<Change>>, side: Side, k: nat)
    requires k <= |cs|
    ensures forall f :: f in Collected(cs, side, k) ==> Collected(cs, side, k)[f] != []
    ensures forall f, s :: (f in Collected(cs, side, k) && s in Collected(cs, side, k)[f]) <==>
      (exists j :: 0 <= j < k && cs[j] == Some(Change(side, f, s)))
  {
    if k > 0 {
      CollectedMeaning(cs, side, k - 1);
      var before := Collected(cs, side, k - 1);
      var after := Collected(cs, side, k);
      forall f, s
        ensures f in after && s in after[f] <==> exists j :: 0 <= j < k && cs[j] == Some(Change(side, f, s))
      {
        var c := Some(Change(side, f, s));
        assert f in after && s in after[f] <==> (f in before && s in before[f]) || cs[k - 1] == c by {
          if cs[k - 1].Some? && cs[k - 1].value.side == side {
            AppendMembers(before, cs[k - 1].value.file, cs[k - 1].value.signature, f, s);
          }
        }
        if cs[k - 1] != c {
          assert (exists j :: 0 <= j < k && cs[j] == c) <==> (exists j :: 0 <= j < k - 1 && cs[j] == c);
        }
      }
    }
  }

  lemma AppendMembers(lists: map<string, seq<string>>, key: string, v: string, f: string, s: string)
    ensures f in Append(lists, key, v) && s in Append(lists, key, v)[f]
      <==> (f in lists && s in lists[f]) || (f == key && s == v)
    ensures key in Append(lists, key, v) && Append(lists, key, v)[key] != []
  {
  }

  /** What a row that is not a `+++ b/` header does to the tracked file. */
  lemma RowStep(rows: seq<string>, j: nat)
    requires j < |rows| && !IsFileHeader(rows[j])
    ensures FileAt(rows, j + 1) == if rows[j] != DevNullHeader then FileAt(rows, j)
      else if j > 0 && IsOldFileHeader(rows[j - 1]) then Some(rows[j - 1][6..]) else None
  {
  }

  /** `{k: dedupe(v) for k, v in lists.items()}` */
  function DedupValues(lists: map<string, seq<string>>): map<string, seq<string>> {
    map f | f in lists :: Dedup(lists[f])
  }

  /** The dictionary `find_changes_in_worktree` returns for one side. */
  function WorktreeChanges(m: Matchers, rows: seq<string>, side: Side): map<string, seq<string>> {
    DedupValues(Collected(RowChanges(m, rows), side, |rows|))
  }

  /** Each file listed has a non-empty list without repeats, holding exactly the
      signatures some row records for that file on that side, in the order their first
      recording rows come in the diff. */
  lemma WorktreeChangesMeaning(m: Matchers, rows: seq<string>, side: Side)
    ensures forall f :: f in WorktreeChanges(m, rows, side) ==>
      WorktreeChanges(m, rows, side)[f] != [] && NoDuplicates(WorktreeChanges(m, rows, side)[f])
    ensures forall f, s :: (f in WorktreeChanges(m, rows, side) && s in WorktreeChanges(m, rows, side)[f]) <==>
      (exists j :: 0 <= j < |rows| && ChangeAt(m, rows, j) == Some(Change(side, f, s)))
    ensures forall f, a, b :: f in WorktreeChanges(m, rows, side) && 0 <= a < b < |WorktreeChanges(m, rows, side)[f]| ==>
      RecordedFirst(RowChanges(m, rows), Change(side, f, WorktreeChanges(m, rows, side)[f][a]),
                    Change(side, f, WorktreeChanges(m, rows, side)[f][b]))
  {
    var cs := RowChanges(m, rows);
    CollectedMeaning(cs, side, |rows|);
    var raw := Collected(cs, side, |rows|);
    forall f | f in raw
      ensures Dedup(raw[f]) != []
    {
      assert raw[f][0] in Dedup(raw[f]);
    }
    var w := WorktreeChanges(m, rows, side);
    forall f, a, b | f in w && 0 <= a < b < |w[f]|
      ensures RecordedFirst(RowChanges(m, rows), Change(side, f, w[f][a]), Change(side, f, w[f][b]))
    {
      ListInRowOrder(m, rows, side, f, a, b);
    }
  }

  /** One pair of a listed file's signatures: the earlier one is recorded first. */
  lemma ListInRowOrder(m: Matchers, rows: seq<string>, side: Side, f: string, a: nat, b: nat)
    requires f in WorktreeChanges(m, rows, side) && a < b < |WorktreeChanges(m, rows, side)[f]|
    ensures RecordedFirst(RowChanges(m, rows), Change(side, f, WorktreeChanges(m, rows, side)[f][a]),
                          Change(side, f, WorktreeChanges(m, rows, side)[f][b]))
  {
    ListIsDedupOfRecorded(m, rows, side);
    DedupedInRowOrder(RowChanges(m, rows), side, f, a, b);
  }

  /** Each file's list is its recorded signatures in row order, deduplicated. */
  lemma ListIsDedupOfRecorded(m: Matchers, rows: seq<string>, side: Side)
    ensures forall f :: f in WorktreeChanges(m, rows, side) ==>
      WorktreeChanges(m, rows, side)[f] == Dedup(Recorded(RowChanges(m, rows), side, f, |rows|))
  {
    CollectedInRowOrder(RowChanges(m, rows), side, |rows|);
  }

  /** In the deduplicated recorded signatures, an earlier one is recorded by an earlier
      row than any row recording a later one. */
  lemma DedupedInRowOrder(cs: seq<Option<Change>>, side: Side, f: string, a: nat, b: nat)
    requires a < b < |Dedup(Recorded(cs, side, f, |cs|))|
    ensures var d := Dedup(Recorded(cs, side, f, |cs|));
      RecordedFirst(cs, Change(side, f, d[a]), Change(side, f, d[b]))
  {
    var r := Recorded(cs, side, f, |cs|);
    var d := Dedup(r);
    DedupFirstOccurrenceOrder(r);
    assert d[a] in r && d[b] in r;
    FirstIndexOccursBefore(r, d[a], d[b]);
    RecordedBefore(cs, side, f, |cs|, d[a], d[b]);
  }

  /** Some row records `c` before any row records `d`. */
  predicate RecordedFirst(cs: seq<Option<Change>>, c: Change, d: Change) {
    exists j :: 0 <= j < |cs| && cs[j] == Some(c)
      && forall i :: 0 <= i <= j ==> cs[i] != Some(d)
  }

  /** The signatures the first `k` recorded changes record for file `f` on `side`, in
      row order, repeats kept. */
  function Recorded(cs: seq<Option<Change>>, side: Side, f: string, k: nat): seq<string>
    requires k <= |cs|
  {
    if k == 0 then []
    else
      var c := cs[k - 1];
      Recorded(cs, side, f, k - 1)
        + (if c.Some? && c.value.side == side && c.value.file == f then [c.value.signature] else [])
  }

  /** Before deduplication, a file's list is its recorded signatures in row order. */
  lemma {:induction false} CollectedInRowOrder(cs: seq<Option<Change>>, side: Side, k: nat)
    requires k <= |cs|
    ensures forall f :: f in Collected(cs, side, k) <==> Recorded(cs, side, f, k) != []
    ensures forall f :: f in Collected(cs, side, k) ==> Collected(cs, side, k)[f] == Recorded(cs, side, f, k)
  {
    if k > 0 {
      CollectedInRowOrder(cs, side, k - 1);
    }
  }

  /** A signature is recorded for `f` exactly when some row among the first `k` records it. */
  lemma RecordedMembers(cs: seq<Option<Change>>, side: Side, f: string, k: nat)
    requires k <= |cs|
    ensures forall s :: s in Recorded(cs, side, f, k) <==> exists j :: 0 <= j < k && cs[j] == Some(Change(side, f, s))
  {
    CollectedMeaning(cs, side, k);
    CollectedInRowOrder(cs, side, k);
  }

  /** `x` occurs in `r` at a position up to which `y` has not occurred. */
  predicate OccursBefore(r: seq<string>, x: string, y: string) {
    exists ix :: 0 <= ix < |r| && r[ix] == x && y !in r[..ix + 1]
  }

  /** Of two values in `r`, the one that first occurs earlier occurs before the other. */
  lemma FirstIndexOccursBefore(r: seq<string>, x: string, y: string)
    requires x in r && y in r && FirstIndex(r, x) < FirstIndex(r, y)
    ensures OccursBefore(r, x, y)
  {
    var ix, iy := FirstIndex(r, x), FirstIndex(r, y);
    assert r[..ix + 1] == r[..iy][..ix + 1];
  }

  /** A signature that the recorded list holds before another is recorded by an earlier
      row than any row recording the other. */
  lemma {:induction false} RecordedBefore(cs: seq<Option<Change>>, side: Side, f: string, k: nat, x: string, y: string)
    requires k <= |cs|
    requires OccursBefore(Recorded(cs, side, f, k), x, y)
    ensures exists j :: (0 <= j < k && cs[j] == Some(Change(side, f, x))
      && forall i :: 0 <= i <= j ==> cs[i] != Some(Change(side, f, y)))
  {
    var r := Recorded(cs, side, f, k);
    var ix :| 0 <= ix < |r| && r[ix] == x && y !in r[..ix + 1];
    var before := Recorded(cs, side, f, k - 1);
    var c := cs[k - 1];
    var grows := c.Some? && c.value.side == side && c.value.file == f;
    assert r == before + (if grows then [c.value.signature] else []);
    if ix < |before| {
      assert before[ix] == x && before[..ix + 1] == r[..ix + 1];
      RecordedBefore(cs, side, f, k - 1, x, y);
    } else {
      assert grows && c.value.signature == x && r[..ix + 1] == r;
      RecordedMembers(cs, side, f, k - 1);
      assert y !in before;
      assert forall i :: 0 <= i <= k - 1 ==> cs[i] != Some(Change(side, f, y));
    }
  }

  /** What every row records, files tracked as the source tracks them. */
  function RowChangesAsWritten(m: Matchers, rows: seq<string>): (cs: seq<Option<Change>>)
    ensures |cs| == |rows|
    ensures forall j :: 0 <= j < |rows| ==> cs[j] == ChangeAtAsWritten(m, rows, j)
  {
    seq(|rows|, j requires 0 <= j < |rows| => ChangeAtAsWritten(m, rows, j))
  }

  /** The dictionary the source returns for one side, files tracked as it tracks them. */
  function WorktreeChangesAsWritten(m: Matchers, rows: seq<string>, side: Side): map<string, seq<string>> {
    DedupValues(Collected(RowChangesAsWritten(m, rows), side, |rows|))
  }

  /** On a diff that deletes no file, the corrected dictionaries are the ones the source
      returns. */
  lemma AsWrittenAgreesWithoutDeletion(m: Matchers, rows: seq<string>, side: Side)
    requires forall i :: 0 <= i < |rows| ==> rows[i] != DevNullHeader
    ensures WorktreeChanges(m, rows, side) == WorktreeChangesAsWritten(m, rows, side)
  {
    forall j | 0 <= j < |rows|
      ensures ChangeAt(m, rows, j) == ChangeAtAsWritten(m, rows, j)
    {
      TrackersAgreeWithoutDeletion(rows, j);
    }
    assert RowChanges(m, rows) == RowChangesAsWritten(m, rows);
  }

  /** On the diff of `DeletedFileChargedToPrevious`, the source's `removed` dictionary
      lists the declaration under `a.py`, and the corrected one under the deleted `b.py`. */
  lemma DeletedFileInRemovedDictionary(m: Matchers, line: string)
    requires m.python(line) && line != [] && line[0] != '-'
    ensures var rows := ["+++ b/a.py", "--- a/b.py", DevNullHeader, "-" + line];
      var sig := CleanSignature(Strip(line));
      && "a.py" in WorktreeChangesAsWritten(m, rows, Removed)
      && sig in WorktreeChangesAsWritten(m, rows, Removed)["a.py"]
      && "b.py" in WorktreeChanges(m, rows, Removed)
      && sig in WorktreeChanges(m, rows, Removed)["b.py"]
  {
    var rows := ["+++ b/a.py", "--- a/b.py", DevNullHeader, "-" + line];
    var sig := CleanSignature(Strip(line));
    DeletedFileChargedToPrevious(m, line);
    var asWritten, corrected := RowChangesAsWritten(m, rows), RowChanges(m, rows);
    assert asWritten[3] == Some(Change(Removed, "a.py", sig));
    assert corrected[3] == Some(Change(Removed, "b.py", sig));
    CollectedMeaning(asWritten, Removed, 4);
    CollectedMeaning(corrected, Removed, 4);
  }

  /** The nested `dedupe` applied to every list of a dictionary. */
  method DedupeValues(lists: map<string, seq<string>>) returns (r: map<string, seq<string>>)
    ensures r == DedupValues(lists)
  {
    r := map[];
    var todo := lists.Keys;
    while todo != {}
      invariant todo <= lists.Keys
      invariant r == map f | f in lists.Keys - todo :: Dedup(lists[f])
      decreases |todo|
    {
      var f :| f in todo;
      var d := Dedupe(lists[f]);
      r := r[f := d];
      todo := todo - {f};
    }
  }

  /** The checks the loop of `find_changes_in_worktree` makes on a row that is not a
      file header, in the source's order. */
  method ClassifyRow(m: Matchers, currentFile: Option<string>, raw: string) returns (change: Option<Change>)
    ensures change == Classify(m, currentFile, raw)
  {
    change := None;
    if currentFile.None? {
      return;
    }
    var file := currentFile.value;
    if Suffix(file) !in IncludeExts {
      return;
    }
    if StartsWith(raw, "+++") || StartsWith(raw, "---") || StartsWith(raw, "@@") {
      return;
    }
    if StartsWith(raw, "+") {
      var line := raw[1..];
      if IsFuncSignature(m, line, file) {
        change := Some(Change(Added, file, CleanSignature(Strip(line))));
      }
    } else if StartsWith(raw, "-") {
      var line := raw[1..];
      if IsFuncSignature(m, line, file) {
        change := Some(Change(Removed, file, CleanSignature(Strip(line))));
      }
    }
  }

  /** One pass of the loop of `find_changes_in_worktree`: a `+++ b/` header switches the
      tracked file; any other row may record a change, and `+++ /dev/null` switches to
      the deleted file. */
  method DiffRow(m: Matchers, rows: seq<string>, j: nat, currentFile: Option<string>,
                 rawAdded: map<string, seq<string>>, rawRemoved: map<string, seq<string>>)
    returns (file: Option<string>, added: map<string, seq<string>>, removed: map<string, seq<string>>)
    requires j < |rows| && currentFile == FileAt(rows, j)
    ensures file == FileAt(rows, j + 1)
    ensures added == Record(rawAdded, ChangeAt(m, rows, j), Added)
    ensures removed == Record(rawRemoved, ChangeAt(m, rows, j), Removed)
  {
    var raw := rows[j];
    if IsFileHeader(raw) {
      return Some(raw[6..]), rawAdded, rawRemoved;
    }
    RowStep(rows, j);
    var change := ClassifyRow(m, currentFile, raw);
    file := currentFile;
    if raw == DevNullHeader {
      file := if j > 0 && IsOldFileHeader(rows[j - 1]) then Some(rows[j - 1][6..]) else None;
    }
    added := Record(rawAdded, change, Added);
    removed := Record(rawRemoved, change, Removed);
  }

  /** `find_changes_in_worktree`, given the rows of the diff or `None` when running git
      failed; the rows after `+++ /dev/null` are charged to the deleted file the `--- a/`
      row before it names. */
  method FindChangesInWorktree(m: Matchers, diff: Option<seq<string>>)
    returns (added: map<string, seq<string>>, removed: map<string, seq<string>>)
    ensures diff.None? ==> added == map[] && removed == map[]
    ensures diff.Some? ==> added == WorktreeChanges(m, diff.value, Added)
    ensures diff.Some? ==> removed == WorktreeChanges(m, diff.value, Removed)
  {
    if diff.None? {
      return map[], map[];
    }
    var rows := diff.value;
    ghost var cs := RowChanges(m, rows);
    var rawAdded: map<string, seq<string>> := map[];
    var rawRemoved: map<string, seq<string>> := map[];
    var currentFile: Option<string> := None;
    for j := 0 to |rows|
      invariant currentFile == FileAt(rows, j)
      invariant rawAdded == Collected(cs, Added, j)
      invariant rawRemoved == Collected(cs, Removed, j)
    {
      currentFile, rawAdded, rawRemoved := DiffRow(m, rows, j, currentFile, rawAdded, rawRemoved);
    }
    added := DedupeValues(rawAdded);
    removed := DedupeValues(rawRemoved);
  }
}
