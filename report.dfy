/** The grouping behind the two wiki pages: the untracked source files of
    `git status --porcelain` with the entries indexed in them, and the per-language and
    per-file tallies of `write_reference`. */
module Report {
  import opened Text
  import opened Paths
  import opened Entries
  import opened Wrappers

  /** The entries of `es` that lie in file `p`, in index order. */
  function EntriesAt(es: seq<FunctionEntry>, p: string): seq<FunctionEntry> {
    if es == [] then []
    else
      var last := es[|es| - 1];
      EntriesAt(es[..|es| - 1], p) + (if last.path == p then [last] else [])
  }

  lemma {:induction false} EntriesAtMembers(es: seq<FunctionEntry>, p: string)
    ensures forall e :: e in EntriesAt(es, p) <==> e in es && e.path == p
  {
    if es != [] {
      var init := es[..|es| - 1];
      assert es == init + [es[|es| - 1]];
      EntriesAtMembers(init, p);
    }
  }

  /** Some entry of `es` lies in file `p`. */
  predicate HasEntryIn(es: seq<FunctionEntry>, p: string) {
    exists i :: 0 <= i < |es| && es[i].path == p
  }

  lemma HasEntryInSnoc(es: seq<FunctionEntry>, e: FunctionEntry, p: string)
    ensures HasEntryIn(es + [e], p) <==> HasEntryIn(es, p) || e.path == p
  {
    var s := es + [e];
    if HasEntryIn(es, p) {
      var i :| 0 <= i < |es| && es[i].path == p;
      assert s[i] == es[i];
    }
    if HasEntryIn(s, p) && !HasEntryIn(es, p) {
      var i :| 0 <= i < |s| && s[i].path == p;
      if i < |es| {
        assert es[i].path == p;
      }
    }
    if e.path == p {
      assert s[|es|] == e;
    }
  }

  /** `groups[key].append(e)` on a `defaultdict(list)`. */
  function AppendEntry(groups: map<string, seq<FunctionEntry>>, key: string, e: FunctionEntry)
    : map<string, seq<FunctionEntry>>
  {
    groups[key := (if key in groups then groups[key] else []) + [e]]
  }

  /** The `grouped` dictionary once `es` has been walked: each entry whose file is in
      `files` appended under its file. */
  function Grouped(es: seq<FunctionEntry>, files: set<string>): map<string, seq<FunctionEntry>> {
    if es == [] then map[]
    else
      var last := es[|es| - 1];
      var before := Grouped(es[..|es| - 1], files);
      if last.path in files then AppendEntry(before, last.path, last) else before
  }

  /** The grouping has a list exactly for the files of `files` that hold an entry, and
      that list is the file's entries in index order. */
  lemma {:induction false} GroupedMeaning(es: seq<FunctionEntry>, files: set<string>)
    ensures forall p :: p in Grouped(es, files) <==> p in files && HasEntryIn(es, p)
    ensures forall p :: p in Grouped(es, files) ==> Grouped(es, files)[p] == EntriesAt(es, p)
  {
    if es != [] {
      var init, last := es[..|es| - 1], es[|es| - 1];
      assert es == init + [last];
      GroupedMeaning(init, files);
      forall p
        ensures p in Grouped(es, files) <==> p in files && HasEntryIn(es, p)
      {
        HasEntryInSnoc(init, last, p);
      }
      forall p | p in Grouped(es, files)
        ensures Grouped(es, files)[p] == EntriesAt(es, p)
      {
        if p != last.path && p in Grouped(init, files) {
          assert Grouped(es, files)[p] == Grouped(init, files)[p];
        } else if p == last.path && p in Grouped(init, files) {
          assert Grouped(es, files)[p] == Grouped(init, files)[p] + [last];
        } else if p == last.path {
          assert !HasEntryIn(init, p);
          EntriesAtEmpty(init, p);
        }
      }
    }
  }

  lemma {:induction false} EntriesAtEmpty(es: seq<FunctionEntry>, p: string)
    requires !HasEntryIn(es, p)
    ensures EntriesAt(es, p) == []
  {
    if es != [] {
      var init := es[..|es| - 1];
      assert !HasEntryIn(init, p) by {
        forall i | 0 <= i < |init|
          ensures init[i].path != p
        {
          assert init[i] == es[i];
        }
      }
      EntriesAtEmpty(init, p);
    }
  }

  /** The file named by a porcelain row: the text after the two status letters and
      the space, stripped. */
  function RowPath(row: string): string
    requires |row| >= 3
  {
    Strip(row[3..])
  }

  /** The rows of an untracked (`?? `) file whose suffix is indexed. */
  predicate IsUntrackedSource(row: string) {
    StartsWith(row, "?? ") && Suffix(RowPath(row)) in IncludeExts
  }

  /** The `untracked` set: the paths of the porcelain rows that name untracked files
      with an indexed suffix. */
  function UntrackedPaths(rows: seq<string>): set<string> {
    set r | r in rows && IsUntrackedSource(r) :: RowPath(r)
  }

  lemma UntrackedPathsSnoc(rows: seq<string>, row: string)
    ensures UntrackedPaths(rows + [row]) ==
      UntrackedPaths(rows) + (if IsUntrackedSource(row) then {RowPath(row)} else {})
  {
    var s := rows + [row];
    assert forall r :: r in s <==> r in rows || r == row;
  }

  /** `untracked_function_files`, given the rows of `git status --porcelain` or `None`
      when running git failed: the entries of each untracked source file, grouped by file. */
  method UntrackedFunctionFiles(status: Option<seq<string>>, entries: seq<FunctionEntry>)
    returns (grouped: map<string, seq<FunctionEntry>>)
    ensures status.None? ==> grouped == map[]
    ensures status.Some? ==> grouped == Grouped(entries, UntrackedPaths(status.value))
  {
    if status.None? {
      return map[];
    }
    var rows := status.value;
    var untracked: set<string> := {};
    for k := 0 to |rows|
      invariant untracked == UntrackedPaths(rows[..k])
    {
      var row := rows[k];
      assert rows[..k + 1] == rows[..k] + [row];
      UntrackedPathsSnoc(rows[..k], row);
      if !StartsWith(row, "?? ") {
        continue;
      }
      var path := Strip(row[3..]);
      if Suffix(path) in IncludeExts {
        untracked := untracked + {path};
      }
    }
    assert rows[..|rows|] == rows;
    grouped := map[];
    for k := 0 to |entries|
      invariant grouped == Grouped(entries[..k], untracked)
    {
      var e := entries[k];
      assert entries[..k + 1][..k] == entries[..k];
      if e.path in untracked {
        grouped := AppendEntry(grouped, e.path, e);
      }
    }
    assert entries[..|entries|] == entries;
  }

  /** A file is listed as untracked exactly when some porcelain row marks it `??` and
      its suffix is indexed, and it is then listed with all its entries. */
  lemma UntrackedFunctionFilesMeaning(rows: seq<string>, entries: seq<FunctionEntry>, p: string)
    ensures p in Grouped(entries, UntrackedPaths(rows)) <==>
      HasEntryIn(entries, p) && exists r :: r in rows && IsUntrackedSource(r) && RowPath(r) == p
    ensures p in Grouped(entries, UntrackedPaths(rows)) ==>
      Grouped(entries, UntrackedPaths(rows))[p] == EntriesAt(entries, p)
  {
    GroupedMeaning(entries, UntrackedPaths(rows));
  }

  /** The number of entries written in `lang`. */
  function CountLang(es: seq<FunctionEntry>, lang: Language): nat {
    if es == [] then 0
    else CountLang(es[..|es| - 1], lang) + (if es[|es| - 1].language == lang then 1 else 0)
  }

  /** `counts[lang] += 1` on a `defaultdict(int)`. */
  function Increment(counts: map<Language, nat>, lang: Language): map<Language, nat> {
    counts[lang := (if lang in counts then counts[lang] else 0) + 1]
  }

  /** `by_lang` once `es` has been walked. */
  function ByLang(es: seq<FunctionEntry>): map<Language, nat> {
    if es == [] then map[]
    else Increment(ByLang(es[..|es| - 1]), es[|es| - 1].language)
  }

  /** `by_file` once `es` has been walked. */
  function ByFile(es: seq<FunctionEntry>): map<string, seq<FunctionEntry>> {
    if es == [] then map[]
    else AppendEntry(ByFile(es[..|es| - 1]), es[|es| - 1].path, es[|es| - 1])
  }

  /** The first loop of `write_reference`: one count per language and one list per file. */
  method CoverageCounts(entries: seq<FunctionEntry>)
    returns (byLang: map<Language, nat>, byFile: map<string, seq<FunctionEntry>>)
    ensures byLang == ByLang(entries) && byFile == ByFile(entries)
  {
    byLang := map[];
    byFile := map[];
    for k := 0 to |entries|
      invariant byLang == ByLang(entries[..k]) && byFile == ByFile(entries[..k])
    {
      var e := entries[k];
      assert entries[..k + 1][..k] == entries[..k];
      byLang := Increment(byLang, e.language);
      byFile := AppendEntry(byFile, e.path, e);
    }
    assert entries[..|entries|] == entries;
  }

  /** A language is listed exactly when some entry is written in it, with the number of
      such entries. */
  lemma {:induction false} ByLangMeaning(es: seq<FunctionEntry>)
    ensures forall lang :: lang in ByLang(es) <==> CountLang(es, lang) > 0
    ensures forall lang :: lang in ByLang(es) ==> ByLang(es)[lang] == CountLang(es, lang)
  {
    if es != [] {
      ByLangMeaning(es[..|es| - 1]);
    }
  }

  /** The per-language lines of the coverage section add up to the total line. */
  lemma {:induction false} CountsAddUpToTotal(es: seq<FunctionEntry>)
    ensures CountLang(es, Swift) + CountLang(es, Python) + CountLang(es, Shell) == |es|
  {
    if es != [] {
      CountsAddUpToTotal(es[..|es| - 1]);
    }
  }

  /** A file is listed exactly when some entry lies in it, with its entries in index
      order; so the file count never exceeds the total. */
  lemma {:induction false} ByFileMeaning(es: seq<FunctionEntry>)
    ensures forall p :: p in ByFile(es) <==> HasEntryIn(es, p)
    ensures forall p :: p in ByFile(es) ==> ByFile(es)[p] == EntriesAt(es, p)
    ensures |ByFile(es).Keys| <= |es|
  {
    if es != [] {
      var init, last := es[..|es| - 1], es[|es| - 1];
      assert es == init + [last];
      ByFileMeaning(init);
      forall p
        ensures p in ByFile(es) <==> HasEntryIn(es, p)
      {
        HasEntryInSnoc(init, last, p);
      }
      forall p | p in ByFile(es)
        ensures ByFile(es)[p] == EntriesAt(es, p)
      {
        if p == last.path && p !in ByFile(init) {
          EntriesAtEmpty(init, p);
        }
      }
      assert ByFile(es).Keys == ByFile(init).Keys + {last.path};
    }
  }
}
