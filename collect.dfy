/** `collect_functions`: the entries of every readable source file, sorted by
    `(path, line, signature)` with Python's tuple and string ordering. */
module Collect {
  import opened Paths
  import opened Entries
  import opened Parsers
  import opened Wrappers

  /** A source file as `collect_functions` meets it: its path relative to the repository
      root and its lines, or `None` when reading it raised. */
  datatype SourceFile = SourceFile(path: string, contents: Option<seq<string>>)

  /** Python's `<` on strings: code point by code point, a proper prefix first. */
  predicate StrLt(a: string, b: string)
    decreases |a|
  {
    b != [] && (a == [] || a[0] < b[0] || (a[0] == b[0] && StrLt(a[1..], b[1..])))
  }

  predicate StrLe(a: string, b: string) {
    a == b || StrLt(a, b)
  }

  lemma {:induction false} StrLtIrreflexive(a: string)
    ensures !StrLt(a, a)
    decreases |a|
  {
    if a != [] {
      StrLtIrreflexive(a[1..]);
    }
  }

  /** Any two different strings are ordered one way or the other. */
  lemma {:induction false} StrLtTotal(a: string, b: string)
    ensures a == b || StrLt(a, b) || StrLt(b, a)
    decreases |a|
  {
    if a != [] && b != [] && a[0] == b[0] {
      StrLtTotal(a[1..], b[1..]);
      if a[1..] == b[1..] {
        assert a == [a[0]] + a[1..] && b == [b[0]] + b[1..];
      }
    }
  }

  lemma {:induction false} StrLtTransitive(a: string, b: string, c: string)
    requires StrLt(a, b) && StrLt(b, c)
    ensures StrLt(a, c)
    decreases |a|
  {
    if a != [] && a[0] == b[0] && b[0] == c[0] {
      StrLtTransitive(a[1..], b[1..], c[1..]);
    }
  }

  /** The sort key `(e.path, e.line, e.signature)`, compared as Python compares tuples. */
  predicate KeyLt(x: FunctionEntry, y: FunctionEntry) {
    || StrLt(x.path, y.path)
    || (x.path == y.path && x.line < y.line)
    || (x.path == y.path && x.line == y.line && StrLt(x.signature, y.signature))
  }

  predicate KeyLe(x: FunctionEntry, y: FunctionEntry) {
    KeyLt(x, y) || (x.path == y.path && x.line == y.line && x.signature == y.signature)
  }

  /** Two entries are either ordered one way or the other. */
  lemma KeyLeTotal(x: FunctionEntry, y: FunctionEntry)
    ensures KeyLe(x, y) || KeyLe(y, x)
  {
    StrLtTotal(x.path, y.path);
    StrLtTotal(x.signature, y.signature);
  }

  lemma KeyLeTransitive(x: FunctionEntry, y: FunctionEntry, z: FunctionEntry)
    requires KeyLe(x, y) && KeyLe(y, z)
    ensures KeyLe(x, z)
  {
    if StrLt(x.path, y.path) && StrLt(y.path, z.path) {
      StrLtTransitive(x.path, y.path, z.path);
    }
    if StrLt(x.signature, y.signature) && StrLt(y.signature, z.signature) {
      StrLtTransitive(x.signature, y.signature, z.signature);
    }
  }

  predicate SortedByKey(s: seq<FunctionEntry>) {
    forall a, b :: 0 <= a < b < |s| ==> KeyLe(s[a], s[b])
  }

  /** Put `x` into sorted `s` in front of the first element it does not follow. */
  function Insert(x: FunctionEntry, s: seq<FunctionEntry>): (r: seq<FunctionEntry>)
    requires SortedByKey(s)
    ensures SortedByKey(r)
    ensures multiset(r) == multiset(s) + multiset{x}
  {
    if s == [] then [x]
    else if KeyLe(x, s[0]) then
      InsertFront(x, s);
      [x] + s
    else
      KeyLeTotal(x, s[0]);
      var t := Insert(x, s[1..]);
      InsertBehind(x, s, t);
      assert s == [s[0]] + s[1..];
      [s[0]] + t
  }

  lemma InsertFront(x: FunctionEntry, s: seq<FunctionEntry>)
    requires SortedByKey(s) && s != [] && KeyLe(x, s[0])
    ensures SortedByKey([x] + s)
  {
    var r := [x] + s;
    forall a, b | 0 <= a < b < |r| ensures KeyLe(r[a], r[b]) {
      if a == 0 {
        if b > 1 {
          KeyLeTransitive(x, s[0], s[b - 1]);
        }
      } else {
        assert r[a] == s[a - 1] && r[b] == s[b - 1];
      }
    }
  }

  lemma InsertBehind(x: FunctionEntry, s: seq<FunctionEntry>, t: seq<FunctionEntry>)
    requires SortedByKey(s) && s != [] && KeyLe(s[0], x)
    requires SortedByKey(t) && multiset(t) == multiset(s[1..]) + multiset{x}
    ensures SortedByKey([s[0]] + t)
  {
    var r := [s[0]] + t;
    forall a, b | 0 <= a < b < |r| ensures KeyLe(r[a], r[b]) {
      if a == 0 {
        var y := t[b - 1];
        assert y in multiset(t);
        if y != x {
          assert y in multiset(s[1..]);
          var k :| 0 <= k < |s[1..]| && s[1..][k] == y;
          assert s[k + 1] == y;
        }
      } else {
        assert r[a] == t[a - 1] && r[b] == t[b - 1];
      }
    }
  }

  /** `sorted(entries, key=lambda e: (e.path, e.line, e.signature))`, as a function:
      a sorted permutation of its input. */
  function SortByKey(s: seq<FunctionEntry>): (r: seq<FunctionEntry>)
    ensures SortedByKey(r)
    ensures multiset(r) == multiset(s)
  {
    if s == [] then []
    else
      assert s == [s[0]] + s[1..];
      Insert(s[0], SortByKey(s[1..]))
  }

  /** The entries `parse_file` yields for one file; nothing when it could not be read. */
  function EntriesOfFile(m: Matchers, f: SourceFile): seq<FunctionEntry> {
    match f.contents
    case None => []
    case Some(lines) => FileEntries(m, LanguageOfSuffix(Suffix(f.path)), f.path, lines)
  }

  /** The entries of `files`, file after file, before sorting. */
  function AllEntries(m: Matchers, files: seq<SourceFile>): seq<FunctionEntry> {
    if files == [] then []
    else AllEntries(m, files[..|files| - 1]) + EntriesOfFile(m, files[|files| - 1])
  }

  /** Every entry of the index comes from a file of the listing, and sits on a
      declaration line of it. */
  lemma {:induction false} AllEntriesFromFiles(m: Matchers, files: seq<SourceFile>)
    ensures forall e :: e in AllEntries(m, files) ==>
      exists k :: 0 <= k < |files| && files[k].path == e.path && e in EntriesOfFile(m, files[k])
  {
    if files != [] {
      var init := files[..|files| - 1];
      AllEntriesFromFiles(m, init);
      forall e | e in AllEntries(m, files)
        ensures exists k :: 0 <= k < |files| && files[k].path == e.path && e in EntriesOfFile(m, files[k])
      {
        if e in AllEntries(m, init) {
          var k :| 0 <= k < |init| && init[k].path == e.path && e in EntriesOfFile(m, init[k]);
          assert files[k] == init[k];
        } else {
          var f := files[|files| - 1];
          assert e in EntriesOfFile(m, f);
          if f.contents.Some? {
            FileEntriesOnePerDeclaration(m, LanguageOfSuffix(Suffix(f.path)), f.path, f.contents.value);
          }
        }
      }
    }
  }

  /** `collect_functions` over the listed files, in listing order: the entries of each
      readable file are appended, unreadable files are skipped, then everything is sorted. */
  method CollectFunctions(m: Matchers, files: seq<SourceFile>) returns (entries: seq<FunctionEntry>)
    ensures entries == SortByKey(AllEntries(m, files))
    ensures SortedByKey(entries)
    ensures multiset(entries) == multiset(AllEntries(m, files))
  {
    var all: seq<FunctionEntry> := [];
    for k := 0 to |files|
      invariant all == AllEntries(m, files[..k])
    {
      assert files[..k + 1][..k] == files[..k];
      match files[k].contents {
        case None =>
        case Some(lines) =>
          var es := ParseFile(m, files[k].path, lines);
          all := all + es;
      }
    }
    assert files[..|files|] == files;
    entries := SortByKey(all);
  }
}
