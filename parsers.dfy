/** The three line-oriented parsers and `parse_file`, each proved to yield exactly the
    entries `FileEntries` describes. The file's text arrives already split into lines. */
module Parsers {
  import opened Text
  import opened Signature
  import opened Paths
  import opened Entries

  /** The continuation loop of `parse_python` for the declaration on line `i`. */
  method GatherPythonSignature(lines: seq<string>, i: nat) returns (sigLines: seq<string>)
    requires i < |lines|
    ensures sigLines == PythonSignatureLines(lines, i)
  {
    ghost var st := StripAll(lines);
    sigLines := [Strip(lines[i])];
    var j := i + 1;
    while j < |lines| && |sigLines| < MaxSignatureLines
      invariant i < j <= |lines| && sigLines != []
      invariant PythonGather(st, j, sigLines) == PythonSignatureLines(lines, i)
      decreases |lines| - j
    {
      if EndsWith(sigLines[|sigLines| - 1], ":") {
        break;
      }
      var nxt := Strip(lines[j]);
      if nxt == [] || StartsWith(nxt, "#") {
        break;
      }
      sigLines := sigLines + [nxt];
      if EndsWith(nxt, ":") {
        break;
      }
      j := j + 1;
    }
  }

  /** The continuation loop of `parse_swift` for the declaration on line `i`, peek
      included. */
  method GatherSwiftSignature(lines: seq<string>, i: nat) returns (sigLines: seq<string>)
    requires i < |lines|
    ensures sigLines == SwiftSignatureLines(lines, i)
  {
    ghost var st := StripAll(lines);
    sigLines := [Strip(lines[i])];
    var j := i + 1;
    while j < |lines| && |sigLines| < MaxSignatureLines
      invariant i < j <= |lines| && sigLines != []
      invariant SwiftGather(st, j, sigLines) == SwiftSignatureLines(lines, i)
      decreases |lines| - j
    {
      var current := sigLines[|sigLines| - 1];
      if '{' in current {
        break;
      }
      var nxt := Strip(lines[j]);
      if nxt == [] || StartsWith(nxt, "//") {
        break;
      }
      sigLines := sigLines + [nxt];
      if '{' in nxt {
        break;
      }
      if ClosesSwiftHeader(nxt) {
        if j + 1 < |lines| {
          var nextLine := Strip(lines[j + 1]);
          if StartsWith(nextLine, "{") {
            break;
          }
        }
        break;
      }
      j := j + 1;
    }
  }

  /** The body of the outer loop of `parse_python` for line `i`: the entry for that line,
      if it starts a declaration. */
  method PythonEntryAt(m: Matchers, path: string, lines: seq<string>, i: nat) returns (found: seq<FunctionEntry>)
    requires i < |lines|
    ensures found == if IsDecl(m, Python, lines[i])
      then [FunctionEntry(path, i + 1, Signatures(Python, lines)[i], Python)] else []
  {
    found := [];
    var line := lines[i];
    if m.python(line) {
      var startLine := i + 1;
      var sigLines := GatherPythonSignature(lines, i);
      var sig := CleanSignature(JoinSpace(sigLines));
      found := [FunctionEntry(path, startLine, sig, Python)];
    }
  }

  /** `parse_python`: one entry per line that matches the Python pattern. */
  method ParsePython(m: Matchers, path: string, lines: seq<string>) returns (entries: seq<FunctionEntry>)
    ensures entries == FileEntries(m, Python, path, lines)
  {
    ghost var sigs := Signatures(Python, lines);
    entries := [];
    var i := 0;
    while i < |lines|
      invariant 0 <= i <= |lines|
      invariant entries == EntriesUpTo(m, Python, path, lines, sigs, i)
    {
      EntriesUpToNext(m, Python, path, lines, sigs, i);
      var found := PythonEntryAt(m, path, lines, i);
      entries := entries + found;
      i := i + 1;
    }
  }

  /** The body of the outer loop of `parse_swift` for line `i`: the entry for that line,
      if it starts a declaration. */
  method SwiftEntryAt(m: Matchers, path: string, lines: seq<string>, i: nat) returns (found: seq<FunctionEntry>)
    requires i < |lines|
    ensures found == if IsDecl(m, Swift, lines[i])
      then [FunctionEntry(path, i + 1, Signatures(Swift, lines)[i], Swift)] else []
  {
    found := [];
    var line := lines[i];
    if m.swift(line) {
      var startLine := i + 1;
      var sigLines := GatherSwiftSignature(lines, i);
      var sig := CleanSignature(JoinSpace(sigLines));
      found := [FunctionEntry(path, startLine, sig, Swift)];
    }
  }

  /** `parse_swift`: one entry per line that matches the Swift pattern. */
  method ParseSwift(m: Matchers, path: string, lines: seq<string>) returns (entries: seq<FunctionEntry>)
    ensures entries == FileEntries(m, Swift, path, lines)
  {
    ghost var sigs := Signatures(Swift, lines);
    entries := [];
    var i := 0;
    while i < |lines|
      invariant 0 <= i <= |lines|
      invariant entries == EntriesUpTo(m, Swift, path, lines, sigs, i)
    {
      EntriesUpToNext(m, Swift, path, lines, sigs, i);
      var found := SwiftEntryAt(m, path, lines, i);
      entries := entries + found;
      i := i + 1;
    }
  }

  /** `parse_shell`: one entry per stripped line that matches either shell pattern. */
  method ParseShell(m: Matchers, path: string, lines: seq<string>) returns (entries: seq<FunctionEntry>)
    ensures entries == FileEntries(m, Shell, path, lines)
  {
    ghost var sigs := Signatures(Shell, lines);
    entries := [];
    for k := 0 to |lines|
      invariant entries == EntriesUpTo(m, Shell, path, lines, sigs, k)
    {
      EntriesUpToNext(m, Shell, path, lines, sigs, k);
      var stripped := Strip(lines[k]);
      if m.shellA(stripped) || m.shellB(stripped) {
        var sig := CleanSignature(stripped);
        entries := entries + [FunctionEntry(path, k + 1, sig, Shell)];
      }
    }
  }

  /** `parse_file`: `.swift` files are parsed as Swift, `.py` files as Python, everything
      else as shell. */
  method ParseFile(m: Matchers, path: string, lines: seq<string>) returns (entries: seq<FunctionEntry>)
    ensures entries == FileEntries(m, LanguageOfSuffix(Suffix(path)), path, lines)
  {
    if Suffix(path) == ".swift" {
      entries := ParseSwift(m, path, lines);
    } else if Suffix(path) == ".py" {
      entries := ParsePython(m, path, lines);
    } else {
      entries := ParseShell(m, path, lines);
    }
  }
}
