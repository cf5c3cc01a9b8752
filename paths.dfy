/** Which files the index looks at: the extension list, the skipped directory names,
    `should_skip`, the suffix rule of `pathlib`, and the emit-once check of `iter_source_files`. */
module Paths {
  import opened Text
  import opened Distinct

  /** `INCLUDE_EXTS` */
  const IncludeExts: set<string> := {".swift", ".py", ".sh", ".bash", ".zsh"}

  /** `SKIP_DIR_NAMES` */
  const SkipDirNames: set<string> :=
    {".git", ".build", ".build-check", "dist", "runable", ".vscode", "node_modules", "DerivedData"}

  /** `s.split(sep)`: the pieces between separators, empty ones included. */
  function SplitOn(s: string, sep: char): (pieces: seq<string>)
    ensures pieces != []
    ensures forall k :: 0 <= k < |pieces| ==> sep !in pieces[k]
    decreases |s|
  {
    if sep !in s then [s]
    else
      var i := IndexOf(s, sep);
      [s[..i]] + SplitOn(s[i + 1..], sep)
  }

  /** The pieces that name a component: neither empty nor ".". */
  function Components(pieces: seq<string>): (parts: seq<string>)
    ensures forall x :: x in parts <==> x in pieces && x != "" && x != "."
  {
    if pieces == [] then []
    else
      var rest := Components(pieces[1..]);
      assert forall x :: x in pieces <==> x == pieces[0] || x in pieces[1..];
      if pieces[0] == "" || pieces[0] == "." then rest else [pieces[0]] + rest
  }

  /** `PurePath(p).parts` for a relative path: its components between `/` separators,
      with empty components and `.` dropped. */
  function Parts(p: string): (parts: seq<string>)
    ensures forall k :: 0 <= k < |parts| ==> parts[k] != "" && parts[k] != "." && '/' !in parts[k]
  {
    var parts := Components(SplitOn(p, '/'));
    assert forall k :: 0 <= k < |parts| ==> parts[k] in SplitOn(p, '/');
    parts
  }

  /** `PurePath(p).name`: the last component, or "" when there is none. */
  function Name(p: string): string {
    var parts := Parts(p);
    if parts == [] then "" else parts[|parts| - 1]
  }

  /** Index of the last occurrence of `c` in `s` (`s.rfind(c)`). */
  function LastIndexOf(s: string, c: char): (k: nat)
    requires c in s
    ensures k < |s| && s[k] == c && c !in s[k + 1..]
  {
    if s[|s| - 1] == c then |s| - 1
    else
      assert s == s[..|s| - 1] + [s[|s| - 1]];
      LastIndexOf(s[..|s| - 1], c)
  }

  /** `PurePath.suffix` of a name: from its last `.` on, provided that dot is neither
      the first nor the last character; otherwise "". */
  function NameSuffix(name: string): (x: string)
    ensures x == "" || (2 <= |x| < |name| && EndsWith(name, x) && x[0] == '.' && '.' !in x[1..])
    ensures '.' in name && 0 < LastIndexOf(name, '.') < |name| - 1 ==> x != ""
  {
    if '.' in name then
      var i := LastIndexOf(name, '.');
      if 0 < i < |name| - 1 then name[i..] else ""
    else ""
  }

  /** `PurePath(p).suffix` */
  function Suffix(p: string): string {
    NameSuffix(Name(p))
  }

  /** `should_skip(path)`, the path given by its components (`path.parts`):
      true exactly when some component is a skipped directory name. */
  function ShouldSkip(parts: seq<string>): (skip: bool)
    ensures skip <==> exists i :: 0 <= i < |parts| && parts[i] in SkipDirNames
  {
    if parts == [] then false
    else if parts[0] in SkipDirNames then true
    else
      assert forall i :: 1 <= i < |parts| ==> parts[i] == parts[1..][i - 1];
      ShouldSkip(parts[1..])
  }

  /** A candidate file is listed when no component of its path is skipped and its
      suffix is one of `INCLUDE_EXTS`. */
  predicate Qualifies(p: string) {
    !ShouldSkip(Parts(p)) && Suffix(p) in IncludeExts
  }

  /** The qualifying candidates, in order, repeats included. */
  function Eligible(candidates: seq<string>): seq<string> {
    if candidates == [] then []
    else
      var init, p := candidates[..|candidates| - 1], candidates[|candidates| - 1];
      Eligible(init) + (if Qualifies(p) then [p] else [])
  }

  lemma {:induction false} EligibleMembers(candidates: seq<string>)
    ensures forall p :: p in Eligible(candidates) <==> p in candidates && Qualifies(p)
  {
    if candidates != [] {
      var init, p := candidates[..|candidates| - 1], candidates[|candidates| - 1];
      assert candidates == init + [p];
      EligibleMembers(init);
    }
  }

  lemma EligibleSnoc(candidates: seq<string>, p: string)
    ensures Eligible(candidates + [p]) == Eligible(candidates) + (if Qualifies(p) then [p] else [])
  {
    assert (candidates + [p])[..|candidates|] == candidates;
  }

  /** One candidate more: it is emitted exactly when it qualifies and has not been
      emitted before. */
  lemma EmitStep(candidates: seq<string>, k: nat)
    requires k < |candidates|
    ensures var p, before := candidates[k], Dedup(Eligible(candidates[..k]));
      Dedup(Eligible(candidates[..k + 1])) ==
        if Qualifies(p) && p !in before then before + [p] else before
  {
    var p := candidates[k];
    assert candidates[..k + 1] == candidates[..k] + [p];
    EligibleSnoc(candidates[..k], p);
    var e := Eligible(candidates[..k]);
    if Qualifies(p) {
      DedupSnoc(e, p);
    } else {
      assert e + [] == e;
    }
  }

  /** The emit-once filter of `iter_source_files` over the paths its globs produce, in
      order: skipped and foreign files are dropped and each path is emitted at most
      once, at its first appearance. */
  method EmitSourceFiles(candidates: seq<string>) returns (emitted: seq<string>)
    ensures emitted == Dedup(Eligible(candidates))
    ensures NoDuplicates(emitted)
    ensures forall p :: p in emitted <==> p in candidates && Qualifies(p)
  {
    var seen: set<string> := {};
    emitted := [];
    for k := 0 to |candidates|
      invariant emitted == Dedup(Eligible(candidates[..k]))
      invariant forall x :: x in seen <==> x in emitted
    {
      var path := candidates[k];
      EmitStep(candidates, k);
      if ShouldSkip(Parts(path)) {
        continue;
      }
      if Suffix(path) in IncludeExts && path !in seen {
        seen := seen + {path};
        emitted := emitted + [path];
      }
    }
    assert candidates[..|candidates|] == candidates;
    EligibleMembers(candidates);
  }
}
