/** The function index's data model (`FunctionEntry`) and the meaning of the three parsers:
    which lines are declarations, which lines make up a declaration's signature, and the
    entries a file yields. */
module Entries {
  import opened Text
  import opened Signature

  datatype Language = Swift | Python | Shell

  /** `FunctionEntry`: where a declaration starts (path and 1-based line), its cleaned
      signature and the language it was parsed as. */
  datatype FunctionEntry = FunctionEntry(path: string, line: int, signature: string, language: Language)

  /** The four declaration regexes, each applied with `re.match`: `SWIFT_PATTERN`,
      `PYTHON_PATTERN`, `SHELL_PATTERN_A` and `SHELL_PATTERN_B`. The model does not
      interpret them: everything proved here holds whatever they match. */
  datatype Matchers = Matchers(
    swift: string -> bool,
    python: string -> bool,
    shellA: string -> bool,
    shellB: string -> bool)

  /** At most this many source lines make up one Swift or Python signature. */
  const MaxSignatureLines := 8

  /** Does `line` start a declaration? Swift and Python lines are matched as they are;
      shell lines are stripped first and may match either shell pattern. */
  predicate IsDecl(m: Matchers, lang: Language, line: string) {
    match lang
    case Swift => m.swift(line)
    case Python => m.python(line)
    case Shell => m.shellA(Strip(line)) || m.shellB(Strip(line))
  }

  function Last(s: seq<string>): string
    requires s != []
  {
    s[|s| - 1]
  }

  /** A prefix of `g` grows by the next element of `g` into a longer prefix. */
  lemma PrefixSnoc(acc: seq<string>, g: seq<string>)
    requires acc <= g && |acc| < |g|
    ensures acc + [g[|acc|]] <= g
  {
    assert g[..|acc| + 1] == g[..|acc|] + [g[|acc|]];
  }

  /** Every line stripped, as the continuation loops look at them (`lines[j].strip()`). */
  function StripAll(lines: seq<string>): (st: seq<string>)
    ensures |st| == |lines|
    ensures forall j :: 0 <= j < |lines| ==> st[j] == Strip(lines[j])
  {
    seq(|lines|, j requires 0 <= j < |lines| => Strip(lines[j]))
  }

  lemma PrefixOfSameLength(a: seq<string>, g: seq<string>)
    requires a <= g && |a| == |g|
    ensures a == g
  {
  }

  // ---------------------------------------------------------------------------------
  // Python: a signature runs on until a line ends in `:`.
  // The gathering functions and their lemmas work on the stripped lines `st`.

  /** The continuation loop of `parse_python`: `acc` holds the lines gathered so far and
      `j` is the next line to look at. */
  function PythonGather(st: seq<string>, j: nat, acc: seq<string>): seq<string>
    requires acc != []
    decreases |st| - j
  {
    if j >= |st| || |acc| >= MaxSignatureLines || EndsWith(Last(acc), ":") then acc
    else
      var next := st[j];
      if next == [] || StartsWith(next, "#") then acc
      else if EndsWith(next, ":") then acc + [next]
      else PythonGather(st, j + 1, acc + [next])
  }

  /** The stripped source lines that make up the signature of the declaration on line `i`. */
  function PythonSignatureLines(lines: seq<string>, i: nat): seq<string>
    requires i < |lines|
  {
    PythonGather(StripAll(lines), i + 1, [Strip(lines[i])])
  }

  /** What the lines of a Python signature look like: 1 to 8 consecutive stripped lines
      from the declaration on; no continuation line is blank or a `#` comment; only the
      last may end in `:`; and gathering stopped for a reason: 8 lines, end of file, a
      trailing `:`, or a blank or comment line next. */
  predicate PythonShape(st: seq<string>, i: nat, g: seq<string>) {
    && 1 <= |g| <= MaxSignatureLines && i + |g| <= |st|
    && (forall m :: 0 <= m < |g| ==> g[m] == st[i + m])
    && (forall m :: 1 <= m < |g| ==> g[m] != [] && !StartsWith(g[m], "#"))
    && (forall m :: 0 <= m < |g| - 1 ==> !EndsWith(g[m], ":"))
    && (|g| == MaxSignatureLines || i + |g| == |st| || EndsWith(g[|g| - 1], ":")
        || st[i + |g|] == [] || StartsWith(st[i + |g|], "#"))
  }

  /** The lines gathered so far, before gathering has stopped. */
  predicate PythonPartial(st: seq<string>, i: nat, acc: seq<string>) {
    && acc != [] && |acc| <= MaxSignatureLines && i + |acc| <= |st|
    && (forall m :: 0 <= m < |acc| ==> acc[m] == st[i + m])
    && (forall m :: 1 <= m < |acc| ==> acc[m] != [] && !StartsWith(acc[m], "#"))
    && (forall m :: 0 <= m < |acc| - 1 ==> !EndsWith(acc[m], ":"))
  }

  /** Gathering that stops before a new line is taken leaves a complete signature. */
  lemma PythonPartialStops(st: seq<string>, i: nat, acc: seq<string>)
    requires PythonPartial(st, i, acc)
    requires || i + |acc| >= |st| || |acc| >= MaxSignatureLines || EndsWith(Last(acc), ":")
             || st[i + |acc|] == [] || StartsWith(st[i + |acc|], "#")
    ensures PythonShape(st, i, acc)
  {
    assert Last(acc) == acc[|acc| - 1];
  }

  /** The facts about `acc + [next]` that hold whether or not `next` ends the header. */
  lemma PythonPartialSnoc(st: seq<string>, i: nat, acc: seq<string>, next: string)
    requires PythonPartial(st, i, acc) && i + |acc| < |st| && |acc| < MaxSignatureLines
    requires !EndsWith(Last(acc), ":") && next == st[i + |acc|]
    requires next != [] && !StartsWith(next, "#")
    ensures var g := acc + [next];
      && 1 <= |g| <= MaxSignatureLines && i + |g| <= |st|
      && (forall m :: 0 <= m < |g| ==> g[m] == st[i + m])
      && (forall m :: 1 <= m < |g| ==> g[m] != [] && !StartsWith(g[m], "#"))
      && (forall m :: 0 <= m < |g| - 1 ==> !EndsWith(g[m], ":"))
  {
    var g := acc + [next];
    forall m | 0 <= m < |g| ensures g[m] == st[i + m] {
      if m < |acc| {
        assert g[m] == acc[m];
      }
    }
    forall m | 1 <= m < |g| ensures g[m] != [] && !StartsWith(g[m], "#") {
      if m < |acc| {
        assert g[m] == acc[m];
      }
    }
    forall m | 0 <= m < |g| - 1 ensures !EndsWith(g[m], ":") {
      assert g[m] == acc[m];
      if m == |acc| - 1 {
        assert acc[m] == Last(acc);
      }
    }
  }

  lemma PythonPartialExtend(st: seq<string>, i: nat, acc: seq<string>, next: string)
    requires PythonPartial(st, i, acc) && i + |acc| < |st| && |acc| < MaxSignatureLines
    requires !EndsWith(Last(acc), ":") && next == st[i + |acc|]
    requires next != [] && !StartsWith(next, "#")
    ensures !EndsWith(next, ":") ==> PythonPartial(st, i, acc + [next])
    ensures EndsWith(next, ":") ==> PythonShape(st, i, acc + [next])
  {
    PythonPartialSnoc(st, i, acc, next);
    var g := acc + [next];
    assert g[|g| - 1] == next;
    if !EndsWith(next, ":") {
      forall m | 0 <= m < |g| - 1 ensures !EndsWith(g[m], ":") {
      }
    }
  }

  lemma {:induction false} PythonGatherShape(st: seq<string>, i: nat, j: nat, acc: seq<string>)
    requires PythonPartial(st, i, acc) && j == i + |acc|
    ensures PythonShape(st, i, PythonGather(st, j, acc))
    decreases |st| - j, 1
  {
    if j >= |st| || |acc| >= MaxSignatureLines || EndsWith(Last(acc), ":") || st[j] == [] || StartsWith(st[j], "#") {
      PythonPartialStops(st, i, acc);
    } else {
      PythonGatherShapeTakes(st, i, j, acc);
    }
  }

  /** The case of `PythonGatherShape` where line `j` is taken. */
  lemma {:induction false} PythonGatherShapeTakes(st: seq<string>, i: nat, j: nat, acc: seq<string>)
    requires PythonPartial(st, i, acc) && j == i + |acc|
    requires j < |st| && |acc| < MaxSignatureLines && !EndsWith(Last(acc), ":") && st[j] != [] && !StartsWith(st[j], "#")
    ensures PythonShape(st, i, PythonGather(st, j, acc))
    decreases |st| - j, 0
  {
    var next := st[j];
    PythonPartialExtend(st, i, acc, next);
    PythonGatherContinues(st, j, acc, next);
    if !EndsWith(next, ":") {
      PythonGatherShape(st, i, j + 1, acc + [next]);
    }
  }

  /** Inside a Python signature of shape `g`, line `k` continues the one before it. */
  lemma PythonShapeStep(st: seq<string>, i: nat, g: seq<string>, k: nat)
    requires PythonShape(st, i, g) && 1 <= k < |g|
    ensures i + k < |st| && k < MaxSignatureLines
    ensures g[k] == st[i + k] && g[k] != [] && !StartsWith(g[k], "#")
    ensures !EndsWith(g[k - 1], ":")
    ensures EndsWith(g[k], ":") ==> k == |g| - 1
  {
  }

  lemma {:induction false} PythonGatherFollows(st: seq<string>, i: nat, j: nat, acc: seq<string>, g: seq<string>)
    requires PythonShape(st, i, g) && acc != [] && acc <= g && j == i + |acc|
    ensures PythonGather(st, j, acc) == g
    decreases |g| - |acc|, 1
  {
    if |acc| < |g| {
      PythonFollowsOneMore(st, i, j, acc, g);
    } else {
      assert acc == g;
      PythonGatherStops(st, i, g);
    }
  }

  /** The case of `PythonGatherFollows` where `g` has a line beyond `acc`. */
  lemma {:induction false} PythonFollowsOneMore(st: seq<string>, i: nat, j: nat, acc: seq<string>, g: seq<string>)
    requires PythonShape(st, i, g) && acc != [] && acc <= g && j == i + |acc| && |acc| < |g|
    ensures PythonGather(st, j, acc) == g
    decreases |g| - |acc|, 0
  {
    PythonShapeStep(st, i, g, |acc|);
    var next := g[|acc|];
    assert Last(acc) == g[|acc| - 1];
    PrefixSnoc(acc, g);
    PythonGatherContinues(st, j, acc, next);
    if EndsWith(next, ":") {
      PrefixOfSameLength(acc + [next], g);
    } else {
      PythonGatherFollows(st, i, j + 1, acc + [next], g);
    }
  }

  /** One step of the continuation loop that neither runs out of lines nor meets a blank
      or comment line. */
  lemma PythonGatherContinues(st: seq<string>, j: nat, acc: seq<string>, next: string)
    requires acc != [] && j < |st| && |acc| < MaxSignatureLines && !EndsWith(Last(acc), ":")
    requires next == st[j] && next != [] && !StartsWith(next, "#")
    ensures PythonGather(st, j, acc) ==
      if EndsWith(next, ":") then acc + [next] else PythonGather(st, j + 1, acc + [next])
  {
  }

  /** Once every line of a Python signature of shape `g` is gathered, gathering stops. */
  lemma PythonGatherStops(st: seq<string>, i: nat, g: seq<string>)
    requires PythonShape(st, i, g)
    ensures PythonGather(st, i + |g|, g) == g
  {
    assert Last(g) == g[|g| - 1];
  }

  /** `PythonShape` characterises the gathered lines exactly: a list of lines has that
      shape if and only if it is what `parse_python` gathers. */
  lemma PythonSignatureLinesExactly(lines: seq<string>, i: nat, g: seq<string>)
    requires i < |lines|
    ensures PythonShape(StripAll(lines), i, g) <==> g == PythonSignatureLines(lines, i)
  {
    var st := StripAll(lines);
    PythonGatherShape(st, i, i + 1, [st[i]]);
    if PythonShape(st, i, g) {
      assert [st[i]] <= g;
      PythonGatherFollows(st, i, i + 1, [st[i]], g);
    }
  }

  // ---------------------------------------------------------------------------------
  // Swift: a signature runs on until a line holds `{` or a continuation line ends in
  // `)`, `throws` or `rethrows`.

  predicate ClosesSwiftHeader(t: string) {
    EndsWith(t, ")") || EndsWith(t, "throws") || EndsWith(t, "rethrows")
  }

  /** The continuation loop of `parse_swift`. After a line that closes the header the
      source peeks at the following line for a `{`, but stops whether or not it finds one,
      so the peek changes nothing. */
  function SwiftGather(st: seq<string>, j: nat, acc: seq<string>): seq<string>
    requires acc != []
    decreases |st| - j
  {
    if j >= |st| || |acc| >= MaxSignatureLines || '{' in Last(acc) then acc
    else
      var next := st[j];
      if next == [] || StartsWith(next, "//") then acc
      else if '{' in next || ClosesSwiftHeader(next) then acc + [next]
      else SwiftGather(st, j + 1, acc + [next])
  }

  function SwiftSignatureLines(lines: seq<string>, i: nat): seq<string>
    requires i < |lines|
  {
    SwiftGather(StripAll(lines), i + 1, [Strip(lines[i])])
  }

  /** What the lines of a Swift signature look like: 1 to 8 consecutive stripped lines from
      the declaration on; no continuation line is blank or a `//` comment; only the last may
      hold `{`, and only the last continuation line may end in `)`, `throws` or `rethrows`;
      and gathering stopped for a reason. */
  predicate SwiftShape(st: seq<string>, i: nat, g: seq<string>) {
    && 1 <= |g| <= MaxSignatureLines && i + |g| <= |st|
    && (forall m :: 0 <= m < |g| ==> g[m] == st[i + m])
    && (forall m :: 1 <= m < |g| ==> g[m] != [] && !StartsWith(g[m], "//"))
    && (forall m :: 0 <= m < |g| - 1 ==> '{' !in g[m])
    && (forall m :: 1 <= m < |g| - 1 ==> !ClosesSwiftHeader(g[m]))
    && (|g| == MaxSignatureLines || i + |g| == |st| || '{' in g[|g| - 1]
        || (|g| > 1 && ClosesSwiftHeader(g[|g| - 1]))
        || st[i + |g|] == [] || StartsWith(st[i + |g|], "//"))
  }

  /** The lines gathered so far, before gathering has stopped. */
  predicate SwiftPartial(st: seq<string>, i: nat, acc: seq<string>) {
    && acc != [] && |acc| <= MaxSignatureLines && i + |acc| <= |st|
    && (forall m :: 0 <= m < |acc| ==> acc[m] == st[i + m])
    && (forall m :: 1 <= m < |acc| ==> acc[m] != [] && !StartsWith(acc[m], "//"))
    && (forall m :: 0 <= m < |acc| - 1 ==> '{' !in acc[m])
    && (forall m :: 1 <= m < |acc| ==> !ClosesSwiftHeader(acc[m]))
  }

  /** The facts about `acc + [next]` that hold whether or not `next` ends the header. */
  lemma SwiftPartialSnoc(st: seq<string>, i: nat, acc: seq<string>, next: string)
    requires SwiftPartial(st, i, acc) && i + |acc| < |st| && |acc| < MaxSignatureLines
    requires '{' !in Last(acc) && next == st[i + |acc|]
    requires next != [] && !StartsWith(next, "//")
    ensures var g := acc + [next];
      && 1 <= |g| <= MaxSignatureLines && i + |g| <= |st|
      && (forall m :: 0 <= m < |g| ==> g[m] == st[i + m])
      && (forall m :: 1 <= m < |g| ==> g[m] != [] && !StartsWith(g[m], "//"))
      && (forall m :: 0 <= m < |g| - 1 ==> '{' !in g[m])
      && (forall m :: 1 <= m < |g| - 1 ==> !ClosesSwiftHeader(g[m]))
  {
    var g := acc + [next];
    forall m | 0 <= m < |g| ensures g[m] == st[i + m] {
      if m < |acc| {
        assert g[m] == acc[m];
      }
    }
    forall m | 1 <= m < |g| ensures g[m] != [] && !StartsWith(g[m], "//") {
      if m < |acc| {
        assert g[m] == acc[m];
      }
    }
    forall m | 0 <= m < |g| - 1 ensures '{' !in g[m] {
      assert g[m] == acc[m];
      if m == |acc| - 1 {
        assert acc[m] == Last(acc);
      }
    }
    forall m | 1 <= m < |g| - 1 ensures !ClosesSwiftHeader(g[m]) {
      assert g[m] == acc[m];
    }
  }

  lemma SwiftPartialExtend(st: seq<string>, i: nat, acc: seq<string>, next: string)
    requires SwiftPartial(st, i, acc) && i + |acc| < |st| && |acc| < MaxSignatureLines
    requires '{' !in Last(acc) && next == st[i + |acc|]
    requires next != [] && !StartsWith(next, "//")
    ensures !('{' in next || ClosesSwiftHeader(next)) ==> SwiftPartial(st, i, acc + [next])
    ensures '{' in next || ClosesSwiftHeader(next) ==> SwiftShape(st, i, acc + [next])
  {
    SwiftPartialSnoc(st, i, acc, next);
    var g := acc + [next];
    assert g[|g| - 1] == next;
    if !('{' in next || ClosesSwiftHeader(next)) {
      forall m | 1 <= m < |g| ensures !ClosesSwiftHeader(g[m]) {
        if m < |g| - 1 {
          assert !ClosesSwiftHeader(g[m]);
        }
      }
    }
  }

  /** Gathering that stops before a new line is taken leaves a complete signature. */
  lemma SwiftPartialStops(st: seq<string>, i: nat, acc: seq<string>)
    requires SwiftPartial(st, i, acc)
    requires || i + |acc| >= |st| || |acc| >= MaxSignatureLines || '{' in Last(acc)
             || st[i + |acc|] == [] || StartsWith(st[i + |acc|], "//")
    ensures SwiftShape(st, i, acc)
  {
    assert Last(acc) == acc[|acc| - 1];
  }

  lemma {:induction false} SwiftGatherShape(st: seq<string>, i: nat, j: nat, acc: seq<string>)
    requires SwiftPartial(st, i, acc) && j == i + |acc|
    ensures SwiftShape(st, i, SwiftGather(st, j, acc))
    decreases |st| - j, 1
  {
    if j >= |st| || |acc| >= MaxSignatureLines || '{' in Last(acc) || st[j] == [] || StartsWith(st[j], "//") {
      SwiftPartialStops(st, i, acc);
    } else {
      SwiftGatherShapeTakes(st, i, j, acc);
    }
  }

  /** The case of `SwiftGatherShape` where line `j` is taken. */
  lemma {:induction false} SwiftGatherShapeTakes(st: seq<string>, i: nat, j: nat, acc: seq<string>)
    requires SwiftPartial(st, i, acc) && j == i + |acc|
    requires j < |st| && |acc| < MaxSignatureLines && '{' !in Last(acc) && st[j] != [] && !StartsWith(st[j], "//")
    ensures SwiftShape(st, i, SwiftGather(st, j, acc))
    decreases |st| - j, 0
  {
    var next := st[j];
    SwiftPartialExtend(st, i, acc, next);
    SwiftGatherContinues(st, j, acc, next);
    if !('{' in next || ClosesSwiftHeader(next)) {
      SwiftGatherShape(st, i, j + 1, acc + [next]);
    }
  }

  /** Inside a Swift signature of shape `g`, line `k` continues the one before it. */
  lemma SwiftShapeStep(st: seq<string>, i: nat, g: seq<string>, k: nat)
    requires SwiftShape(st, i, g) && 1 <= k < |g|
    ensures i + k < |st| && k < MaxSignatureLines
    ensures g[k] == st[i + k] && g[k] != [] && !StartsWith(g[k], "//")
    ensures '{' !in g[k - 1]
    ensures '{' in g[k] || ClosesSwiftHeader(g[k]) ==> k == |g| - 1
  {
  }

  lemma {:induction false} SwiftGatherFollows(st: seq<string>, i: nat, j: nat, acc: seq<string>, g: seq<string>)
    requires SwiftShape(st, i, g) && acc != [] && acc <= g && j == i + |acc|
    requires |acc| == 1 || !ClosesSwiftHeader(Last(acc))
    ensures SwiftGather(st, j, acc) == g
    decreases |g| - |acc|, 1
  {
    if |acc| < |g| {
      SwiftFollowsOneMore(st, i, j, acc, g);
    } else {
      assert acc == g;
      SwiftGatherStops(st, i, g);
    }
  }

  /** The case of `SwiftGatherFollows` where `g` has a line beyond `acc`. */
  lemma {:induction false} SwiftFollowsOneMore(st: seq<string>, i: nat, j: nat, acc: seq<string>, g: seq<string>)
    requires SwiftShape(st, i, g) && acc != [] && acc <= g && j == i + |acc| && |acc| < |g|
    ensures SwiftGather(st, j, acc) == g
    decreases |g| - |acc|, 0
  {
    SwiftShapeStep(st, i, g, |acc|);
    var next := g[|acc|];
    assert Last(acc) == g[|acc| - 1];
    PrefixSnoc(acc, g);
    SwiftGatherContinues(st, j, acc, next);
    if '{' in next || ClosesSwiftHeader(next) {
      PrefixOfSameLength(acc + [next], g);
    } else {
      assert Last(acc + [next]) == next;
      SwiftGatherFollows(st, i, j + 1, acc + [next], g);
    }
  }

  /** One step of the continuation loop that neither runs out of lines nor meets a blank
      or comment line. */
  lemma SwiftGatherContinues(st: seq<string>, j: nat, acc: seq<string>, next: string)
    requires acc != [] && j < |st| && |acc| < MaxSignatureLines && '{' !in Last(acc)
    requires next == st[j] && next != [] && !StartsWith(next, "//")
    ensures SwiftGather(st, j, acc) ==
      if '{' in next || ClosesSwiftHeader(next) then acc + [next]
      else SwiftGather(st, j + 1, acc + [next])
  {
  }

  /** Once every line of a Swift signature of shape `g` is gathered, gathering stops. */
  lemma SwiftGatherStops(st: seq<string>, i: nat, g: seq<string>)
    requires SwiftShape(st, i, g) && (|g| == 1 || !ClosesSwiftHeader(Last(g)))
    ensures SwiftGather(st, i + |g|, g) == g
  {
    assert Last(g) == g[|g| - 1];
  }

  /** `SwiftShape` characterises the gathered lines exactly: a list of lines has that
      shape if and only if it is what `parse_swift` gathers. */
  lemma SwiftSignatureLinesExactly(lines: seq<string>, i: nat, g: seq<string>)
    requires i < |lines|
    ensures SwiftShape(StripAll(lines), i, g) <==> g == SwiftSignatureLines(lines, i)
  {
    var st := StripAll(lines);
    SwiftGatherShape(st, i, i + 1, [st[i]]);
    if SwiftShape(st, i, g) {
      assert [st[i]] <= g;
      SwiftGatherFollows(st, i, i + 1, [st[i]], g);
    }
  }

  // ---------------------------------------------------------------------------------
  // The entries of one file.

  /** The signature recorded for a declaration on line `i` (0-based). */
  function SignatureAt(lang: Language, lines: seq<string>, i: nat): string
    requires i < |lines|
  {
    match lang
    case Swift => CleanSignature(JoinSpace(SwiftSignatureLines(lines, i)))
    case Python => CleanSignature(JoinSpace(PythonSignatureLines(lines, i)))
    case Shell => CleanSignature(Strip(lines[i]))
  }

  /** The signature each line would be recorded with, were it a declaration. */
  function Signatures(lang: Language, lines: seq<string>): (sigs: seq<string>)
    ensures |sigs| == |lines|
    ensures forall i :: 0 <= i < |lines| ==> sigs[i] == SignatureAt(lang, lines, i)
  {
    seq(|lines|, i requires 0 <= i < |lines| => SignatureAt(lang, lines, i))
  }

  /** The entries for the declarations among the first `k` lines, in line order; `sigs`
      holds each line's signature. */
  function EntriesUpTo(m: Matchers, lang: Language, path: string, lines: seq<string>, sigs: seq<string>, k: nat)
    : seq<FunctionEntry>
    requires k <= |lines| && |sigs| == |lines|
  {
    if k == 0 then []
    else
      EntriesUpTo(m, lang, path, lines, sigs, k - 1)
      + (if IsDecl(m, lang, lines[k - 1]) then [FunctionEntry(path, k, sigs[k - 1], lang)] else [])
  }

  lemma EntriesUpToNext(m: Matchers, lang: Language, path: string, lines: seq<string>, sigs: seq<string>, k: nat)
    requires k < |lines| && |sigs| == |lines|
    ensures EntriesUpTo(m, lang, path, lines, sigs, k + 1)
      == EntriesUpTo(m, lang, path, lines, sigs, k)
         + (if IsDecl(m, lang, lines[k]) then [FunctionEntry(path, k + 1, sigs[k], lang)] else [])
  {
  }

  /** What parsing a whole file as `lang` yields. */
  function FileEntries(m: Matchers, lang: Language, path: string, lines: seq<string>): seq<FunctionEntry> {
    EntriesUpTo(m, lang, path, lines, Signatures(lang, lines), |lines|)
  }

  /** Every entry sits on a declaration line (1-based) and carries the file's path, the
      language and that line's signature. */
  lemma {:induction false} EntriesSound(m: Matchers, lang: Language, path: string, lines: seq<string>, sigs: seq<string>, k: nat)
    requires k <= |lines| && |sigs| == |lines|
    ensures forall e :: e in EntriesUpTo(m, lang, path, lines, sigs, k) ==>
      && 1 <= e.line <= k && IsDecl(m, lang, lines[e.line - 1])
      && e == FunctionEntry(path, e.line, sigs[e.line - 1], lang)
  {
    if k > 0 {
      EntriesSound(m, lang, path, lines, sigs, k - 1);
    }
  }

  /** Every declaration line has its entry. */
  lemma {:induction false} EntriesComplete(m: Matchers, lang: Language, path: string, lines: seq<string>, sigs: seq<string>, k: nat)
    requires k <= |lines| && |sigs| == |lines|
    ensures forall i :: 0 <= i < k && IsDecl(m, lang, lines[i]) ==>
      FunctionEntry(path, i + 1, sigs[i], lang) in EntriesUpTo(m, lang, path, lines, sigs, k)
  {
    if k > 0 {
      EntriesComplete(m, lang, path, lines, sigs, k - 1);
    }
  }

  /** Entries come in strictly increasing line order, so no line has two. */
  lemma {:induction false} EntriesOrdered(m: Matchers, lang: Language, path: string, lines: seq<string>, sigs: seq<string>, k: nat)
    requires k <= |lines| && |sigs| == |lines|
    ensures forall n :: 0 <= n < |EntriesUpTo(m, lang, path, lines, sigs, k)| ==>
      1 <= EntriesUpTo(m, lang, path, lines, sigs, k)[n].line <= k
    ensures forall a, b :: 0 <= a < b < |EntriesUpTo(m, lang, path, lines, sigs, k)| ==>
      EntriesUpTo(m, lang, path, lines, sigs, k)[a].line < EntriesUpTo(m, lang, path, lines, sigs, k)[b].line
  {
    if k > 0 {
      EntriesOrdered(m, lang, path, lines, sigs, k - 1);
      var prev := EntriesUpTo(m, lang, path, lines, sigs, k - 1);
      var es := EntriesUpTo(m, lang, path, lines, sigs, k);
      forall n | 0 <= n < |es| ensures 1 <= es[n].line <= k && (n >= |prev| ==> es[n].line == k) {
        if n < |prev| {
          assert es[n] == prev[n];
        }
      }
      forall a, b | 0 <= a < b < |es| ensures es[a].line < es[b].line {
        assert es[a] == prev[a];
        if b < |prev| {
          assert es[b] == prev[b];
        }
      }
    }
  }

  /** The entries of a whole file: exactly one per declaration line, each with that
      line's signature, in line order. */
  lemma FileEntriesOnePerDeclaration(m: Matchers, lang: Language, path: string, lines: seq<string>)
    ensures forall e :: e in FileEntries(m, lang, path, lines) ==>
      && 1 <= e.line <= |lines| && IsDecl(m, lang, lines[e.line - 1])
      && e == FunctionEntry(path, e.line, SignatureAt(lang, lines, e.line - 1), lang)
    ensures forall i :: 0 <= i < |lines| && IsDecl(m, lang, lines[i]) ==>
      FunctionEntry(path, i + 1, SignatureAt(lang, lines, i), lang) in FileEntries(m, lang, path, lines)
    ensures forall a, b :: 0 <= a < b < |FileEntries(m, lang, path, lines)| ==>
      FileEntries(m, lang, path, lines)[a].line < FileEntries(m, lang, path, lines)[b].line
  {
    var sigs := Signatures(lang, lines);
    EntriesSound(m, lang, path, lines, sigs, |lines|);
    EntriesComplete(m, lang, path, lines, sigs, |lines|);
    EntriesOrdered(m, lang, path, lines, sigs, |lines|);
  }

  /** The language `parse_file` picks from a path's suffix. */
  function LanguageOfSuffix(suffix: string): Language {
    if suffix == ".swift" then Swift
    else if suffix == ".py" then Python
    else Shell
  }
}
