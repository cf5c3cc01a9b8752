/** The handful of Python `str` operations the function index is built from:
    whitespace splitting and joining, `strip`, `startswith`, `endswith`, `find`. */
module Text {

  /** `str.isspace()` for a single character: the characters that `str.split()`
      and `str.strip()` (both called without arguments) treat as whitespace. */
  predicate IsSpace(c: char) {
    ('\t' <= c <= '\r') || ('\U{1c}' <= c <= '\U{1f}') || c == ' '
    || c == '\U{85}' || c == '\U{a0}' || c == '\U{1680}'
    || ('\U{2000}' <= c <= '\U{200a}') || c == '\U{2028}' || c == '\U{2029}'
    || c == '\U{202f}' || c == '\U{205f}' || c == '\U{3000}'
  }

  predicate NoSpace(s: string) {
    forall i :: 0 <= i < |s| ==> !IsSpace(s[i])
  }

  lemma NoSpacePrefix(s: string, p: string)
    requires NoSpace(s) && p <= s
    ensures NoSpace(p)
  {
    assert forall i :: 0 <= i < |p| ==> p[i] == s[i];
  }

  lemma TakeOfTake(s: string, a: nat, b: nat)
    requires a <= b <= |s|
    ensures s[..b][..a] == s[..a]
  {
  }

  /** `s.startswith(p)` */
  predicate StartsWith(s: string, p: string) {
    |p| <= |s| && s[..|p|] == p
  }

  /** `s.endswith(p)` */
  predicate EndsWith(s: string, p: string) {
    |p| <= |s| && s[|s| - |p|..] == p
  }

  /** Index of the first occurrence of `c` in `s`. */
  function IndexOf(s: string, c: char): (k: nat)
    requires c in s
    ensures k < |s| && s[k] == c && c !in s[..k]
  {
    if s[0] == c then 0 else 1 + IndexOf(s[1..], c)
  }

  /** `s.lstrip()` */
  function TrimStart(s: string): (r: string)
    ensures |r| <= |s|
    ensures r == [] || !IsSpace(r[0])
    ensures forall i :: 0 <= i < |s| - |r| ==> IsSpace(s[i])
  {
    if s != [] && IsSpace(s[0]) then TrimStart(s[1..]) else s
  }

  /** `s.rstrip()` */
  function TrimEnd(s: string): (r: string)
    ensures r <= s
    ensures r == [] || !IsSpace(r[|r| - 1])
    ensures forall i :: |r| <= i < |s| ==> IsSpace(s[i])
  {
    if s != [] && IsSpace(s[|s| - 1]) then TrimEnd(s[..|s| - 1]) else s
  }

  /** `s.strip()`: what is left has no whitespace at either end, and when `s` does
      not start with whitespace only its end was cut. */
  function Strip(s: string): (r: string)
    ensures |r| <= |s|
    ensures r == [] || (!IsSpace(r[0]) && !IsSpace(r[|r| - 1]))
    ensures (s == [] || !IsSpace(s[0])) ==> r <= s
    ensures NoSpace(s) ==> r == s
  {
    TrimEnd(TrimStart(s))
  }

  /** `s.strip()` is the slice of `s` left once the whitespace at both ends is cut: a
      slice with only whitespace before and after it, and none at either of its ends. */
  lemma StripSlice(s: string)
    ensures exists a, b :: SurroundedBySpace(s, a, b) && Strip(s) == s[a..b]
  {
    var t := TrimStart(s);
    TrimStartIsSuffix(s);
    var r := TrimEnd(t);
    var a := |s| - |t|;
    SliceOfSuffix(s, t, r);
    SpaceAfterSlice(s, t, r);
    assert SurroundedBySpace(s, a, a + |r|);
  }

  lemma SliceOfSuffix(s: string, t: string, r: string)
    requires |t| <= |s| && t == s[|s| - |t|..] && r <= t
    ensures r == s[|s| - |t|..|s| - |t| + |r|]
  {
  }

  lemma SpaceAfterSlice(s: string, t: string, r: string)
    requires |t| <= |s| && t == s[|s| - |t|..] && |r| <= |t|
    requires forall i :: |r| <= i < |t| ==> IsSpace(t[i])
    ensures forall i :: |s| - |t| + |r| <= i < |s| ==> IsSpace(s[i])
  {
    forall i | |s| - |t| + |r| <= i < |s|
      ensures IsSpace(s[i])
    {
      assert s[i] == t[i - (|s| - |t|)];
    }
  }

  /** `s[a..b]` is a slice of `s` with only whitespace before and after it. */
  predicate SurroundedBySpace(s: string, a: int, b: int) {
    && 0 <= a <= b <= |s|
    && (forall i :: 0 <= i < a ==> IsSpace(s[i]))
    && (forall i :: b <= i < |s| ==> IsSpace(s[i]))
  }

  /** `lstrip` keeps a suffix of its input. */
  lemma {:induction false} TrimStartIsSuffix(s: string)
    ensures TrimStart(s) == s[|s| - |TrimStart(s)|..]
  {
    if s != [] && IsSpace(s[0]) {
      TrimStartIsSuffix(s[1..]);
    }
  }

  /** The longest prefix of `s` that contains no whitespace. */
  function Token(s: string): (w: string)
    ensures w <= s && NoSpace(w)
    ensures |w| < |s| ==> IsSpace(s[|w|])
    ensures s != [] && !IsSpace(s[0]) ==> w != []
  {
    if s == [] || IsSpace(s[0]) then [] else [s[0]] + Token(s[1..])
  }

  /** `s.split()`: the maximal runs of non-whitespace characters, in order. */
  function Words(s: string): (ws: seq<string>)
    ensures forall k :: 0 <= k < |ws| ==> ws[k] != [] && NoSpace(ws[k])
    decreases |s|
  {
    var t := TrimStart(s);
    if t == [] then []
    else
      var w := Token(t);
      [w] + Words(t[|w|..])
  }

  /** `" ".join(ws)` */
  function JoinSpace(ws: seq<string>): string {
    if ws == [] then []
    else if |ws| == 1 then ws[0]
    else ws[0] + " " + JoinSpace(ws[1..])
  }

  /** A tidy text has no whitespace at either end, and every whitespace character
      in it is a single space between two non-whitespace characters. */
  predicate Tidy(t: string) {
    forall i :: 0 <= i < |t| && IsSpace(t[i]) ==> 0 < i < |t| - 1 && t[i] == ' ' && !IsSpace(t[i + 1])
  }

  /** `" ".join(s.split())`: whitespace collapsed to single spaces and trimmed. */
  function Normalize(s: string): (r: string)
    ensures Tidy(r)
  {
    JoinWordsTidy(Words(s));
    JoinSpace(Words(s))
  }

  /** Normalising keeps the words of `s`, in order; with `NormalizeUnique`, it is the
      one tidy text that does. */
  lemma NormalizeWords(s: string)
    ensures Words(Normalize(s)) == Words(s)
  {
    WordsOfJoin(Words(s));
  }

  /** Tidy text is determined by its words: it is the normalisation of any text with
      the same words. */
  lemma NormalizeUnique(s: string, t: string)
    requires Tidy(t) && Words(t) == Words(s)
    ensures t == Normalize(s)
  {
    NormalizeTidy(t);
  }

  /** A whitespace-free word followed by whitespace or nothing is the first token. */
  lemma {:induction false} TokenBeforeSpace(w: string, rest: string)
    requires NoSpace(w) && (rest == [] || IsSpace(rest[0]))
    ensures Token(w + rest) == w
  {
    if w != [] {
      assert (w + rest)[0] == w[0];
      assert (w + rest)[1..] == w[1..] + rest;
      TokenBeforeSpace(w[1..], rest);
    } else {
      assert w + rest == rest;
    }
  }

  /** Splitting words joined with single spaces gives the words back. */
  lemma {:induction false} WordsOfJoin(ws: seq<string>)
    requires forall k :: 0 <= k < |ws| ==> ws[k] != [] && NoSpace(ws[k])
    ensures Words(JoinSpace(ws)) == ws
  {
    if ws == [] {
      assert Words([]) == [];
    } else if |ws| == 1 {
      WordsOfWord(ws[0]);
    } else {
      var rest := ws[1..];
      WordsOfJoin(rest);
      JoinWordsTidy(rest);
      WordsOfWordThenTidy(ws[0], JoinSpace(rest));
    }
  }

  /** A single word splits into itself. */
  lemma WordsOfWord(w: string)
    requires w != [] && NoSpace(w)
    ensures Words(w) == [w]
  {
    assert TrimStart(w) == w;
    TokenBeforeSpace(w, []);
    assert w + [] == w;
    assert w[|w|..] == [];
    assert Words([]) == [];
  }

  /** A word, a space and a non-empty tidy text split into the word and the text's words. */
  lemma WordsOfWordThenTidy(w: string, j: string)
    requires w != [] && NoSpace(w) && j != [] && Tidy(j)
    ensures Words(w + " " + j) == [w] + Words(j)
  {
    var t := w + " " + j;
    assert !IsSpace(t[0]) by { assert t[0] == w[0]; }
    assert TrimStart(t) == t;
    assert t == w + (" " + j);
    TokenBeforeSpace(w, " " + j);
    var after := t[|w|..];
    assert after == " " + j;
    assert after[1] == j[0];
    WordsSkipSpace(after);
    assert after[1..] == j;
  }

  /** Joining non-empty whitespace-free words with single spaces gives tidy text. */
  lemma {:induction false} JoinWordsTidy(ws: seq<string>)
    requires forall k :: 0 <= k < |ws| ==> ws[k] != [] && NoSpace(ws[k])
    ensures Tidy(JoinSpace(ws))
    ensures ws != [] ==> JoinSpace(ws) != []
  {
    if |ws| >= 2 {
      var a, b := ws[0], JoinSpace(ws[1..]);
      JoinWordsTidy(ws[1..]);
      var t := a + " " + b;
      assert JoinSpace(ws) == t;
      assert forall i :: 0 <= i < |a| ==> t[i] == a[i];
      forall i | 0 <= i < |t| && IsSpace(t[i])
        ensures 0 < i < |t| - 1 && t[i] == ' ' && !IsSpace(t[i + 1])
      {
        if i == |a| {
          assert t[i + 1] == b[0];
        } else if i > |a| {
          assert t[i] == b[i - |a| - 1];
          if i + 1 < |t| {
            assert t[i + 1] == b[i - |a|];
          }
        }
      }
    }
  }

  /** Removing a tail of a tidy text and stripping what is left keeps it tidy,
      and the result is still a prefix of the original text. */
  lemma StripPrefixOfTidy(t: string, p: string)
    requires Tidy(t) && p <= t
    ensures Strip(p) <= p && Tidy(Strip(p))
  {
    var r := Strip(p);
    if p != [] {
      assert p[0] == t[0];
      assert !IsSpace(p[0]);
      forall i | 0 <= i < |r| && IsSpace(r[i])
        ensures 0 < i < |r| - 1 && r[i] == ' ' && !IsSpace(r[i + 1])
      {
        assert r[i] == t[i];
        assert i != |r| - 1;
        assert r[i + 1] == t[i + 1];
      }
    }
  }

  /** Stripping a prefix of tidy text removes at most one trailing space. */
  lemma StripPrefixOfTidyTail(t: string, p: string)
    requires Tidy(t) && p <= t
    ensures p == Strip(p) || p == Strip(p) + " "
  {
    if p != [] {
      assert p[0] == t[0] && !IsSpace(p[0]);
      assert TrimStart(p) == p;
      if IsSpace(p[|p| - 1]) {
        var q := p[..|p| - 1];
        assert t[|p| - 1] == p[|p| - 1] && p[|p| - 1] == ' ';
        assert q[|q| - 1] == t[|p| - 2];
        assert !IsSpace(q[|q| - 1]);
        assert TrimEnd(p) == TrimEnd(q) == q;
        assert p == q + [p[|p| - 1]];
      }
    }
  }

  /** What follows a space inside tidy text is itself tidy and starts with a non-space. */
  lemma TidyAfterSpace(t: string, k: nat)
    requires Tidy(t) && k < |t| && IsSpace(t[k])
    ensures 0 < k < |t| - 1 && t[k] == ' '
    ensures t[k + 1..] != [] && !IsSpace(t[k + 1]) && Tidy(t[k + 1..])
  {
    var rest := t[k + 1..];
    forall i | 0 <= i < |rest| && IsSpace(rest[i])
      ensures 0 < i < |rest| - 1 && rest[i] == ' ' && !IsSpace(rest[i + 1])
    {
      assert rest[i] == t[k + 1 + i];
      assert rest[i + 1] == t[k + 2 + i];
    }
  }

  /** A single space before a word is skipped by `split()`. */
  lemma WordsSkipSpace(s: string)
    requires |s| >= 2 && IsSpace(s[0]) && !IsSpace(s[1])
    ensures Words(s) == Words(s[1..])
  {
    assert TrimStart(s) == TrimStart(s[1..]);
    assert TrimStart(s[1..]) == s[1..];
  }

  lemma JoinSpaceCons(w: string, ws: seq<string>)
    requires ws != []
    ensures JoinSpace([w] + ws) == w + " " + JoinSpace(ws)
  {
    assert ([w] + ws)[1..] == ws;
  }

  /** `split()` of tidy text: its first word, then the words after the space that ends it. */
  lemma WordsOfTidy(t: string)
    requires Tidy(t) && t != []
    ensures Token(t) != [] && TrimStart(t) == t
    ensures |Token(t)| == |t| ==> Token(t) == t && Words(t) == [t]
    ensures |Token(t)| < |t| ==> Words(t) == [Token(t)] + Words(t[|Token(t)| + 1..])
  {
    assert !IsSpace(t[0]);
    var w := Token(t);
    if |w| == |t| {
      assert t[|w|..] == [];
    } else {
      TidyAfterSpace(t, |w|);
      assert t[|w|..][1..] == t[|w| + 1..];
      WordsSkipSpace(t[|w|..]);
    }
  }

  /** Normalising tidy text that holds a space: its first word, a space, and the
      normalised rest. */
  lemma NormalizeSplitsTidy(t: string)
    requires Tidy(t) && t != [] && |Token(t)| < |t|
    ensures Tidy(t[|Token(t)| + 1..])
    ensures Normalize(t) == Token(t) + " " + Normalize(t[|Token(t)| + 1..])
  {
    WordsOfTidy(t);
    var w := Token(t);
    TidyAfterSpace(t, |w|);
    var ws := Words(t[|w| + 1..]);
    JoinWordsTidy(ws);
    JoinSpaceCons(w, ws);
  }

  lemma SplitAround(t: string, k: nat)
    requires k < |t| && t[k] == ' '
    ensures t == t[..k] + " " + t[k + 1..]
  {
    assert t == t[..k] + t[k..];
    assert t[k..] == [t[k]] + t[k + 1..];
  }

  /** Tidy text is a fixed point of whitespace normalisation: `" ".join(t.split()) == t`. */
  lemma {:induction false} NormalizeTidy(t: string)
    requires Tidy(t)
    ensures Normalize(t) == t
    decreases |t|
  {
    if t == [] {
      assert Words(t) == [];
    } else {
      WordsOfTidy(t);
      var w := Token(t);
      if |w| < |t| {
        NormalizeSplitsTidy(t);
        var rest := t[|w| + 1..];
        NormalizeTidy(rest);
        TidyAfterSpace(t, |w|);
        SplitAround(t, |w|);
        assert w == t[..|w|];
        assert Normalize(t) == w + " " + rest;
      } else {
        assert Words(t) == [t];
        assert JoinSpace([t]) == t;
      }
    }
  }
}
