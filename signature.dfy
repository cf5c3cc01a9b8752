/** `clean_signature`: how a declaration's source text becomes the signature shown in the index. */
module Signature {
  import opened Text

  /** Keep what comes before the first `{`, stripped (`sig.split("{", 1)[0].strip()`). */
  function CutAtBrace(n: string): (h: string)
    requires Tidy(n)
    ensures h <= n && Tidy(h) && '{' !in h
    ensures '{' in n ==> h <= n[..IndexOf(n, '{')] && |h| < |n|
    ensures '{' !in n ==> h == n
  {
    if '{' in n then
      var k := IndexOf(n, '{');
      StripPrefixOfTidy(n, n[..k]);
      var h := Strip(n[..k]);
      assert h <= n[..k];
      assert forall i :: 0 <= i < |h| ==> h[i] == n[..k][i];
      h
    else
      n
  }

  /** Remove one trailing `:` and strip again (`sig[:-1].strip()`). */
  function DropColon(h: string): (r: string)
    requires Tidy(h)
    ensures r <= h && Tidy(r)
    ensures EndsWith(h, ":") ==> |r| < |h|
    ensures !EndsWith(h, ":") ==> r == h
  {
    if EndsWith(h, ":") then
      StripPrefixOfTidy(h, h[..|h| - 1]);
      Strip(h[..|h| - 1])
    else
      h
  }

  /** The text before the first `{` (`sig.split("{", 1)[0]`), or all of it. */
  function BeforeBrace(n: string): (c: string)
    ensures c <= n && '{' !in c
    ensures '{' !in n ==> c == n
  {
    if '{' in n then n[..IndexOf(n, '{')] else n
  }

  /** `r` is what is left of `c` once at most one trailing `:` is cut, with at most one
      space on either side of that colon; when no colon is cut, `r` does not end in one. */
  predicate CutsColonTail(c: string, r: string) {
    || ((c == r || c == r + " ") && !EndsWith(r, ":"))
    || c == r + ":" || c == r + ": " || c == r + " :" || c == r + " : "
  }

  /** Collapse whitespace, drop everything from the first `{` on, then drop one trailing
      `:`. The result is a tidy prefix of the whitespace-normalised input without `{`. */
  function CleanSignature(sig: string): (r: string)
    ensures '{' !in r
    ensures Tidy(r)
    ensures r <= Normalize(sig)
  {
    var n := Normalize(sig);
    var h := CutAtBrace(n);
    var r := DropColon(h);
    assert forall i :: 0 <= i < |r| ==> r[i] == h[i];
    r
  }

  /** What cleaning cuts: of the normalised text before the first `{`, only one trailing
      colon and the spaces next to it; and when no colon is cut, none was left to cut. */
  lemma CleanSignatureCuts(sig: string)
    ensures CutsColonTail(BeforeBrace(Normalize(sig)), CleanSignature(sig))
  {
    var n := Normalize(sig);
    var h := CutAtBrace(n);
    CutAtBraceTail(n);
    DropColonTail(h);
    assert DropColon(h) == CleanSignature(sig);
  }

  /** The brace cut strips at most one space off the text before the brace. */
  lemma CutAtBraceTail(n: string)
    requires Tidy(n)
    ensures var c, h := BeforeBrace(n), CutAtBrace(n); c == h || c == h + " "
  {
    if '{' in n {
      StripPrefixOfTidyTail(n, BeforeBrace(n));
    }
  }

  /** Dropping the colon removes it and at most one space before it. */
  lemma DropColonTail(h: string)
    requires Tidy(h)
    ensures var r := DropColon(h);
      if EndsWith(h, ":") then h == r + ":" || h == r + " :" else r == h
  {
    if EndsWith(h, ":") {
      var q := h[..|h| - 1];
      StripPrefixOfTidyTail(h, q);
      assert h == q + ":";
    }
  }

  /** The contract of `CleanSignature` pins its value: any tidy text that the normalised
      text before the brace reduces to by such a cut is the cleaned signature. */
  lemma CleanSignatureDetermined(sig: string, r: string)
    requires Tidy(r) && CutsColonTail(BeforeBrace(Normalize(sig)), r)
    ensures r == CleanSignature(sig)
  {
    var c := BeforeBrace(Normalize(sig));
    CleanSignatureCuts(sig);
    CutsColonTailLength(c, r);
    CutsColonTailLength(c, CleanSignature(sig));
  }

  /** How many characters the colon cut takes off `c`, read off `c` alone. */
  function ColonTailLength(c: string): nat {
    if c == [] then 0
    else if c[|c| - 1] == ':' then
      if |c| >= 2 && c[|c| - 2] == ' ' then 2 else 1
    else if c[|c| - 1] == ' ' then
      if |c| >= 2 && c[|c| - 2] == ':' then
        if |c| >= 3 && c[|c| - 3] == ' ' then 3 else 2
      else 1
    else 0
  }

  /** A tidy text left by the colon cut is `c` minus `ColonTailLength(c)` characters. */
  lemma CutsColonTailLength(c: string, r: string)
    requires Tidy(r) && CutsColonTail(c, r)
    ensures |r| + ColonTailLength(c) == |c| && r == c[..|r|]
  {
    var n := |r|;
    if n > 0 {
      assert !IsSpace(r[n - 1]);
    }
    if c == r {
    } else if c == r + " " {
      assert c[n] == ' ';
      if n > 0 { assert c[n - 1] == r[n - 1]; }
    } else if c == r + ":" {
      assert c[n] == ':';
      if n > 0 { assert c[n - 1] == r[n - 1]; }
    } else if c == r + ": " {
      assert c[n] == ':' && c[n + 1] == ' ';
      if n > 0 { assert c[n - 1] == r[n - 1]; }
    } else if c == r + " :" {
      assert c[n] == ' ' && c[n + 1] == ':';
    } else {
      assert c == r + " : ";
      assert c[n] == ' ' && c[n + 1] == ':' && c[n + 2] == ' ';
    }
  }

  /** Cleaning a cleaned signature changes it exactly when it still ends in `:`
      (the first pass removes only one trailing colon). */
  lemma CleanSignatureIdempotence(sig: string)
    ensures CleanSignature(CleanSignature(sig)) == CleanSignature(sig)
            <==> !EndsWith(CleanSignature(sig), ":")
  {
    var r := CleanSignature(sig);
    NormalizeTidy(r);
  }

  /** A signature without whitespace or `{` loses at most one trailing `:`. */
  lemma CleanSignatureOfWord(s: string)
    requires NoSpace(s) && '{' !in s
    ensures CleanSignature(s) == if EndsWith(s, ":") then s[..|s| - 1] else s
  {
    assert Tidy(s);
    NormalizeTidy(s);
    if EndsWith(s, ":") {
      NoSpacePrefix(s, s[..|s| - 1]);
    }
  }

  /** A word ending in `::` (`"a::"`, say) is cleaned to the word minus one colon, and
      cleaning that again removes the second colon: one pass is not enough. */
  lemma DoubleColonNotIdempotent(s: string)
    requires NoSpace(s) && '{' !in s && EndsWith(s, "::")
    ensures CleanSignature(s) == s[..|s| - 1]
    ensures CleanSignature(CleanSignature(s)) == s[..|s| - 2] != CleanSignature(s)
  {
    DropLastOfColonColon(s);
    CleanSignatureOfWord(s);
    CleanSignatureOfWord(s[..|s| - 1]);
  }

  lemma DropLastOfColonColon(s: string)
    requires NoSpace(s) && '{' !in s && EndsWith(s, "::")
    ensures EndsWith(s, ":")
    ensures var p := s[..|s| - 1];
      NoSpace(p) && '{' !in p && EndsWith(p, ":") && p[..|p| - 1] == s[..|s| - 2]
  {
    var p := s[..|s| - 1];
    NoSpacePrefix(s, p);
    assert p[|p| - 1] == s[|s| - 2];
    TakeOfTake(s, |s| - 2, |s| - 1);
  }
}
