/** Order-preserving removal of duplicates, as `dedupe` in `find_changes_in_worktree`
    does it and as `iter_source_files` does it with its `emitted` set. */
module Distinct {

  predicate NoDuplicates<T(==,!new)>(s: seq<T>) {
    forall a, b :: 0 <= a < b < |s| ==> s[a] != s[b]
  }

  /** Position of the first occurrence of `x` in `s`. */
  function FirstIndex<T(==,!new)>(s: seq<T>, x: T): (k: nat)
    requires x in s
    ensures k < |s| && s[k] == x && x !in s[..k]
  {
    if s[0] == x then 0 else 1 + FirstIndex(s[1..], x)
  }

  /** Reference definition: the values of `s`, each kept at its first occurrence. */
  function Dedup<T(==,!new)>(s: seq<T>): (r: seq<T>)
    ensures NoDuplicates(r)
    ensures forall x :: x in r <==> x in s
  {
    if s == [] then []
    else
      var d := Dedup(s[..|s| - 1]);
      assert forall x :: x in s <==> x in s[..|s| - 1] || x == s[|s| - 1] by {
        assert s == s[..|s| - 1] + [s[|s| - 1]];
      }
      if s[|s| - 1] in d then d else d + [s[|s| - 1]]
  }

  /** One more value: `Dedup` keeps it only when it was not seen before. */
  lemma DedupSnoc<T(!new)>(s: seq<T>, x: T)
    ensures Dedup(s + [x]) == if x in Dedup(s) then Dedup(s) else Dedup(s) + [x]
  {
    assert (s + [x])[..|s|] == s;
  }

  lemma FirstIndexOfPrefix<T(!new)>(s: seq<T>, k: nat, x: T)
    requires k <= |s| && x in s[..k]
    ensures x in s && FirstIndex(s, x) == FirstIndex(s[..k], x)
  {
    var i := FirstIndex(s[..k], x);
    assert s[i] == x;
    var j := FirstIndex(s, x);
    assert s[..k][..i] == s[..i];
  }

  /** Two values whose first occurrences in `p + [v]` come in order: the first already
      occurs in `p`, and so does the order when the second does too. */
  lemma FirstIndexSnoc<T(!new)>(p: seq<T>, v: T, x: T, y: T)
    requires x in p + [v] && y in p + [v]
    requires FirstIndex(p + [v], x) < FirstIndex(p + [v], y)
    ensures x in p
    ensures y in p ==> FirstIndex(p, x) < FirstIndex(p, y)
  {
    var s := p + [v];
    assert s[..|p|] == p;
    var ix := FirstIndex(s, x);
    assert ix < |p| by {
      if y in p {
        FirstIndexOfPrefix(s, |p|, y);
      }
    }
    assert p[ix] == x;
    FirstIndexOfPrefix(s, |p|, x);
    if y in p {
      FirstIndexOfPrefix(s, |p|, y);
    }
  }

  /** The deduplicated values come out in the order of their first occurrence in the input. */
  lemma {:induction false} DedupFirstOccurrenceOrder<T(!new)>(s: seq<T>)
    ensures forall a, b :: 0 <= a < b < |Dedup(s)| ==>
      FirstIndex(s, Dedup(s)[a]) < FirstIndex(s, Dedup(s)[b])
  {
    if s != [] {
      var p := s[..|s| - 1];
      var x := s[|s| - 1];
      var d := Dedup(p);
      DedupFirstOccurrenceOrder(p);
      forall y | y in d ensures FirstIndex(s, y) == FirstIndex(p, y) {
        assert s[..|s| - 1] == p;
        FirstIndexOfPrefix(s, |s| - 1, y);
      }
      if x !in d {
        assert x !in p;
        assert FirstIndex(s, x) == |s| - 1;
        var r := d + [x];
        assert forall y :: y in r ==> y in s;
        forall a, b | 0 <= a < b < |r| ensures FirstIndex(s, r[a]) < FirstIndex(s, r[b]) {
          assert r[a] == d[a];
          if b < |d| { assert r[b] == d[b]; }
        }
      }
    }
  }

  /** `dedupe(values)`: grows a `seen` set and a `result` list in one pass. */
  method Dedupe<T(==,!new)>(values: seq<T>) returns (result: seq<T>)
    ensures result == Dedup(values)
    ensures NoDuplicates(result)
    ensures forall v :: v in result <==> v in values
    ensures forall a, b :: 0 <= a < b < |result| ==>
      FirstIndex(values, result[a]) < FirstIndex(values, result[b])
  {
    var seen: set<T> := {};
    result := [];
    for k := 0 to |values|
      invariant result == Dedup(values[..k])
      invariant forall x :: x in seen <==> x in result
    {
      var v := values[k];
      assert values[..k + 1][..k] == values[..k];
      if v in seen {
        continue;
      }
      seen := seen + {v};
      result := result + [v];
    }
    assert values[..|values|] == values;
    DedupFirstOccurrenceOrder(values);
  }
}
