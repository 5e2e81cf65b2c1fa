/**
 * The "Deduplicate" processor (`deduplicate` in hosts_editor.py): blank
 * lines and comment lines are always kept; any other line is kept only when
 * its stripped, lower-cased text has not been seen before, and it is kept
 * verbatim.
 *
 * The algorithm is a first-occurrence filter: each line has an optional
 * key, a line without a key is always kept, and a line with a key is kept
 * when no kept line had that key. Its properties are proved once for any
 * key function (`Filter`) and then read for the processor's own key
 * (`KeyOf`), so the proofs do not depend on how strip() and lower() work.
 */
module Dedup {
  import opened Options
  import opened Text
  import opened Lists

  /** A line that is blank once stripped, or whose stripped text starts with '#'. */
  predicate Structural(line: string) {
    var s := Strip(line);
    s == "" || StartsWith(s, "#")
  }

  /** The text a non-structural line is compared by: stripped, then lower-cased. */
  function Key(line: string): string {
    Lower(Strip(line))
  }

  /**
   * The key a line is recorded under in `seen`; structural lines have none,
   * and a key is never empty and never a comment.
   */
  function KeyOf(line: string): (k: Option<string>)
    ensures k.None? <==> Structural(line)
    ensures k.Some? ==> k.value == Key(line) && k.value != "" && k.value[0] != '#'
  {
    LowerKeepsClasses(Strip(line));
    if Structural(line) then None else Some(Key(line))
  }

  /** A structural line is one that is blank, or whose first non-space character is '#'. */
  lemma StructuralMeans(line: string)
    ensures Structural(line) <==>
              IsBlank(line) || exists i :: 0 <= i < |line| && line[i] == '#' && IsBlank(line[..i])
  {
    var l := TrimLeft(line);
    var i := |line| - |l|;
    StripEmptyIffBlank(line);
    TrimLeftDropsBlank(line);
    if l != "" {
      TrimRightKeepsFirst(l);
      StripFirst(line);
      assert line[i] == l[0];
    }
    if j :| 0 <= j < |line| && line[j] == '#' && IsBlank(line[..j]) {
      if j < i {
        assert line[..i][j] == line[j];
      } else if j > i {
        assert line[..j][i] == line[i];
      }
    }
  }

  // ---------------------------------------------------------------------
  // The first-occurrence filter, for any key function f

  /** The keys recorded for the lines of s. */
  function KeySet(s: seq<string>, f: string -> Option<string>): set<string> {
    if s == [] then {} else KeySet(s[..|s| - 1], f) + Values(f(s[|s| - 1]))
  }

  /** The value an option holds, as a set. */
  function Values(k: Option<string>): set<string> {
    if k.Some? then {k.value} else {}
  }

  /** A line with key k is kept unless k is a key already seen. */
  predicate Fresh(k: Option<string>, seen: set<string>) {
    k.None? || k.value !in seen
  }

  function FilterStep(kept: seq<string>, line: string, f: string -> Option<string>): seq<string> {
    if Fresh(f(line), KeySet(kept, f)) then kept + [line] else kept
  }

  function Filter(lines: seq<string>, f: string -> Option<string>): seq<string> {
    if lines == [] then [] else FilterStep(Filter(lines[..|lines| - 1], f), lines[|lines| - 1], f)
  }

  // ---------------------------------------------------------------------
  // The processor

  /** The `seen` set for the lines kept so far. */
  function KeysOf(s: seq<string>): set<string> {
    KeySet(s, KeyOf)
  }

  /** One iteration of the loop. */
  function Step(kept: seq<string>, line: string): seq<string> {
    FilterStep(kept, line, KeyOf)
  }

  /** The processor's result. */
  function Dedup(lines: seq<string>): seq<string> {
    Filter(lines, KeyOf)
  }

  /** The processor as the source runs it: one pass with a `seen` set. */
  method DedupLines(lines: seq<string>) returns (unique: seq<string>)
    ensures unique == Dedup(lines)
  {
    var seen: set<string> := {};
    unique := [];
    var i := 0;
    assert lines[..0] == [];
    while i < |lines|
      invariant 0 <= i <= |lines|
      invariant unique == Dedup(lines[..i])
      invariant seen == KeysOf(unique)
    {
      FilterSnoc(lines, i, KeyOf);
      unique, seen := DedupOne(unique, seen, lines[i]);
      i := i + 1;
    }
    assert lines[..|lines|] == lines;
  }

  /** The loop body for one line, keeping `seen` equal to the keys kept so far. */
  method DedupOne(kept: seq<string>, seen: set<string>, line: string)
    returns (kept': seq<string>, seen': set<string>)
    requires seen == KeysOf(kept)
    ensures kept' == Step(kept, line)
    ensures seen' == KeysOf(kept')
  {
    kept', seen' := kept, seen;
    var stripped := Strip(line);
    if stripped != "" && !StartsWith(stripped, "#") {
      if Lower(stripped) !in seen {
        seen' := seen + {Lower(stripped)};
        kept' := kept + [line];
        KeySetSnoc(kept, line, KeyOf);
      }
    } else {
      kept' := kept + [line];
      KeySetSnoc(kept, line, KeyOf);
    }
  }

  // ---------------------------------------------------------------------
  // Lemmas about the filter, for any key function

  lemma KeySetSnoc(s: seq<string>, x: string, f: string -> Option<string>)
    ensures KeySet(s + [x], f) == KeySet(s, f) + Values(f(x))
  {
    assert (s + [x])[..|s|] == s;
  }

  /** A key is recorded exactly when some line of s has it. */
  lemma {:induction false} KeySetMembers(s: seq<string>, f: string -> Option<string>, y: string)
    ensures y in KeySet(s, f) <==> exists i :: 0 <= i < |s| && f(s[i]) == Some(y)
  {
    if s != [] {
      var init := s[..|s| - 1];
      KeySetMembers(init, f, y);
      if y in KeySet(init, f) {
        var i :| 0 <= i < |init| && f(init[i]) == Some(y);
        assert init[i] == s[i];
      }
      if exists i :: 0 <= i < |s| && f(s[i]) == Some(y) {
        var i :| 0 <= i < |s| && f(s[i]) == Some(y);
        if i < |init| {
          assert init[i] == s[i];
        }
      }
    }
  }

  lemma FilterSnoc(lines: seq<string>, i: nat, f: string -> Option<string>)
    requires i < |lines|
    ensures Filter(lines[..i + 1], f) == FilterStep(Filter(lines[..i], f), lines[i], f)
  {
    assert lines[..i + 1][..i] == lines[..i];
  }

  /** A step records the line's key whether or not it keeps the line. */
  lemma StepKeys(kept: seq<string>, x: string, f: string -> Option<string>)
    ensures KeySet(FilterStep(kept, x, f), f) == KeySet(kept, f) + Values(f(x))
  {
    KeySetSnoc(kept, x, f);
  }

  lemma {:induction false} FilterKeys(lines: seq<string>, f: string -> Option<string>)
    ensures KeySet(Filter(lines, f), f) == KeySet(lines, f)
  {
    if lines != [] {
      var init := lines[..|lines| - 1];
      FilterKeys(init, f);
      StepKeys(Filter(init, f), lines[|lines| - 1], f);
    }
  }

  /** Line i of lines is kept by the filter. */
  predicate KeptBy(lines: seq<string>, i: int, f: string -> Option<string>)
    requires 0 <= i < |lines|
  {
    Fresh(f(lines[i]), KeySet(lines[..i], f))
  }

  function SelectBy(lines: seq<string>, n: nat, f: string -> Option<string>): seq<string>
    requires n <= |lines|
  {
    if n == 0 then [] else SelectBy(lines, n - 1, f) + (if KeptBy(lines, n - 1, f) then [lines[n - 1]] else [])
  }

  lemma {:induction false} FilterIsSelection(lines: seq<string>, n: nat, f: string -> Option<string>)
    requires n <= |lines|
    ensures Filter(lines[..n], f) == SelectBy(lines, n, f)
  {
    if n > 0 {
      FilterIsSelection(lines, n - 1, f);
      FilterKeys(lines[..n - 1], f);
      FilterSnoc(lines, n - 1, f);
    }
  }

  lemma {:induction false} FilterDroppedTwin(lines: seq<string>, i: int, f: string -> Option<string>)
    requires 0 <= i < |lines| && !KeptBy(lines, i, f)
    ensures exists j :: 0 <= j < i && KeptBy(lines, j, f) && f(lines[j]) == f(lines[i])
    decreases i
  {
    var pre := lines[..i];
    var y := f(lines[i]).value;
    KeySetMembers(pre, f, y);
    var j :| 0 <= j < |pre| && f(pre[j]) == Some(y);
    assert pre[j] == lines[j];
    if !KeptBy(lines, j, f) {
      FilterDroppedTwin(lines, j, f);
    }
  }

  function Keyless(s: seq<string>, f: string -> Option<string>): seq<string> {
    if s == [] then []
    else Keyless(s[..|s| - 1], f) + (if f(s[|s| - 1]).None? then [s[|s| - 1]] else [])
  }

  lemma {:induction false} FilterKeepsKeyless(lines: seq<string>, f: string -> Option<string>)
    ensures Keyless(Filter(lines, f), f) == Keyless(lines, f)
  {
    if lines != [] {
      var n := |lines|;
      var prev := Filter(lines[..n - 1], f);
      FilterKeepsKeyless(lines[..n - 1], f);
      if Fresh(f(lines[n - 1]), KeySet(prev, f)) {
        assert (prev + [lines[n - 1]])[..|prev|] == prev;
      }
    }
  }

  /** No two lines of s share a key. */
  predicate KeysUnique(s: seq<string>, f: string -> Option<string>) {
    forall i, j :: 0 <= i < j < |s| && f(s[i]).Some? ==> f(s[i]) != f(s[j])
  }

  lemma {:induction false} FilterKeysUnique(lines: seq<string>, f: string -> Option<string>)
    ensures KeysUnique(Filter(lines, f), f)
  {
    if lines != [] {
      var n := |lines|;
      var prev := Filter(lines[..n - 1], f);
      var x := lines[n - 1];
      FilterKeysUnique(lines[..n - 1], f);
      if Fresh(f(x), KeySet(prev, f)) {
        var t := prev + [x];
        forall i, j | 0 <= i < j < |t| && f(t[i]).Some? ensures f(t[i]) != f(t[j]) {
          assert t[i] == prev[i];
          if j == |prev| {
            KeySetMembers(prev, f, f(prev[i]).value);
          } else {
            assert t[j] == prev[j];
          }
        }
      }
    }
  }

  lemma {:induction false} FilterSubsequence(lines: seq<string>, f: string -> Option<string>)
    ensures Subsequence(Filter(lines, f), lines)
    ensures |Filter(lines, f)| <= |lines|
  {
    if lines != [] {
      var n := |lines|;
      var prev := Filter(lines[..n - 1], f);
      FilterSubsequence(lines[..n - 1], f);
      SubsequenceSnoc(prev, lines[..n - 1], lines[n - 1]);
      assert lines[..n - 1] + [lines[n - 1]] == lines;
    }
  }

  /** A sequence whose keys are unique is left as it is. */
  lemma {:induction false} UniqueIsFixed(s: seq<string>, f: string -> Option<string>)
    requires KeysUnique(s, f)
    ensures Filter(s, f) == s
  {
    if s != [] {
      var n := |s|;
      var init := s[..n - 1];
      assert KeysUnique(init, f) by {
        forall i, j | 0 <= i < j < |init| && f(init[i]).Some? ensures f(init[i]) != f(init[j]) {
          assert init[i] == s[i] && init[j] == s[j];
        }
      }
      UniqueIsFixed(init, f);
      if f(s[n - 1]).Some? {
        forall k | 0 <= k < |init| ensures f(init[k]) != f(s[n - 1]) {
          assert init[k] == s[k];
        }
        KeySetMembers(init, f, f(s[n - 1]).value);
      }
      assert init + [s[n - 1]] == s;
    }
  }

  // ---------------------------------------------------------------------
  // The processor's properties

  /** Deduplicating never loses a key: the output has exactly the keys of the input. */
  lemma DedupKeys(lines: seq<string>)
    ensures KeysOf(Dedup(lines)) == KeysOf(lines)
  {
    FilterKeys(lines, KeyOf);
  }

  /** Line i survives: it is structural, or no earlier ordinary line has its key. */
  predicate KeptAt(lines: seq<string>, i: int)
    requires 0 <= i < |lines|
  {
    Structural(lines[i]) || Key(lines[i]) !in KeysOf(lines[..i])
  }

  /** The first n lines, keeping only those that survive, in order. */
  function Select(lines: seq<string>, n: nat): seq<string>
    requires n <= |lines|
  {
    if n == 0 then [] else Select(lines, n - 1) + (if KeptAt(lines, n - 1) then [lines[n - 1]] else [])
  }

  lemma KeptAtIsKeptBy(lines: seq<string>, i: int)
    requires 0 <= i < |lines|
    ensures KeptAt(lines, i) == KeptBy(lines, i, KeyOf)
  {
  }

  lemma {:induction false} SelectIsSelectBy(lines: seq<string>, n: nat)
    requires n <= |lines|
    ensures Select(lines, n) == SelectBy(lines, n, KeyOf)
  {
    if n > 0 {
      SelectIsSelectBy(lines, n - 1);
      KeptAtIsKeptBy(lines, n - 1);
    }
  }

  /** The processor returns exactly the surviving lines, in their original order. */
  lemma DedupIsSelection(lines: seq<string>, n: nat)
    requires n <= |lines|
    ensures Dedup(lines[..n]) == Select(lines, n)
  {
    FilterIsSelection(lines, n, KeyOf);
    SelectIsSelectBy(lines, n);
  }

  /** A line that does not survive has an earlier surviving ordinary line with the same key. */
  lemma DroppedHasKeptTwin(lines: seq<string>, i: int)
    requires 0 <= i < |lines| && !KeptAt(lines, i)
    ensures exists j :: 0 <= j < i && KeptAt(lines, j) && !Structural(lines[j]) && Key(lines[j]) == Key(lines[i])
  {
    KeptAtIsKeptBy(lines, i);
    FilterDroppedTwin(lines, i, KeyOf);
    var j :| 0 <= j < i && KeptBy(lines, j, KeyOf) && KeyOf(lines[j]) == KeyOf(lines[i]);
    KeptAtIsKeptBy(lines, j);
  }

  /** The structural lines of s, in order. */
  function StructuralLines(s: seq<string>): seq<string> {
    if s == [] then []
    else StructuralLines(s[..|s| - 1]) + (if Structural(s[|s| - 1]) then [s[|s| - 1]] else [])
  }

  lemma {:induction false} StructuralIsKeyless(s: seq<string>)
    ensures StructuralLines(s) == Keyless(s, KeyOf)
  {
    if s != [] {
      StructuralIsKeyless(s[..|s| - 1]);
    }
  }

  /** Every blank or comment line is kept, and in order. */
  lemma DedupKeepsStructural(lines: seq<string>)
    ensures StructuralLines(Dedup(lines)) == StructuralLines(lines)
  {
    FilterKeepsKeyless(lines, KeyOf);
    StructuralIsKeyless(lines);
    StructuralIsKeyless(Dedup(lines));
  }

  /** No two ordinary lines of s share a key. */
  predicate KeysDistinct(s: seq<string>) {
    forall i, j :: 0 <= i < j < |s| && !Structural(s[i]) && !Structural(s[j]) ==> Key(s[i]) != Key(s[j])
  }

  lemma DistinctIsUnique(s: seq<string>)
    ensures KeysDistinct(s) <==> KeysUnique(s, KeyOf)
  {
  }

  /** No two ordinary lines of the output share a key. */
  lemma DedupKeysDistinct(lines: seq<string>)
    ensures KeysDistinct(Dedup(lines))
  {
    FilterKeysUnique(lines, KeyOf);
    DistinctIsUnique(Dedup(lines));
  }

  /** The output is the input with some lines deleted, in the original order. */
  lemma DedupSubsequence(lines: seq<string>)
    ensures Subsequence(Dedup(lines), lines)
    ensures |Dedup(lines)| <= |lines|
  {
    FilterSubsequence(lines, KeyOf);
  }

  /** A document whose ordinary lines already have distinct keys is left as it is. */
  lemma DistinctIsFixed(s: seq<string>)
    requires KeysDistinct(s)
    ensures Dedup(s) == s
  {
    DistinctIsUnique(s);
    UniqueIsFixed(s, KeyOf);
  }

  /** Running the processor twice changes nothing more. */
  lemma DedupIdempotent(lines: seq<string>)
    ensures Dedup(Dedup(lines)) == Dedup(lines)
  {
    DedupKeysDistinct(lines);
    DistinctIsFixed(Dedup(lines));
  }
}
