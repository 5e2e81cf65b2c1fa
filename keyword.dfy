/**
 * Keyword removal: the lines the search matches (`remove_by_keyword`) and
 * the filtering done once the operator confirms the checked matches
 * (`KeywordRemovalWindow.confirm_removal`).
 */
module Keyword {
  import opened Text
  import opened Lists

  /** `keyword.lower() in line.lower()`. */
  predicate IsMatch(line: string, keyword: string) {
    Contains(Lower(line), Lower(keyword))
  }

  /** The lines containing the keyword, ignoring ASCII case, in document order. */
  function Matches(lines: seq<string>, keyword: string): (m: seq<string>)
    ensures |m| <= |lines|
    ensures forall x :: x in m <==> x in lines && IsMatch(x, keyword)
  {
    if lines == [] then []
    else
      var init := Matches(lines[..|lines| - 1], keyword);
      var last := lines[|lines| - 1];
      assert lines == lines[..|lines| - 1] + [last];
      if IsMatch(last, keyword) then init + [last] else init
  }

  /**
   * The matches keep the order of the document and every copy of a matching
   * line (one checkbox per copy), and no copy of any other line.
   */
  lemma {:induction false} MatchesExact(lines: seq<string>, keyword: string)
    ensures Subsequence(Matches(lines, keyword), lines)
    ensures forall x :: multiset(Matches(lines, keyword))[x] ==
                        if IsMatch(x, keyword) then multiset(lines)[x] else 0
  {
    if lines != [] {
      var n := |lines|;
      var init := lines[..n - 1];
      MatchesExact(init, keyword);
      SubsequenceSnoc(Matches(init, keyword), init, lines[n - 1]);
      assert init + [lines[n - 1]] == lines;
    }
  }

  /** The lines whose boxes are checked; one box per match, in the same order. */
  method CheckedLines(matches: seq<string>, checks: seq<bool>) returns (toRemove: set<string>)
    requires |checks| == |matches|
    ensures forall x :: x in toRemove <==> exists i :: 0 <= i < |matches| && checks[i] && matches[i] == x
  {
    toRemove := {};
    var i := 0;
    while i < |checks|
      invariant 0 <= i <= |checks|
      invariant forall x :: x in toRemove <==> exists k :: 0 <= k < i && checks[k] && matches[k] == x
    {
      if checks[i] {
        toRemove := toRemove + {matches[i]};
      }
      i := i + 1;
    }
  }

  /** `[line for line in lines if line not in toRemove]`. */
  function RemoveLines(lines: seq<string>, toRemove: set<string>): (r: seq<string>)
    ensures |r| <= |lines|
    ensures forall x :: x in r <==> x in lines && x !in toRemove
  {
    if lines == [] then []
    else
      var init := RemoveLines(lines[..|lines| - 1], toRemove);
      var last := lines[|lines| - 1];
      assert lines == lines[..|lines| - 1] + [last];
      if last in toRemove then init else init + [last]
  }

  /**
   * Removal keeps every copy of each line that was not selected and no copy
   * of a selected line, in the original order.
   */
  lemma {:induction false} RemoveLinesExact(lines: seq<string>, toRemove: set<string>)
    ensures Subsequence(RemoveLines(lines, toRemove), lines)
    ensures forall x :: multiset(RemoveLines(lines, toRemove))[x] ==
                        if x in toRemove then 0 else multiset(lines)[x]
  {
    if lines != [] {
      var n := |lines|;
      var init := lines[..n - 1];
      RemoveLinesExact(init, toRemove);
      SubsequenceSnoc(RemoveLines(init, toRemove), init, lines[n - 1]);
      assert init + [lines[n - 1]] == lines;
    }
  }

  /** Removing nothing leaves the document as it is. */
  lemma {:induction false} RemoveNothing(lines: seq<string>)
    ensures RemoveLines(lines, {}) == lines
  {
    if lines != [] {
      RemoveNothing(lines[..|lines| - 1]);
      assert lines[..|lines| - 1] + [lines[|lines| - 1]] == lines;
    }
  }

  /** Removing exactly the lines that match the keyword leaves the lines that do not. */
  lemma RemoveAllMatches(lines: seq<string>, keyword: string, checks: seq<bool>, toRemove: set<string>)
    requires |checks| == |Matches(lines, keyword)|
    requires forall i :: 0 <= i < |checks| ==> checks[i]
    requires forall x :: x in toRemove <==> exists i :: 0 <= i < |checks| && checks[i] && Matches(lines, keyword)[i] == x
    ensures forall x :: x in RemoveLines(lines, toRemove) <==> x in lines && !IsMatch(x, keyword)
  {
    var m := Matches(lines, keyword);
    forall x ensures x in toRemove <==> x in m {
      if x in m {
        var i :| 0 <= i < |m| && m[i] == x;
        assert checks[i];
      }
    }
  }
}
