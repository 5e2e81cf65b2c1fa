/**
 * The preview's diff rendering (`PreviewWindow.display_diff`): each line of
 * an ndiff-style script becomes a row tagged added, removed or unchanged,
 * with its two-character prefix cut off; `? ` hint lines are skipped.
 */
module Diff {
  import opened Options
  import opened Text

  datatype Tag = Added | Removed | Unchanged

  /** One inserted stretch of the preview: its colour tag and its text. */
  datatype Row = Row(tag: Tag, content: string)

  /** Python's `line[2:]`, which is empty for lines shorter than two characters. */
  function Content(line: string): string {
    if |line| >= 2 then line[2..] else ""
  }

  /** The row one script line is shown as, or None for a hint line. */
  function RowOf(line: string): (r: Option<Row>)
    ensures r.None? <==> StartsWith(line, "? ")
    ensures r.Some? ==> && r.value.content == Content(line)
                        && (r.value.tag == Added <==> StartsWith(line, "+ "))
                        && (r.value.tag == Removed <==> StartsWith(line, "- "))
  {
    if StartsWith(line, "+ ") then Some(Row(Added, Content(line)))
    else if StartsWith(line, "- ") then Some(Row(Removed, Content(line)))
    else if StartsWith(line, "? ") then None
    else Some(Row(Unchanged, Content(line)))
  }

  /** The rows the preview shows for a script, in order: one per line that is not a hint. */
  function Rows(script: seq<string>): (rows: seq<Row>)
    ensures |rows| <= |script|
  {
    if script == [] then []
    else
      var init := Rows(script[..|script| - 1]);
      match RowOf(script[|script| - 1])
      case None => init
      case Some(r) => init + [r]
  }

  /** The rendering loop. */
  method DisplayDiff(script: seq<string>) returns (rows: seq<Row>)
    ensures rows == Rows(script)
  {
    rows := [];
    var i := 0;
    assert script[..0] == [];
    while i < |script|
      invariant 0 <= i <= |script|
      invariant rows == Rows(script[..i])
    {
      var line := script[i];
      var content := if |line| >= 2 then line[2..] else "";
      if StartsWith(line, "+ ") {
        rows := rows + [Row(Added, content)];
      } else if StartsWith(line, "- ") {
        rows := rows + [Row(Removed, content)];
      } else if !StartsWith(line, "? ") {
        rows := rows + [Row(Unchanged, content)];
      }
      assert script[..i + 1][..i] == script[..i];
      i := i + 1;
    }
    assert script[..|script|] == script;
  }

  /** Without hint lines, row k is the row of script line k. */
  lemma {:induction false} RowsWithoutHints(script: seq<string>)
    requires forall k :: 0 <= k < |script| ==> !StartsWith(script[k], "? ")
    ensures |Rows(script)| == |script|
    ensures forall k :: 0 <= k < |script| ==> RowOf(script[k]) == Some(Rows(script)[k])
  {
    if script != [] {
      var init := script[..|script| - 1];
      RowsWithoutHints(init);
      assert forall k :: 0 <= k < |init| ==> init[k] == script[k];
    }
  }

  /** A hint line anywhere in the script changes nothing in the preview. */
  lemma {:induction false} HintLinesDropped(a: seq<string>, hint: string, b: seq<string>)
    requires StartsWith(hint, "? ")
    ensures Rows(a + [hint] + b) == Rows(a + b)
    decreases |b|
  {
    if b == [] {
      assert (a + [hint] + b)[..|a|] == a;
      assert a + b == a;
    } else {
      var n := |b|;
      GapFree(a, hint, b);
      HintLinesDropped(a, hint, b[..n - 1]);
    }
  }

  lemma GapFree(a: seq<string>, hint: string, b: seq<string>)
    requires b != []
    ensures (a + [hint] + b)[..|a| + |b|] == a + [hint] + b[..|b| - 1]
    ensures (a + b)[..|a| + |b| - 1] == a + b[..|b| - 1]
    ensures (a + [hint] + b)[|a| + |b|] == (a + b)[|a| + |b| - 1] == b[|b| - 1]
  {
  }

  /** The script lines ndiff writes: two-character prefixes "  ", "- ", "+ " and "? ". */
  predicate WellTagged(script: seq<string>) {
    forall k :: 0 <= k < |script| ==>
      StartsWith(script[k], "  ") || StartsWith(script[k], "- ") ||
      StartsWith(script[k], "+ ") || StartsWith(script[k], "? ")
  }

  // ---------------------------------------------------------------------
  // The script's contract: difflib's `restore`

  datatype Side = Original | New

  /** The prefix of the lines only one side has. */
  function SideTag(side: Side): string {
    if side == Original then "- " else "+ "
  }

  /** What one script line contributes to a side's lines: its text when it is common or that side's. */
  function RestoredOf(line: string, side: Side): seq<string> {
    if StartsWith(line, "  ") || StartsWith(line, SideTag(side)) then [line[2..]] else []
  }

  /** `difflib.restore(script, which)`: the lines of one side, prefixes removed. */
  function Restore(script: seq<string>, side: Side): seq<string> {
    if script == [] then []
    else
      var init := Restore(script[..|script| - 1], side);
      var line := script[|script| - 1];
      if StartsWith(line, "  ") || StartsWith(line, SideTag(side)) then init + [line[2..]] else init
  }

  /** script is a diff from a to b in difflib's sense. */
  predicate IsDiffOf(script: seq<string>, a: seq<string>, b: seq<string>) {
    WellTagged(script) && Restore(script, Original) == a && Restore(script, New) == b
  }

  /** The tag the rows of one side carry besides "unchanged". */
  function SideRowTag(side: Side): Tag {
    if side == Original then Removed else Added
  }

  /** The contents of the rows that belong to one side, in order. */
  function Kept(rows: seq<Row>, side: Side): seq<string> {
    if rows == [] then []
    else
      var init := Kept(rows[..|rows| - 1], side);
      var r := rows[|rows| - 1];
      if r.tag == Unchanged || r.tag == SideRowTag(side) then init + [r.content] else init
  }

  lemma KeptSnoc(rows: seq<Row>, r: Row, side: Side)
    ensures Kept(rows + [r], side) ==
              Kept(rows, side) + (if r.tag == Unchanged || r.tag == SideRowTag(side) then [r.content] else [])
  {
    assert (rows + [r])[..|rows|] == rows;
  }

  /** What one row contributes to a side's lines. */
  function KeptOf(row: Option<Row>, side: Side): seq<string> {
    match row
    case None => []
    case Some(r) => if r.tag == Unchanged || r.tag == SideRowTag(side) then [r.content] else []
  }

  /** On one well-tagged line, the row shown and difflib agree. */
  lemma RowOfRestores(line: string, side: Side)
    requires StartsWith(line, "  ") || StartsWith(line, "- ") || StartsWith(line, "+ ") || StartsWith(line, "? ")
    ensures KeptOf(RowOf(line), side) == RestoredOf(line, side)
  {
  }

  /**
   * For a well-tagged script, the unchanged and removed rows read back as
   * one side's lines, and the unchanged and added rows as the other's.
   */
  lemma {:induction false} RowsRestore(script: seq<string>, side: Side)
    requires WellTagged(script)
    ensures Kept(Rows(script), side) == Restore(script, side)
  {
    if script != [] {
      var n := |script|;
      var init := script[..n - 1];
      var line := script[n - 1];
      assert WellTagged(init) by {
        forall k | 0 <= k < |init| ensures init[k] == script[k] { }
      }
      RowsRestore(init, side);
      RowOfRestores(line, side);
      assert Restore(script, side) == Restore(init, side) + RestoredOf(line, side);
      match RowOf(line)
      case None =>
        assert Rows(script) == Rows(init);
      case Some(r) =>
        KeptSnoc(Rows(init), r, side);
        assert Rows(script) == Rows(init) + [r];
    }
  }

  /** The preview of a diff from a to b shows a in its unchanged and removed rows, b in its unchanged and added ones. */
  lemma PreviewShowsBothSides(script: seq<string>, a: seq<string>, b: seq<string>)
    requires IsDiffOf(script, a, b)
    ensures Kept(Rows(script), Original) == a
    ensures Kept(Rows(script), New) == b
  {
    RowsRestore(script, Original);
    RowsRestore(script, New);
  }

  // ---------------------------------------------------------------------
  // Every pair of documents has a script: delete everything, then add everything

  function Prefixed(tag: string, lines: seq<string>): (r: seq<string>)
    ensures |r| == |lines|
    ensures forall k {:trigger r[k]} :: 0 <= k < |r| ==> r[k] == tag + lines[k]
  {
    if lines == [] then [] else Prefixed(tag, lines[..|lines| - 1]) + [tag + lines[|lines| - 1]]
  }

  /** The crudest diff from a to b. */
  function ReplaceAll(a: seq<string>, b: seq<string>): seq<string> {
    Prefixed("- ", a) + Prefixed("+ ", b)
  }

  /** A line tagged for one side restores to its text on that side. */
  lemma RestoredOwn(line: string, side: Side)
    ensures RestoredOf(SideTag(side) + line, side) == [line]
  {
    assert (SideTag(side) + line)[2..] == line;
    assert (SideTag(side) + line)[..2] == SideTag(side);
  }

  /** A line tagged for the other side restores to nothing. */
  lemma RestoredOther(tag: string, line: string, side: Side)
    requires (tag == "- " || tag == "+ ") && tag != SideTag(side)
    ensures RestoredOf(tag + line, side) == []
  {
    assert (tag + line)[..2] == tag;
  }

  lemma {:induction false} RestoreOwn(lines: seq<string>, side: Side)
    ensures Restore(Prefixed(SideTag(side), lines), side) == lines
  {
    if lines != [] {
      var init, last := lines[..|lines| - 1], lines[|lines| - 1];
      var p := Prefixed(SideTag(side), lines);
      assert p[..|p| - 1] == Prefixed(SideTag(side), init) && p[|p| - 1] == SideTag(side) + last;
      RestoreOwn(init, side);
      RestoredOwn(last, side);
      assert init + [last] == lines;
    }
  }

  lemma {:induction false} RestoreOther(tag: string, lines: seq<string>, side: Side)
    requires (tag == "- " || tag == "+ ") && tag != SideTag(side)
    ensures Restore(Prefixed(tag, lines), side) == []
  {
    if lines != [] {
      var init, last := lines[..|lines| - 1], lines[|lines| - 1];
      var p := Prefixed(tag, lines);
      assert p[..|p| - 1] == Prefixed(tag, init) && p[|p| - 1] == tag + last;
      RestoreOther(tag, init, side);
      RestoredOther(tag, last, side);
    }
  }

  lemma {:induction false} RestoreAppend(s: seq<string>, t: seq<string>, side: Side)
    ensures Restore(s + t, side) == Restore(s, side) + Restore(t, side)
    decreases |t|
  {
    if t == [] {
      assert s + t == s;
    } else {
      var n := |t|;
      RestoreAppend(s, t[..n - 1], side);
      assert (s + t)[..|s| + n - 1] == s + t[..n - 1];
      assert (s + t)[|s| + n - 1] == t[n - 1];
    }
  }

  /** Any two documents have a diff, so the restore contract constrains something. */
  lemma ReplaceAllIsDiff(a: seq<string>, b: seq<string>)
    ensures IsDiffOf(ReplaceAll(a, b), a, b)
  {
    var script := ReplaceAll(a, b);
    RestoreAppend(Prefixed("- ", a), Prefixed("+ ", b), Original);
    RestoreAppend(Prefixed("- ", a), Prefixed("+ ", b), New);
    RestoreOwn(a, Original);
    RestoreOther("+ ", b, Original);
    RestoreOther("- ", a, New);
    RestoreOwn(b, New);
    forall k | 0 <= k < |script| ensures StartsWith(script[k], "- ") || StartsWith(script[k], "+ ") {
      if k < |a| {
        assert script[k] == "- " + a[k];
      } else {
        assert script[k] == "+ " + b[k - |a|];
      }
    }
  }

  /** Replacing the second of two lines: one unchanged row, then the removed and the added line. */
  lemma ReplaceSecondLine()
    ensures IsDiffOf(["  x", "- y", "+ z"], ["x", "y"], ["x", "z"])
    ensures Rows(["  x", "- y", "+ z"]) == [Row(Unchanged, "x"), Row(Removed, "y"), Row(Added, "z")]
  {
    var s := ["  x", "- y", "+ z"];
    var s2 := ["  x", "- y"];
    var s1 := ["  x"];
    assert s[..2] == s2 && s2[..1] == s1 && s1[..0] == [];
    assert "  x"[2..] == "x" && "- y"[2..] == "y" && "+ z"[2..] == "z";
    assert StartsWith("  x", "  ") && StartsWith("- y", "- ") && StartsWith("+ z", "+ ");
    assert !StartsWith("  x", "+ ") && !StartsWith("  x", "- ") && !StartsWith("  x", "? ");
    assert !StartsWith("- y", "+ ") && !StartsWith("- y", "  ");
    assert !StartsWith("+ z", "- ") && !StartsWith("+ z", "  ");
    assert RowOf("  x") == Some(Row(Unchanged, "x"));
    assert RowOf("- y") == Some(Row(Removed, "y"));
    assert RowOf("+ z") == Some(Row(Added, "z"));
    assert Rows(s1) == [Row(Unchanged, "x")];
    assert Rows(s2) == [Row(Unchanged, "x"), Row(Removed, "y")];
    assert Restore(s1, Original) == ["x"] && Restore(s1, New) == ["x"];
    assert Restore(s2, Original) == ["x", "y"] && Restore(s2, New) == ["x"];
  }
}
