/**
 * The "Clean" processor (`auto_clean` in hosts_editor.py): every line is
 * rebuilt as a `0.0.0.0 <host>` entry from its last token before any
 * comment, repeats are dropped case-insensitively, and the survivors are
 * sorted.
 */
module AutoClean {
  import opened Options
  import opened Text
  import opened Sorting

  /** The address every cleaned entry is given, with its separating space. */
  const BlockPrefix: string := "0.0.0.0 "

  /**
   * Step 1: the text before the first '#', stripped of surrounding
   * whitespace; it is empty exactly when that text is blank.
   */
  function Payload(line: string): (p: string)
    ensures '#' !in p
    ensures p == "" || (!IsSpace(p[0]) && !IsSpace(p[|p| - 1]))
    ensures p == "" <==> IsBlank(Before(line, '#'))
  {
    StripAvoids(Before(line, '#'), '#');
    StripEmptyIffBlank(Before(line, '#'));
    Strip(Before(line, '#'))
  }

  /** Step 3: one leading `*.` removed, and nothing else. */
  function StripWildcard(h: string): (r: string)
    ensures h == r || h == "*." + r
    ensures r != h <==> StartsWith(h, "*.")
  {
    if StartsWith(h, "*.") then
      assert h == h[..2] + h[2..];
      h[2..]
    else h
  }

  /** Steps 1-3: the hostname a line contributes, or None when nothing is left once the comment is cut. */
  function HostOf(line: string): (o: Option<string>)
    ensures o.None? <==> IsBlank(Before(line, '#'))
  {
    var p := Payload(line);
    if p == "" then None
    else
      var parts := Words(p);
      Some(StripWildcard(parts[|parts| - 1]))
  }

  /** Step 4: the cleaned line a line emits, if any: the address, a space, and the host. */
  function Emitted(line: string): (e: Option<string>)
    ensures e.Some? <==> HostOf(line).Some?
    ensures e.Some? ==> StartsWith(e.value, BlockPrefix) && e.value[|BlockPrefix|..] == HostOf(line).value
  {
    match HostOf(line)
    case None => None
    case Some(h) =>
      assert (BlockPrefix + h)[|BlockPrefix|..] == h;
      Some(BlockPrefix + h)
  }

  /** What each line emits, in order. */
  function Emissions(lines: seq<string>): (es: seq<Option<string>>)
    ensures |es| == |lines|
  {
    seq(|lines|, i requires 0 <= i < |lines| => Emitted(lines[i]))
  }

  /** The lower-cased forms of the lines of s: the `seen` set. */
  function LowerSet(s: seq<string>): set<string> {
    set i | 0 <= i < |s| :: Lower(s[i])
  }

  /** No two lines of s are equal once lower-cased. */
  predicate LowerDistinct(s: seq<string>) {
    forall i, j :: 0 <= i < j < |s| ==> Lower(s[i]) != Lower(s[j])
  }

  /** One iteration of the collecting loop: append the emission unless its lower-cased form has been seen. */
  function Step(collected: seq<string>, e: Option<string>): seq<string> {
    match e
    case None => collected
    case Some(x) => if Lower(x) in LowerSet(collected) then collected else collected + [x]
  }

  /** What the loop has gathered in `final_lines` after the given emissions. */
  function Gather(es: seq<Option<string>>): seq<string> {
    if es == [] then [] else Step(Gather(es[..|es| - 1]), es[|es| - 1])
  }

  /** The result of Clean: the gathered lines, sorted. */
  function Clean(lines: seq<string>): seq<string> {
    Sort(Gather(Emissions(lines)))
  }

  /**
   * Steps 1-4 for one line, statement by statement as the loop body performs
   * them; it repeats `Emitted` step for step and is proved equal to it.
   */
  method CleanOne(line: string) returns (e: Option<string>)
    ensures e == Emitted(line)
  {
    var processed := Strip(Before(line, '#'));
    if processed == "" {
      return None;
    }
    var parts := Words(processed);
    var hostname := parts[|parts| - 1];
    if StartsWith(hostname, "*.") {
      hostname := hostname[2..];
    }
    e := Some(BlockPrefix + hostname);
  }

  /** The processor itself: one pass over the lines with a `seen` set, then a sort. */
  method CleanLines(lines: seq<string>) returns (result: seq<string>)
    ensures result == Clean(lines)
  {
    ghost var es := Emissions(lines);
    var seen: set<string> := {};
    var finalLines: seq<string> := [];
    var i := 0;
    assert es[..0] == [];
    while i < |lines|
      invariant 0 <= i <= |lines|
      invariant finalLines == Gather(es[..i])
      invariant seen == LowerSet(finalLines)
    {
      var e := CleanOne(lines[i]);
      EmissionAt(lines, i);
      GatherSnoc(es, i);
      finalLines, seen := Collect(finalLines, seen, e);
      i := i + 1;
    }
    assert es[..|lines|] == es;
    result := Sort(finalLines);
  }

  /** Step 6 of the loop body: keep a cleaned line unless its lower-cased form was seen. */
  method Collect(finalLines: seq<string>, seen: set<string>, e: Option<string>)
    returns (finalLines': seq<string>, seen': set<string>)
    requires seen == LowerSet(finalLines)
    ensures finalLines' == Step(finalLines, e)
    ensures seen' == LowerSet(finalLines')
  {
    finalLines', seen' := finalLines, seen;
    if e.Some? {
      var cleanLine := e.value;
      if Lower(cleanLine) !in seen {
        LowerSetAppend(finalLines, cleanLine);
        seen' := seen + {Lower(cleanLine)};
        finalLines' := finalLines + [cleanLine];
      }
    }
  }

  lemma EmissionAt(lines: seq<string>, i: nat)
    requires i < |lines|
    ensures Emissions(lines)[i] == Emitted(lines[i])
  {
  }

  lemma LowerSetAppend(s: seq<string>, x: string)
    ensures LowerSet(s + [x]) == LowerSet(s) + {Lower(x)}
  {
    var t := s + [x];
    forall y | y in LowerSet(t) ensures y in LowerSet(s) + {Lower(x)} {
      var i :| 0 <= i < |t| && y == Lower(t[i]);
      if i < |s| { assert t[i] == s[i]; }
    }
    forall y | y in LowerSet(s) ensures y in LowerSet(t) {
      var i :| 0 <= i < |s| && y == Lower(s[i]);
      assert t[i] == s[i];
    }
    assert Lower(t[|s|]) == Lower(x);
  }

  lemma GatherSnoc(es: seq<Option<string>>, i: nat)
    requires i < |es|
    ensures Gather(es[..i + 1]) == Step(Gather(es[..i]), es[i])
  {
    assert es[..i + 1][..i] == es[..i];
  }

  // ---------------------------------------------------------------------
  // The shape of one emitted line

  /**
   * A line contributes nothing exactly when the text before its first '#'
   * is blank; otherwise its host has no whitespace and no '#', and is empty
   * only when the text before the '#' ends with the bare wildcard token `*.`.
   */
  lemma HostShape(line: string)
    ensures HostOf(line).None? <==> IsBlank(Before(line, '#'))
    ensures HostOf(line).Some? ==>
              var h := HostOf(line).value;
              NoSpace(h) && '#' !in h && (h == "" ==> EndsWithWord(Payload(line), "*."))
  {
    StripEmptyIffBlank(Before(line, '#'));
    if HostOf(line).Some? {
      var p := Payload(line);
      StripAvoids(Before(line, '#'), '#');
      WordsAvoid(p, '#');
      LastWord(p);
      WildcardShape(Words(p)[|Words(p)| - 1]);
    }
  }

  /**
   * The host is the last whitespace-separated token of the text before the
   * first '#' (a suffix of it that is all of it or follows whitespace), with
   * one leading `*.` removed.
   */
  lemma HostIsLastToken(line: string)
    requires HostOf(line).Some?
    ensures var p := Payload(line);
            exists w :: w != "" && NoSpace(w) && EndsWithWord(p, w) && HostOf(line).value == StripWildcard(w)
  {
    var p := Payload(line);
    LastWord(p);
    var w := Words(p)[|Words(p)| - 1];
    assert HostOf(line).value == StripWildcard(w);
  }

  /** Removing the wildcard keeps a token free of whitespace and '#'; it empties only `*.` itself. */
  lemma WildcardShape(w: string)
    requires NoSpace(w) && '#' !in w
    ensures NoSpace(StripWildcard(w)) && '#' !in StripWildcard(w)
    ensures StripWildcard(w) == "" ==> w == "" || w == "*."
  {
    if StartsWith(w, "*.") {
      var h := w[2..];
      forall k | 0 <= k < |h| ensures !IsSpace(h[k]) && h[k] != '#' {
        assert h[k] == w[k + 2];
      }
      if h == "" {
        assert w == w[..2] + h;
      }
    }
  }

  /** Blank lines and whole-line comments (structural lines) never emit anything. */
  lemma StructuralContributesNothing(line: string)
    requires Strip(line) == "" || StartsWith(Strip(line), "#")
    ensures Emitted(line) == None
  {
    if Strip(line) == "" {
      BlankLineBlankPayload(line);
    } else {
      CommentLineBlankPayload(line);
    }
    HostShape(line);
  }

  lemma BlankLineBlankPayload(line: string)
    requires Strip(line) == ""
    ensures IsBlank(Before(line, '#'))
  {
    var b := Before(line, '#');
    StripEmptyIffBlank(line);
    forall k | 0 <= k < |b| ensures IsSpace(b[k]) { assert b[k] == line[k]; }
  }

  lemma CommentLineBlankPayload(line: string)
    requires StartsWith(Strip(line), "#")
    ensures IsBlank(Before(line, '#'))
  {
    var l := TrimLeft(line);
    var i := |line| - |l|;
    StripFirst(line);
    TrimLeftDropsBlank(line);
    assert line[i] == l[0];
    BlankUpTo(line, '#', i);
  }

  /** When only whitespace precedes an occurrence of c, only whitespace precedes the first c. */
  lemma BlankUpTo(s: string, c: char, i: nat)
    requires i < |s| && s[i] == c && IsBlank(s[..i])
    ensures IsBlank(Before(s, c))
  {
    var b := Before(s, c);
    assert |b| <= i;
    forall k | 0 <= k < |b| ensures IsSpace(b[k]) { assert b[k] == s[..i][k]; }
  }

  /** A line that starts with '#' emits nothing, whatever follows. */
  lemma HashLineEmitsNothing(line: string)
    requires line != "" && line[0] == '#'
    ensures Emitted(line) == None
  {
    assert IndexOf(line, '#') == 0;
    assert Before(line, '#') == "";
  }

  /** A line already in cleaned form with an ordinary host emits itself. */
  lemma EmittedFixed(h: string)
    requires h != "" && NoSpace(h) && '#' !in h && !StartsWith(h, "*.")
    ensures Emitted(BlockPrefix + h) == Some(BlockPrefix + h)
  {
    EntryEmits(h);
  }

  /** A cleaned entry whose host is free of whitespace and '#' is cleaned to its host without one wildcard. */
  lemma EntryEmits(h: string)
    requires h != "" && NoSpace(h) && '#' !in h
    ensures Emitted(BlockPrefix + h) == Some(BlockPrefix + StripWildcard(h))
  {
    FixedPayload(h);
    FixedWords(h);
  }

  lemma FixedPayload(h: string)
    requires h != "" && NoSpace(h) && '#' !in h
    ensures Payload(BlockPrefix + h) == BlockPrefix + h
  {
    var o := BlockPrefix + h;
    assert '#' !in BlockPrefix;
    assert '#' !in o;
    assert Before(o, '#') == o;
    assert o[0] == '0';
    assert o[|o| - 1] == h[|h| - 1];
    StripUnchanged(o);
  }

  lemma FixedWords(h: string)
    requires h != "" && NoSpace(h)
    ensures Words(BlockPrefix + h) == ["0.0.0.0", h]
  {
    var o := BlockPrefix + h;
    assert o == "0.0.0.0" + (" " + h);
    WordsOfToken("0.0.0.0", " " + h);
    SpaceThenWords(h);
  }

  lemma SpaceThenWords(h: string)
    requires h != "" && NoSpace(h)
    ensures Words(" " + h) == [h]
  {
    assert (" " + h)[1..] == h;
    assert h + "" == h;
    WordsOfToken(h, "");
  }

  // ---------------------------------------------------------------------
  // What the collecting loop keeps

  /** The lower-cased forms of everything in the emissions. */
  ghost function SeenLowers(es: seq<Option<string>>): set<string> {
    set i | 0 <= i < |es| && es[i].Some? :: Lower(es[i].value)
  }

  /** Emission j is present and, up to case, no earlier emission equals it. */
  ghost predicate FirstOf(es: seq<Option<string>>, j: int) {
    && 0 <= j < |es|
    && es[j].Some?
    && Lower(es[j].value) !in SeenLowers(es[..j])
  }

  lemma SeenLowersSnoc(es: seq<Option<string>>)
    requires es != []
    ensures var n := |es|;
            SeenLowers(es) ==
              SeenLowers(es[..n - 1]) + (if es[n - 1].Some? then {Lower(es[n - 1].value)} else {})
  {
    var n := |es|;
    var init := es[..n - 1];
    forall i | 0 <= i < n - 1 ensures init[i] == es[i] { }
  }

  /** Whether emission j is a first one does not depend on the emissions after it. */
  lemma FirstOfPrefix(es: seq<Option<string>>, j: int)
    requires 0 <= j < |es| - 1
    ensures FirstOf(es, j) <==> FirstOf(es[..|es| - 1], j)
  {
    assert es[..|es| - 1][..j] == es[..j];
  }

  /**
   * The invariant of the collecting pass: its seen set is everything emitted
   * so far, and its lines are distinct up to case.
   */
  lemma {:induction false} GatherSeen(es: seq<Option<string>>)
    ensures LowerSet(Gather(es)) == SeenLowers(es)
    ensures LowerDistinct(Gather(es))
    ensures |Gather(es)| <= |es|
  {
    if es != [] {
      var n := |es|;
      var prev := Gather(es[..n - 1]);
      GatherSeen(es[..n - 1]);
      SeenLowersSnoc(es);
      if es[n - 1].Some? && Lower(es[n - 1].value) !in LowerSet(prev) {
        var e := es[n - 1].value;
        LowerSetAppend(prev, e);
        assert LowerDistinct(prev + [e]) by {
          forall i, j | 0 <= i < j < |prev| + 1 ensures Lower((prev + [e])[i]) != Lower((prev + [e])[j]) {
            if j == |prev| { assert Lower(prev[i]) in LowerSet(prev); }
          }
        }
      }
    }
  }

  /**
   * The collecting pass holds exactly the first emission of each
   * case-insensitive class, spelled as that first emission is.
   */
  lemma {:induction false} GatherFirst(es: seq<Option<string>>)
    ensures forall o :: o in Gather(es) <==> exists j :: FirstOf(es, j) && es[j] == Some(o)
  {
    if es != [] {
      var n := |es|;
      var init := es[..n - 1];
      var prev := Gather(init);
      GatherFirst(init);
      GatherSeen(init);
      forall j | 0 <= j < n - 1 ensures FirstOf(es, j) <==> FirstOf(init, j) {
        FirstOfPrefix(es, j);
      }
      assert FirstOf(es, n - 1) <==> es[n - 1].Some? && Lower(es[n - 1].value) !in LowerSet(prev) by {
        assert es[..n - 1] == init;
      }
      var out := Gather(es);
      forall o ensures o in out <==> exists j :: FirstOf(es, j) && es[j] == Some(o) {
        if o in prev {
          var j :| FirstOf(init, j) && init[j] == Some(o);
          assert FirstOf(es, j) && es[j] == Some(o);
        } else if o in out {
          assert FirstOf(es, n - 1) && es[n - 1] == Some(o);
        } else {
          forall j | FirstOf(es, j) ensures es[j] != Some(o) {
            if j < n - 1 {
              assert FirstOf(init, j) && init[j] == es[j];
            }
          }
        }
      }
    }
  }

  /** Emissions that are all present and distinct up to case are gathered unchanged. */
  lemma {:induction false} GatherFixed(es: seq<Option<string>>, s: seq<string>)
    requires |es| == |s|
    requires forall k :: 0 <= k < |s| ==> es[k] == Some(s[k])
    requires LowerDistinct(s)
    ensures Gather(es) == s
  {
    if s != [] {
      var n := |s|;
      GatherFixed(es[..n - 1], s[..n - 1]);
      assert Lower(s[n - 1]) !in LowerSet(s[..n - 1]);
      assert s[..n - 1] + [s[n - 1]] == s;
    }
  }

  /** The emissions of two documents one after the other. */
  lemma EmissionsAppend(a: seq<string>, b: seq<string>)
    ensures Emissions(a + b) == Emissions(a) + Emissions(b)
  {
    var ab := a + b;
    forall k | 0 <= k < |ab| ensures Emissions(ab)[k] == (Emissions(a) + Emissions(b))[k] {
      if k < |a| { assert ab[k] == a[k]; } else { assert ab[k] == b[k - |a|]; }
    }
  }

  /** A line that emits nothing has no effect on what the pass gathers. */
  lemma {:induction false} GatherSkipsNone(a: seq<Option<string>>, b: seq<Option<string>>)
    ensures Gather(a + [None] + b) == Gather(a + b)
    decreases |b|
  {
    if b == [] {
      assert (a + [None] + b)[..|a|] == a;
      assert a + b == a;
    } else {
      var n := |b|;
      var init := b[..n - 1];
      GatherSkipsNone(a, init);
      assert (a + [None] + b)[..|a| + 1 + n - 1] == a + [None] + init;
      assert (a + b)[..|a| + n - 1] == a + init;
    }
  }

  /** No two elements of s have the same image under f. */
  ghost predicate DistinctUnder(s: seq<string>, f: string -> string) {
    forall i, j :: 0 <= i < j < |s| ==> f(s[i]) != f(s[j])
  }

  lemma DistinctUnderTail(s: seq<string>, f: string -> string)
    requires s != [] && DistinctUnder(s, f)
    ensures DistinctUnder(s[1..], f)
  {
    var u := s[1..];
    forall i, j | 0 <= i < j < |u| ensures f(u[i]) != f(u[j]) {
      assert u[i] == s[i + 1] && u[j] == s[j + 1];
    }
  }

  /** Sorting keeps the images under f distinct. */
  lemma {:induction false} SortKeepsDistinct(s: seq<string>, f: string -> string)
    requires DistinctUnder(s, f)
    ensures DistinctUnder(Sort(s), f)
  {
    if s != [] {
      var u := s[1..];
      var t := Sort(u);
      DistinctUnderTail(s, f);
      SortKeepsDistinct(u, f);
      forall y | y in t ensures f(y) != f(s[0]) {
        assert y in multiset(u);
        var k :| 0 <= k < |u| && u[k] == y;
        assert s[k + 1] == y;
      }
      InsertKeepsDistinct(s[0], t, f);
    }
  }

  lemma {:induction false} InsertKeepsDistinct(x: string, t: seq<string>, f: string -> string)
    requires Sorted(t) && DistinctUnder(t, f)
    requires forall y :: y in t ==> f(y) != f(x)
    ensures DistinctUnder(Insert(x, t), f)
  {
    if t != [] && !LexLe(x, t[0]) {
      var u := t[1..];
      DistinctUnderTail(t, f);
      SortedTail(t);
      assert forall y :: y in u ==> y in t;
      InsertKeepsDistinct(x, u, f);
      var r := Insert(x, u);
      InsertMembers(x, u);
      forall j | 0 <= j < |r| ensures f(t[0]) != f(r[j]) {
        assert r[j] in r;
        if r[j] != x {
          var k :| 0 <= k < |u| && u[k] == r[j];
          assert t[k + 1] == r[j];
        }
      }
    } else if t != [] {
      forall j | 0 < j < |t| + 1 ensures f(x) != f(([x] + t)[j]) {
        assert ([x] + t)[j] == t[j - 1];
      }
    }
  }

  /** Sorting keeps lines distinct up to case. */
  lemma SortKeepsLowerDistinct(s: seq<string>)
    requires LowerDistinct(s)
    ensures LowerDistinct(Sort(s))
  {
    SortKeepsDistinct(s, Lower);
  }

  // ---------------------------------------------------------------------
  // Properties of Clean

  /** Line j emits something that, up to case, no earlier line emits. */
  ghost predicate FirstEmission(lines: seq<string>, j: int) {
    FirstOf(Emissions(lines), j)
  }

  /** o is the cleaned form `0.0.0.0 h` of line, whose host h has no whitespace and no '#'. */
  predicate CleanedFrom(o: string, line: string) {
    && HostOf(line).Some?
    && o == BlockPrefix + HostOf(line).value
    && NoSpace(HostOf(line).value)
    && '#' !in HostOf(line).value
  }

  lemma EmittedShape(line: string)
    requires Emitted(line).Some?
    ensures CleanedFrom(Emitted(line).value, line)
  {
    HostShape(line);
  }

  /** Every cleaned line is the cleaned form of some input line. */
  lemma CleanLineShape(lines: seq<string>)
    ensures forall k :: 0 <= k < |Clean(lines)| ==>
              exists i :: 0 <= i < |lines| && CleanedFrom(Clean(lines)[k], lines[i])
  {
    var es := Emissions(lines);
    var g := Gather(es);
    GatherFirst(es);
    forall k | 0 <= k < |Clean(lines)|
      ensures exists i :: 0 <= i < |lines| && CleanedFrom(Clean(lines)[k], lines[i])
    {
      var o := Clean(lines)[k];
      assert o in multiset(Clean(lines));
      assert o in g;
      var j :| FirstOf(es, j) && es[j] == Some(o);
      EmissionAt(lines, j);
      EmittedShape(lines[j]);
      assert CleanedFrom(o, lines[j]);
    }
  }

  /**
   * Clean's output is ascending, free of case-insensitive repeats, no longer
   * than its input, and holds exactly the first-occurring spelling of each
   * cleaned line.
   */
  lemma CleanSortedAndUnique(lines: seq<string>)
    ensures Sorted(Clean(lines))
    ensures LowerDistinct(Clean(lines))
    ensures |Clean(lines)| <= |lines|
    ensures forall o :: o in Clean(lines) <==>
              exists j :: FirstEmission(lines, j) && Emitted(lines[j]) == Some(o)
  {
    var es := Emissions(lines);
    GatherSeen(es);
    GatherFirst(es);
    SortKeepsLowerDistinct(Gather(es));
    assert |Clean(lines)| == |multiset(Clean(lines))| == |Gather(es)|;
    forall o ensures o in Clean(lines) <==> exists j :: FirstEmission(lines, j) && Emitted(lines[j]) == Some(o) {
      assert o in Clean(lines) <==> o in multiset(Clean(lines));
      assert o in Clean(lines) <==> o in Gather(es);
      if o in Gather(es) {
        var j :| FirstOf(es, j) && es[j] == Some(o);
        assert FirstEmission(lines, j) && Emitted(lines[j]) == Some(o);
      }
    }
  }

  /** Every line that emits something is represented, up to case, in Clean's output. */
  lemma CleanCoversInput(lines: seq<string>, i: nat)
    requires i < |lines| && Emitted(lines[i]).Some?
    ensures exists o :: o in Clean(lines) && Lower(o) == Lower(Emitted(lines[i]).value)
  {
    var es := Emissions(lines);
    GatherSeen(es);
    assert es[i] == Emitted(lines[i]);
    assert Lower(Emitted(lines[i]).value) in SeenLowers(es);
    var g := Gather(es);
    var k :| 0 <= k < |g| && Lower(g[k]) == Lower(Emitted(lines[i]).value);
    assert g[k] in multiset(g);
    assert g[k] in Clean(lines) by {
      assert g[k] in multiset(Clean(lines));
    }
  }

  /**
   * Clean is idempotent when no host it emits is empty or still starts with
   * `*.` (a second pass would strip another wildcard, or read "0.0.0.0" as
   * the host).
   */
  lemma CleanIdempotent(lines: seq<string>)
    requires forall i :: 0 <= i < |lines| && HostOf(lines[i]).Some? ==>
               HostOf(lines[i]).value != "" && !StartsWith(HostOf(lines[i]).value, "*.")
    ensures Clean(Clean(lines)) == Clean(lines)
  {
    var c := Clean(lines);
    CleanLineShape(lines);
    CleanSortedAndUnique(lines);
    var es := Emissions(c);
    forall k | 0 <= k < |c| ensures es[k] == Some(c[k]) {
      var i :| 0 <= i < |lines| && CleanedFrom(c[k], lines[i]);
      EmittedFixed(HostOf(lines[i]).value);
      EmissionAt(c, k);
    }
    GatherFixed(es, c);
    SortOfSorted(c);
  }

  /** A lone token free of whitespace and '#' is its own last word. */
  lemma TokenEmits(t: string)
    requires t != "" && NoSpace(t) && '#' !in t
    ensures Emitted(t) == Some(BlockPrefix + StripWildcard(t))
  {
    assert Before(t, '#') == t;
    StripUnchanged(t);
    WordsOfToken(t, "");
    assert t + "" == t;
  }

  /** Cleaning a one-line document. */
  lemma CleanSingle(line: string)
    ensures Clean([line]) == if Emitted(line).Some? then [Emitted(line).value] else []
  {
    var es := Emissions([line]);
    assert es == [Emitted(line)];
    assert es[..0] == [];
    assert Gather(es) == Step([], Emitted(line));
    if Emitted(line).Some? {
      var o := Emitted(line).value;
      assert [o][1..] == [];
      assert Sort([o]) == Insert(o, []);
    }
  }

  /** A line whose last token is the bare wildcard emits an entry with an empty host. */
  lemma BareWildcardLine()
    ensures Emitted("*.") == Some(BlockPrefix)
  {
    assert StartsWith("*.", "*.");
    TokenEmits("*.");
    assert "*."[2..] == "";
    assert BlockPrefix + "" == BlockPrefix;
  }

  /**
   * Without the condition of CleanIdempotent a second pass strips another
   * wildcard: a line `*.*.h` cleans to `0.0.0.0 *.h`, which cleans to
   * `0.0.0.0 h`.
   */
  lemma SecondPassStripsAgain(h: string)
    requires h != "" && NoSpace(h) && '#' !in h
    ensures Clean(["*.*." + h]) == [BlockPrefix + "*." + h]
    ensures Clean(Clean(["*.*." + h])) == [BlockPrefix + h]
    ensures Clean(Clean(["*.*." + h])) != Clean(["*.*." + h])
  {
    var w, v := "*.*." + h, "*." + h;
    assert w == "*." + v && v == "*." + h;
    WildcardToken(v);
    WildcardToken(w);
    TokenEmits(w);
    CleanSingle(w);
    EntryEmits(v);
    assert BlockPrefix + v == BlockPrefix + "*." + h;
    CleanSingle(BlockPrefix + v);
    assert |BlockPrefix + h| != |BlockPrefix + v|;
  }

  /**
   * Nor is an empty host a fixed point: a line that cleans to `0.0.0.0 `
   * (BareWildcardLine: the bare wildcard `*.`) cleans on a second pass to an
   * entry whose host is the address itself.
   */
  lemma EmptyHostSecondPass(line: string)
    requires Emitted(line) == Some(BlockPrefix)
    ensures Clean([line]) == [BlockPrefix]
    ensures Clean(Clean([line])) == [BlockPrefix + "0.0.0.0"]
    ensures Clean(Clean([line])) != Clean([line])
  {
    CleanSingle(line);
    AddressToken();
    var a := "0.0.0.0";
    PaddedTokenEmits(a);
    TokenEmits(a);
    CleanSingle(BlockPrefix);
    assert |BlockPrefix + a| != |BlockPrefix|;
  }

  /** The concrete case: `*.` cleans to `0.0.0.0 `, and that to `0.0.0.0 0.0.0.0`, so not to itself. */
  lemma BareWildcardSecondPass()
    ensures Clean(["*."]) == [BlockPrefix]
    ensures Clean(Clean(["*."])) == [BlockPrefix + "0.0.0.0"]
    ensures Clean(Clean(["*."])) != Clean(["*."])
  {
    BareWildcardLine();
    EmptyHostSecondPass("*.");
  }

  /** The address of a cleaned entry is a token of its own. */
  lemma AddressToken()
    ensures var a := "0.0.0.0";
            a != "" && NoSpace(a) && '#' !in a && StripWildcard(a) == a && BlockPrefix == a + " "
  {
    assert "0.0.0.0"[0] != '*';
  }

  /** A token followed by one space emits what the token alone emits. */
  lemma PaddedTokenEmits(t: string)
    requires t != "" && NoSpace(t) && '#' !in t
    ensures Emitted(t + " ") == Emitted(t)
  {
    var o := t + " ";
    assert '#' !in o;
    assert Before(o, '#') == o;
    assert SpaceEnd(o, |o|) == |t| by {
      assert o[|o| - 1] == ' ' && o[|t| - 1] == t[|t| - 1];
    }
    assert o[0] == t[0] && o[..|t|] == t;
    assert Before(t, '#') == t;
    StripUnchanged(t);
  }

  /** `*.` followed by a token free of whitespace and '#' is such a token, and loses exactly its `*.`. */
  lemma WildcardToken(t: string)
    requires |t| >= 2 && t[..2] == "*." && NoSpace(t[2..]) && '#' !in t[2..]
    ensures NoSpace(t) && '#' !in t && StripWildcard(t) == t[2..]
  {
    forall k | 0 <= k < |t| ensures !IsSpace(t[k]) && t[k] != '#' {
      if k >= 2 {
        assert t[k] == t[2..][k - 2];
      } else {
        assert t[k] == t[..2][k];
      }
    }
  }
}
