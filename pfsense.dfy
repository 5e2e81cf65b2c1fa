/**
 * Importing a pfSense DNSBL log (`import_pfsense_log`): each log line is
 * split on commas; a line whose first field mentions `DNSBL-Full` yields
 * its third field, stripped, as a domain. The distinct domains are sorted
 * and appended to the document under a separator comment.
 */
module PfSense {
  import opened Options
  import opened Text
  import opened Sorting
  import AutoClean

  /** The marker the first field of a DNSBL block record carries. */
  const Marker: string := "DNSBL-Full"

  /** The domain one log line yields, if any. */
  function Domain(logLine: string): (d: Option<string>)
    ensures d.Some? ==> d.value != "" && ',' !in d.value
    ensures d.Some? ==> !IsSpace(d.value[0]) && !IsSpace(d.value[|d.value| - 1])
  {
    var parts := SplitOn(Strip(logLine), ',');
    if |parts| > 2 && Contains(parts[0], Marker) then
      var domain := Strip(parts[2]);
      StripAvoids(parts[2], ',');
      if domain != "" then Some(domain) else None
    else None
  }

  /**
   * A log line whose stripped text is the comma-separated fields `fields`
   * yields a domain exactly when there are more than two fields, the first
   * contains the marker and the third is not blank; the domain is then the
   * stripped third field.
   */
  lemma DomainOfFields(logLine: string, fields: seq<string>)
    requires |fields| >= 1 && forall k :: 0 <= k < |fields| ==> ',' !in fields[k]
    requires Strip(logLine) == JoinWith(fields, ',')
    ensures Domain(logLine) ==
              if |fields| > 2 && Contains(fields[0], Marker) && Strip(fields[2]) != ""
              then Some(Strip(fields[2])) else None
  {
    JoinSplit(fields, ',');
  }

  /** Every log line has such a field decomposition: the one `split(',')` finds. */
  lemma FieldsOf(logLine: string)
    ensures var fields := SplitOn(Strip(logLine), ',');
            |fields| >= 1 && (forall k :: 0 <= k < |fields| ==> ',' !in fields[k]) &&
            Strip(logLine) == JoinWith(fields, ',')
  {
    SplitJoin(Strip(logLine), ',');
  }

  /** What each log line yields, in order. */
  function Parsed(logLines: seq<string>): (ps: seq<Option<string>>)
    ensures |ps| == |logLines|
  {
    seq(|logLines|, i requires 0 <= i < |logLines| => Domain(logLines[i]))
  }

  lemma ParsedAt(logLines: seq<string>, i: nat)
    requires i < |logLines|
    ensures Parsed(logLines)[i] == Domain(logLines[i])
  {
  }

  /** The values present among the results, gathered into a set. */
  function Found(ps: seq<Option<string>>): set<string> {
    if ps == [] then {}
    else
      var found := Found(ps[..|ps| - 1]);
      match ps[|ps| - 1]
      case None => found
      case Some(d) => found + {d}
  }

  lemma {:induction false} FoundMembers(ps: seq<Option<string>>)
    ensures forall d :: d in Found(ps) <==> exists i :: 0 <= i < |ps| && ps[i] == Some(d)
  {
    if ps != [] {
      var init := ps[..|ps| - 1];
      FoundMembers(init);
      assert forall i :: 0 <= i < |init| ==> init[i] == ps[i];
    }
  }

  /** The set of domains `extracted_domains` ends up holding. */
  function DomainsOf(logLines: seq<string>): set<string> {
    Found(Parsed(logLines))
  }

  /** A domain is collected exactly when some log line yields it. */
  lemma DomainsOfMembers(logLines: seq<string>)
    ensures forall d :: d in DomainsOf(logLines) <==> exists i :: 0 <= i < |logLines| && Domain(logLines[i]) == Some(d)
  {
    var ps := Parsed(logLines);
    FoundMembers(ps);
    forall d ensures d in Found(ps) <==> exists i :: 0 <= i < |logLines| && Domain(logLines[i]) == Some(d) {
      if d in Found(ps) {
        var i :| 0 <= i < |ps| && ps[i] == Some(d);
        ParsedAt(logLines, i);
      }
      if exists i :: 0 <= i < |logLines| && Domain(logLines[i]) == Some(d) {
        var i :| 0 <= i < |logLines| && Domain(logLines[i]) == Some(d);
        ParsedAt(logLines, i);
      }
    }
  }

  /**
   * The loop body's parsing of one log line, statement by statement as the
   * source writes it; it repeats `Domain` step for step and is proved equal to it.
   */
  method DomainOfLine(logLine: string) returns (d: Option<string>)
    ensures d == Domain(logLine)
  {
    var parts := SplitOn(Strip(logLine), ',');
    d := None;
    if |parts| > 2 && Contains(parts[0], Marker) {
      var domain := Strip(parts[2]);
      if domain != "" {
        d := Some(domain);
      }
    }
  }

  /** The extraction loop: one pass over the log, collecting domains in a set. */
  method ExtractDomains(logLines: seq<string>) returns (extracted: set<string>)
    ensures extracted == DomainsOf(logLines)
  {
    ghost var ps := Parsed(logLines);
    extracted := {};
    var i := 0;
    assert ps[..0] == [];
    while i < |logLines|
      invariant 0 <= i <= |logLines|
      invariant extracted == Found(ps[..i])
    {
      var d := DomainOfLine(logLines[i]);
      ParsedAt(logLines, i);
      assert ps[..i + 1][..i] == ps[..i];
      if d.Some? {
        extracted := extracted + {d.value};
      }
      i := i + 1;
    }
    assert ps[..|logLines|] == ps;
  }

  /** `sorted(list(s))`: the elements of s, each once, ascending. */
  method SortedList(s: set<string>) returns (r: seq<string>)
    ensures Sorted(r)
    ensures forall x :: x in r <==> x in s
    ensures |r| == |s|
  {
    var listed: seq<string> := [];
    var rest := s;
    while rest != {}
      invariant forall x :: x in s <==> x in listed || x in rest
      invariant forall x :: x in listed ==> x !in rest
      invariant |listed| + |rest| == |s|
      decreases |rest|
    {
      var x :| x in rest;
      listed := listed + [x];
      rest := rest - {x};
    }
    r := Sort(listed);
    assert forall x :: x in r <==> x in multiset(listed);
    assert |r| == |multiset(r)| == |listed|;
  }

  /** The separator comment placed above the imported domains. */
  function Header(name: string): (h: string)
    ensures StartsWith(h, "#")
    ensures |h| == |name| + 24 && h[20..|h| - 4] == name
  {
    var h := "# --- Imported from " + name + " ---";
    assert h[20..|h| - 4] == name;
    h
  }

  /** Whether a blank spacer line goes between the document and the header. */
  predicate NeedsSpacer(current: seq<string>) {
    current != [] && Strip(current[|current| - 1]) != ""
  }

  /** The document after an import of `domains` from a file called `name`. */
  function Imported(current: seq<string>, name: string, domains: seq<string>): (r: seq<string>)
    ensures |r| == |current| + (if NeedsSpacer(current) then 1 else 0) + 1 + |domains|
    ensures r[..|current|] == current
    ensures NeedsSpacer(current) ==> r[|current|] == ""
    ensures r[|r| - |domains| - 1] == Header(name)
    ensures r[|r| - |domains|..] == domains
  {
    var spaced := if NeedsSpacer(current) then current + [""] else current;
    var r := spaced + [Header(name)] + domains;
    assert r[..|current|] == current;
    assert r[|r| - |domains|..] == domains;
    r
  }

  /** The header never follows a non-blank line directly: a spacer or a blank last line precedes it. */
  lemma HeaderSetOff(current: seq<string>, name: string, domains: seq<string>)
    requires current != []
    ensures var r := Imported(current, name, domains);
            Strip(r[|r| - |domains| - 2]) == ""
  {
    var r := Imported(current, name, domains);
    if NeedsSpacer(current) {
      assert r[|r| - |domains| - 2] == "";
      StripUnchanged("");
    } else {
      assert r[|r| - |domains| - 2] == current[|current| - 1];
    }
  }

  /**
   * The lines an import adds in front of the domains (the spacer and the
   * header) emit nothing, so cleaning the imported document is cleaning the
   * document followed by the domains.
   */
  lemma CleanOfImported(current: seq<string>, name: string, domains: seq<string>)
    ensures AutoClean.Clean(Imported(current, name, domains)) == AutoClean.Clean(current + domains)
  {
    var h := Header(name);
    AutoClean.HashLineEmitsNothing(h);
    var ec := AutoClean.Emissions(current);
    var ed := AutoClean.Emissions(domains);
    AutoClean.EmissionsAppend(current + [h], domains);
    AutoClean.EmissionsAppend(current, [h]);
    AutoClean.EmissionsAppend(current, domains);
    assert AutoClean.Emissions([h]) == [None];
    AutoClean.GatherSkipsNone(ec, ed);
    if NeedsSpacer(current) {
      AutoClean.StructuralContributesNothing("");
      AutoClean.EmissionsAppend(current + [""], [h]);
      AutoClean.EmissionsAppend(current + [""] + [h], domains);
      AutoClean.EmissionsAppend(current, [""]);
      assert AutoClean.Emissions([""]) == [None];
      AutoClean.GatherSkipsNone(ec + [None], ed);
      assert ec + [None] + [None] + ed == (ec + [None]) + [None] + ed;
      assert ec + [None] + ed == ec + [None] + ed;
    } else {
      assert Imported(current, name, domains) == current + [h] + domains;
    }
  }

  // ---------------------------------------------------------------------
  // The file name shown in the header

  predicate IsSeparator(c: char) {
    c == '/' || c == '\\'
  }

  /**
   * Where the last path component of `path[..j]` starts: just after the
   * last separator before j, or 0 when there is none.
   */
  function NameStart(path: string, j: nat): (e: nat)
    requires j <= |path|
    ensures e <= j
    ensures e == 0 || IsSeparator(path[e - 1])
    decreases j
  {
    if j > 0 && !IsSeparator(path[j - 1]) then NameStart(path, j - 1) else j
  }

  lemma {:induction false} NameStartClear(path: string, j: nat)
    requires j <= |path|
    ensures forall k :: NameStart(path, j) <= k < j ==> !IsSeparator(path[k])
    decreases j
  {
    if j > 0 && !IsSeparator(path[j - 1]) {
      NameStartClear(path, j - 1);
    }
  }

  /** A separator at m - 1 followed by none up to j: the component starts at m. */
  lemma {:induction false} NameStartAt(path: string, m: nat, j: nat)
    requires 0 < m <= j <= |path| && IsSeparator(path[m - 1])
    requires forall k :: m <= k < j ==> !IsSeparator(path[k])
    ensures NameStart(path, j) == m
    decreases j
  {
    if j > m {
      NameStartAt(path, m, j - 1);
    }
  }

  /** `os.path.basename` for a Windows path: the text after the last '/' or '\\'. */
  function Basename(path: string): (b: string)
    ensures |b| <= |path| && path == path[..|path| - |b|] + b
    ensures forall k :: 0 <= k < |b| ==> !IsSeparator(b[k])
    ensures |b| < |path| ==> IsSeparator(path[|path| - |b| - 1])
  {
    var e := NameStart(path, |path|);
    NameStartClear(path, |path|);
    assert path == path[..e] + path[e..];
    path[e..]
  }

  /** The name of a file inside a directory is the name given to it. */
  lemma BasenameOfJoin(dir: string, name: string)
    requires forall k :: 0 <= k < |name| ==> !IsSeparator(name[k])
    ensures Basename(dir + "/" + name) == name
  {
    var p := dir + "/" + name;
    var m := |p| - |name|;
    forall k | m <= k < |p| ensures !IsSeparator(p[k]) {
      assert p[k] == name[k - m];
    }
    NameStartAt(p, m, |p|);
    assert p[m..] == name;
  }
}
