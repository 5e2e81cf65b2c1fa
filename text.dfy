/** Option values for results that may be absent. */
module Options {
  datatype Option<T> = None | Some(value: T)
}

/**
 * The string primitives the editor relies on, written the way Python's `str`
 * methods behave: `isspace`, `strip()`, `split()`, `split(sep)`, `lower()`,
 * `startswith` and the `in` substring test.
 */
module Text {

  /** Python's `str.isspace` for one character: the whitespace that `strip()` and `split()` use. */
  predicate IsSpace(c: char) {
    || ('\t' <= c <= '\r')
    || ('\U{1c}' <= c <= ' ')
    || c == '\U{85}'
    || c == '\U{a0}'
    || c == '\U{1680}'
    || ('\U{2000}' <= c <= '\U{200a}')
    || c == '\U{2028}'
    || c == '\U{2029}'
    || c == '\U{202f}'
    || c == '\U{205f}'
    || c == '\U{3000}'
  }

  /** A string made of whitespace only (the empty string included). */
  predicate IsBlank(s: string) {
    forall i :: 0 <= i < |s| ==> IsSpace(s[i])
  }

  /** A string with no whitespace in it. */
  predicate NoSpace(s: string) {
    forall i :: 0 <= i < |s| ==> !IsSpace(s[i])
  }

  /** The index of the first non-space character of s at or after i, or |s| when there is none. */
  function SkipSpace(s: string, i: nat): (j: nat)
    requires i <= |s|
    ensures i <= j <= |s|
    ensures j == |s| || !IsSpace(s[j])
    decreases |s| - i
  {
    if i < |s| && IsSpace(s[i]) then SkipSpace(s, i + 1) else i
  }

  /** Everything SkipSpace passes over is whitespace. */
  lemma {:induction false} SkipSpaceBlank(s: string, i: nat)
    requires i <= |s|
    ensures forall k :: i <= k < SkipSpace(s, i) ==> IsSpace(s[k])
    decreases |s| - i
  {
    if i < |s| && IsSpace(s[i]) {
      SkipSpaceBlank(s, i + 1);
    }
  }

  /** The end of the first j characters of s once their trailing whitespace is dropped. */
  function SpaceEnd(s: string, j: nat): (e: nat)
    requires j <= |s|
    ensures e <= j
    ensures e == 0 || !IsSpace(s[e - 1])
    decreases j
  {
    if j > 0 && IsSpace(s[j - 1]) then SpaceEnd(s, j - 1) else j
  }

  /** Everything SpaceEnd drops is whitespace. */
  lemma {:induction false} SpaceEndBlank(s: string, j: nat)
    requires j <= |s|
    ensures forall k :: SpaceEnd(s, j) <= k < j ==> IsSpace(s[k])
    decreases j
  {
    if j > 0 && IsSpace(s[j - 1]) {
      SpaceEndBlank(s, j - 1);
    }
  }

  /** Leading whitespace removed (`lstrip()`). */
  function TrimLeft(s: string): (r: string)
    ensures |r| <= |s|
  {
    s[SkipSpace(s, 0)..]
  }

  /** What lstrip() removes is whitespace. */
  lemma TrimLeftDropsBlank(s: string)
    ensures IsBlank(s[..|s| - |TrimLeft(s)|])
  {
    SkipSpaceBlank(s, 0);
    var k := SkipSpace(s, 0);
    assert forall i :: 0 <= i < k ==> s[..k][i] == s[i];
  }

  /** Trailing whitespace removed (`rstrip()`). */
  function TrimRight(s: string): (r: string)
    ensures |r| <= |s|
  {
    s[..SpaceEnd(s, |s|)]
  }

  /** What rstrip() removes is whitespace. */
  lemma TrimRightDropsBlank(s: string)
    ensures IsBlank(s[|TrimRight(s)|..])
  {
    SpaceEndBlank(s, |s|);
    var e := SpaceEnd(s, |s|);
    assert forall i :: 0 <= i < |s| - e ==> s[e..][i] == s[e + i];
  }

  /** rstrip() keeps a string that starts on non-space non-empty. */
  lemma TrimRightKeepsFirst(s: string)
    requires s != "" && !IsSpace(s[0])
    ensures TrimRight(s) != ""
  {
    SpaceEndBlank(s, |s|);
  }

  /** Python's `str.strip()` with no argument. */
  function Strip(s: string): (r: string)
    ensures |r| <= |s|
    ensures r == "" || (!IsSpace(r[0]) && !IsSpace(r[|r| - 1]))
  {
    TrimRight(TrimLeft(s))
  }

  /** The first character strip() keeps is the first non-space character of s. */
  lemma StripFirst(s: string)
    ensures Strip(s) != "" ==> Strip(s)[0] == TrimLeft(s)[0]
  {
  }

  /** strip() removes characters and never adds one. */
  lemma StripAvoids(s: string, c: char)
    requires c !in s
    ensures c !in Strip(s)
  {
    var l := TrimLeft(s);
    assert s == s[..|s| - |l|] + l;
    assert c !in l;
    assert Strip(s) == l[..|Strip(s)|];
  }

  /** strip() leaves nothing exactly when the string is whitespace only. */
  lemma StripEmptyIffBlank(s: string)
    ensures Strip(s) == "" <==> IsBlank(s)
  {
    var l := TrimLeft(s);
    var i := |s| - |l|;
    TrimLeftDropsBlank(s);
    if l != "" {
      TrimRightKeepsFirst(l);
      assert s[i] == l[0];
    } else {
      forall k | 0 <= k < |s| ensures IsSpace(s[k]) {
        assert s[..i][k] == s[k];
      }
    }
  }

  /** A string that is empty or starts and ends on non-space is its own strip(). */
  lemma StripUnchanged(s: string)
    requires s == "" || (!IsSpace(s[0]) && !IsSpace(s[|s| - 1]))
    ensures Strip(s) == s
  {
  }

  /**
   * strip() cuts whitespace off both ends and nothing else: the result is the
   * piece of s between a blank prefix and a blank suffix (and, by its own
   * ensures, that piece starts and ends on non-space).
   */
  lemma StripTrims(s: string)
    ensures exists i :: 0 <= i <= |s| - |Strip(s)| && Strip(s) == s[i..i + |Strip(s)|] &&
                        IsBlank(s[..i]) && IsBlank(s[i + |Strip(s)|..])
  {
    var l := TrimLeft(s);
    var i := |s| - |l|;
    var r := Strip(s);
    TrimLeftDropsBlank(s);
    TrimRightDropsBlank(l);
    assert s[i..] == l;
    assert s[i + |r|..] == l[|r|..];
    assert 0 <= i <= |s| - |r| && r == s[i..i + |r|] && IsBlank(s[..i]) && IsBlank(s[i + |r|..]);
  }

  /** Python's `s.startswith(p)`. */
  predicate StartsWith(s: string, p: string) {
    |p| <= |s| && s[..|p|] == p
  }

  /** Python's `p in s` for strings: p occurs in s as a contiguous substring. */
  predicate Contains(s: string, p: string): (b: bool)
    ensures b ==> |p| <= |s|
    ensures p == "" ==> b
  {
    assert p == "" ==> OccursAt(s, p, 0);
    exists i :: 0 <= i <= |s| - |p| && OccursAt(s, p, i)
  }

  /** p occurs in s starting at index i. */
  predicate OccursAt(s: string, p: string, i: int)
    requires 0 <= i <= |s| - |p|
  {
    s[i..i + |p|] == p
  }

  /** The index of the first c in s, or |s| when there is none. */
  function IndexOf(s: string, c: char): (k: nat)
    ensures k <= |s|
    ensures k < |s| ==> s[k] == c
    ensures forall i :: 0 <= i < k ==> s[i] != c
  {
    IndexFrom(s, c, 0)
  }

  /** The index of the first c in s at or after i, or |s| when there is none. */
  function IndexFrom(s: string, c: char, i: nat): (k: nat)
    requires i <= |s|
    ensures i <= k <= |s|
    ensures k < |s| ==> s[k] == c
    ensures forall j :: i <= j < k ==> s[j] != c
    decreases |s| - i
  {
    if i == |s| || s[i] == c then i else IndexFrom(s, c, i + 1)
  }

  /** `s.split(c, 1)[0]`: everything before the first c. */
  function Before(s: string, c: char): (r: string)
    ensures |r| <= |s| && r == s[..|r|]
    ensures c !in r
    ensures |r| < |s| ==> s[|r|] == c
  {
    s[..IndexOf(s, c)]
  }

  /** Python's `s.split(sep)` with an explicit one-character separator. */
  function SplitOn(s: string, sep: char): (parts: seq<string>)
    ensures |parts| >= 1
    ensures forall k :: 0 <= k < |parts| ==> sep !in parts[k]
    decreases |s|
  {
    var k := IndexOf(s, sep);
    if k == |s| then [s] else [s[..k]] + SplitOn(s[k + 1..], sep)
  }

  /** Python's `sep.join(parts)`. */
  function JoinWith(parts: seq<string>, sep: char): (r: string)
    ensures parts == [] ==> r == ""
    ensures |parts| == 1 ==> r == parts[0]
    ensures |parts| >= 2 ==> StartsWith(r, parts[0] + [sep])
  {
    if |parts| <= 1 then (if parts == [] then "" else parts[0])
    else parts[0] + [sep] + JoinWith(parts[1..], sep)
  }

  /** Splitting on a separator and joining back on it gives the string again. */
  lemma {:induction false} SplitJoin(s: string, sep: char)
    ensures JoinWith(SplitOn(s, sep), sep) == s
    decreases |s|
  {
    var k := IndexOf(s, sep);
    if k < |s| {
      var rest := SplitOn(s[k + 1..], sep);
      SplitJoin(s[k + 1..], sep);
      JoinCons(s[..k], rest, sep);
      assert s == s[..k] + [sep] + s[k + 1..];
    } else {
      assert SplitOn(s, sep) == [s];
    }
  }

  lemma JoinCons(p: string, rest: seq<string>, sep: char)
    requires |rest| >= 1
    ensures JoinWith([p] + rest, sep) == p + [sep] + JoinWith(rest, sep)
  {
    assert ([p] + rest)[1..] == rest;
  }

  /** Joining parts that hold no separator and splitting again gives the parts back. */
  lemma {:induction false} JoinSplit(parts: seq<string>, sep: char)
    requires |parts| >= 1
    requires forall k :: 0 <= k < |parts| ==> sep !in parts[k]
    ensures SplitOn(JoinWith(parts, sep), sep) == parts
  {
    var p := parts[0];
    if |parts| == 1 {
      assert IndexOf(p, sep) == |p|;
    } else {
      var rest := parts[1..];
      var r := JoinWith(rest, sep);
      var s := p + [sep] + r;
      assert JoinWith(parts, sep) == s;
      assert IndexOf(s, sep) == |p| by {
        FirstSeparator(p, r, sep);
      }
      assert s[..|p|] == p && s[|p| + 1..] == r;
      JoinSplit(rest, sep);
      assert parts == [p] + rest;
    }
  }

  lemma FirstSeparator(p: string, r: string, sep: char)
    requires sep !in p
    ensures IndexOf(p + [sep] + r, sep) == |p|
  {
    var s := p + [sep] + r;
    forall i | 0 <= i < |p| ensures s[i] != sep { assert s[i] == p[i]; }
    assert s[|p|] == sep;
  }

  /**
   * Python's `str.splitlines()` for text whose only line break is '\n': the
   * lines, without a final empty piece after a closing newline.
   */
  function SplitLines(s: string): (ls: seq<string>)
    ensures forall k :: 0 <= k < |ls| ==> '\n' !in ls[k]
  {
    if s == "" then []
    else if s[|s| - 1] == '\n' then SplitOn(s[..|s| - 1], '\n')
    else SplitOn(s, '\n')
  }

  /** Text followed by a newline splits into the pieces between its '\n's. */
  lemma SplitLinesTerminated(s: string)
    ensures SplitLines(s + "\n") == SplitOn(s, '\n')
  {
    assert (s + "\n")[..|s|] == s;
  }

  /** Lines written out each followed by '\n' read back as the same lines. */
  lemma SplitLinesOfWritten(lines: seq<string>)
    requires forall k :: 0 <= k < |lines| ==> '\n' !in lines[k]
    ensures lines != [] ==> SplitLines(JoinWith(lines, '\n') + "\n") == lines
  {
    if lines != [] {
      var j := JoinWith(lines, '\n');
      assert (j + "\n")[..|j|] == j;
      JoinSplit(lines, '\n');
    }
  }

  /** The length of the leading run of non-space characters. */
  function TokenEnd(s: string): (k: nat)
    ensures k <= |s|
    ensures NoSpace(s[..k])
    ensures k == |s| || IsSpace(s[k])
  {
    var k := TokenFrom(s, 0);
    assert forall j :: 0 <= j < k ==> s[..k][j] == s[j];
    k
  }

  /** The end of the run of non-space characters of s that starts at i. */
  function TokenFrom(s: string, i: nat): (k: nat)
    requires i <= |s|
    ensures i <= k <= |s|
    ensures forall j :: i <= j < k ==> !IsSpace(s[j])
    ensures k == |s| || IsSpace(s[k])
    decreases |s| - i
  {
    if i == |s| || IsSpace(s[i]) then i else TokenFrom(s, i + 1)
  }

  /** Python's `s.split()` with no argument: the maximal runs of non-space characters, in order. */
  function Words(s: string): (ws: seq<string>)
    ensures forall k :: 0 <= k < |ws| ==> ws[k] != "" && NoSpace(ws[k])
    ensures ws == [] <==> IsBlank(s)
    decreases |s|
  {
    if s == [] then []
    else if IsSpace(s[0]) then Words(s[1..])
    else
      var k := TokenEnd(s);
      [s[..k]] + Words(s[k..])
  }

  /** s ends with w, and w is all of s or comes right after whitespace. */
  predicate EndsWithWord(s: string, w: string) {
    && |w| <= |s|
    && (forall i :: 0 <= i < |w| ==> w[i] == s[|s| - |w| + i])
    && (|w| == |s| || IsSpace(s[|s| - |w| - 1]))
  }

  /** EndsWithWord says that w is a suffix of s. */
  lemma EndsWithWordSuffix(s: string, w: string)
    requires EndsWithWord(s, w)
    ensures s == s[..|s| - |w|] + w
  {
  }

  /**
   * The last word of a string that ends on non-space is the whole maximal run
   * of non-space characters at its end: a suffix of s that is all of s or is
   * preceded by whitespace.
   */
  lemma {:induction false} LastWord(s: string)
    requires s != [] && !IsSpace(s[|s| - 1])
    ensures Words(s) != []
    ensures var w := Words(s)[|Words(s)| - 1]; w != "" && NoSpace(w) && EndsWithWord(s, w)
    decreases |s|
  {
    WordsUnfold(s);
    if IsSpace(s[0]) {
      var q := s[1..];
      assert q[|q| - 1] == s[|s| - 1];
      LastWord(q);
      EndsWithWordAfterSpace(s, Words(q)[|Words(q)| - 1]);
    } else {
      var k := TokenEnd(s);
      var q := s[k..];
      if k == |s| {
        assert q == [] && s[..k] == s;
        assert Words(s) == [s];
      } else {
        assert q[|q| - 1] == s[|s| - 1];
        LastWord(q);
        var w := Words(q)[|Words(q)| - 1];
        assert Words(s)[|Words(s)| - 1] == w;
        EndsWithWordAfterToken(s, w);
      }
    }
  }

  /** One step of split(): skip a leading space, or take the first token. */
  lemma WordsUnfold(s: string)
    requires s != []
    ensures IsSpace(s[0]) ==> Words(s) == Words(s[1..])
    ensures !IsSpace(s[0]) ==> Words(s) == [s[..TokenEnd(s)]] + Words(s[TokenEnd(s)..])
  {
  }

  /** Leading whitespace does not move a word at the end of s. */
  lemma EndsWithWordAfterSpace(s: string, w: string)
    requires s != [] && IsSpace(s[0])
    requires EndsWithWord(s[1..], w)
    ensures EndsWithWord(s, w)
  {
  }

  /** Neither does a first token followed by whitespace. */
  lemma EndsWithWordAfterToken(s: string, w: string)
    requires TokenEnd(s) < |s|
    requires NoSpace(w) && EndsWithWord(s[TokenEnd(s)..], w)
    ensures EndsWithWord(s, w)
  {
    var q := s[TokenEnd(s)..];
    assert |w| < |q| by {
      if w != [] {
        assert w[0] == q[|q| - |w|] && !IsSpace(w[0]);
      }
    }
  }

  /** A character that does not occur in s occurs in none of its words. */
  lemma {:induction false} WordsAvoid(s: string, c: char)
    requires c !in s
    ensures forall k :: 0 <= k < |Words(s)| ==> c !in Words(s)[k]
    decreases |s|
  {
    if s != [] {
      if IsSpace(s[0]) {
        assert c !in s[1..];
        WordsAvoid(s[1..], c);
      } else {
        var k := TokenEnd(s);
        assert c !in s[..k] && c !in s[k..];
        WordsAvoid(s[k..], c);
      }
    }
  }

  /** A non-space token followed by nothing or by whitespace is the first word. */
  lemma WordsOfToken(t: string, rest: string)
    requires t != "" && NoSpace(t)
    requires rest == "" || IsSpace(rest[0])
    ensures Words(t + rest) == [t] + Words(rest)
  {
    var s := t + rest;
    assert s[0] == t[0];
    assert (s[..|t|] == t) && (s[|t|..] == rest);
    TokenEndOf(t, rest);
  }

  lemma {:induction false} TokenEndOf(t: string, rest: string)
    requires NoSpace(t)
    requires rest == "" || IsSpace(rest[0])
    ensures TokenEnd(t + rest) == |t|
  {
    if t != [] {
      assert (t + rest)[1..] == t[1..] + rest;
      TokenEndOf(t[1..], rest);
    } else {
      assert t + rest == rest;
    }
  }

  /** Python's `str.lower()` restricted to ASCII letters. */
  function LowerChar(c: char): char {
    if 'A' <= c <= 'Z' then (c as int + 32) as char else c
  }

  /** `s.lower()` on ASCII letters; every other character is kept. */
  function Lower(s: string): (r: string)
    ensures |r| == |s|
    ensures forall i {:trigger r[i]} :: 0 <= i < |s| ==> r[i] == LowerChar(s[i])
  {
    seq(|s|, i requires 0 <= i < |s| => LowerChar(s[i]))
  }

  /** Lower-casing never creates or removes whitespace, '#' or emptiness. */
  lemma LowerKeepsClasses(s: string)
    ensures IsBlank(Lower(s)) <==> IsBlank(s)
    ensures (Lower(s) == "") <==> (s == "")
    ensures StartsWith(Lower(s), "#") <==> StartsWith(s, "#")
  {
    if |s| > 0 { assert Lower(s)[0] == LowerChar(s[0]); }
    if IsBlank(Lower(s)) {
      forall i | 0 <= i < |s| ensures IsSpace(s[i]) { assert IsSpace(Lower(s)[i]); }
    }
  }
}

/** Sequence relations shared by the processors. */
module Lists {

  /** s can be obtained from t by deleting elements, keeping the order of the rest. */
  ghost predicate Subsequence<T>(s: seq<T>, t: seq<T>)
    decreases |t|
  {
    if t == [] then s == []
    else Subsequence(s, t[..|t| - 1]) ||
         (s != [] && s[|s| - 1] == t[|t| - 1] && Subsequence(s[..|s| - 1], t[..|t| - 1]))
  }

  /** Extending t by an element either keeps s a subsequence, or extends both. */
  lemma SubsequenceSnoc<T>(s: seq<T>, t: seq<T>, x: T)
    requires Subsequence(s, t)
    ensures Subsequence(s, t + [x])
    ensures Subsequence(s + [x], t + [x])
  {
    assert (t + [x])[..|t|] == t;
    assert (s + [x])[..|s|] == s;
  }
}
