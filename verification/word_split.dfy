/** Word counting in the review validator: Java's `comment.split("\\s+")`
    and the number of words it yields. */
module WordSplit {

  /** The regular-expression class `\s`: space, tab, newline, vertical tab,
      form feed and carriage return. */
  predicate IsSpace(c: char) {
    c == ' ' || c == '\t' || c == '\n' || c == '\U{000B}' || c == '\U{000C}' || c == '\r'
  }

  ghost predicate AllSpace(s: string) {
    forall k :: 0 <= k < |s| ==> IsSpace(s[k])
  }

  ghost predicate NoSpace(s: string) {
    forall k :: 0 <= k < |s| ==> !IsSpace(s[k])
  }

  /** Number of maximal runs of non-`\s` characters in `s`, counted by a
      left-to-right scan that remembers whether it is inside a run. */
  function RunsFrom(s: string, inWord: bool): nat
    decreases |s|
  {
    if |s| == 0 then 0
    else if IsSpace(s[0]) then RunsFrom(s[1..], false)
    else (if inWord then 0 else 1) + RunsFrom(s[1..], true)
  }

  /** The number of words of `s`: its maximal runs of non-`\s` characters. */
  function Words(s: string): nat {
    RunsFrom(s, false)
  }

  /** Index of the first `\s` character of `s`, or `|s|` if there is none. */
  function FirstSpace(s: string): (i: nat)
    ensures i <= |s|
  {
    if |s| == 0 || IsSpace(s[0]) then 0 else 1 + FirstSpace(s[1..])
  }

  /** The first `\s` character is one, and none comes before it. */
  lemma {:induction false} FirstSpaceIsFirst(s: string)
    ensures FirstSpace(s) < |s| ==> IsSpace(s[FirstSpace(s)])
    ensures NoSpace(s[..FirstSpace(s)])
    decreases |s|
  {
    if |s| > 0 && !IsSpace(s[0]) {
      FirstSpaceIsFirst(s[1..]);
      assert s[..FirstSpace(s)] == [s[0]] + s[1..][..FirstSpace(s[1..])];
    }
  }

  /** Length of the run of `\s` characters that starts `s`. */
  function SpaceRun(s: string): (n: nat)
    ensures n <= |s|
    ensures n < |s| ==> !IsSpace(s[n])
  {
    if |s| == 0 || !IsSpace(s[0]) then 0 else 1 + SpaceRun(s[1..])
  }

  /** The run consists of `\s` characters only. */
  lemma {:induction false} WithinSpaceRun(s: string)
    ensures AllSpace(s[..SpaceRun(s)])
    decreases |s|
  {
    if |s| > 0 && IsSpace(s[0]) {
      WithinSpaceRun(s[1..]);
      assert s[..SpaceRun(s)] == [s[0]] + s[1..][..SpaceRun(s[1..])];
    }
  }

  /** The pieces between the matches of `\s+`, as `Pattern.split` collects
      them before it removes trailing empty strings: a match is always the
      longest run of `\s` characters that starts at the first one found. */
  function Pieces(s: string): (ps: seq<string>)
    ensures |ps| >= 1
    decreases |s|
  {
    var i := FirstSpace(s);
    if i == |s| then [s]
    else
      FirstSpaceIsFirst(s);
      var n := SpaceRun(s[i..]);
      [s[..i]] + Pieces(s[i + n..])
  }

  /** Java drops the trailing empty strings of the split result. */
  function DropTrailingEmpty(ps: seq<string>): (r: seq<string>)
    ensures |r| <= |ps|
    ensures r == ps[..|r|]
    ensures r == [] || r[|r| - 1] != []
    ensures forall k :: |r| <= k < |ps| ==> ps[k] == []
  {
    if |ps| == 0 || ps[|ps| - 1] != [] then ps else DropTrailingEmpty(ps[..|ps| - 1])
  }

  /** Java's `s.split("\\s+")`: when the pattern never matches, the result
      is the input itself (even when it is empty); otherwise the pieces
      without trailing empty strings. */
  function SplitOnSpaces(s: string): seq<string> {
    if FirstSpace(s) == |s| then [s] else DropTrailingEmpty(Pieces(s))
  }

  /** A non-empty run without `\s` followed by the rest: the run adds one
      word unless the scan was already inside a word. */
  lemma {:induction false} RunsOverWord(a: string, rest: string, inWord: bool)
    requires a != [] && NoSpace(a)
    ensures RunsFrom(a + rest, inWord) == (if inWord then 0 else 1) + RunsFrom(rest, true)
    decreases |a|
  {
    assert (a + rest)[0] == a[0];
    assert (a + rest)[1..] == a[1..] + rest;
    if |a| > 1 {
      RunsOverWord(a[1..], rest, true);
    }
  }

  /** A non-empty run of `\s` ends any word in progress and adds none. */
  lemma {:induction false} RunsOverSpaces(sp: string, rest: string, inWord: bool)
    requires sp != [] && AllSpace(sp)
    ensures RunsFrom(sp + rest, inWord) == RunsFrom(rest, false)
    decreases |sp|
  {
    assert (sp + rest)[0] == sp[0];
    assert (sp + rest)[1..] == sp[1..] + rest;
    if |sp| > 1 {
      RunsOverSpaces(sp[1..], rest, false);
    }
  }

  /** Unfolding `Pieces` once at its first match. */
  lemma PiecesUnfold(s: string, i: nat, n: nat)
    requires i == FirstSpace(s) < |s| && n == SpaceRun(s[i..])
    ensures Pieces(s) == [s[..i]] + Pieces(s[i + n..])
  {
  }

  /** The run of `\s` that starts at the first `\s` of such a string is
      preceded by a word and followed by a non-`\s` character. */
  lemma SpaceRunInside(s: string, i: nat, n: nat)
    requires s != [] && !IsSpace(s[0]) && !IsSpace(s[|s| - 1])
    requires i == FirstSpace(s) < |s| && n == SpaceRun(s[i..])
    ensures 0 < i && 0 < n && i + n < |s|
    ensures NoSpace(s[..i]) && AllSpace(s[i..i + n])
    ensures var t := s[i + n..]; t != [] && !IsSpace(t[0]) && !IsSpace(t[|t| - 1])
  {
    FirstSpaceIsFirst(s);
    WithinSpaceRun(s[i..]);
    assert s[i..][0] == s[i];
    assert s[i..i + n] == s[i..][..n];
    assert i + n < |s|;
    assert s[i..][n] == s[i + n] == s[i + n..][0];
    assert s[i + n..][|s| - i - n - 1] == s[|s| - 1];
  }

  /** Splitting `s` around its run of `\s` at `[i, i + n)`, preceded by a word:
      the word counts once and the rest is counted afresh. */
  lemma WordsAcrossSpaces(s: string, i: nat, n: nat)
    requires 0 < i && 0 < n && i + n <= |s|
    requires NoSpace(s[..i]) && AllSpace(s[i..i + n])
    ensures Words(s) == 1 + Words(s[i + n..])
  {
    var w := s[..i];
    var sp := s[i..i + n];
    var t := s[i + n..];
    assert s == w + (sp + t);
    RunsOverWord(w, sp + t, false);
    RunsOverSpaces(sp, t, true);
  }

  /** The last piece of a split. */
  function Last(ps: seq<string>): string
    requires |ps| > 0
  {
    ps[|ps| - 1]
  }

  lemma LastOfCons(p: string, ps: seq<string>)
    requires |ps| > 0
    ensures Last([p] + ps) == Last(ps)
  {
  }

  /** On a string that neither starts nor ends with `\s`, there is one piece
      per word and the last piece is not empty. */
  lemma {:induction false} PiecesAreWords(s: string)
    requires s != [] && !IsSpace(s[0]) && !IsSpace(s[|s| - 1])
    ensures |Pieces(s)| == Words(s)
    ensures |Last(Pieces(s))| > 0
    decreases |s|
  {
    if FirstSpace(s) == |s| {
      SingleWord(s);
    } else {
      var i := FirstSpace(s);
      var n := SpaceRun(s[i..]);
      var t := s[i + n..];
      SpaceRunInside(s, i, n);
      PiecesAreWords(t);
      PiecesUnfold(s, i, n);
      WordsAcrossSpaces(s, i, n);
      LastOfCons(s[..i], Pieces(t));
    }
  }

  /** A non-empty string without `\s` is one piece and one word. */
  lemma SingleWord(s: string)
    requires s != [] && FirstSpace(s) == |s|
    ensures Pieces(s) == [s]
    ensures Words(s) == 1
  {
    FirstSpaceIsFirst(s);
    assert s[..|s|] == s == s + [];
    RunsOverWord(s, [], false);
  }

  /** `checkComment`'s word count, `split("\\s+").length` of a trimmed comment
      (0 for the empty string), is the number of maximal non-`\s` runs. */
  lemma SplitCountsWords(s: string)
    requires s == [] || (!IsSpace(s[0]) && !IsSpace(s[|s| - 1]))
    ensures (if s == [] then 0 else |SplitOnSpaces(s)|) == Words(s)
  {
    if s != [] {
      PiecesAreWords(s);
      var ps := Pieces(s);
      if FirstSpace(s) != |s| {
        assert ps[|ps| - 1] != [];
        assert DropTrailingEmpty(ps) == ps;
      }
    }
  }
}
