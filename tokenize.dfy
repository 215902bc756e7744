/**
 * Splitting a command line into whitespace-separated words.
 *
 * Characters are classified as in the C locale. Scanning skips white space,
 * takes a run of graphic characters as a word, and repeats; it stops at the
 * end of the line or at the first character that is neither white space nor
 * graphic (a NUL, a control character, anything outside ASCII).
 */
module Tokenizer {
  import opened Wrappers

  /** White space in the C locale: space, tab, newline, vertical tab, form feed, return. */
  predicate IsSpace(c: char) {
    c == ' ' || '\t' <= c <= '\r'
  }

  /** Graphic characters in the C locale: printable ASCII other than space. */
  predicate IsGraph(c: char) {
    '!' <= c <= '~'
  }

  predicate AllSpace(s: string) {
    forall k :: 0 <= k < |s| ==> IsSpace(s[k])
  }

  predicate AllGraph(s: string) {
    forall k :: 0 <= k < |s| ==> IsGraph(s[k])
  }

  /** Text the scanner passes over: white space and graphic characters. */
  predicate AllScannable(s: string) {
    forall k :: 0 <= k < |s| ==> IsSpace(s[k]) || IsGraph(s[k])
  }

  /** The first index at or after i that does not hold white space. */
  function SkipSpaces(line: string, i: nat): (j: nat)
    requires i <= |line|
    ensures i <= j <= |line|
    ensures AllSpace(line[i..j])
    ensures j == |line| || !IsSpace(line[j])
    decreases |line| - i
  {
    if i < |line| && IsSpace(line[i]) then SkipSpaces(line, i + 1) else i
  }

  /** The first index at or after i that does not hold a graphic character. */
  function SkipGraph(line: string, i: nat): (j: nat)
    requires i <= |line|
    ensures i <= j <= |line|
    ensures AllGraph(line[i..j])
    ensures j == |line| || !IsGraph(line[j])
    decreases |line| - i
  {
    if i < |line| && IsGraph(line[i]) then SkipGraph(line, i + 1) else i
  }

  /** Where scanning from i stops: the end, or the first character neither white nor graphic. */
  function ScanEnd(line: string, i: nat): (j: nat)
    requires i <= |line|
    ensures i <= j <= |line|
    ensures AllScannable(line[i..j])
    ensures j == |line| || (!IsSpace(line[j]) && !IsGraph(line[j]))
    decreases |line| - i
  {
    if i < |line| && (IsSpace(line[i]) || IsGraph(line[i])) then ScanEnd(line, i + 1) else i
  }

  /** Every one of ws is a non-empty run of graphic characters. */
  predicate AllWords(ws: seq<string>) {
    forall k :: 0 <= k < |ws| ==> ws[k] != [] && AllGraph(ws[k])
  }

  /** The words of line from index i on, in order. */
  function TokensFrom(line: string, i: nat): (ts: seq<string>)
    requires i <= |line|
    ensures AllWords(ts)
    decreases |line| - i
  {
    var s := SkipSpaces(line, i);
    var e := SkipGraph(line, s);
    if e == s then [] else [line[s..e]] + TokensFrom(line, e)
  }

  function Tokens(line: string): seq<string> {
    TokensFrom(line, 0)
  }

  /**
   * Splits line into words. The count is returned; with no words the array
   * is absent, otherwise it holds the words (the C array's NULL terminator
   * is the end of the sequence).
   */
  method Tokenize(line: string) returns (t: nat, tokes: Option<seq<string>>)
    ensures t == |Tokens(line)|
    ensures t == 0 <==> tokes.None?
    ensures tokes.Some? ==> tokes.value == Tokens(line)
  {
    var acc: seq<string> := [];
    var pos := 0;
    while true
      invariant pos <= |line|
      invariant acc + TokensFrom(line, pos) == Tokens(line)
      decreases |line| - pos
    {
      ghost var start := pos;
      var s := PassSpaces(line, pos);
      pos := PassGraph(line, s);
      WordAt(line, start, s, pos);
      if pos == s {
        break;
      }
      assert acc + [line[s..pos]] + TokensFrom(line, pos) == acc + TokensFrom(line, start);
      acc := acc + [line[s..pos]];
      if pos == |line| || line[pos] == '\0' {
        NothingPastStop(line, pos);
        break;
      }
    }
    t := |acc|;
    tokes := if t == 0 then None else Some(acc);
  }

  /** Advances from i past white space. */
  method PassSpaces(line: string, i: nat) returns (j: nat)
    requires i <= |line|
    ensures j == SkipSpaces(line, i)
  {
    j := i;
    while j < |line| && IsSpace(line[j])
      invariant i <= j <= |line|
      invariant SkipSpaces(line, j) == SkipSpaces(line, i)
      decreases |line| - j
    {
      j := j + 1;
    }
  }

  /** Advances from i past graphic characters. */
  method PassGraph(line: string, i: nat) returns (j: nat)
    requires i <= |line|
    ensures j == SkipGraph(line, i)
  {
    j := i;
    while j < |line| && IsGraph(line[j])
      invariant i <= j <= |line|
      invariant SkipGraph(line, j) == SkipGraph(line, i)
      decreases |line| - j
    {
      j := j + 1;
    }
  }

  /** The scanning loops' stopping points from start give the next word, if any. */
  lemma WordAt(line: string, start: nat, s: nat, e: nat)
    requires start <= |line|
    requires s == SkipSpaces(line, start) && e == SkipGraph(line, s)
    ensures TokensFrom(line, start) == if e == s then [] else [line[s..e]] + TokensFrom(line, e)
  {
  }

  /** Where scanning stops there are no more words. */
  lemma NothingPastStop(line: string, i: nat)
    requires i <= |line|
    requires i == |line| || line[i] == '\0'
    ensures TokensFrom(line, i) == []
  {
    assert SkipSpaces(line, i) == i;
    assert SkipGraph(line, i) == i;
  }

  /*
   * The words are exactly the maximal graphic runs of the scanned text.
   */

  /** Gaps and words put back together: g0 w0 g1 w1 ... wn-1 gn. */
  function Join(gaps: seq<string>, words: seq<string>): (r: string)
    requires |gaps| == |words| + 1
    decreases |words|
  {
    if words == [] then gaps[0] else gaps[0] + words[0] + Join(gaps[1..], words[1..])
  }

  /** A split of some text: white gaps, non-empty graphic words, and a gap between any two words. */
  predicate Separated(gaps: seq<string>, words: seq<string>) {
    |gaps| == |words| + 1
    && (forall k :: 0 <= k < |gaps| ==> AllSpace(gaps[k]))
    && (forall k :: 0 < k < |words| ==> gaps[k] != [])
    && AllWords(words)
  }

  /** The white space before each word, and after the last one, from index i on. */
  function GapsFrom(line: string, i: nat): (gs: seq<string>)
    requires i <= |line|
    ensures |gs| == |TokensFrom(line, i)| + 1
    decreases |line| - i
  {
    var s := SkipSpaces(line, i);
    var e := SkipGraph(line, s);
    if e == s then [line[i..s]] else [line[i..s]] + GapsFrom(line, e)
  }

  /** Scanning from any point of the scanned text stops where scanning from its start does. */
  lemma {:induction false} ScanEndFrom(line: string, i: nat, j: nat)
    requires i <= |line| && i <= j <= ScanEnd(line, i)
    ensures ScanEnd(line, j) == ScanEnd(line, i)
    decreases j - i
  {
    if i < j {
      ScanEndFrom(line, i + 1, j);
    }
  }

  /** The gaps and words from i on form a separated split. */
  lemma {:induction false} TokensSeparated(line: string, i: nat)
    requires i <= |line|
    ensures Separated(GapsFrom(line, i), TokensFrom(line, i))
    decreases |line| - i
  {
    var s := SkipSpaces(line, i);
    var e := SkipGraph(line, s);
    if e != s {
      TokensSeparated(line, e);
      var gs := GapsFrom(line, i);
      var ts := TokensFrom(line, i);
      assert gs == [line[i..s]] + GapsFrom(line, e);
      assert ts == [line[s..e]] + TokensFrom(line, e);
      if |ts| > 1 {
        var s2 := SkipSpaces(line, e);
        assert SkipGraph(line, s2) != s2;
        assert s2 < |line| && IsGraph(line[s2]);
        assert gs[1] == line[e..s2];
      }
    }
  }

  /** Joined back together, the gaps and words from i on give the scanned text from i exactly. */
  lemma {:induction false} TokensJoin(line: string, i: nat)
    requires i <= |line|
    ensures Join(GapsFrom(line, i), TokensFrom(line, i)) == line[i..ScanEnd(line, i)]
    decreases |line| - i
  {
    var s := SkipSpaces(line, i);
    var e := SkipGraph(line, s);
    ScanEndPast(line, i, s);
    var end := ScanEnd(line, i);
    if e == s {
      assert ScanEnd(line, s) == s;
      assert GapsFrom(line, i) == [line[i..s]] && TokensFrom(line, i) == [];
    } else {
      ScanEndPast(line, s, e);
      TokensJoin(line, e);
      JoinStep(line, i);
      SliceJoin(line, i, s, e, end);
    }
  }

  /** A slice is the three slices it is cut into, put back together. */
  lemma SliceJoin(line: string, a: nat, b: nat, c: nat, d: nat)
    requires a <= b <= c <= d <= |line|
    ensures line[a..d] == line[a..b] + line[b..c] + line[c..d]
  {
  }

  /** The first gap and word from i, then the join of those after them. */
  lemma JoinStep(line: string, i: nat)
    requires i <= |line|
    requires SkipGraph(line, SkipSpaces(line, i)) != SkipSpaces(line, i)
    ensures var s := SkipSpaces(line, i);
      var e := SkipGraph(line, s);
      Join(GapsFrom(line, i), TokensFrom(line, i)) == line[i..s] + line[s..e] + Join(GapsFrom(line, e), TokensFrom(line, e))
  {
    var s := SkipSpaces(line, i);
    var e := SkipGraph(line, s);
    var gs := GapsFrom(line, i);
    var ts := TokensFrom(line, i);
    assert gs == [line[i..s]] + GapsFrom(line, e);
    assert ts == [line[s..e]] + TokensFrom(line, e);
    assert gs[1..] == GapsFrom(line, e) && ts[1..] == TokensFrom(line, e);
  }

  /** Scanning passes over white and graphic characters: it stops no earlier than j. */
  lemma {:induction false} ScanEndPast(line: string, i: nat, j: nat)
    requires i <= j <= |line|
    requires forall k :: i <= k < j ==> IsSpace(line[k]) || IsGraph(line[k])
    ensures j <= ScanEnd(line, i) && ScanEnd(line, j) == ScanEnd(line, i)
    decreases j - i
  {
    if i < j {
      ScanEndPast(line, i + 1, j);
    }
  }

  /**
   * The gaps and words from i on are a separated split, and joined back
   * together they give the scanned text from i exactly.
   */
  lemma TokensReassemble(line: string, i: nat)
    requires i <= |line|
    ensures Separated(GapsFrom(line, i), TokensFrom(line, i))
    ensures Join(GapsFrom(line, i), TokensFrom(line, i)) == line[i..ScanEnd(line, i)]
  {
    TokensSeparated(line, i);
    TokensJoin(line, i);
  }

  /**
   * A line has no words exactly when it is white space up to where scanning
   * stops: the empty line, a blank line, or white space before a character
   * that ends the scan.
   */
  lemma NoTokensIff(line: string)
    ensures Tokens(line) == [] <==> AllSpace(line[..ScanEnd(line, 0)])
  {
    var s := SkipSpaces(line, 0);
    var e := SkipGraph(line, s);
    assert forall k :: 0 <= k < s ==> IsSpace(line[0..s][k]);
    ScanEndPast(line, 0, s);
    var end := ScanEnd(line, 0);
    if e == s {
      assert ScanEnd(line, s) == s;
      assert line[..end] == line[0..s];
    } else {
      assert IsGraph(line[s..e][0]);
      assert !IsSpace(line[..end][s]);
    }
  }

  /** The words of the whole line, joined with their gaps, give back the scanned line. */
  lemma TokensCoverLine(line: string)
    ensures Separated(GapsFrom(line, 0), Tokens(line))
    ensures Join(GapsFrom(line, 0), Tokens(line)) == line[..ScanEnd(line, 0)]
  {
    TokensReassemble(line, 0);
  }

  /**
   * Conversely, any separated split of the scanned text from i has exactly
   * the words the scanner finds: the words are its maximal graphic runs.
   */
  lemma {:induction false} TokensUnique(line: string, i: nat, gaps: seq<string>, words: seq<string>)
    requires i <= |line| && Separated(gaps, words)
    requires Join(gaps, words) == line[i..ScanEnd(line, i)]
    ensures TokensFrom(line, i) == words
    decreases |words|
  {
    if words == [] {
      NoWordAt(line, i, gaps);
    } else {
      var g := i + |gaps[0]|;
      var e := g + |words[0]|;
      FirstWordAt(line, i, gaps, words, g, e);
      SeparatedRest(gaps, words);
      TokensUnique(line, e, gaps[1..], words[1..]);
      WordFound(line, i, g, e, words);
    }
  }

  /** A word found where the scanner looks heads the words from i. */
  lemma WordFound(line: string, i: nat, g: nat, e: nat, words: seq<string>)
    requires i <= |line| && g < e
    requires g == SkipSpaces(line, i) && e == SkipGraph(line, g)
    requires words != [] && line[g..e] == words[0] && TokensFrom(line, e) == words[1..]
    ensures TokensFrom(line, i) == words
  {
    WordAt(line, i, g, e);
    FirstAndRest(words);
  }

  /** A split with no words has nothing for the scanner to find. */
  lemma NoWordAt(line: string, i: nat, gaps: seq<string>)
    requires i <= |line| && Separated(gaps, [])
    requires Join(gaps, []) == line[i..ScanEnd(line, i)]
    ensures TokensFrom(line, i) == []
  {
    var end := ScanEnd(line, i);
    var g := i + |gaps[0]|;
    assert line[i..end] == gaps[0];
    assert line[i..g] == gaps[0];
    SkipSpacesStops(line, i, g, end);
  }

  /** Dropping the first gap and word of a separated split leaves a separated split. */
  lemma SeparatedRest(gaps: seq<string>, words: seq<string>)
    requires Separated(gaps, words) && words != []
    ensures Separated(gaps[1..], words[1..])
  {
  }

  /** A non-empty sequence is its first element followed by the rest. */
  lemma FirstAndRest<T>(xs: seq<T>)
    requires xs != []
    ensures xs == [xs[0]] + xs[1..]
  {
  }

  /**
   * In a separated split of the scanned text from i, the first gap and word
   * are where the scanner finds them, and the rest of the split covers the
   * scanned text after that word.
   */
  lemma FirstWordAt(line: string, i: nat, gaps: seq<string>, words: seq<string>, g: nat, e: nat)
    requires i <= |line| && Separated(gaps, words) && words != []
    requires Join(gaps, words) == line[i..ScanEnd(line, i)]
    requires g == i + |gaps[0]| && e == g + |words[0]|
    ensures g < e <= |line| && SkipSpaces(line, i) == g && SkipGraph(line, g) == e
    ensures line[g..e] == words[0]
    ensures Join(gaps[1..], words[1..]) == line[e..ScanEnd(line, e)]
  {
    var end := ScanEnd(line, i);
    var rest := Join(gaps[1..], words[1..]);
    assert line[i..end] == gaps[0] + words[0] + rest;
    SliceThree(line, i, end, gaps[0], words[0], rest);
    assert IsGraph(line[g]) by {
      assert line[g] == line[g..e][0] == words[0][0];
    }
    SkipSpacesStops(line, i, g, end);
    RestStartsWhite(gaps, words);
    assert e == end || IsSpace(line[e]) by {
      if e < end {
        assert line[e] == line[e..end][0] == rest[0];
      }
    }
    SkipGraphStops(line, g, e, end);
    ScanEndFrom(line, i, e);
  }

  /** A slice of line that is three strings put together holds each at its place. */
  lemma SliceThree(line: string, i: nat, end: nat, a: string, b: string, c: string)
    requires i <= end <= |line| && line[i..end] == a + b + c
    ensures i + |a| + |b| <= end
    ensures line[i..i + |a|] == a
    ensures line[i + |a|..i + |a| + |b|] == b
    ensures line[i + |a| + |b|..end] == c
  {
    var text := line[i..end];
    var g, e := i + |a|, i + |a| + |b|;
    forall k | i <= k < end
      ensures line[k] == text[k - i]
    {
    }
    assert line[i..g] == a by {
      forall k | 0 <= k < |a| ensures line[i..g][k] == a[k] {
        assert text[k] == (a + b + c)[k];
      }
    }
    assert line[g..e] == b by {
      forall k | 0 <= k < |b| ensures line[g..e][k] == b[k] {
        assert text[|a| + k] == (a + b + c)[|a| + k];
      }
    }
    assert line[e..end] == c by {
      forall k | 0 <= k < |c| ensures line[e..end][k] == c[k] {
        assert text[|a| + |b| + k] == (a + b + c)[|a| + |b| + k];
      }
    }
  }

  /** After the first word of a separated split comes white space, or nothing. */
  lemma RestStartsWhite(gaps: seq<string>, words: seq<string>)
    requires Separated(gaps, words) && |words| >= 1
    ensures var rest := Join(gaps[1..], words[1..]);
      rest == [] || IsSpace(rest[0])
  {
    var rest := Join(gaps[1..], words[1..]);
    if |words| > 1 {
      assert rest == gaps[1] + words[1] + Join(gaps[2..], words[2..]);
      assert gaps[1] != [] && AllSpace(gaps[1]);
      assert rest[0] == gaps[1][0];
    } else {
      assert rest == gaps[1];
      if rest != [] {
        assert AllSpace(gaps[1]);
      }
    }
  }

  /** White space from i up to g, followed by a graphic character or the scan's end. */
  lemma SkipSpacesStops(line: string, i: nat, g: nat, end: nat)
    requires i <= |line| && i <= g <= end == ScanEnd(line, i)
    requires AllSpace(line[i..g])
    requires g == end || IsGraph(line[g])
    ensures SkipSpaces(line, i) == g
    decreases g - i
  {
    if i < g {
      assert IsSpace(line[i..g][0]);
      assert line[i + 1..g] == line[i..g][1..];
      ScanEndFrom(line, i, i + 1);
      SkipSpacesStops(line, i + 1, g, end);
    }
  }

  /** A word from g up to e, followed by white space or the scan's end. */
  lemma SkipGraphStops(line: string, g: nat, e: nat, end: nat)
    requires g <= e <= end <= |line|
    requires end == |line| || (!IsSpace(line[end]) && !IsGraph(line[end]))
    requires AllGraph(line[g..e])
    requires e == end || IsSpace(line[e])
    ensures SkipGraph(line, g) == e
    decreases e - g
  {
    if g < e {
      assert IsGraph(line[g..e][0]);
      assert line[g + 1..e] == line[g..e][1..];
      SkipGraphStops(line, g + 1, e, end);
    }
  }
}
