/** The string helpers the lexicon scorer relies on: Python's `str.strip()`,
    `str.lower()` and the `\w+` word-character runs that
    `re.findall(r"\w+|\w+'\w+", ...)` returns. The Unicode character classes
    behind them are a parameter (`CharModel`); only their ASCII behaviour is
    pinned down (`AgreesOnAscii`). */
module Text {

  /** Python's per-character classification: lower-casing, membership in the
      regex class `\w`, and `str.isspace`. */
  datatype CharModel = CharModel(lower: char -> char, isWord: char -> bool, isSpace: char -> bool)

  /** Python's lower-casing of an ASCII character. */
  function AsciiLower(c: char): (d: char)
    ensures 'A' <= c <= 'Z' ==> 'a' <= d <= 'z' && d as int == c as int + 32
    ensures !('A' <= c <= 'Z') ==> d == c
  {
    if 'A' <= c <= 'Z' then (c as int + 32) as char else c
  }

  predicate AsciiWord(c: char) {
    'a' <= c <= 'z' || 'A' <= c <= 'Z' || '0' <= c <= '9' || c == '_'
  }

  /** Python's ASCII whitespace: tab through carriage return, the four
      information separators 0x1C-0x1F, and space. */
  predicate AsciiSpace(c: char) {
    '\t' <= c <= '\r' || '\U{1C}' <= c <= '\U{1F}' || c == ' '
  }

  /** The character model agrees with Python on the ASCII range. */
  ghost predicate AgreesOnAscii(cs: CharModel) {
    && (forall c: char :: c < '\U{80}' ==> cs.lower(c) == AsciiLower(c))
    && (forall c: char :: c < '\U{80}' ==> (cs.isWord(c) <==> AsciiWord(c)))
    && (forall c: char :: c < '\U{80}' ==> (cs.isSpace(c) <==> AsciiSpace(c)))
  }

  /** Every character of `s` satisfies `p`. */
  ghost predicate All(s: string, p: char -> bool) {
    forall k :: 0 <= k < |s| ==> p(s[k])
  }

  /** A non-empty run of word characters: the shape of every token. */
  ghost predicate IsWord(w: string, isWord: char -> bool) {
    |w| > 0 && All(w, isWord)
  }

  /** Length of the longest prefix of `s` whose characters all satisfy `p`. */
  function PrefixRun(s: string, p: char -> bool): (n: nat)
    ensures n <= |s|
    ensures forall k :: 0 <= k < n ==> p(s[k])
    ensures n < |s| ==> !p(s[n])
  {
    if |s| > 0 && p(s[0]) then 1 + PrefixRun(s[1..], p) else 0
  }

  /** Length of the longest suffix of `s` whose characters all satisfy `p`. */
  function SuffixRun(s: string, p: char -> bool): (n: nat)
    ensures n <= |s|
    ensures forall k :: |s| - n <= k < |s| ==> p(s[k])
    ensures n < |s| ==> !p(s[|s| - 1 - n])
  {
    if |s| > 0 && p(s[|s| - 1]) then 1 + SuffixRun(s[..|s| - 1], p) else 0
  }

  /** The prefix-run length is the only length with the run's two defining
      properties. */
  lemma PrefixRunUnique(s: string, p: char -> bool, n: nat)
    requires n <= |s|
    requires forall k :: 0 <= k < n ==> p(s[k])
    requires n < |s| ==> !p(s[n])
    ensures PrefixRun(s, p) == n
  {
  }

  lemma SuffixRunUnique(s: string, p: char -> bool, n: nat)
    requires n <= |s|
    requires forall k :: |s| - n <= k < |s| ==> p(s[k])
    requires n < |s| ==> !p(s[|s| - 1 - n])
    ensures SuffixRun(s, p) == n
  {
  }

  /** Python's `str.strip()`: drop leading and trailing whitespace. */
  function Strip(s: string, isSpace: char -> bool): (r: string)
    ensures PrefixRun(s, isSpace) + |r| <= |s|
    ensures r == s[PrefixRun(s, isSpace)..PrefixRun(s, isSpace) + |r|]
    ensures r == [] <==> All(s, isSpace)
    ensures r != [] ==> !isSpace(r[0]) && !isSpace(r[|r| - 1])
    ensures All(s[PrefixRun(s, isSpace) + |r|..], isSpace)
  {
    var p := PrefixRun(s, isSpace);
    var t := s[p..];
    var n := SuffixRun(t, isSpace);
    StripTail(s, isSpace, p, n);
    StripEmpty(s, isSpace, p, n);
    t[..|t| - n]
  }

  /** What follows the stripped core is whitespace. */
  lemma StripTail(s: string, isSpace: char -> bool, p: nat, n: nat)
    requires p == PrefixRun(s, isSpace) && n == SuffixRun(s[p..], isSpace)
    ensures All(s[|s| - n..], isSpace)
  {
    SliceSuffix(s, s[p..], p, n, isSpace);
  }

  /** A suffix of `s[p..]` is the same-length suffix of `s`. */
  lemma SliceSuffix(s: string, t: string, p: nat, n: nat, q: char -> bool)
    requires p <= |s| && t == s[p..] && n <= |t|
    requires forall k :: |t| - n <= k < |t| ==> q(t[k])
    ensures All(s[|s| - n..], q)
  {
    forall k | |s| - n <= k < |s| ensures q(s[k]) {
      assert s[k] == t[k - p];
    }
  }

  /** The stripped core is empty exactly when the whole text is whitespace. */
  lemma StripEmpty(s: string, isSpace: char -> bool, p: nat, n: nat)
    requires p == PrefixRun(s, isSpace) && n == SuffixRun(s[p..], isSpace)
    ensures n == |s| - p <==> All(s, isSpace)
  {
    var t := s[p..];
    if p < |s| {
      assert t[0] == s[p];
    }
  }

  /** Strip is characterised by its three-way split: whitespace, a core that
      starts and ends with non-whitespace (or is empty), whitespace. */
  lemma StripSplit(a: string, m: string, b: string, isSpace: char -> bool)
    requires All(a, isSpace) && All(b, isSpace)
    requires m != [] ==> !isSpace(m[0]) && !isSpace(m[|m| - 1])
    ensures Strip(a + m + b, isSpace) == m
  {
    var s := a + m + b;
    if m == [] {
      assert All(s, isSpace) by {
        forall k | 0 <= k < |s| ensures isSpace(s[k]) {
          if k < |a| { assert s[k] == a[k]; } else { assert s[k] == b[k - |a|]; }
        }
      }
    } else {
      assert s[|a|] == m[0];
      PrefixRunUnique(s, isSpace, |a|);
      var t := s[|a|..];
      assert t == m + b;
      assert t[|m| - 1] == m[|m| - 1];
      SuffixRunUnique(t, isSpace, |b|);
      assert t[..|t| - |b|] == m;
    }
  }

  /** Stripping twice is stripping once. */
  lemma StripIdempotent(s: string, isSpace: char -> bool)
    ensures Strip(Strip(s, isSpace), isSpace) == Strip(s, isSpace)
  {
    var r := Strip(s, isSpace);
    assert r == [] + r + [];
    StripSplit([], r, [], isSpace);
  }

  /** Python's `str.lower()`, one character at a time. */
  function Lower(s: string, lower: char -> char): (r: string)
    ensures |r| == |s|
    ensures forall k :: 0 <= k < |s| ==> r[k] == lower(s[k])
  {
    seq(|s|, k requires 0 <= k < |s| => lower(s[k]))
  }

  /** On ASCII text the model's lower-casing is Python's. */
  lemma LowerAscii(cs: CharModel, s: string, r: string)
    requires AgreesOnAscii(cs)
    requires |r| == |s|
    requires forall k :: 0 <= k < |s| ==> s[k] < '\U{80}' && r[k] == AsciiLower(s[k])
    ensures Lower(s, cs.lower) == r
  {
  }

  /** `s[i..j]` is a maximal run of word characters: what one `\w+` match is. */
  ghost predicate IsRun(s: string, i: int, j: int, isWord: char -> bool) {
    && 0 <= i < j <= |s|
    && (forall k :: i <= k < j ==> isWord(s[k]))
    && (i == 0 || !isWord(s[i - 1]))
    && (j == |s| || !isWord(s[j]))
  }

  /** The matches of `re.findall(r"\w+|\w+'\w+", s)`, left to right. The first
      alternative always succeeds where the second could, so every match is a
      maximal `\w+` run and an apostrophe always ends a token. */
  function Tokens(s: string, isWord: char -> bool): (ts: seq<string>)
    ensures forall i :: 0 <= i < |ts| ==> IsWord(ts[i], isWord)
    decreases |s|
  {
    if |s| == 0 then []
    else if !isWord(s[0]) then Tokens(s[1..], isWord)
    else
      var n := PrefixRun(s, isWord);
      [s[..n]] + Tokens(s[n..], isWord)
  }

  /** The distinct tokens: the source puts the matches in a `set`. */
  function TokenSet(s: string, isWord: char -> bool): (ws: set<string>)
    ensures forall w :: w in ws ==> IsWord(w, isWord)
  {
    set w | w in Tokens(s, isWord)
  }

  /** `w` is the text of some maximal word run of `s`. */
  ghost predicate RunWord(s: string, w: string, isWord: char -> bool) {
    exists i, j :: IsRun(s, i, j, isWord) && w == s[i..j]
  }

  /** A maximal run of a suffix `s[n..]` is a maximal run of `s`, unless it
      starts the suffix right after a word character. */
  lemma RunOfSuffix(s: string, n: int, i: int, j: int, isWord: char -> bool)
    requires 0 <= n <= |s|
    requires IsRun(s[n..], i, j, isWord)
    requires i == 0 ==> n == 0 || !isWord(s[n - 1])
    ensures IsRun(s, n + i, n + j, isWord)
    ensures s[n..][i..j] == s[n + i..n + j]
  {
    var t := s[n..];
    assert forall k :: n + i <= k < n + j ==> s[k] == t[k - n];
    if i > 0 {
      assert t[i - 1] == s[n + i - 1];
    }
    if n + j < |s| {
      assert t[j] == s[n + j];
    }
    assert t[i..j] == s[n + i..n + j];
  }

  /** A maximal run of `s` that starts at or after `n` is a maximal run of the
      suffix `s[n..]`. */
  lemma RunInSuffix(s: string, n: int, i: int, j: int, isWord: char -> bool)
    requires 0 <= n <= i
    requires IsRun(s, i, j, isWord)
    ensures IsRun(s[n..], i - n, j - n, isWord)
    ensures s[n..][i - n..j - n] == s[i..j]
  {
    var t := s[n..];
    assert forall k :: i - n <= k < j - n ==> t[k] == s[k + n];
    if i > n {
      assert t[i - n - 1] == s[i - 1];
    }
    if j < |s| {
      assert t[j - n] == s[j];
    }
    assert t[i - n..j - n] == s[i..j];
  }

  /** Every token is a maximal word run of the text. */
  lemma {:induction false} TokenIsRun(s: string, isWord: char -> bool, w: string)
    requires w in Tokens(s, isWord)
    ensures exists i, j :: IsRun(s, i, j, isWord) && w == s[i..j]
    decreases |s|
  {
    if !isWord(s[0]) {
      TokenIsRun(s[1..], isWord, w);
      var i, j :| IsRun(s[1..], i, j, isWord) && w == s[1..][i..j];
      RunOfSuffix(s, 1, i, j, isWord);
    } else {
      var n := PrefixRun(s, isWord);
      if w == s[..n] {
        assert IsRun(s, 0, n, isWord);
      } else {
        TokenIsRun(s[n..], isWord, w);
        var i, j :| IsRun(s[n..], i, j, isWord) && w == s[n..][i..j];
        RunOfSuffix(s, n, i, j, isWord);
      }
    }
  }

  /** Every maximal word run of the text is a token. */
  lemma {:induction false} RunIsToken(s: string, isWord: char -> bool, i: int, j: int)
    requires IsRun(s, i, j, isWord)
    ensures s[i..j] in Tokens(s, isWord)
    decreases |s|
  {
    if !isWord(s[0]) {
      assert i != 0;
      RunInSuffix(s, 1, i, j, isWord);
      RunIsToken(s[1..], isWord, i - 1, j - 1);
      assert Tokens(s, isWord) == Tokens(s[1..], isWord);
    } else {
      var n := PrefixRun(s, isWord);
      assert Tokens(s, isWord) == [s[..n]] + Tokens(s[n..], isWord);
      if i == 0 {
        PrefixRunUnique(s, isWord, j);
        assert s[i..j] == Tokens(s, isWord)[0];
      } else {
        assert !isWord(s[i - 1]);
        assert n <= i - 1;
        RunInSuffix(s, n, i, j, isWord);
        RunIsToken(s[n..], isWord, i - n, j - n);
        assert s[i..j] in Tokens(s[n..], isWord);
      }
    }
  }

  /** The token set is exactly the set of maximal word runs. */
  lemma TokenSetIsRuns(s: string, isWord: char -> bool, w: string)
    ensures w in TokenSet(s, isWord) <==> exists i, j :: IsRun(s, i, j, isWord) && w == s[i..j]
  {
    if w in TokenSet(s, isWord) {
      TokenIsRun(s, isWord, w);
    }
    if exists i, j :: IsRun(s, i, j, isWord) && w == s[i..j] {
      var i, j :| IsRun(s, i, j, isWord) && w == s[i..j];
      RunIsToken(s, isWord, i, j);
    }
  }

  /** A word followed by a separator is the first token; the separator itself
      is skipped. */
  lemma TokensCons(w: string, c: char, r: string, isWord: char -> bool)
    requires IsWord(w, isWord) && !isWord(c)
    ensures Tokens(w + [c] + r, isWord) == [w] + Tokens(r, isWord)
  {
    var s := w + [c] + r;
    assert s[|w|] == c;
    PrefixRunUnique(s, isWord, |w|);
    assert s[..|w|] == w;
    assert s[|w|..] == [c] + r;
    assert ([c] + r)[1..] == r;
  }

  /** A trailing separator (punctuation, say) adds no token. */
  lemma {:induction false} TokensSnocSep(s: string, c: char, isWord: char -> bool)
    requires !isWord(c)
    ensures Tokens(s + [c], isWord) == Tokens(s, isWord)
    decreases |s|
  {
    var t := s + [c];
    if |s| == 0 {
      assert t[1..] == [];
    } else if !isWord(s[0]) {
      assert t[1..] == s[1..] + [c];
      TokensSnocSep(s[1..], c, isWord);
    } else {
      var n := PrefixRun(s, isWord);
      assert t[n] == (if n < |s| then s[n] else c);
      PrefixRunUnique(t, isWord, n);
      assert t[..n] == s[..n];
      assert t[n..] == s[n..] + [c];
      TokensSnocSep(s[n..], c, isWord);
    }
  }

  /** A text that is a single word is a single token. */
  lemma TokensSingle(w: string, isWord: char -> bool)
    requires IsWord(w, isWord)
    ensures Tokens(w, isWord) == [w]
  {
    PrefixRunUnique(w, isWord, |w|);
    assert w[..|w|] == w;
    assert w[|w|..] == [];
  }

  /** Words joined by a separator character, as `sep.join(ws)`. */
  function Join(ws: seq<string>, sep: char): (s: string) {
    if |ws| == 0 then []
    else if |ws| == 1 then ws[0]
    else ws[0] + [sep] + Join(ws[1..], sep)
  }

  /** Tokenising words joined by a non-word separator gives the words back. */
  lemma {:induction false} TokensOfJoin(ws: seq<string>, sep: char, isWord: char -> bool)
    requires forall i :: 0 <= i < |ws| ==> IsWord(ws[i], isWord)
    requires !isWord(sep)
    ensures Tokens(Join(ws, sep), isWord) == ws
  {
    if |ws| == 1 {
      TokensSingle(ws[0], isWord);
    } else if |ws| > 1 {
      TokensCons(ws[0], sep, Join(ws[1..], sep), isWord);
      TokensOfJoin(ws[1..], sep, isWord);
      assert [ws[0]] + ws[1..] == ws;
    }
  }
}
