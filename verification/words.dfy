/** `count_words`: the number of whitespace-separated words of a text, computed
    as `len(text.strip().split())`. */
module Words {
  import opened Chars

  predicate AllSpace(s: string)
  {
    forall i :: 0 <= i < |s| ==> IsSpace(s[i])
  }

  /** `s.lstrip()`: drop the leading whitespace. */
  function TrimLeft(s: string): (r: string)
    ensures |r| <= |s| && r == s[|s| - |r|..]
    ensures AllSpace(s[..|s| - |r|])
    ensures r == [] || !IsSpace(r[0])
  {
    if s == [] || !IsSpace(s[0]) then s
    else
      var r := TrimLeft(s[1..]);
      assert s[..|s| - |r|] == [s[0]] + s[1..][..|s[1..]| - |r|];
      r
  }

  /** `s.rstrip()`: drop the trailing whitespace. */
  function TrimRight(s: string): (r: string)
    ensures |r| <= |s| && r == s[..|r|]
    ensures AllSpace(s[|r|..])
    ensures r == [] || !IsSpace(r[|r| - 1])
  {
    if s == [] || !IsSpace(s[|s| - 1]) then s
    else
      var r := TrimRight(s[..|s| - 1]);
      assert s[|r|..] == s[..|s| - 1][|r|..] + [s[|s| - 1]];
      r
  }

  /** `s.strip()`: what `lstrip()` leaves, up to its trailing whitespace. */
  function Strip(s: string): (r: string)
    ensures |r| <= |TrimLeft(s)| && r == TrimLeft(s)[..|r|]
    ensures AllSpace(TrimLeft(s)[|r|..])
    ensures r == [] || (!IsSpace(r[0]) && !IsSpace(r[|r| - 1]))
  {
    var t := TrimLeft(s);
    var r := TrimRight(t);
    assert r != [] ==> r[0] == t[0];
    r
  }

  /** Length of the run of non-whitespace characters that `s` starts with. */
  function WordLength(s: string): (n: nat)
    requires s != [] && !IsSpace(s[0])
    ensures 1 <= n <= |s|
    ensures forall i :: 0 <= i < n ==> !IsSpace(s[i])
    ensures n == |s| || IsSpace(s[n])
  {
    if |s| == 1 || IsSpace(s[1]) then 1 else 1 + WordLength(s[1..])
  }

  /** `w` is a slice of `s`: it starts some suffix of `s`. */
  predicate OccursIn(w: string, s: string)
  {
    exists i :: 0 <= i <= |s| && w <= s[i..]
  }

  /** A slice of a suffix of `s` is a slice of `s`. */
  lemma OccursInSuffix(w: string, s: string, j: nat)
    requires j <= |s| && OccursIn(w, s[j..])
    ensures OccursIn(w, s)
  {
    var i :| 0 <= i <= |s[j..]| && w <= s[j..][i..];
    assert s[j..][i..] == s[j + i..];
  }

  /** `s.split()` with no separator: the maximal runs of non-whitespace characters. */
  function Split(s: string): (words: seq<string>)
    ensures forall k :: 0 <= k < |words| ==> words[k] != [] && !HasSpace(words[k])
    ensures forall k :: 0 <= k < |words| ==> OccursIn(words[k], s)
    decreases |s|
  {
    var t := TrimLeft(s);
    if t == [] then []
    else
      var n := WordLength(t);
      var rest := Split(t[n..]);
      SplitSlices(s, t, n, rest);
      [t[..n]] + rest
  }

  /** The chunks `Split` builds from the suffix `t` of `s` are slices of `s`. */
  lemma SplitSlices(s: string, t: string, n: nat, rest: seq<string>)
    requires |t| <= |s| && t == s[|s| - |t|..] && n <= |t|
    requires forall k :: 0 <= k < |rest| ==> OccursIn(rest[k], t[n..])
    ensures forall k :: 0 <= k < |rest| + 1 ==> OccursIn(([t[..n]] + rest)[k], s)
  {
    assert t[..n] <= s[|s| - |t|..];
    forall k | 0 <= k < |rest|
      ensures OccursIn(rest[k], s)
    {
      assert t[n..] == s[|s| - |t| + n..];
      OccursInSuffix(rest[k], s, |s| - |t| + n);
    }
  }

  predicate HasSpace(w: string)
  {
    exists i :: 0 <= i < |w| && IsSpace(w[i])
  }

  /** `count_words(text)`. Words are separated by whitespace, so there are at
      most half as many as characters, rounded up. */
  function CountWords(text: string): (n: nat)
    ensures 2 * n <= |text| + 1
  {
    var u := Strip(text);
    SplitCountsRuns(u);
    RunsBound(u);
    |Split(u)|
  }

  /** A word takes a character, and a word after it at least one more. */
  lemma {:induction false} RunsBound(s: string)
    ensures 2 * Runs(s, false) <= |s| + 1
    ensures 2 * Runs(s, true) <= |s|
    decreases |s|
  {
    if s != [] {
      RunsBound(s[1..]);
    }
  }

  /** Reference count of the words of `s`: a scan that adds one each time a
      non-whitespace character follows whitespace (or the start, when `inWord`
      is false). */
  function Runs(s: string, inWord: bool): nat
    decreases |s|
  {
    if s == [] then 0
    else if IsSpace(s[0]) then Runs(s[1..], false)
    else (if inWord then 0 else 1) + Runs(s[1..], true)
  }

  lemma {:induction false} RunsSkipSpaces(s: string)
    ensures Runs(TrimLeft(s), false) == Runs(s, false)
    decreases |s|
  {
    if s != [] && IsSpace(s[0]) {
      RunsSkipSpaces(s[1..]);
    }
  }

  /** Inside a word, the rest of the word adds nothing. */
  lemma {:induction false} RunsInsideWord(s: string, n: nat)
    requires n <= |s|
    requires forall i :: 0 <= i < n ==> !IsSpace(s[i])
    ensures Runs(s, true) == Runs(s[n..], true)
    decreases n
  {
    if n > 0 {
      RunsInsideWord(s[1..], n - 1);
      assert s[1..][n - 1..] == s[n..];
    }
  }

  /** `split()` finds exactly as many words as the reference scan counts. */
  lemma {:induction false} SplitCountsRuns(s: string)
    ensures |Split(s)| == Runs(s, false)
    decreases |s|
  {
    var t := TrimLeft(s);
    RunsSkipSpaces(s);
    if t != [] {
      var n := WordLength(t);
      var rest := t[n..];
      assert Split(s) == [t[..n]] + Split(rest);
      SplitCountsRuns(rest);
      RunsInsideWord(t[1..], n - 1);
      assert t[1..][n - 1..] == rest;
      assert Runs(t, false) == 1 + Runs(t[1..], true);
      RunsAtBoundary(rest);
    }
  }

  /** After a word ends, whether we were inside it no longer matters. */
  lemma RunsAtBoundary(s: string)
    requires s == [] || IsSpace(s[0])
    ensures Runs(s, true) == Runs(s, false)
  {
  }

  /** Trailing whitespace adds no word. */
  lemma {:induction false} RunsTrailingSpace(s: string, tail: string, inWord: bool)
    requires AllSpace(tail)
    ensures Runs(s + tail, inWord) == Runs(s, inWord)
    decreases |s|
  {
    if s == [] {
      assert s + tail == tail;
      RunsAllSpace(tail, inWord);
    } else {
      assert (s + tail)[1..] == s[1..] + tail;
      RunsTrailingSpace(s[1..], tail, !IsSpace(s[0]));
    }
  }

  lemma {:induction false} RunsAllSpace(s: string, inWord: bool)
    requires AllSpace(s)
    ensures Runs(s, inWord) == 0
    decreases |s|
  {
    if s != [] {
      RunsAllSpace(s[1..], false);
    }
  }

  /** `count_words(text)` is the number of maximal non-whitespace runs of `text`. */
  lemma CountWordsCountsRuns(text: string)
    ensures CountWords(text) == Runs(text, false)
  {
    var t := TrimLeft(text);
    var u := TrimRight(t);
    assert Strip(text) == u;
    SplitCountsRuns(u);
    RunsSkipSpaces(text);
    StripTrailing(t);
  }

  lemma StripTrailing(t: string)
    ensures Runs(TrimRight(t), false) == Runs(t, false)
  {
    var u := TrimRight(t);
    var tail := t[|u|..];
    assert t == u + tail;
    RunsTrailingSpace(u, tail, false);
  }

  /** Stripping the text first does not change the count. */
  lemma CountWordsStripInvariant(text: string)
    ensures CountWords(Strip(text)) == CountWords(text)
  {
    CountWordsCountsRuns(text);
    CountWordsCountsRuns(Strip(text));
    RunsSkipSpaces(text);
    StripTrailing(TrimLeft(text));
  }

  /** A text has no words exactly when it is empty or all whitespace. */
  lemma CountWordsZero(text: string)
    ensures CountWords(text) == 0 <==> AllSpace(text)
  {
    CountWordsCountsRuns(text);
    RunsZero(text);
  }

  lemma {:induction false} RunsZero(s: string)
    ensures Runs(s, false) == 0 <==> AllSpace(s)
    decreases |s|
  {
    if s != [] {
      RunsZero(s[1..]);
    }
  }
}
