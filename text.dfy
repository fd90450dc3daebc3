/** The two string operations of the pipeline: splitting a file's text into words,
    and the ordinal String.Replace used to write corrections back. */
module Text {

  /** The four characters the producer passes to String.Split. */
  predicate IsSeparator(c: char) {
    c == ' ' || c == '\t' || c == '\r' || c == '\n'
  }

  predicate SeparatorFree(s: string) {
    forall k :: 0 <= k < |s| ==> !IsSeparator(s[k])
  }

  /** What Split with RemoveEmptyEntries can yield: a non-empty run without separators. */
  predicate IsWord(w: string) {
    |w| > 0 && SeparatorFree(w)
  }

  /** Length of the longest separator-free prefix of s. */
  function RunLength(s: string): (n: nat)
    ensures n <= |s|
    ensures forall k :: 0 <= k < n ==> !IsSeparator(s[k])
    ensures n < |s| ==> IsSeparator(s[n])
  {
    if s == [] || IsSeparator(s[0]) then 0 else 1 + RunLength(s[1..])
  }

  /** String.Split(new[] {' ', '\t', '\r', '\n'}, StringSplitOptions.RemoveEmptyEntries). */
  function Tokens(s: string): (ts: seq<string>)
    ensures forall i :: 0 <= i < |ts| ==> IsWord(ts[i])
    decreases |s|
  {
    if s == [] then []
    else if IsSeparator(s[0]) then Tokens(s[1..])
    else
      var n := RunLength(s);
      [s[..n]] + Tokens(s[n..])
  }

  /** The separator-free prefix is determined by where the first separator is. */
  lemma RunLengthUnique(s: string, m: nat)
    requires m <= |s|
    requires forall k :: 0 <= k < m ==> !IsSeparator(s[k])
    requires m < |s| ==> IsSeparator(s[m])
    ensures RunLength(s) == m
  {
  }

  /** Splitting at a separator: the words on either side are tokenised independently.
      Together with TokensOfWord and TokensOfSeparators this says that the tokens are
      exactly the maximal separator-free runs, in order, with duplicates kept. */
  lemma {:induction false} TokensSplitAt(a: string, c: char, b: string)
    requires IsSeparator(c)
    ensures Tokens(a + [c] + b) == Tokens(a) + Tokens(b)
    decreases |a|
  {
    var s := a + [c] + b;
    if a == [] {
      assert s == [c] + b;
      assert s[1..] == b;
    } else if IsSeparator(a[0]) {
      assert s[1..] == a[1..] + [c] + b;
      TokensSplitAt(a[1..], c, b);
    } else {
      var n := RunLength(a);
      RunLengthBeforeSeparator(a, c, b);
      assert s[..n] == a[..n];
      assert s[n..] == a[n..] + [c] + b;
      TokensSplitAt(a[n..], c, b);
    }
  }

  /** A separator after a ends the first run at the latest there. */
  lemma RunLengthBeforeSeparator(a: string, c: char, b: string)
    requires IsSeparator(c)
    ensures RunLength(a + [c] + b) == RunLength(a)
  {
    var s := a + [c] + b;
    var n := RunLength(a);
    assert forall k :: 0 <= k < n ==> s[k] == a[k];
    assert n < |a| ==> s[n] == a[n];
    assert n == |a| ==> s[n] == c;
    RunLengthUnique(s, n);
  }

  /** A single word is its own only token. */
  lemma TokensOfWord(w: string)
    requires IsWord(w)
    ensures Tokens(w) == [w]
  {
    RunLengthUnique(w, |w|);
    assert w[..|w|] == w;
    assert w[|w|..] == [];
  }

  /** Text made of separators only has no tokens. */
  lemma {:induction false} TokensOfSeparators(s: string)
    requires forall k :: 0 <= k < |s| ==> IsSeparator(s[k])
    ensures Tokens(s) == []
    decreases |s|
  {
    if s != [] {
      TokensOfSeparators(s[1..]);
    }
  }

  /** Words joined by single spaces. */
  function JoinWords(ws: seq<string>): string
  {
    if |ws| == 0 then []
    else if |ws| == 1 then ws[0]
    else ws[0] + " " + JoinWords(ws[1..])
  }

  /** Tokenising is the inverse of joining words with spaces. */
  lemma {:induction false} TokensJoinWords(ws: seq<string>)
    requires forall i :: 0 <= i < |ws| ==> IsWord(ws[i])
    ensures Tokens(JoinWords(ws)) == ws
  {
    if |ws| == 0 {
    } else if |ws| == 1 {
      TokensOfWord(ws[0]);
    } else {
      TokensSplitAt(ws[0], ' ', JoinWords(ws[1..]));
      TokensOfWord(ws[0]);
      TokensJoinWords(ws[1..]);
      assert ws == [ws[0]] + ws[1..];
    }
  }

  /** pat occurs in s starting at index i. */
  predicate OccursAt(s: string, pat: string, i: nat) {
    i + |pat| <= |s| && s[i..i + |pat|] == pat
  }

  predicate Occurs(s: string, pat: string) {
    exists i: nat | i <= |s| :: OccursAt(s, pat, i)
  }

  /** Ordinal String.Replace: scans left to right and replaces every non-overlapping
      occurrence of oldValue by newValue. An empty oldValue throws in .NET; callers
      rule it out (see the worker and the file rewrite). */
  function Replace(s: string, oldValue: string, newValue: string): string
    requires |oldValue| > 0
    decreases |s|
  {
    if |s| < |oldValue| then s
    else if s[..|oldValue|] == oldValue then newValue + Replace(s[|oldValue|..], oldValue, newValue)
    else [s[0]] + Replace(s[1..], oldValue, newValue)
  }

  /** Replacing a word by itself changes nothing (the worker's "correct word" branch). */
  lemma {:induction false} ReplaceSame(s: string, w: string)
    requires |w| > 0
    ensures Replace(s, w, w) == s
    decreases |s|
  {
    if |s| < |w| {
    } else if s[..|w|] == w {
      ReplaceSame(s[|w|..], w);
      assert s == w + s[|w|..];
    } else {
      ReplaceSame(s[1..], w);
      assert s == [s[0]] + s[1..];
    }
  }

  /** An occurrence in s[1..] is an occurrence in s one place further on. */
  lemma OccursInTail(s: string, pat: string)
    requires |s| > 0 && Occurs(s[1..], pat)
    ensures Occurs(s, pat)
  {
    var i: nat :| i <= |s[1..]| && OccursAt(s[1..], pat, i);
    assert i + |pat| <= |s| - 1;
    assert s[1..][i..i + |pat|] == s[i + 1..i + 1 + |pat|];
    assert OccursAt(s, pat, i + 1);
  }

  /** The left-to-right step of Replace: text before the first occurrence of the word is
      kept, that occurrence becomes the new value, and the scan resumes after it. */
  lemma {:induction false} ReplaceFirstOccurrence(u: string, oldValue: string, v: string, newValue: string)
    requires |oldValue| > 0
    requires !Occurs(u + oldValue[..|oldValue| - 1], oldValue)
    ensures Replace(u + oldValue + v, oldValue, newValue) == u + newValue + Replace(v, oldValue, newValue)
    decreases |u|
  {
    var s := u + oldValue + v;
    if u == [] {
      assert s[..|oldValue|] == oldValue;
      assert s[|oldValue|..] == v;
    } else {
      var rest := Replace(v, oldValue, newValue);
      NoOccurrenceBefore(u, oldValue, v);
      ReplaceFirstOccurrence(u[1..], oldValue, v, newValue);
      assert Replace(s, oldValue, newValue) == [u[0]] + (u[1..] + newValue + rest);
      assert [u[0]] + (u[1..] + newValue + rest) == u + newValue + rest;
    }
  }

  /** Before the first occurrence, Replace copies one character and scans the rest. */
  lemma NoOccurrenceBefore(u: string, oldValue: string, v: string)
    requires |oldValue| > 0 && u != []
    requires !Occurs(u + oldValue[..|oldValue| - 1], oldValue)
    ensures var s := u + oldValue + v;
      && |s| >= |oldValue| && s[..|oldValue|] != oldValue
      && s[0] == u[0] && s[1..] == u[1..] + oldValue + v
      && !Occurs(u[1..] + oldValue[..|oldValue| - 1], oldValue)
  {
    var s := u + oldValue + v;
    var w := u + oldValue[..|oldValue| - 1];
    assert s[..|oldValue|] == w[0..|oldValue|];
    assert !OccursAt(w, oldValue, 0);
    assert s[1..] == u[1..] + oldValue + v;
    assert w[1..] == u[1..] + oldValue[..|oldValue| - 1];
    if Occurs(w[1..], oldValue) {
      OccursInTail(w, oldValue);
    }
  }

  /** A word that does not occur is not replaced. */
  lemma {:induction false} ReplaceAbsent(s: string, oldValue: string, newValue: string)
    requires |oldValue| > 0 && !Occurs(s, oldValue)
    ensures Replace(s, oldValue, newValue) == s
    decreases |s|
  {
    if |s| >= |oldValue| {
      assert !OccursAt(s, oldValue, 0);
      assert s[..|oldValue|] == s[0..|oldValue|];
      if Occurs(s[1..], oldValue) {
        OccursInTail(s, oldValue);
      }
      ReplaceAbsent(s[1..], oldValue, newValue);
      assert s == [s[0]] + s[1..];
    }
  }

  /** With a replacement at least as long as the word, the text does not shrink. */
  lemma {:induction false} ReplaceNotShorter(s: string, oldValue: string, newValue: string)
    requires |oldValue| > 0 && |newValue| >= |oldValue|
    ensures |Replace(s, oldValue, newValue)| >= |s|
    decreases |s|
  {
    if |s| < |oldValue| {
    } else if s[..|oldValue|] == oldValue {
      ReplaceNotShorter(s[|oldValue|..], oldValue, newValue);
    } else {
      ReplaceNotShorter(s[1..], oldValue, newValue);
    }
  }

  /** With a replacement at most as long as the word, the text does not grow. */
  lemma {:induction false} ReplaceNotLonger(s: string, oldValue: string, newValue: string)
    requires |oldValue| > 0 && |newValue| <= |oldValue|
    ensures |Replace(s, oldValue, newValue)| <= |s|
    decreases |s|
  {
    if |s| < |oldValue| {
    } else if s[..|oldValue|] == oldValue {
      ReplaceNotLonger(s[|oldValue|..], oldValue, newValue);
    } else {
      ReplaceNotLonger(s[1..], oldValue, newValue);
    }
  }

  /** Replace leaves the text as it is exactly when the word does not occur
      or is replaced by itself. */
  lemma {:induction false} ReplaceFixpoint(s: string, oldValue: string, newValue: string)
    requires |oldValue| > 0
    ensures Replace(s, oldValue, newValue) == s <==> (newValue == oldValue || !Occurs(s, oldValue))
    decreases |s|
  {
    if newValue == oldValue {
      ReplaceSame(s, oldValue);
    } else if !Occurs(s, oldValue) {
      ReplaceAbsent(s, oldValue, newValue);
    } else {
      var i: nat :| i <= |s| && OccursAt(s, oldValue, i);
      assert i + |oldValue| <= |s|;
      var rest := s[|oldValue|..];
      if s[..|oldValue|] == oldValue {
        assert s == oldValue + rest;
        if |newValue| > |oldValue| {
          ReplaceNotShorter(rest, oldValue, newValue);
        } else if |newValue| < |oldValue| {
          ReplaceNotLonger(rest, oldValue, newValue);
        } else {
          var k :| 0 <= k < |oldValue| && newValue[k] != oldValue[k];
          assert Replace(s, oldValue, newValue)[k] == newValue[k];
          assert s[k] == oldValue[k];
        }
      } else {
        assert i != 0;
        assert s[1..][i - 1..i - 1 + |oldValue|] == s[i..i + |oldValue|];
        assert OccursAt(s[1..], oldValue, i - 1);
        ReplaceFixpoint(s[1..], oldValue, newValue);
        assert Replace(s, oldValue, newValue)[1..] == Replace(s[1..], oldValue, newValue);
      }
    }
  }
}
