/** The replace-words handler: pairing the selected misspelled words with entries of the
    correct-spelling list, and folding String.Replace over those pairs in every selected file. */
module Replacement {
  import opened Results
  import opened Text
  import opened Producer

  /** List.IndexOf: the first index holding x, or -1. */
  function IndexOf(s: seq<string>, x: string): (i: int)
    ensures -1 <= i < |s|
    ensures i == -1 <==> x !in s
    ensures i >= 0 ==> s[i] == x && forall j :: 0 <= j < i ==> s[j] != x
  {
    if s == [] then -1
    else if s[0] == x then 0
    else
      var j := IndexOf(s[1..], x);
      if j == -1 then -1 else j + 1
  }

  /** The pair the handler adds for one selected item, if its first index in the misspelled
      list is also an index of the correct-spelling list. */
  function PairFor(item: string, misspelled: seq<string>, correctSpelling: seq<string>): seq<WordInfo>
  {
    var selectedIndex := IndexOf(misspelled, item);
    if 0 <= selectedIndex < |correctSpelling|
    then [WordInfo(None, item, Some(correctSpelling[selectedIndex]))]
    else []
  }

  /** The replacement list the handler builds, selected item after selected item. */
  function SelectPairs(selected: seq<string>, misspelled: seq<string>, correctSpelling: seq<string>): (pairs: seq<WordInfo>)
    ensures forall k :: 0 <= k < |pairs| ==> pairs[k].word in misspelled
  {
    if selected == [] then []
    else
      SelectPairs(selected[..|selected| - 1], misspelled, correctSpelling)
        + PairFor(selected[|selected| - 1], misspelled, correctSpelling)
  }

  /** Every pair is a selected word, paired with the correct-spelling entry at the first index of
      that word in the misspelled list, which lies within the correct-spelling list; there are
      never more pairs than selected items. */
  lemma {:induction false} SelectPairsSound(selected: seq<string>, misspelled: seq<string>, correctSpelling: seq<string>)
    ensures var pairs := SelectPairs(selected, misspelled, correctSpelling);
      && |pairs| <= |selected|
      && forall k :: 0 <= k < |pairs| ==>
           && pairs[k].filePath.None?
           && pairs[k].word in selected
           && 0 <= IndexOf(misspelled, pairs[k].word) < |correctSpelling|
           && pairs[k].replacement == Some(correctSpelling[IndexOf(misspelled, pairs[k].word)])
  {
    if selected != [] {
      var prefix := selected[..|selected| - 1];
      SelectPairsSound(prefix, misspelled, correctSpelling);
      forall w | w in prefix ensures w in selected { }
    }
  }

  /** When every selected item is on the misspelled list and that list is no longer than the
      correct-spelling list (as the worker keeps them), every item gets its pair, in order. */
  lemma {:induction false} SelectPairsComplete(selected: seq<string>, misspelled: seq<string>, correctSpelling: seq<string>)
    requires forall k :: 0 <= k < |selected| ==> selected[k] in misspelled
    requires |misspelled| <= |correctSpelling|
    ensures var pairs := SelectPairs(selected, misspelled, correctSpelling);
      && |pairs| == |selected|
      && forall k :: 0 <= k < |pairs| ==> pairs[k].word == selected[k]
  {
    if selected != [] {
      SelectPairsComplete(selected[..|selected| - 1], misspelled, correctSpelling);
    }
  }

  /** The value String.Replace substitutes: a null newValue removes the word. */
  function ReplacementText(pair: WordInfo): string
  {
    pair.replacement.GetOr([])
  }

  predicate NonEmptyWords(pairs: seq<WordInfo>) {
    forall k :: 0 <= k < |pairs| ==> |pairs[k].word| > 0
  }

  /** One file's content after the pairs, applied left to right, each with String.Replace. */
  function ApplyPairs(content: string, pairs: seq<WordInfo>): string
    requires NonEmptyWords(pairs)
    decreases |pairs|
  {
    if pairs == [] then content
    else ApplyPairs(Replace(content, pairs[0].word, ReplacementText(pairs[0])), pairs[1..])
  }

  /** A pair whose word does not occur in the content it is applied to is skipped. */
  lemma ApplyPairsSkipsAbsent(content: string, pairs: seq<WordInfo>)
    requires NonEmptyWords(pairs) && pairs != [] && !Occurs(content, pairs[0].word)
    ensures ApplyPairs(content, pairs) == ApplyPairs(content, pairs[1..])
  {
    ReplaceAbsent(content, pairs[0].word, ReplacementText(pairs[0]));
  }

  /** A file in which none of the pair words occurs is left as it is. */
  lemma {:induction false} ApplyPairsNoOccurrence(content: string, pairs: seq<WordInfo>)
    requires NonEmptyWords(pairs)
    requires forall k :: 0 <= k < |pairs| ==> !Occurs(content, pairs[k].word)
    ensures ApplyPairs(content, pairs) == content
  {
    if pairs != [] {
      ReplaceAbsent(content, pairs[0].word, ReplacementText(pairs[0]));
      ApplyPairsNoOccurrence(content, pairs[1..]);
    }
  }

  /** Pairs that replace a word by itself change nothing. */
  lemma {:induction false} ApplyPairsIdentity(content: string, pairs: seq<WordInfo>)
    requires NonEmptyWords(pairs)
    requires forall k :: 0 <= k < |pairs| ==> ReplacementText(pairs[k]) == pairs[k].word
    ensures ApplyPairs(content, pairs) == content
  {
    if pairs != [] {
      ReplaceSame(content, pairs[0].word);
      ApplyPairsIdentity(content, pairs[1..]);
    }
  }

  /** ReplaceWordsInFiles: for each selected file in order, read it, apply the pairs and
      write it back; a file that is not on disk throws, after the earlier files were written. */
  function RewriteFiles(paths: seq<string>, disk: map<string, string>, pairs: seq<WordInfo>): (r: (map<string, string>, Option<Error>))
    requires NonEmptyWords(pairs)
  {
    if paths == [] then (disk, None)
    else if paths[0] !in disk then (disk, Some(FileNotFound(paths[0])))
    else RewriteFiles(paths[1..], disk[paths[0] := ApplyPairs(disk[paths[0]], pairs)], pairs)
  }

  /** The rewrite writes only files that exist and only selected ones. */
  lemma {:induction false} RewriteKeepsOthers(paths: seq<string>, disk: map<string, string>, pairs: seq<WordInfo>)
    requires NonEmptyWords(pairs)
    ensures var d := RewriteFiles(paths, disk, pairs).0;
      && d.Keys == disk.Keys
      && forall p :: p in disk && p !in paths ==> d[p] == disk[p]
  {
    if paths != [] && paths[0] in disk {
      var next := disk[paths[0] := ApplyPairs(disk[paths[0]], pairs)];
      RewriteKeepsOthers(paths[1..], next, pairs);
    }
  }

  /** With distinct selected files that are all on disk, the rewrite does not throw, and every
      selected file ends up holding the pairs applied to what it held before. */
  lemma {:induction false} RewriteDistinct(paths: seq<string>, disk: map<string, string>, pairs: seq<WordInfo>)
    requires NonEmptyWords(pairs)
    requires forall i, j :: 0 <= i < j < |paths| ==> paths[i] != paths[j]
    requires forall i :: 0 <= i < |paths| ==> paths[i] in disk
    ensures RewriteFiles(paths, disk, pairs).1.None?
    ensures RewriteFiles(paths, disk, pairs).0.Keys == disk.Keys
    ensures forall i :: 0 <= i < |paths| ==>
              RewriteFiles(paths, disk, pairs).0[paths[i]] == ApplyPairs(disk[paths[i]], pairs)
  {
    if paths != [] {
      var next := disk[paths[0] := ApplyPairs(disk[paths[0]], pairs)];
      var rest := paths[1..];
      RewriteDistinct(rest, next, pairs);
      RewriteKeepsOthers(rest, next, pairs);
      assert paths[0] !in rest;
      forall i | 0 <= i < |paths|
        ensures RewriteFiles(paths, disk, pairs).0[paths[i]] == ApplyPairs(disk[paths[i]], pairs)
      {
        if i > 0 {
          assert rest[i - 1] == paths[i];
          assert paths[i] != paths[0];
        }
      }
    }
  }

  /** At the first selected file that is missing, the rewrite throws FileNotFound for it.
      The distinct files before it have been rewritten with the pairs, and every other
      file still holds what it held. */
  lemma {:induction false} RewriteStopsAtMissing(paths: seq<string>, disk: map<string, string>,
                                                 pairs: seq<WordInfo>, k: nat)
    requires NonEmptyWords(pairs)
    requires k < |paths| && paths[k] !in disk
    requires forall i :: 0 <= i < k ==> paths[i] in disk
    requires forall i, j :: 0 <= i < j < k ==> paths[i] != paths[j]
    ensures RewriteFiles(paths, disk, pairs).1 == Some(FileNotFound(paths[k]))
    ensures RewriteFiles(paths, disk, pairs).0.Keys == disk.Keys
    ensures forall i :: 0 <= i < k ==>
              RewriteFiles(paths, disk, pairs).0[paths[i]] == ApplyPairs(disk[paths[i]], pairs)
    ensures forall p :: p in disk && p !in paths[..k] ==> RewriteFiles(paths, disk, pairs).0[p] == disk[p]
    decreases k
  {
    if k > 0 {
      var next := disk[paths[0] := ApplyPairs(disk[paths[0]], pairs)];
      var rest := paths[1..];
      RewriteStopsAtMissing(rest, next, pairs, k - 1);
      var d := RewriteFiles(paths, disk, pairs).0;
      assert d == RewriteFiles(rest, next, pairs).0;
      assert paths[0] !in rest[..k - 1];
      forall i | 0 <= i < k
        ensures d[paths[i]] == ApplyPairs(disk[paths[i]], pairs)
      {
        if i > 0 {
          assert rest[i - 1] == paths[i];
          assert paths[i] != paths[0];
        }
      }
      forall p | p in disk && p !in paths[..k]
        ensures d[p] == disk[p]
      {
        assert p != paths[0];
        assert p !in rest[..k - 1];
      }
    }
  }
}
