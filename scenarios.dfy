/** Concrete runs of the window that show two consequences of the code as it stands:
    the replace-words pairing can offer a correctly spelled word as the replacement of a
    misspelled one, and rewriting the files twice with the same pairs need not give
    the same files as rewriting them once. */
module Scenarios {
  import opened Results
  import opened Text
  import opened Spelling
  import opened Producer
  import opened Worker
  import opened Replacement

  /** A service that flags "teh" with the single suggestion "the" and flags nothing else. */
  function TehOracle(): string -> HttpResponse
  {
    w => if w == "teh"
         then HttpResponse(200, "", SpellCheckResponse(Some([FlaggedToken("teh", Some([Suggestion(Some("the"))]))])))
         else HttpResponse(200, "", SpellCheckResponse(Some([])))
  }

  /** A file of two words separated by one space yields their two tasks, in order. */
  lemma FileTasksOfTwoWords(path: string, a: string, b: string)
    requires IsWord(a) && IsWord(b)
    ensures FileTasks(path, a + [' '] + b) == [WordInfo(Some(path), a, None), WordInfo(Some(path), b, None)]
  {
    TokensSplitAt(a, ' ', b);
    TokensOfWord(a);
    TokensOfWord(b);
    assert Tokens(a + [' '] + b) == [a, b];
  }

  /** The file "quick teh" yields the two tasks "quick" and "teh", in that order. */
  lemma QuickTehTasks()
    ensures FileTasks("f", "quick teh")
            == [WordInfo(Some("f"), "quick", None), WordInfo(Some("f"), "teh", None)]
  {
    assert IsWord("quick");
    assert IsWord("teh");
    FileTasksOfTwoWords("f", "quick", "teh");
    assert "quick teh" == "quick" + [' '] + "teh";
  }

  /** Checking the words "quick" and "teh" in that order, with both lists empty, puts
      "quick" and "the" on the correct-spelling list and only "teh" on the misspelled list. */
  lemma QuickTehLists(s: RunState)
    requires |s.queue| == 2 && IsTask(s.queue[0]) && IsTask(s.queue[1])
    requires s.queue[0].word == "quick" && s.queue[1].word == "teh"
    requires s.misspelledItems == [] && s.correctSpellingItems == []
    ensures var (t, e) := Drain(TehOracle(), s);
      && e.None?
      && t.misspelledItems == ["teh"]
      && t.correctSpellingItems == ["quick", "the"]
  {
    var oracle := TehOracle();
    var q := s.queue;
    assert GetCorrectSpelling("quick", oracle("quick")) == Success("quick");
    assert GetCorrectSpelling("teh", oracle("teh")) == Success("the");
    DrainSucceeds(oracle, s);
    DrainLists(oracle, s);
    assert q[1..][1..] == [];
    assert Suggested(oracle, "quick") == "quick";
    assert Suggested(oracle, "teh") == "the" != "teh";
    assert MisspelledEntries(oracle, q[1..][1..]) == [];
    assert CorrectSpellingEntries(oracle, q) == ["quick", "the"];
    assert MisspelledEntries(oracle, q) == ["teh"];
  }

  /** Selecting "teh" pairs it with the entry at its own index in the other list. */
  lemma TehPair()
    ensures SelectPairs(["teh"], ["teh"], ["quick", "the"]) == [WordInfo(None, "teh", Some("quick"))]
  {
    assert IndexOf(["teh"], "teh") == 0;
    assert SelectPairs(["teh"], ["teh"], ["quick", "the"])
           == SelectPairs([], ["teh"], ["quick", "the"]) + PairFor("teh", ["teh"], ["quick", "the"]);
  }

  /** Checking the file "quick teh" puts "quick" and "the" on the correct-spelling list but
      only "teh" on the misspelled list, so selecting "teh" pairs it with "quick", which is
      not the service's suggestion for it. */
  lemma MisalignedPair()
    ensures var s := RunState(FileTasks("f", "quick teh"), [], [], map["f" := "quick teh"],
                              map["f" := "quick teh"]);
      var (t, e) := Drain(TehOracle(), s);
      && e.None?
      && Suggested(TehOracle(), "teh") == "the"
      && SelectPairs(["teh"], t.misspelledItems, t.correctSpellingItems)
         == [WordInfo(None, "teh", Some("quick"))]
  {
    QuickTehTasks();
    var s := RunState(FileTasks("f", "quick teh"), [], [], map["f" := "quick teh"],
                      map["f" := "quick teh"]);
    QuickTehLists(s);
    TehPair();
    assert GetCorrectSpelling("teh", TehOracle()("teh")) == Success("the");
  }

  /** A replacement that contains its word is not idempotent: replacing "cat" by "cats" in
      a file holding "cat" gives "cats" the first time and "catss" the second. */
  lemma RewriteTwiceDiffers()
    ensures var pairs := [WordInfo(None, "cat", Some("cats"))];
      var once := RewriteFiles(["f"], map["f" := "cat"], pairs).0;
      var twice := RewriteFiles(["f"], once, pairs).0;
      && once == map["f" := "cats"]
      && twice == map["f" := "catss"]
      && once != twice
  {
    var pairs := [WordInfo(None, "cat", Some("cats"))];
    assert Replace("cat", "cat", "cats") == "cats" by {
      assert "cat"[..3] == "cat";
      assert "cat"[3..] == [];
    }
    assert Replace("cats", "cat", "cats") == "catss" by {
      assert "cats"[..3] == "cat";
      assert "cats"[3..] == "s";
      assert Replace("s", "cat", "cats") == "s";
    }
    assert ApplyPairs("cat", pairs) == "cats";
    assert ApplyPairs("cats", pairs) == "catss";
    assert map["f" := "cat"]["f" := "cats"] == map["f" := "cats"];
    assert map["f" := "cats"]["f" := "catss"] == map["f" := "catss"];
    assert map["f" := "cats"]["f"] != map["f" := "catss"]["f"];
  }

  /** A service that flags nothing: every word is spelled correctly. */
  function CleanOracle(): string -> HttpResponse
  {
    w => HttpResponse(200, "", SpellCheckResponse(Some([])))
  }

  /** A replacement made while a check is still draining is undone: the file "cat" was
      rewritten to "cats" on disk, and the pending turn for the word "cat" of that file
      writes back the "cat" it remembered. */
  lemma StaleWriteUndoesRewrite()
    ensures var s := RunState([WordInfo(Some("f"), "cat", None)], [], [], map["f" := "cat"],
                              map["f" := "cats"]);
      var (t, e) := Step(CleanOracle(), s);
      && e.None?
      && t.disk == map["f" := "cat"]
  {
    var s := RunState([WordInfo(Some("f"), "cat", None)], [], [], map["f" := "cat"], map["f" := "cats"]);
    assert GetCorrectSpelling("cat", CleanOracle()("cat")) == Success("cat");
    StepWritesRemembered(CleanOracle(), s);
    assert map["f" := "cats"]["f" := "cat"] == map["f" := "cat"];
  }

  /** A path selected twice is rewritten twice: the second pass reads the file the first
      one wrote and applies the pairs again. */
  lemma RewriteDuplicatePath()
    ensures RewriteFiles(["f", "f"], map["f" := "cat"], [WordInfo(None, "cat", Some("cats"))])
            == (map["f" := "catss"], None)
  {
    var pairs := [WordInfo(None, "cat", Some("cats"))];
    RewriteTwiceDiffers();
    assert ["f", "f"][1..] == ["f"];
    assert ["f"][1..] == [];
    assert ApplyPairs("cat", pairs) == "cats";
    assert ApplyPairs("cats", pairs) == "catss";
    assert map["f" := "cat"]["f" := "cats"] == map["f" := "cats"];
    assert map["f" := "cats"]["f" := "catss"] == map["f" := "catss"];
  }
}
