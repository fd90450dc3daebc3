/** The window's state and its three handlers, with the loops the source runs:
    reading the selected files into the word queue, the worker loop draining it, and
    the replace-words handler with its file rewrite. The list boxes are sequences of
    items, the file system is a map from path to content, and the spelling service is
    a function from a word to the HTTP response it answers with. */
module Window {
  import opened Results
  import opened Text
  import opened Spelling
  import opened Producer
  import opened Worker
  import opened Replacement

  class MainWindow {
    var selectedFiles: seq<string>
    var wordQueue: seq<WordInfo>
    var continueSpellChecking: bool
    var misspelledItems: seq<string>       // listBoxMisspelledWords.Items
    var correctSpellingItems: seq<string>  // listBoxCorrectSpelling.Items
    var disk: map<string, string>          // what File.ReadAllText reads and File.WriteAllText writes

    /** The worker's view of the window, with the dictionary it was handed. */
    ghost function State(fileContents: map<string, string>): RunState
      reads this
    {
      RunState(wordQueue, misspelledItems, correctSpellingItems, fileContents, disk)
    }

    ghost predicate Valid()
      reads this
    {
      WellFormed(State(map[]))
    }

    constructor (files: map<string, string>)
      ensures Valid()
      ensures selectedFiles == [] && wordQueue == [] && continueSpellChecking
      ensures misspelledItems == [] && correctSpellingItems == [] && disk == files
    {
      selectedFiles := [];
      wordQueue := [];
      continueSpellChecking := true;
      misspelledItems := [];
      correctSpellingItems := [];
      disk := files;
    }

    /** The select-files handler: the chosen names are appended, duplicates included. */
    method SelectFiles(fileNames: seq<string>)
      modifies this`selectedFiles
      ensures selectedFiles == old(selectedFiles) + fileNames
    {
      selectedFiles := selectedFiles + fileNames;
    }

    /** The producer of the start-check handler: read each selected file, add it to the
        dictionary and enqueue one task per word. It throws at the first file that is not
        on disk or whose path was already added, with the earlier files' words enqueued. */
    method ReadFilesIntoQueue() returns (r: Result<map<string, string>, Error>)
      requires Valid()
      modifies this`wordQueue, this`continueSpellChecking
      ensures Valid()
      ensures wordQueue == old(wordQueue) + Produce(selectedFiles, disk).0
      ensures r == Produce(selectedFiles, disk).1
      ensures r.Success? ==> !continueSpellChecking
      ensures r.Failure? ==> continueSpellChecking == old(continueSpellChecking)
    {
      var fileContents: map<string, string> := map[];
      var i := 0;
      while i < |selectedFiles|
        invariant 0 <= i <= |selectedFiles|
        invariant wordQueue + ProduceFrom(selectedFiles, disk, i, fileContents).0
                  == old(wordQueue) + Produce(selectedFiles, disk).0
        invariant ProduceFrom(selectedFiles, disk, i, fileContents).1 == Produce(selectedFiles, disk).1
        invariant continueSpellChecking == old(continueSpellChecking)
        invariant Valid()
      {
        var filePath := selectedFiles[i];
        if filePath !in disk {
          return Failure(FileNotFound(filePath));
        }
        var fileContent := disk[filePath];
        if filePath in fileContents {
          return Failure(DuplicateKey(filePath));
        }
        fileContents := fileContents[filePath := fileContent];
        EnqueueWords(filePath, fileContent);
        i := i + 1;
      }
      continueSpellChecking := false;
      return Success(fileContents);
    }

    /** The inner loop of the producer: one task per word of the file, in order. */
    method EnqueueWords(filePath: string, fileContent: string)
      requires Valid()
      modifies this`wordQueue
      ensures Valid()
      ensures wordQueue == old(wordQueue) + FileTasks(filePath, fileContent)
    {
      var words := Tokens(fileContent);
      var j := 0;
      while j < |words|
        invariant 0 <= j <= |words|
        invariant wordQueue == old(wordQueue) + FileTasks(filePath, fileContent)[..j]
        invariant Valid()
      {
        wordQueue := wordQueue + [WordInfo(Some(filePath), words[j], None)];
        j := j + 1;
      }
      assert FileTasks(filePath, fileContent)[..j] == FileTasks(filePath, fileContent);
    }

    /** The worker loop: while more words may come or the queue is not empty, dequeue a word,
        check it and record the verdict; the delays between words are no-ops here. */
    method SpellCheckingWorker(fileContents: map<string, string>, oracle: string -> HttpResponse)
      returns (contents: map<string, string>, err: Option<Error>)
      requires !continueSpellChecking
      modifies this`wordQueue, this`misspelledItems, this`correctSpellingItems, this`disk
      ensures (State(contents), err) == Drain(oracle, old(State(fileContents)))
    {
      contents := fileContents;
      while continueSpellChecking || wordQueue != []
        invariant !continueSpellChecking
        invariant Drain(oracle, State(contents)) == Drain(oracle, old(State(fileContents)))
        decreases |wordQueue|
      {
        var wordInfo := wordQueue[0];
        wordQueue := wordQueue[1..];
        var filePath := wordInfo.filePath;
        var word := wordInfo.word;

        var checked := GetCorrectSpelling(word, oracle(word));
        if checked.Failure? {
          return contents, Some(checked.error);
        }
        var correctSpelling := checked.value;
        if correctSpelling != word {
          misspelledItems := misspelledItems + [word];
          correctSpellingItems := correctSpellingItems + [correctSpelling];
        } else {
          correctSpellingItems := correctSpellingItems + [word];
          if filePath.None? {
            return contents, Some(NullArgument);
          }
          if filePath.value in contents {
            if word == [] {
              return contents, Some(EmptyOldValue);
            }
            var fileContent := Replace(contents[filePath.value], word, correctSpelling);
            contents := contents[filePath.value := fileContent];
            disk := disk[filePath.value := fileContent];
          }
        }
      }
      return contents, None;
    }

    /** The start-check handler: the producer, then one worker draining the queue. The disk
        is unchanged: the worker only writes back what it read. */
    method StartCheck(oracle: string -> HttpResponse) returns (err: Option<Error>)
      requires Valid()
      modifies this`wordQueue, this`continueSpellChecking, this`misspelledItems,
               this`correctSpellingItems, this`disk
      ensures Valid()
      ensures disk == old(disk)
      ensures var (tasks, produced) := Produce(selectedFiles, disk);
        && (produced.Failure? ==>
              && err == Some(produced.error)
              && continueSpellChecking == old(continueSpellChecking)
              && wordQueue == old(wordQueue) + tasks
              && misspelledItems == old(misspelledItems)
              && correctSpellingItems == old(correctSpellingItems))
        && (produced.Success? ==>
              && !continueSpellChecking
              && (State(produced.value), err)
                 == Drain(oracle, RunState(old(wordQueue) + tasks, old(misspelledItems),
                                           old(correctSpellingItems), produced.value, disk)))
    {
      var produced := ReadFilesIntoQueue();
      if produced.Failure? {
        return Some(produced.error);
      }
      ProduceOutcome(selectedFiles, disk);
      ghost var queued := State(produced.value);
      assert Consistent(queued);
      var contents;
      contents, err := SpellCheckingWorker(produced.value, oracle);
      DrainKeepsFiles(oracle, queued);
      DrainWellFormed(oracle, queued);
    }

    /** The pairing loop of the replace-words handler; it changes nothing. */
    method SelectReplacements(selectedItems: seq<string>) returns (replacedWords: seq<WordInfo>)
      ensures replacedWords == SelectPairs(selectedItems, misspelledItems, correctSpellingItems)
    {
      replacedWords := [];
      var i := 0;
      while i < |selectedItems|
        invariant 0 <= i <= |selectedItems|
        invariant replacedWords == SelectPairs(selectedItems[..i], misspelledItems, correctSpellingItems)
      {
        var incorrectWord := selectedItems[i];
        var selectedIndex := IndexOf(misspelledItems, incorrectWord);
        if selectedIndex >= 0 && selectedIndex < |correctSpellingItems| {
          var correctWord := correctSpellingItems[selectedIndex];
          replacedWords := replacedWords + [WordInfo(None, incorrectWord, Some(correctWord))];
        }
        assert selectedItems[..i + 1][..i] == selectedItems[..i];
        i := i + 1;
      }
      assert selectedItems[..i] == selectedItems;
    }

    /** ReplaceWordsInFiles: each selected file is read, the pairs are applied in order, and
        the result written back; a missing file throws after the earlier files were written. */
    method ReplaceWordsInFiles(replacedWords: seq<WordInfo>) returns (err: Option<Error>)
      requires NonEmptyWords(replacedWords)
      modifies this`disk
      ensures (disk, err) == RewriteFiles(selectedFiles, old(disk), replacedWords)
    {
      var i := 0;
      while i < |selectedFiles|
        invariant 0 <= i <= |selectedFiles|
        invariant RewriteFiles(selectedFiles[i..], disk, replacedWords)
                  == RewriteFiles(selectedFiles, old(disk), replacedWords)
      {
        var filePath := selectedFiles[i];
        if filePath !in disk {
          return Some(FileNotFound(filePath));
        }
        var fileContent := disk[filePath];
        var j := 0;
        while j < |replacedWords|
          invariant 0 <= j <= |replacedWords|
          invariant ApplyPairs(fileContent, replacedWords[j..]) == ApplyPairs(disk[filePath], replacedWords)
        {
          var wordInfo := replacedWords[j];
          fileContent := Replace(fileContent, wordInfo.word, ReplacementText(wordInfo));
          assert replacedWords[j..][1..] == replacedWords[j + 1..];
          j := j + 1;
        }
        disk := disk[filePath := fileContent];
        assert selectedFiles[i..][1..] == selectedFiles[i + 1..];
        i := i + 1;
      }
      return None;
    }

    /** The replace-words handler: pair the selected items, then rewrite the selected files. */
    method ReplaceWords(selectedItems: seq<string>) returns (err: Option<Error>)
      requires Valid()
      modifies this`disk
      ensures Valid()
      ensures (disk, err) == RewriteFiles(selectedFiles, old(disk),
                                          SelectPairs(selectedItems, misspelledItems, correctSpellingItems))
    {
      var replacedWords := SelectReplacements(selectedItems);
      err := ReplaceWordsInFiles(replacedWords);
    }
  }
}
