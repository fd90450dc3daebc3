/** One spell-checking worker draining the word queue: each word is sent to the
    spelling service and its verdict appended to the two list boxes. The three
    concurrent workers of the window are modelled by one sequential worker. */
module Worker {
  import opened Results
  import opened Text
  import opened Spelling
  import opened Producer

  /** What a worker reads and writes: the shared queue, the items of the two list boxes,
      the path -> content dictionary handed to it, and the files on disk. */
  datatype RunState = RunState(
    queue: seq<WordInfo>,
    misspelledItems: seq<string>,
    correctSpellingItems: seq<string>,
    fileContents: map<string, string>,
    disk: map<string, string>)

  /** Queued tasks are words with a path, the misspelled list holds words, and it is
      never longer than the correct-spelling list. */
  predicate WellFormed(s: RunState) {
    && |s.misspelledItems| <= |s.correctSpellingItems|
    && (forall k :: 0 <= k < |s.queue| ==> IsTask(s.queue[k]))
    && (forall k :: 0 <= k < |s.misspelledItems| ==> IsWord(s.misspelledItems[k]))
  }

  /** Every remembered content is what the file on disk holds. */
  predicate Consistent(s: RunState) {
    forall p :: p in s.fileContents ==> p in s.disk && s.disk[p] == s.fileContents[p]
  }

  /** One turn of the worker loop: dequeue a word, ask the service, record the verdict.
      A word whose suggestion differs goes to the misspelled list and its suggestion to the
      correct-spelling list; a correct word goes to the correct-spelling list, and its file's
      remembered content is rewritten with Replace(word, word) and written to disk.
      An exception ends the worker with the word already dequeued. */
  function Step(oracle: string -> HttpResponse, s: RunState): (r: (RunState, Option<Error>))
    requires s.queue != []
    ensures r.0.queue == s.queue[1..]
  {
    var info := s.queue[0];
    var word := info.word;
    var popped := s.(queue := s.queue[1..]);
    match GetCorrectSpelling(word, oracle(word))
    case Failure(e) => (popped, Some(e))
    case Success(correctSpelling) =>
      if correctSpelling != word then
        (popped.(misspelledItems := s.misspelledItems + [word],
                 correctSpellingItems := s.correctSpellingItems + [correctSpelling]), None)
      else
        var listed := popped.(correctSpellingItems := s.correctSpellingItems + [word]);
        match info.filePath
        case None => (listed, Some(NullArgument))
        case Some(path) =>
          if path !in s.fileContents then (listed, None)
          else if word == [] then (listed, Some(EmptyOldValue))
          else
            var content := Replace(s.fileContents[path], word, correctSpelling);
            (listed.(fileContents := s.fileContents[path := content],
                     disk := s.disk[path := content]), None)
  }

  /** The worker loop with no producer left: turns until the queue is empty or a turn throws. */
  function Drain(oracle: string -> HttpResponse, s: RunState): (r: (RunState, Option<Error>))
    decreases |s.queue|
  {
    if s.queue == [] then (s, None)
    else
      var next := Step(oracle, s);
      if next.1.Some? then next else Drain(oracle, next.0)
  }

  /** The entry a successful check adds to the correct-spelling list: the service's
      suggestion, which is the word itself when the word is spelled correctly. */
  function Suggested(oracle: string -> HttpResponse, word: string): string
  {
    match GetCorrectSpelling(word, oracle(word))
    case Success(correctSpelling) => correctSpelling
    case Failure(_) => word
  }

  /** Correct-spelling entries for a queue checked in order, one per word. */
  function CorrectSpellingEntries(oracle: string -> HttpResponse, q: seq<WordInfo>): seq<string>
  {
    if q == [] then [] else [Suggested(oracle, q[0].word)] + CorrectSpellingEntries(oracle, q[1..])
  }

  /** Misspelled entries for a queue checked in order: the words whose suggestion differs. */
  function MisspelledEntries(oracle: string -> HttpResponse, q: seq<WordInfo>): seq<string>
  {
    if q == [] then []
    else
      var w := q[0].word;
      (if Suggested(oracle, w) != w then [w] else []) + MisspelledEntries(oracle, q[1..])
  }

  /** One turn appends exactly one correct-spelling entry, and one misspelled entry iff the
      suggestion differs from the word; a turn that throws appends at most that. */
  lemma StepLists(oracle: string -> HttpResponse, s: RunState)
    requires s.queue != []
    ensures var (t, e) := Step(oracle, s);
      var w := s.queue[0].word;
      && (e.None? ==> t.correctSpellingItems == s.correctSpellingItems + [Suggested(oracle, w)])
      && (e.None? ==>
            t.misspelledItems == s.misspelledItems + (if Suggested(oracle, w) != w then [w] else []))
      && |t.misspelledItems| - |s.misspelledItems| <= |t.correctSpellingItems| - |s.correctSpellingItems| <= 1
      && (forall k :: 0 <= k < |s.misspelledItems| ==> t.misspelledItems[k] == s.misspelledItems[k])
      && (|t.misspelledItems| > |s.misspelledItems| ==> t.misspelledItems[|s.misspelledItems|] == w)
  {
  }

  /** A turn never changes the remembered contents, and changes the disk only by writing a
      file back with what it already holds: Replace(word, word) is the identity. */
  lemma StepFiles(oracle: string -> HttpResponse, s: RunState)
    requires s.queue != []
    ensures Step(oracle, s).0.fileContents == s.fileContents
    ensures Consistent(s) ==> Step(oracle, s).0.disk == s.disk
  {
    var w := s.queue[0].word;
    var info := s.queue[0];
    if GetCorrectSpelling(w, oracle(w)) == Success(w) && info.filePath.Some?
       && info.filePath.value in s.fileContents && w != [] {
      var path := info.filePath.value;
      ReplaceSame(s.fileContents[path], w);
      assert s.fileContents[path := s.fileContents[path]] == s.fileContents;
      if Consistent(s) {
        assert s.disk[path := s.fileContents[path]] == s.disk;
      }
    }
  }

  /** A correct word of a remembered file makes the turn write the remembered content to
      disk, whatever the disk holds: a file changed on disk since it was read gets its old
      content back. */
  lemma StepWritesRemembered(oracle: string -> HttpResponse, s: RunState)
    requires s.queue != [] && s.queue[0].word != []
    requires GetCorrectSpelling(s.queue[0].word, oracle(s.queue[0].word)) == Success(s.queue[0].word)
    requires s.queue[0].filePath.Some? && s.queue[0].filePath.value in s.fileContents
    ensures var path := s.queue[0].filePath.value;
      && Step(oracle, s).1.None?
      && Step(oracle, s).0.disk == s.disk[path := s.fileContents[path]]
  {
    ReplaceSame(s.fileContents[s.queue[0].filePath.value], s.queue[0].word);
  }

  /** A worker loop that ends normally has emptied the queue; one that throws has
      dropped the word it was checking and left a strict suffix of the queue behind. */
  lemma {:induction false} DrainQueue(oracle: string -> HttpResponse, s: RunState)
    ensures var (t, e) := Drain(oracle, s);
      && (e.None? ==> t.queue == [])
      && (e.Some? ==> |t.queue| < |s.queue| && t.queue == s.queue[|s.queue| - |t.queue|..])
    decreases |s.queue|
  {
    if s.queue != [] {
      var next := Step(oracle, s);
      if next.1.None? {
        DrainQueue(oracle, next.0);
        var t := Drain(oracle, next.0).0;
        assert s.queue[1..][|s.queue| - 1 - |t.queue|..] == s.queue[|s.queue| - |t.queue|..];
      }
    }
  }

  /** A worker loop that ends normally has checked every queued word exactly once, in queue
      order: the correct-spelling list grows by one entry per word and the misspelled list by
      the words whose suggestion differs, both in queue order. The remembered contents
      are unchanged throughout. */
  lemma {:induction false} DrainLists(oracle: string -> HttpResponse, s: RunState)
    requires Drain(oracle, s).1.None?
    ensures var t := Drain(oracle, s).0;
      && t.correctSpellingItems == s.correctSpellingItems + CorrectSpellingEntries(oracle, s.queue)
      && t.misspelledItems == s.misspelledItems + MisspelledEntries(oracle, s.queue)
      && |CorrectSpellingEntries(oracle, s.queue)| == |s.queue|
    decreases |s.queue|
  {
    if s.queue != [] {
      var next := Step(oracle, s);
      var w := s.queue[0].word;
      StepLists(oracle, s);
      DrainLists(oracle, next.0);
      assert next.0.queue == s.queue[1..];
      AppendAssoc(s.correctSpellingItems, [Suggested(oracle, w)], CorrectSpellingEntries(oracle, s.queue[1..]));
      AppendAssoc(s.misspelledItems, if Suggested(oracle, w) != w then [w] else [],
                  MisspelledEntries(oracle, s.queue[1..]));
    }
  }

  /** Regrouping a list around one turn's entries, kept apart from DrainLists so that
      lemma's proof stays small. */
  lemma AppendAssoc(a: seq<string>, b: seq<string>, c: seq<string>)
    ensures (a + b) + c == a + (b + c)
  {
  }

  /** Whatever way the loop ends, the remembered contents are unchanged, and so is the disk
      when the contents were read from it: the only write is Replace(word, word). */
  lemma {:induction false} DrainKeepsFiles(oracle: string -> HttpResponse, s: RunState)
    ensures Drain(oracle, s).0.fileContents == s.fileContents
    ensures Consistent(s) ==> Drain(oracle, s).0.disk == s.disk
    decreases |s.queue|
  {
    if s.queue != [] {
      var next := Step(oracle, s);
      StepFiles(oracle, s);
      if next.1.None? {
        DrainKeepsFiles(oracle, next.0);
      }
    }
  }

  /** The loop keeps the misspelled list no longer than the correct-spelling list, keeps
      every misspelled entry a word, and leaves only tasks in the queue. */
  lemma {:induction false} DrainWellFormed(oracle: string -> HttpResponse, s: RunState)
    requires WellFormed(s)
    ensures WellFormed(Drain(oracle, s).0)
    decreases |s.queue|
  {
    if s.queue != [] {
      var next := Step(oracle, s);
      StepLists(oracle, s);
      assert IsTask(s.queue[0]);
      assert WellFormed(next.0);
      if next.1.None? {
        DrainWellFormed(oracle, next.0);
      }
    }
  }

  /** When the service answers every queued word successfully, the loop never throws. */
  lemma {:induction false} DrainSucceeds(oracle: string -> HttpResponse, s: RunState)
    requires forall k :: 0 <= k < |s.queue| ==> IsTask(s.queue[k])
    requires forall k :: 0 <= k < |s.queue| ==>
               GetCorrectSpelling(s.queue[k].word, oracle(s.queue[k].word)).Success?
    ensures Drain(oracle, s).1.None?
    decreases |s.queue|
  {
    if s.queue != [] {
      var next := Step(oracle, s);
      assert IsTask(s.queue[0]);
      assert next.1.None?;
      assert forall k :: 0 <= k < |next.0.queue| ==> next.0.queue[k] == s.queue[k + 1];
      DrainSucceeds(oracle, next.0);
    }
  }
}
