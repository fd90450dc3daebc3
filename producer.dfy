/** The producer half of the start-check handler: every selected file is read,
    remembered by path, and split into one queued task per word. */
module Producer {
  import opened Results
  import opened Text

  /** The source's WordInfo: the file a word came from (null for a replacement pair),
      the word, and the replacement (set only for replacement pairs). */
  datatype WordInfo = WordInfo(filePath: Option<string>, word: string, replacement: Option<string>)

  /** A queued task as the producer creates it. */
  predicate IsTask(t: WordInfo) {
    t.filePath.Some? && IsWord(t.word) && t.replacement.None?
  }

  /** The tasks one file contributes: one per token of its text, in order, tagged with its path. */
  function FileTasks(path: string, content: string): seq<WordInfo>
  {
    var words := Tokens(content);
    seq(|words|, i requires 0 <= i < |words| => WordInfo(Some(path), words[i], None))
  }

  predicate AllOnDisk(paths: seq<string>, disk: map<string, string>) {
    forall i :: 0 <= i < |paths| ==> paths[i] in disk
  }

  /** The words of a file on disk (a missing file has none; the producer never reads past one). */
  function FileWords(path: string, disk: map<string, string>): seq<string>
  {
    if path in disk then Tokens(disk[path]) else []
  }

  /** Everything the producer enqueues for the given files, file after file. */
  function AllTasks(paths: seq<string>, disk: map<string, string>): seq<WordInfo>
  {
    if paths == [] then []
    else
      var last := paths[|paths| - 1];
      AllTasks(paths[..|paths| - 1], disk) + (if last in disk then FileTasks(last, disk[last]) else [])
  }

  /** The number of words in the given files. */
  function TokenCount(paths: seq<string>, disk: map<string, string>): nat
  {
    if paths == [] then 0
    else TokenCount(paths[..|paths| - 1], disk) + |FileWords(paths[|paths| - 1], disk)|
  }

  /** The queue grows by exactly the number of words in the files. */
  lemma {:induction false} AllTasksLength(paths: seq<string>, disk: map<string, string>)
    ensures |AllTasks(paths, disk)| == TokenCount(paths, disk)
  {
    if paths != [] {
      AllTasksLength(paths[..|paths| - 1], disk);
    }
  }

  /** Every enqueued task carries a path among the selected ones and a non-empty,
      separator-free word. */
  lemma {:induction false} AllTasksAreWords(paths: seq<string>, disk: map<string, string>)
    ensures forall k :: 0 <= k < |AllTasks(paths, disk)| ==>
              IsTask(AllTasks(paths, disk)[k]) && AllTasks(paths, disk)[k].filePath.value in paths
  {
    if paths != [] {
      var prefix := paths[..|paths| - 1];
      AllTasksAreWords(prefix, disk);
      forall p | p in prefix ensures p in paths { }
    }
  }

  /** A file at position k makes the producer throw: File.ReadAllText finds no file,
      or Dictionary.Add finds its path already added. */
  predicate FailsAt(paths: seq<string>, disk: map<string, string>, k: nat)
    requires k < |paths|
  {
    paths[k] !in disk || paths[k] in paths[..k]
  }

  /** Index of the first file the producer throws on, or |paths| when it throws on none. */
  function FirstFailure(paths: seq<string>, disk: map<string, string>): (k: nat)
    ensures k <= |paths|
    ensures forall i :: 0 <= i < k ==> !FailsAt(paths, disk, i)
    ensures k < |paths| ==> FailsAt(paths, disk, k)
  {
    if paths == [] then 0
    else
      var n := |paths| - 1;
      var prefix := paths[..n];
      var k := FirstFailure(prefix, disk);
      assert forall i :: 0 <= i < n ==> prefix[..i] == paths[..i];
      assert forall i :: 0 <= i < n ==> FailsAt(prefix, disk, i) == FailsAt(paths, disk, i);
      if k < n then k
      else if FailsAt(paths, disk, n) then n
      else |paths|
  }

  /** A path selected twice makes the producer throw, at the latest at its second occurrence. */
  lemma DuplicatePathFails(paths: seq<string>, disk: map<string, string>, i: nat, j: nat)
    requires i < j < |paths| && paths[i] == paths[j]
    ensures FirstFailure(paths, disk) <= j
  {
  }

  /** The path -> content dictionary after the files were added. */
  function Loaded(paths: seq<string>, disk: map<string, string>): map<string, string>
  {
    map p | p in paths && p in disk :: disk[p]
  }

  /** Adding one more file to the dictionary. */
  lemma LoadedSnoc(paths: seq<string>, disk: map<string, string>, path: string)
    requires path in disk
    ensures Loaded(paths + [path], disk) == Loaded(paths, disk)[path := disk[path]]
  {
  }

  /** Enqueuing one more file's words. */
  lemma AllTasksSnoc(paths: seq<string>, disk: map<string, string>, path: string)
    requires path in disk
    ensures AllTasks(paths + [path], disk) == AllTasks(paths, disk) + FileTasks(path, disk[path])
  {
    assert (paths + [path])[..|paths|] == paths;
  }

  /** The producer from the i-th selected file on, given the dictionary built so far:
      the tasks it still enqueues and how it ends (the dictionary, or the exception). */
  function ProduceFrom(paths: seq<string>, disk: map<string, string>, i: nat, contents: map<string, string>)
    : (seq<WordInfo>, Result<map<string, string>, Error>)
    requires i <= |paths|
    decreases |paths| - i
  {
    if i == |paths| then ([], Success(contents))
    else
      var path := paths[i];
      if path !in disk then ([], Failure(FileNotFound(path)))
      else if path in contents then ([], Failure(DuplicateKey(path)))
      else
        var rest := ProduceFrom(paths, disk, i + 1, contents[path := disk[path]]);
        (FileTasks(path, disk[path]) + rest.0, rest.1)
  }

  /** The whole producer, from an empty dictionary. */
  function Produce(paths: seq<string>, disk: map<string, string>): (seq<WordInfo>, Result<map<string, string>, Error>)
  {
    ProduceFrom(paths, disk, 0, map[])
  }

  /** How the producer ends, given the first file it throws on. */
  function Outcome(paths: seq<string>, disk: map<string, string>, k: nat): Result<map<string, string>, Error>
    requires k <= |paths|
  {
    if k == |paths| then Success(Loaded(paths, disk))
    else if paths[k] !in disk then Failure(FileNotFound(paths[k]))
    else Failure(DuplicateKey(paths[k]))
  }

  /** Every file before the first failing one is on disk. */
  lemma PrefixOnDisk(paths: seq<string>, disk: map<string, string>, i: nat)
    requires i <= FirstFailure(paths, disk)
    ensures AllOnDisk(paths[..i], disk)
  {
    forall j | 0 <= j < i ensures paths[..i][j] in disk {
      assert !FailsAt(paths, disk, j);
    }
  }

  /** From the i-th file on, the producer enqueues the rest of the words up to the first failing
      file and ends as that file decides. */
  predicate ScannedFrom(paths: seq<string>, disk: map<string, string>, i: nat)
    requires i <= FirstFailure(paths, disk)
  {
    var k := FirstFailure(paths, disk);
    var rest := ProduceFrom(paths, disk, i, Loaded(paths[..i], disk));
    && AllTasks(paths[..i], disk) + rest.0 == AllTasks(paths[..k], disk)
    && rest.1 == Outcome(paths, disk, k)
  }

  lemma {:induction false} ProduceFromOutcome(paths: seq<string>, disk: map<string, string>, i: nat)
    requires i <= FirstFailure(paths, disk)
    ensures ScannedFrom(paths, disk, i)
    decreases |paths| - i
  {
    if i == FirstFailure(paths, disk) {
      ProduceFailing(paths, disk, i);
    } else {
      ProduceFromOutcome(paths, disk, i + 1);
      ScannedStep(paths, disk, i);
    }
  }

  /** A file that loads passes the scan on to the next one. */
  lemma ScannedStep(paths: seq<string>, disk: map<string, string>, i: nat)
    requires i < FirstFailure(paths, disk)
    requires ScannedFrom(paths, disk, i + 1)
    ensures ScannedFrom(paths, disk, i)
  {
    var path := paths[i];
    NextLoads(paths, disk, i);
    LoadedNext(paths, disk, i);
    ProduceFromUnfold(paths, disk, i, Loaded(paths[..i], disk));
    AllTasksNext(paths, disk, i);
    QueueStep(AllTasks(paths[..i], disk), FileTasks(path, disk[path]),
              ProduceFrom(paths, disk, i + 1, Loaded(paths[..i + 1], disk)).0,
              AllTasks(paths[..FirstFailure(paths, disk)], disk));
  }

  /** Regrouping the queue around one file's tasks, kept apart from ScannedStep so that
      step's proof stays small. */
  lemma QueueStep(before: seq<WordInfo>, tasks: seq<WordInfo>, rest: seq<WordInfo>, all: seq<WordInfo>)
    requires (before + tasks) + rest == all
    ensures before + (tasks + rest) == all
  {
  }

  /** At the first failing file the producer stops with that file's exception; past the last
      file it ends with the dictionary. */
  lemma ProduceFailing(paths: seq<string>, disk: map<string, string>, i: nat)
    requires i == FirstFailure(paths, disk)
    ensures ProduceFrom(paths, disk, i, Loaded(paths[..i], disk)) == ([], Outcome(paths, disk, i))
  {
    if i == |paths| {
      assert paths[..i] == paths;
    } else if paths[i] in disk {
      assert paths[i] in paths[..i];
      assert paths[i] in Loaded(paths[..i], disk);
    }
  }

  /** A file before the first failing one is on disk and not yet in the dictionary. */
  lemma NextLoads(paths: seq<string>, disk: map<string, string>, i: nat)
    requires i < FirstFailure(paths, disk)
    ensures paths[i] in disk && paths[i] !in Loaded(paths[..i], disk)
  {
    assert !FailsAt(paths, disk, i);
  }

  /** Adding the i-th file to the dictionary of the files before it. */
  lemma LoadedNext(paths: seq<string>, disk: map<string, string>, i: nat)
    requires i < |paths| && paths[i] in disk
    ensures Loaded(paths[..i], disk)[paths[i] := disk[paths[i]]] == Loaded(paths[..i + 1], disk)
  {
    assert paths[..i + 1] == paths[..i] + [paths[i]];
    LoadedSnoc(paths[..i], disk, paths[i]);
  }

  /** Enqueuing the i-th file's words after those of the files before it. */
  lemma AllTasksNext(paths: seq<string>, disk: map<string, string>, i: nat)
    requires i < |paths| && paths[i] in disk
    ensures AllTasks(paths[..i + 1], disk) == AllTasks(paths[..i], disk) + FileTasks(paths[i], disk[paths[i]])
  {
    assert paths[..i + 1] == paths[..i] + [paths[i]];
    AllTasksSnoc(paths[..i], disk, paths[i]);
  }

  /** One file that loads: it is added and its words are enqueued before the rest. */
  lemma ProduceFromUnfold(paths: seq<string>, disk: map<string, string>, i: nat, contents: map<string, string>)
    requires i < |paths| && paths[i] in disk && paths[i] !in contents
    ensures var rest := ProduceFrom(paths, disk, i + 1, contents[paths[i] := disk[paths[i]]]);
      ProduceFrom(paths, disk, i, contents) == (FileTasks(paths[i], disk[paths[i]]) + rest.0, rest.1)
  {
  }

  /** The producer enqueues, file after file, one task per word of every file before the first
      one it throws on; it ends with the dictionary of all files when it throws on none, with
      FileNotFound for a missing file and with DuplicateKey for a path selected twice. */
  lemma ProduceOutcome(paths: seq<string>, disk: map<string, string>)
    ensures var k := FirstFailure(paths, disk);
      && AllOnDisk(paths[..k], disk)
      && Produce(paths, disk).0 == AllTasks(paths[..k], disk)
      && Produce(paths, disk).1 == Outcome(paths, disk, k)
  {
    PrefixOnDisk(paths, disk, FirstFailure(paths, disk));
    ProduceFromOutcome(paths, disk, 0);
    assert paths[..0] == [];
    assert AllTasks(paths[..0], disk) == [];
    assert Loaded([], disk) == map[];
  }
}
