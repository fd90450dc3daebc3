# Spell-check pipeline of the WPF spell checker

The window lets a user pick text files and then check every word in them against an
online spelling service. Three steps do the work:

1. A producer splits each selected file on space, tab, CR and LF. It keeps every file's
   content in a dictionary and enqueues one `WordInfo(path, word)` per word.
2. Worker threads drain the queue. Each one asks the service for a suggestion and
   appends the verdict to two list boxes. A misspelled word goes to the "misspelled" list
   and its suggestion to the "correct spelling" list. A correct word goes to the
   "correct spelling" list only, and its file is written back with `Replace(word, word)`.
3. The replace-words handler pairs each selected misspelled item with the
   "correct spelling" entry at the item's first index in the misspelled list. It then
   rewrites every selected file with `String.Replace`, applying the pairs in order.

The model follows the code as written. Correct words also land on the "correct spelling"
list, so the two lists drift apart and the pairing can offer an unrelated word.
`Scenarios.MisalignedPair` shows this on the file "quick teh": "teh" is paired with
"quick".

Modules:

- `Results`: `Option`, `Result` and the exceptions the code can raise.
- `Text`: the tokenizer and ordinal `String.Replace`.
- `Spelling`: the deserialised service response and `GetCorrectSpelling`.
- `Producer`: `WordInfo` and the producer as functions.
- `Worker`: one worker turn and the drain loop as functions.
- `Replacement`: the pair selection and the file rewrite as functions.
- `Window`: the class `MainWindow`, whose methods run the source's loops over its
  fields. Each method is proved equal to the functions above.
- `Scenarios`: concrete runs.

External inputs:

- The file system is a `map<string, string>` field. It is what `File.ReadAllText` reads
  and `File.WriteAllText` writes.
- The spelling service is a parameter `oracle: string -> HttpResponse`. The response
  carries a status code, the raw content and the deserialised body, whose nullable
  JSON fields are `Option`s.
- An exception ends the handler or worker where it is raised. The model returns it as
  an `Error` and leaves the state as it was at that point. Nothing in the window catches
  these exceptions. An exception in a handler ends the whole program unless the
  application handles `DispatcherUnhandledException`, and this file does not. An
  exception in a worker is rethrown on the thread pool, which that event never sees,
  so it always ends the program. So after an `Error` only the disk matches what the program leaves behind
  (see "## Left out").

## Model

| member | source | states |
|---|---|---|
| Text.RunLength | project_s00190262/MainWindow.xaml.cs:150 | the run before the first separator is separator-free and ends at a separator or at the end of the text |
| Text.Tokens | project_s00190262/MainWindow.xaml.cs:150 | every token of Split with RemoveEmptyEntries is non-empty and has no space, tab, CR or LF |
| Text.TokensSplitAt | project_s00190262/MainWindow.xaml.cs:150 | splitting text at a separator tokenises the two sides independently, keeping order and duplicates |
| Text.TokensOfWord | project_s00190262/MainWindow.xaml.cs:150 | a separator-free non-empty run is its own only token |
| Text.TokensOfSeparators | project_s00190262/MainWindow.xaml.cs:150 | text made only of separators yields no tokens (empty entries are dropped) |
| Text.TokensJoinWords | project_s00190262/MainWindow.xaml.cs:150 | tokenising words joined by spaces gives back exactly those words, in order |
| Text.Replace | project_s00190262/MainWindow.xaml.cs:284 | ordinal String.Replace: scanning left to right, every non-overlapping occurrence of the word becomes the new value; its properties are stated by ReplaceFirstOccurrence, ReplaceSame, ReplaceAbsent, ReplaceNotShorter, ReplaceNotLonger and ReplaceFixpoint |
| Text.ReplaceFirstOccurrence | project_s00190262/MainWindow.xaml.cs:284 | text before the first occurrence of the word is kept, that occurrence becomes the new value, and the scan resumes right after it |
| Text.ReplaceSame | project_s00190262/MainWindow.xaml.cs:204 | String.Replace of a word by itself leaves any text unchanged |
| Text.ReplaceAbsent | project_s00190262/MainWindow.xaml.cs:284 | String.Replace of a word that does not occur leaves the text unchanged |
| Text.ReplaceNotShorter | project_s00190262/MainWindow.xaml.cs:284 | replacing by a value at least as long as the word never shortens the text |
| Text.ReplaceNotLonger | project_s00190262/MainWindow.xaml.cs:284 | replacing by a value at most as long as the word never lengthens the text |
| Text.ReplaceFixpoint | project_s00190262/MainWindow.xaml.cs:284 | String.Replace leaves the text unchanged if and only if the word is replaced by itself or does not occur |
| Spelling.GetCorrectSpelling | project_s00190262/MainWindow.xaml.cs:240-249 | a non-success status throws with its status code and content; on success, a null token or suggestion list throws; otherwise the result is the first suggestion of the first flagged token when there is one, and the word itself when there is none |
| Producer.FileTasks | project_s00190262/MainWindow.xaml.cs:150-154 | the tasks one file contributes: one (path, token) per token of its content, in order; AllTasksAreWords and FileTasksOfTwoWords state its properties |
| Producer.AllTasksLength | project_s00190262/MainWindow.xaml.cs:145-155 | the producer enqueues exactly as many tasks as the files have tokens |
| Producer.AllTasksAreWords | project_s00190262/MainWindow.xaml.cs:150-154 | every enqueued task has one of the selected paths, a non-empty separator-free word and no replacement |
| Producer.FirstFailure | project_s00190262/MainWindow.xaml.cs:145-148 | the first file on which ReadAllText or Dictionary.Add throws: all earlier files load, and the file at that index fails |
| Producer.DuplicatePathFails | project_s00190262/MainWindow.xaml.cs:134 | a path selected twice makes the producer throw at its second occurrence or earlier |
| Producer.ProduceOutcome | project_s00190262/MainWindow.xaml.cs:145-158 | the producer enqueues, file by file in selection order, one task per token of each file before the first failing one; it then throws FileNotFound or DuplicateKey for that file, or returns the dictionary of all files |
| Producer.ProduceFrom | project_s00190262/MainWindow.xaml.cs:145-155 | the producer from the i-th file on, with the dictionary built so far: it throws FileNotFound for a file not on disk and DuplicateKey for a path already added, and otherwise adds the file and enqueues its tasks before the rest; ProduceOutcome states what it computes |
| Producer.Produce | project_s00190262/MainWindow.xaml.cs:142-158 | the whole producer, from an empty dictionary; ProduceOutcome relates it to AllTasks, FirstFailure and Outcome |
| Worker.Step | project_s00190262/MainWindow.xaml.cs:178-208 | one turn removes exactly the head of the queue |
| Worker.StepLists | project_s00190262/MainWindow.xaml.cs:183-199 | a turn appends exactly one correct-spelling entry, and one misspelled entry (the word) if and only if the suggestion differs from the word; earlier entries are kept |
| Worker.StepFiles | project_s00190262/MainWindow.xaml.cs:201-207 | a turn leaves the remembered file contents unchanged, and the disk too when it matches them, because Replace(word, word) is the identity |
| Worker.StepWritesRemembered | project_s00190262/MainWindow.xaml.cs:201-207 | a correct word of a remembered file writes the remembered content to disk whatever the disk holds, so a file changed since it was read gets its old content back |
| Worker.Drain | project_s00190262/MainWindow.xaml.cs:176-216 | the worker loop once the producer is done: turns until the queue is empty or a turn throws; DrainQueue, DrainLists, DrainKeepsFiles, DrainWellFormed and DrainSucceeds state its properties |
| Worker.DrainQueue | project_s00190262/MainWindow.xaml.cs:176-216 | a loop that ends normally leaves the queue empty; one that throws leaves a strict suffix of the queue |
| Worker.DrainLists | project_s00190262/MainWindow.xaml.cs:176-216 | a loop that ends normally has checked every queued word once, in FIFO order: one correct-spelling entry per word and the differing words on the misspelled list |
| Worker.DrainKeepsFiles | project_s00190262/MainWindow.xaml.cs:201-207 | however the loop ends, the remembered contents are unchanged, and so is the disk they were read from |
| Worker.DrainWellFormed | project_s00190262/MainWindow.xaml.cs:183-199 | the loop keeps the misspelled list no longer than the correct-spelling list, with only words on it |
| Worker.DrainSucceeds | project_s00190262/MainWindow.xaml.cs:176-216 | when the service answers every queued word with a usable response, the loop does not throw |
| Replacement.IndexOf | project_s00190262/MainWindow.xaml.cs:260 | List.IndexOf gives the first index holding the item, and -1 if and only if the item is absent |
| Replacement.PairFor | project_s00190262/MainWindow.xaml.cs:259-268 | the pair added for one selected item: the item with the correct-spelling entry at its first misspelled index, or nothing when that index is out of bounds; SelectPairsSound and SelectPairsComplete state its effect |
| Replacement.SelectPairs | project_s00190262/MainWindow.xaml.cs:257-269 | every pair's word is on the misspelled list |
| Replacement.SelectPairsSound | project_s00190262/MainWindow.xaml.cs:257-269 | there are at most as many pairs as selected items; each pair holds a selected word, no path, and the correct-spelling entry at the word's first misspelled index, which is in bounds |
| Replacement.SelectPairsComplete | project_s00190262/MainWindow.xaml.cs:257-269 | when all selected items are misspelled entries and the misspelled list is no longer than the other list, every item gets its pair, in selection order |
| Replacement.ApplyPairs | project_s00190262/MainWindow.xaml.cs:282-285 | one file's content after Replace applied with each pair in list order, a null replacement removing the word; ApplyPairsSkipsAbsent, ApplyPairsNoOccurrence and ApplyPairsIdentity state its properties |
| Replacement.ApplyPairsSkipsAbsent | project_s00190262/MainWindow.xaml.cs:282-285 | a pair whose word does not occur in the content so far changes nothing |
| Replacement.ApplyPairsNoOccurrence | project_s00190262/MainWindow.xaml.cs:282-285 | a file in which no pair word occurs is left as it is |
| Replacement.ApplyPairsIdentity | project_s00190262/MainWindow.xaml.cs:282-285 | pairs that replace each word by itself change nothing |
| Replacement.RewriteFiles | project_s00190262/MainWindow.xaml.cs:277-288 | ReplaceWordsInFiles: each selected file in order is read, rewritten with ApplyPairs and written back; a missing file throws after the earlier files were written; a path selected twice is rewritten twice; RewriteKeepsOthers, RewriteDistinct, RewriteStopsAtMissing and RewriteDuplicatePath state its properties |
| Replacement.RewriteKeepsOthers | project_s00190262/MainWindow.xaml.cs:277-288 | the rewrite creates no file and leaves unselected files unchanged |
| Replacement.RewriteDistinct | project_s00190262/MainWindow.xaml.cs:277-288 | with distinct selected files that all exist, no exception is raised and each file is written once, with the left fold of Replace over the pairs applied to its previous content |
| Replacement.RewriteStopsAtMissing | project_s00190262/MainWindow.xaml.cs:277-288 | at the first selected file that is missing, the rewrite throws FileNotFound for that path; the distinct files before it hold the pairs applied to their old content, every other file is unchanged, and no file is created |
| Window.MainWindow.constructor | project_s00190262/MainWindow.xaml.cs:20-27 | the window starts with no selected files, an empty queue, empty lists and continueSpellChecking set |
| Window.MainWindow.SelectFiles | project_s00190262/MainWindow.xaml.cs:134 | the chosen names are appended to the selected files, duplicates included |
| Window.MainWindow.ReadFilesIntoQueue | project_s00190262/MainWindow.xaml.cs:142-158 | the loop appends the producer's tasks to the queue and returns its outcome; continueSpellChecking is cleared only when no file throws |
| Window.MainWindow.EnqueueWords | project_s00190262/MainWindow.xaml.cs:150-154 | the inner loop appends one task per token of the file, in order |
| Window.MainWindow.SpellCheckingWorker | project_s00190262/MainWindow.xaml.cs:176-216 | the worker loop leaves the queue, lists, contents and disk exactly as the drain function describes |
| Window.MainWindow.StartCheck | project_s00190262/MainWindow.xaml.cs:138-216 | a failing producer leaves the lists and continueSpellChecking untouched; otherwise the worker drains the producer's queue; the disk is never changed and the list invariant is kept |
| Window.MainWindow.SelectReplacements | project_s00190262/MainWindow.xaml.cs:255-270 | the loop builds exactly the pairs of SelectPairs from the current lists |
| Window.MainWindow.ReplaceWordsInFiles | project_s00190262/MainWindow.xaml.cs:277-288 | the nested loops leave the disk and the exception exactly as RewriteFiles describes |
| Window.MainWindow.ReplaceWords | project_s00190262/MainWindow.xaml.cs:253-273 | the handler rewrites the selected files with the pairs selected from the two lists |
| Scenarios.FileTasksOfTwoWords | project_s00190262/MainWindow.xaml.cs:150-154 | a file of two words separated by a space yields their two tasks, in order |
| Scenarios.QuickTehLists | project_s00190262/MainWindow.xaml.cs:183-199 | checking "quick" then "teh" puts both "quick" and "the" on the correct-spelling list and only "teh" on the misspelled list |
| Scenarios.TehPair | project_s00190262/MainWindow.xaml.cs:260-267 | with those lists, selecting "teh" pairs it with "quick" |
| Scenarios.MisalignedPair | project_s00190262/MainWindow.xaml.cs:176-269 | after checking the file "quick teh", the pair for "teh" has the replacement "quick", while the service suggested "the" |
| Scenarios.RewriteTwiceDiffers | project_s00190262/MainWindow.xaml.cs:277-288 | running the file rewrite twice with the pair ("cat", "cats") gives "catss", not the "cats" of one run, so the rewrite is not idempotent |
| Scenarios.StaleWriteUndoesRewrite | project_s00190262/MainWindow.xaml.cs:202-206 | a file rewritten from "cat" to "cats" on disk is set back to "cat" by a pending turn for the word "cat" of that file |
| Scenarios.RewriteDuplicatePath | project_s00190262/MainWindow.xaml.cs:277-288 | with "f" selected twice, the pair ("cat", "cats") is applied twice and the file ends as "catss": "each file is written once" holds only for distinct selections |

## Left out

- The theme, the radio buttons, the saved preferences and the file dialog are not modelled. They are UI and isolated-storage I/O. Only the appending of the chosen names is kept.
- HttpClient, the subscription key, the URL and JSON deserialisation are not modelled. They are foreign calls. The service is the `oracle` parameter, and its answer is already deserialised.
- Malformed JSON and null elements inside the token or suggestion lists are not modelled. The body datatype cannot express them.
- The three threads are modelled as one sequential worker. So are `volatile`, the `ManualResetEvent`, `Dispatcher.Invoke`, `Thread.Sleep` and `Task.Delay`. Delays are no-ops, and the interleaving of three workers is not captured. With three workers, the two lists are appended in the order the service's answers arrive, not in queue order. So the queue order that `Worker.DrainLists` states holds for one worker only. The pairing that `Scenarios.MisalignedPair` shows depends on that timing too. If "teh" is answered before "quick", the lists are ["teh"] and ["the", "quick"], and "teh" is paired with "the".
- An exception in a worker ends the whole process, not only the worker. The worker body is an async lambda run as a thread, so an exception from `GetCorrectSpelling` is rethrown on the thread pool. The model returns it as an `Error` instead. After a worker `Error`, only the model's `disk` matches what the program leaves behind. The queue and lists that `SpellCheckingWorker` and `StartCheck` describe are lost with the process.
- After a handler `Error`, too, only `disk` matches what the program leaves behind. The handlers run on the UI thread, and WPF shuts the application down on an exception left unhandled there. This covers the FileNotFound and DuplicateKey of the producer and the FileNotFound of the file rewrite. So the queue and flag that the failure branches of `ReadFilesIntoQueue` and `StartCheck` describe are lost with the process. Only the files that `ReplaceWordsInFiles` wrote before the missing one survive.
- The start-check handler returns once the workers are started, and the window stays live while they drain. The model runs the producer and the drain as one step in `StartCheck`. Handlers that run during the drain are not modelled, in particular a replace-words run. `StartCheck`'s `disk == old(disk)` depends on that. In the program, a pending correct-word turn writes back the content it remembered and undoes such a replacement. `Worker.StepWritesRemembered` and `Scenarios.StaleWriteUndoesRewrite` state this overwrite for one turn.
- Once `continueSpellChecking` is false, the loop never sees it change. The model uses that, so a worker whose queue is momentarily empty while the producer runs is not modelled.
- I/O failures other than a missing file are not modelled. These include access errors and encodings.
- Path comparison is ordinal. The case-insensitive path lookup of some file systems is not modelled.
- Producer.AllTasks: for a file missing from the disk map, this function adds no tasks. ProduceOutcome applies it only to the files before the first failure, and all of those exist.
- Worker.Step: a task with no path is modelled as an ArgumentNullException from TryGetValue. The producer never creates such a task.
